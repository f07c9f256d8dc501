/** Durable publication: a directory whose unsynced changes a crash may lose one
    by one, the step alphabet over it, and what every state must guarantee. */
module Publication {
  import opened Basics

  /** A view's identity: the epoch, then the transaction sequence in it. */
  datatype Generation = Generation(checkpoint: nat, sequence: nat)

  predicate AtMost(a: Generation, b: Generation) {
    a.checkpoint < b.checkpoint || (a.checkpoint == b.checkpoint && a.sequence <= b.sequence)
  }

  /** The `current` manifest. `logEnd` counts the log's header and transactions. */
  datatype Manifest = Manifest(generation: Generation, logEnd: nat)

  /** What a file can hold, a block at a time; `Torn` is anything else. */
  datatype Block = ManifestBlock(manifest: Manifest) | SnapshotBlock(checkpoint: nat) | HeaderBlock(checkpoint: nat)
    | TransactionBlock(payload: nat) | Torn

  datatype Name = Current | CurrentTmp | ChangesTmp | CatalogTmp | Snapshot(checkpoint: nat) | Changes(checkpoint: nat)

  type FileId = nat

  /** A file's visible blocks. The first `sealed` survive a crash as they are;
      unless the file is clean, a crash leaves anything after them. */
  datatype File = File(data: seq<Block>, sealed: nat, clean: bool) {
    predicate Valid() {
      sealed <= |data| && (clean ==> sealed == |data|)
    }
  }

  /** The directory as processes see it, the earlier entries a crash may bring
      back for each name, and every file ever made. */
  datatype Fs = Fs(dir: map<Name, FileId>, olds: map<Name, set<Option<FileId>>>, files: seq<File>) {
    function Lookup(name: Name): Option<FileId> {
      if name in dir then Some(dir[name]) else None
    }

    /** Every entry a crash now could leave under `name`. */
    function Possible(name: Name): set<Option<FileId>> {
      {Lookup(name)} + (if name in olds then olds[name] else {})
    }

    ghost predicate Valid() {
      && (forall i :: 0 <= i < |files| ==> files[i].Valid())
      && forall name, id :: Some(id) in Possible(name) ==> id < |files|
    }

    function Set(name: Name, entry: Option<FileId>): Fs {
      var olds' := olds[name := Possible(name)];
      if entry.Some? then Fs(dir[name := entry.value], olds', files) else Fs(dir - {name}, olds', files)
    }
  }

  // ---- the step alphabet ----

  datatype Op =
    | Replace(name: Name)                                  // unlink and create anew
    | Write(id: FileId, at: nat, block: Block)             // positional append
    | Truncate(id: FileId, length: nat)
    | SyncFile(id: FileId)
    | Rename(from: Name, to: Name)
    | Remove(name: Name)
    | SyncDir

  predicate Applies(fs: Fs, op: Op) {
    match op
    case Write(id, at, _) => id < |fs.files| && at <= |fs.files[id].data|
    case Truncate(id, length) => id < |fs.files| && length <= |fs.files[id].data|
    case SyncFile(id) => id < |fs.files|
    case Rename(from, to) => from in fs.dir && from != to
    case _ => true
  }

  /** A write at `at` leaves the blocks before it; only they stay durable. */
  function Written(f: File, at: nat, tail: seq<Block>): File
    requires at <= |f.data|
  {
    File(f.data[..at] + tail, Min(f.sealed, at), false)
  }

  function Apply(fs: Fs, op: Op): Fs
    requires Applies(fs, op)
  {
    match op
    case Replace(name) => fs.(files := fs.files + [File([], 0, false)]).Set(name, Some(|fs.files|))
    case Write(id, at, block) => fs.(files := fs.files[id := Written(fs.files[id], at, [block])])
    case Truncate(id, length) => fs.(files := fs.files[id := Written(fs.files[id], length, [])])
    case SyncFile(id) =>
      var data := fs.files[id].data;
      fs.(files := fs.files[id := File(data, |data|, true)])
    case Rename(from, to) => fs.Set(to, Some(fs.dir[from])).Set(from, None)
    case Remove(name) => fs.Set(name, None)
    case SyncDir => fs.(olds := map[])
  }

  /** What a failed or interrupted operation can leave: a write may tear. */
  ghost predicate Leaves(fs: Fs, op: Op, fs': Fs)
    requires Applies(fs, op)
  {
    || fs' == fs
    || fs' == Apply(fs, op)
    || (op.Write? && exists tail :: fs' == fs.(files := fs.files[op.id := Written(fs.files[op.id], op.at, tail)]))
  }

  /** A crash keeps, for each name, one of its possible entries, and of each
      file its durable prefix and, if it was not clean, anything after. */
  ghost predicate CrashTo(fs: Fs, fs': Fs) {
    && fs'.olds == map[]
    && (forall name :: fs'.Lookup(name) in fs.Possible(name))
    && |fs'.files| == |fs.files|
    && forall i :: 0 <= i < |fs.files| ==> Survives(fs.files[i], fs'.files[i])
  }

  predicate Survives(f: File, f': File)
  {
    && f.sealed <= |f.data| && f.sealed <= |f'.data| && f'.data[..f.sealed] == f.data[..f.sealed]
    && f'.sealed == |f'.data| && f'.clean
    && (f.clean ==> f' == f)
  }

  /** What a crash may leave of a file: anything after what is durable. */
  function AfterCrash(f: File, tail: seq<Block>): File
    requires f.Valid()
  {
    if f.clean then f else File(f.data[..f.sealed] + tail, |f.data[..f.sealed] + tail|, true)
  }

  /** A crash may leave any choice of the possible entries, name by name, and any
      tail of each file that is not clean. */
  lemma AnyLoss(fs: Fs, dir: map<Name, FileId>, tails: seq<seq<Block>>)
    requires fs.Valid() && |tails| == |fs.files|
    requires forall name :: (if name in dir then Some(dir[name]) else None) in fs.Possible(name)
    ensures CrashTo(fs, Fs(dir, map[], seq(|tails|, i requires 0 <= i < |tails| => AfterCrash(fs.files[i], tails[i]))))
  {
    var fs' := Fs(dir, map[], seq(|tails|, i requires 0 <= i < |tails| => AfterCrash(fs.files[i], tails[i])));
    forall name
      ensures fs'.Lookup(name) in fs.Possible(name)
    {
    }
    forall i | 0 <= i < |fs.files|
      ensures Survives(fs.files[i], fs'.files[i])
    {
    }
  }

  /** Only syncing makes anything sure: without a directory sync every entry that
      was possible stays possible, beside the one now seen; and without its own
      sync no file becomes clean or has more that is durable. */
  lemma OnlySyncsSettle(fs: Fs, op: Op, id: FileId)
    requires fs.Valid() && Applies(fs, op)
    ensures var fs' := Apply(fs, op);
      && (forall name :: fs'.Lookup(name) in fs'.Possible(name))
      && (!op.SyncDir? ==> forall name :: fs.Possible(name) <= fs'.Possible(name))
      && (op.SyncDir? ==> forall name :: fs'.Possible(name) == {fs'.Lookup(name)})
      && |fs.files| <= |fs'.files|
      && (id < |fs.files| && op != SyncFile(id) ==>
           fs'.files[id].sealed <= fs.files[id].sealed && (fs'.files[id].clean ==> fs'.files[id] == fs.files[id]))
      && (op.Replace? ==> fs'.files[|fs.files|].sealed == 0 && !fs'.files[|fs.files|].clean)
  {
  }

  /** Generations are in one order, checkpoints before sequences. */
  lemma AtMostOrder(a: Generation, b: Generation, c: Generation)
    ensures AtMost(a, b) || AtMost(b, a)
    ensures AtMost(a, b) && AtMost(b, a) ==> a == b
    ensures AtMost(a, b) && AtMost(b, c) ==> AtMost(a, c)
    ensures a.checkpoint < b.checkpoint ==> !AtMost(b, a)
    ensures a.checkpoint == b.checkpoint && a.sequence < b.sequence ==> !AtMost(b, a)
    ensures var next := Generation(a.checkpoint + 1, a.sequence + 1); AtMost(a, next) && !AtMost(next, a)
  {
  }

  // ---- what every state guarantees ----

  /** The directory with what was promised: for each manifest file, the log it
      refers to; and the last generation whose publication was acknowledged. */
  datatype State = State(fs: Fs, promised: map<FileId, seq<Block>>, acked: Option<Generation>)

  ghost predicate Settled(fs: Fs, name: Name) {
    name in fs.dir && fs.Possible(name) == {Some(fs.dir[name])}
  }

  ghost predicate Holds(fs: Fs, id: FileId, block: Block) {
    id < |fs.files| && fs.files[id].clean && fs.files[id].data == [block]
  }

  /** The log's durable blocks begin with `log`. */
  ghost predicate Keeps(fs: Fs, id: FileId, log: seq<Block>) {
    id < |fs.files| && |log| <= fs.files[id].sealed <= |fs.files[id].data| && fs.files[id].data[..|log|] == log
  }

  ghost predicate IsManifest(fs: Fs, id: FileId, m: Manifest) {
    Holds(fs, id, ManifestBlock(m))
  }

  /** Checkpoint `c`'s snapshot and log are durably present, and the log keeps
      what the manifest file promised of it. */
  ghost predicate PairDurable(fs: Fs, c: nat, log: seq<Block>) {
    && Settled(fs, Snapshot(c)) && Holds(fs, fs.dir[Snapshot(c)], SnapshotBlock(c))
    && Settled(fs, Changes(c)) && Keeps(fs, fs.dir[Changes(c)], log)
    && log != [] && log[0] == HeaderBlock(c)
  }

  ghost predicate Complete(st: State, id: FileId, m: Manifest) {
    && IsManifest(st.fs, id, m)
    && id in st.promised && |st.promised[id]| == m.logEnd
    && PairDurable(st.fs, m.generation.checkpoint, st.promised[id])
  }

  /** One entry a crash could leave as `current`. */
  ghost predicate EntrySafe(st: State, entry: Option<FileId>) {
    match entry
    case None => st.acked == None
    case Some(id) => exists m :: EntryIs(st, id, m)
  }

  ghost predicate EntryIs(st: State, id: FileId, m: Manifest) {
    && Complete(st, id, m)
    && (st.acked.Some? ==> AtMost(st.acked.value, m.generation))
    && Visible(st, m)
  }

  /** The `current` that processes see is the newest of the possible ones. */
  ghost predicate Visible(st: State, m: Manifest) {
    && Current in st.fs.dir
    && exists v :: IsManifest(st.fs, st.fs.dir[Current], v) && Newer(m, v)
  }

  predicate Newer(m: Manifest, v: Manifest) {
    && AtMost(m.generation, v.generation)
    && (m.generation.checkpoint == v.generation.checkpoint ==> m.logEnd <= v.logEnd)
  }

  /** Whatever a crash leaves, `current` is absent only before the first
      acknowledged publication, and otherwise names a complete durable pair no
      older than the last acknowledged one. */
  ghost predicate Safe(st: State) {
    && st.fs.Valid()
    && forall entry :: entry in st.fs.Possible(Current) ==> EntrySafe(st, entry)
  }

  // ---- which operations keep the guarantee ----

  predicate IsTemp(name: Name) {
    name.CurrentTmp? || name.ChangesTmp? || name.CatalogTmp?
  }

  predicate IsPair(name: Name) {
    name.Snapshot? || name.Changes?
  }

  /** Some entry a crash could leave as `current` names checkpoint `c`. */
  ghost predicate Referenced(st: State, c: nat) {
    exists id, m :: Some(id) in st.fs.Possible(Current) && Complete(st, id, m) && m.generation.checkpoint == c
  }

  /** Blocks of file `x` from `at` on may change: no possible `current` needs them. */
  ghost predicate Expendable(st: State, x: FileId, at: nat) {
    forall id, m :: Some(id) in st.fs.Possible(Current) && Complete(st, id, m) ==>
      && x != id && x != st.fs.dir[Snapshot(m.generation.checkpoint)]
      && (x == st.fs.dir[Changes(m.generation.checkpoint)] ==> m.logEnd <= at)
  }

  ghost predicate Unneeded(st: State, name: Name) {
    IsTemp(name) || (IsPair(name) && !Referenced(st, name.checkpoint))
  }

  /** The rename that publishes: the file is a complete newer manifest. */
  ghost predicate Publishes(st: State, op: Op) {
    && op.Rename? && op.to == Current && op.from == CurrentTmp && op.from in st.fs.dir
    && st.fs.dir[CurrentTmp] < |st.fs.files|
    && exists m :: PublishesAs(st, st.fs.dir[CurrentTmp], m)
  }

  ghost predicate PublishesAs(st: State, id: FileId, m: Manifest) {
    && Complete(st, id, m)
    && (st.acked.Some? ==> AtMost(st.acked.value, m.generation))
    && forall v :: Current in st.fs.dir && IsManifest(st.fs, st.fs.dir[Current], v) ==> Newer(v, m)
  }

  ghost predicate Allowed(st: State, op: Op) {
    && Applies(st.fs, op)
    && match op
       case Replace(name) => IsTemp(name)
       case Write(id, at, _) => Expendable(st, id, at)
       case Truncate(id, length) => Expendable(st, id, length)
       case SyncFile(_) => true
       case Rename(from, to) =>
         || (IsTemp(from) && IsPair(to) && Unneeded(st, to))
         || Publishes(st, op)
       case Remove(name) => Unneeded(st, name)
       case SyncDir => true
  }

  lemma PossibleSet(fs: Fs, name: Name, entry: Option<FileId>, n: Name)
    ensures n != name ==> fs.Set(name, entry).Possible(n) == fs.Possible(n)
    ensures n != name ==> fs.Set(name, entry).Lookup(n) == fs.Lookup(n)
    ensures fs.Set(name, entry).Possible(name) == fs.Possible(name) + {entry}
    ensures fs.Set(name, entry).Lookup(name) == entry
  {
  }

  /** A manifest stays complete when its file, its pair's entries and the blocks
      it needs are untouched. */
  lemma CompleteKept(st: State, st': State, id: FileId, m: Manifest)
    requires Complete(st, id, m) && st'.fs.Valid()
    requires id in st'.promised && st'.promised[id] == st.promised[id]
    requires var c := m.generation.checkpoint;
      && st'.fs.Possible(Snapshot(c)) <= st.fs.Possible(Snapshot(c))
      && st'.fs.Possible(Changes(c)) <= st.fs.Possible(Changes(c))
      && Holds(st'.fs, id, ManifestBlock(m))
      && Holds(st'.fs, st.fs.dir[Snapshot(c)], SnapshotBlock(c))
      && Keeps(st'.fs, st.fs.dir[Changes(c)], st.promised[id])
    ensures Complete(st', id, m)
  {
    var c := m.generation.checkpoint;
    SettledKept(st.fs, st'.fs, Snapshot(c));
    SettledKept(st.fs, st'.fs, Changes(c));
  }

  lemma SettledKept(fs: Fs, fs': Fs, name: Name)
    requires Settled(fs, name) && fs'.Possible(name) <= fs.Possible(name)
    ensures Settled(fs', name) && fs'.dir[name] == fs.dir[name]
  {
    assert fs'.Lookup(name) in fs'.Possible(name);
    assert fs'.Lookup(name) == Some(fs.dir[name]);
  }

  /** Whatever keeps every possible manifest complete, and what is seen, is safe. */
  lemma Frame(st: State, st': State)
    requires Safe(st) && st'.fs.Valid() && st'.acked == st.acked
    requires st'.fs.Possible(Current) <= st.fs.Possible(Current)
    requires st'.fs.Lookup(Current) == st.fs.Lookup(Current)
    requires forall id, m :: Some(id) in st.fs.Possible(Current) && Complete(st, id, m) ==> Complete(st', id, m)
    ensures Safe(st')
  {
    forall entry | entry in st'.fs.Possible(Current)
      ensures EntrySafe(st', entry)
    {
      assert EntrySafe(st, entry);
      if entry.Some? {
        var m :| EntryIs(st, entry.value, m);
        SeenKept(st, st', m);
        assert EntryIs(st', entry.value, m);
      }
    }
  }

  lemma SeenKept(st: State, st': State, m: Manifest)
    requires Safe(st) && Visible(st, m) && st'.fs.Lookup(Current) == st.fs.Lookup(Current)
    requires forall id, m :: Some(id) in st.fs.Possible(Current) && Complete(st, id, m) ==> Complete(st', id, m)
    ensures Visible(st', m)
  {
    var id := st.fs.dir[Current];
    var v :| IsManifest(st.fs, id, v) && Newer(m, v);
    assert st.fs.Lookup(Current) == Some(id);
    assert EntrySafe(st, Some(id));
    var w :| EntryIs(st, id, w);
    assert Complete(st', id, w);
    assert IsManifest(st'.fs, st'.fs.dir[Current], v);
  }

  /** Only entries change: of temporaries, of unneeded pairs, or by losing the
      older possibilities. */
  lemma EntriesSafe(st: State, fs': Fs)
    requires Safe(st) && fs'.Valid() && fs'.Lookup(Current) == st.fs.Lookup(Current)
    requires |st.fs.files| <= |fs'.files| && fs'.files[..|st.fs.files|] == st.fs.files
    requires fs'.Possible(Current) <= st.fs.Possible(Current)
    requires forall c :: Referenced(st, c) ==>
      fs'.Possible(Snapshot(c)) <= st.fs.Possible(Snapshot(c)) && fs'.Possible(Changes(c)) <= st.fs.Possible(Changes(c))
    ensures Safe(st.(fs := fs'))
  {
    var st' := st.(fs := fs');
    forall id, m | Some(id) in st.fs.Possible(Current) && Complete(st, id, m)
      ensures Complete(st', id, m)
    {
      assert Referenced(st, m.generation.checkpoint);
      forall i | 0 <= i < |st.fs.files|
        ensures fs'.files[i] == st.fs.files[i]
      {
        assert fs'.files[..|st.fs.files|][i] == st.fs.files[i];
      }
      CompleteKept(st, st', id, m);
    }
    Frame(st, st');
  }

  /** Blocks change, or become durable, only where nothing needs the old ones. */
  lemma BlocksSafe(st: State, x: FileId, f: File)
    requires Safe(st) && x < |st.fs.files| && f.Valid()
    requires (exists at: nat, tail :: at <= |st.fs.files[x].data| && Expendable(st, x, at) && f == Written(st.fs.files[x], at, tail))
      || f == File(st.fs.files[x].data, |st.fs.files[x].data|, true)
    ensures Safe(st.(fs := st.fs.(files := st.fs.files[x := f])))
  {
    var st' := st.(fs := st.fs.(files := st.fs.files[x := f]));
    var was := st.fs.files[x];
    forall name
      ensures st'.fs.Possible(name) == st.fs.Possible(name)
    {
    }
    forall id, m | Some(id) in st.fs.Possible(Current) && Complete(st, id, m)
      ensures Complete(st', id, m)
    {
      var c := m.generation.checkpoint;
      var log := st.promised[id];
      assert was.Valid();
      if f != File(was.data, |was.data|, true) {
        var at: nat, tail :| at <= |was.data| && Expendable(st, x, at) && f == Written(was, at, tail);
        if x == st.fs.dir[Changes(c)] {
          assert |log| <= at;
          assert f.data[..|log|] == was.data[..|log|];
        }
      }
      CompleteKept(st, st', id, m);
    }
    Frame(st, st');
  }

  /** The publishing rename: the old entries stay possible, and the new one is complete. */
  lemma PublishSafe(st: State, op: Op)
    requires Safe(st) && Applies(st.fs, op) && Publishes(st, op)
    ensures Safe(st.(fs := Apply(st.fs, op)))
  {
    hide Complete, Fs.Possible, Apply, PublishesAs, EntrySafe;
    var id := st.fs.dir[CurrentTmp];
    PublishPossible(st.fs, id, op);
    var st' := st.(fs := Apply(st.fs, op));
    var m :| PublishesAs(st, id, m);
    forall entry | entry in st'.fs.Possible(Current)
      ensures EntrySafe(st', entry)
    {
      if entry == Some(id) {
        PublishedEntry(st, st', id, m);
      } else {
        assert EntrySafe(st, entry);
        OlderEntry(st, st', id, m, entry);
      }
    }
  }

  /** Publishing adds one possible `current` and takes a temporary name away. */
  lemma PublishPossible(fs: Fs, id: FileId, op: Op)
    requires fs.Valid() && Applies(fs, op) && op == Rename(CurrentTmp, Current) && fs.dir[CurrentTmp] == id
    ensures Published(fs, Apply(fs, op), id)
  {
    hide Fs.Possible;
    var mid, fs' := fs.Set(Current, Some(id)), Apply(fs, op);
    forall n
      ensures n != Current && n != CurrentTmp ==> fs'.Possible(n) == fs.Possible(n)
      ensures n == Current ==> fs'.Possible(n) == fs.Possible(n) + {Some(id)} && fs'.Lookup(n) == Some(id)
      ensures n == CurrentTmp ==> fs'.Possible(n) == fs.Possible(n) + {None}
    {
      PossibleSet(fs, Current, Some(id), n);
      PossibleSet(mid, CurrentTmp, None, n);
    }
    NowPossible(fs, CurrentTmp);
    assert fs'.Valid();
  }

  lemma NowPossible(fs: Fs, name: Name)
    ensures fs.Lookup(name) in fs.Possible(name)
  {
  }

  /** `fs'` is `fs` with `id` published. */
  ghost predicate Published(fs: Fs, fs': Fs, id: FileId) {
    && fs'.Valid() && fs'.files == fs.files && fs'.Lookup(Current) == Some(id)
    && fs'.Possible(Current) == fs.Possible(Current) + {Some(id)}
    && forall n :: n != Current && n != CurrentTmp ==> fs'.Possible(n) == fs.Possible(n)
  }

  /** What was complete before publishing is complete after. */
  lemma PublishKeeps(st: State, st': State, id: FileId, entry: FileId, m: Manifest)
    requires Complete(st, entry, m) && Published(st.fs, st'.fs, id) && st' == st.(fs := st'.fs)
    ensures Complete(st', entry, m)
  {
    hide Fs.Possible;
    CompleteKept(st, st', entry, m);
  }

  lemma PublishedEntry(st: State, st': State, id: FileId, m: Manifest)
    requires PublishesAs(st, id, m) && Published(st.fs, st'.fs, id) && st' == st.(fs := st'.fs)
    ensures EntrySafe(st', Some(id))
  {
    hide Fs.Possible, Published;
    PublishKeeps(st, st', id, id, m);
    PublishedDir(st.fs, st'.fs, id);
    assert Newer(m, m);
    assert EntryIs(st', id, m);
  }

  lemma PublishedDir(fs: Fs, fs': Fs, id: FileId)
    requires Published(fs, fs', id)
    ensures Current in fs'.dir && fs'.dir[Current] == id && fs'.files == fs.files
  {
  }

  lemma OlderEntry(st: State, st': State, id: FileId, m: Manifest, entry: Option<FileId>)
    requires PublishesAs(st, id, m) && Published(st.fs, st'.fs, id) && st' == st.(fs := st'.fs) && EntrySafe(st, entry)
    ensures EntrySafe(st', entry)
  {
    hide Fs.Possible, Published;
    PublishedDir(st.fs, st'.fs, id);
    if entry.Some? {
      var w :| EntryIs(st, entry.value, w);
      var v :| IsManifest(st.fs, st.fs.dir[Current], v) && Newer(w, v);
      PublishKeeps(st, st', id, entry.value, w);
      PublishKeeps(st, st', id, id, m);
      assert Newer(v, m) && Newer(w, m);
      assert IsManifest(st'.fs, st'.fs.dir[Current], m);
      assert EntryIs(st', entry.value, w);
    }
  }

  /** Every allowed operation keeps the guarantee, done, undone or torn. */
  lemma StepSafe(st: State, op: Op, fs': Fs)
    requires Safe(st) && Allowed(st, op) && Leaves(st.fs, op, fs')
    ensures Safe(st.(fs := fs'))
  {
    if fs' == st.fs {
      assert st.(fs := fs') == st;
    } else {
      match op
      case Replace(name) =>
        var made := st.fs.(files := st.fs.files + [File([], 0, false)]);
        SamePossible(st.fs, made);
        SetSafe(st, made, name, Some(|st.fs.files|));
      case Write(id, at, block) =>
        WriteSafe(st, op, fs');
      case Truncate(id, length) =>
        BlocksSafe(st, id, Written(st.fs.files[id], length, []));
      case SyncFile(id) =>
        BlocksSafe(st, id, File(st.fs.files[id].data, |st.fs.files[id].data|, true));
      case Rename(from, to) =>
        if Publishes(st, op) {
          PublishSafe(st, op);
        } else {
          assert Some(st.fs.dir[from]) in st.fs.Possible(from);
          SetSafe(st, st.fs, to, Some(st.fs.dir[from]));
          var mid := st.fs.Set(to, Some(st.fs.dir[from]));
          SetSafe(st.(fs := mid), mid, from, None);
        }
      case Remove(name) =>
        SetSafe(st, st.fs, name, None);
      case SyncDir =>
        assert fs' == st.fs.(olds := map[]);
        assert forall n :: fs'.Possible(n) <= st.fs.Possible(n);
        EntriesSafe(st, fs');
    }
  }

  lemma WriteSafe(st: State, op: Op, fs': Fs)
    requires Safe(st) && Allowed(st, op) && op.Write? && Leaves(st.fs, op, fs') && fs' != st.fs
    ensures Safe(st.(fs := fs'))
  {
    var was := st.fs.files[op.id];
    assert was.Valid();
    if fs' == Apply(st.fs, op) {
      BlocksSafe(st, op.id, Written(was, op.at, [op.block]));
    } else {
      var tail :| fs' == st.fs.(files := st.fs.files[op.id := Written(was, op.at, tail)]);
      BlocksSafe(st, op.id, Written(was, op.at, tail));
    }
  }

  lemma SetSafe(st: State, made: Fs, name: Name, entry: Option<FileId>)
    requires Safe(st) && Unneeded(st, name) && made.Valid()
    requires made.dir == st.fs.dir && made.olds == st.fs.olds
    requires |st.fs.files| <= |made.files| && made.files[..|st.fs.files|] == st.fs.files
    requires entry.Some? ==> entry.value < |made.files|
    ensures Safe(st.(fs := made.Set(name, entry)))
  {
    hide Fs.Set, Fs.Lookup, Fs.Possible, Unneeded;
    var fs' := made.Set(name, entry);
    SamePossible(st.fs, made);
    forall n
      ensures n != name ==> fs'.Possible(n) == st.fs.Possible(n) && fs'.Lookup(n) == st.fs.Lookup(n)
      ensures fs'.Possible(n) <= st.fs.Possible(n) + {entry}
    {
      PossibleSet(made, name, entry, n);
    }
    SetFiles(made, name, entry);
    UnneededName(st, name);
    forall n, id | Some(id) in fs'.Possible(n)
      ensures id < |fs'.files|
    {
      assert Some(id) in st.fs.Possible(n) || Some(id) == entry;
    }
    EntriesSafe(st, fs');
  }

  lemma SamePossible(fs: Fs, made: Fs)
    requires made.dir == fs.dir && made.olds == fs.olds
    ensures forall n :: made.Possible(n) == fs.Possible(n) && made.Lookup(n) == fs.Lookup(n)
  {
  }

  lemma SetFiles(fs: Fs, name: Name, entry: Option<FileId>)
    ensures fs.Set(name, entry).files == fs.files
  {
  }

  lemma UnneededName(st: State, name: Name)
    requires Unneeded(st, name)
    ensures name != Current
    ensures forall c :: Referenced(st, c) ==> name != Snapshot(c) && name != Changes(c)
  {
  }

  /** A crash keeps the guarantee, whatever it loses. */
  lemma CrashSafe(st: State, fs': Fs)
    requires Safe(st) && CrashTo(st.fs, fs')
    ensures Safe(st.(fs := fs'))
  {
    var st' := st.(fs := fs');
    forall n
      ensures fs'.Possible(n) == {fs'.Lookup(n)} && fs'.Possible(n) <= st.fs.Possible(n)
    {
    }
    forall i | 0 <= i < |fs'.files|
      ensures fs'.files[i].Valid()
    {
      assert Survives(st.fs.files[i], fs'.files[i]);
    }
    var entry := fs'.Lookup(Current);
    assert EntrySafe(st, entry);
    if entry.Some? {
      var id := entry.value;
      var m :| EntryIs(st, id, m);
      assert Survives(st.fs.files[id], fs'.files[id]);
      var c := m.generation.checkpoint;
      assert Survives(st.fs.files[st.fs.dir[Snapshot(c)]], fs'.files[st.fs.dir[Snapshot(c)]]);
      KeepsSurvives(st.fs, fs', st.fs.dir[Changes(c)], st.promised[id]);
      CompleteKept(st, st', id, m);
      assert Newer(m, m);
      assert EntryIs(st', id, m);
    }
  }

  lemma KeepsSurvives(fs: Fs, fs': Fs, id: FileId, log: seq<Block>)
    requires Keeps(fs, id, log) && CrashTo(fs, fs')
    ensures Keeps(fs', id, log)
  {
    var f, f' := fs.files[id], fs'.files[id];
    assert Survives(f, f');
    assert f'.data[..|log|] == f'.data[..f.sealed][..|log|] == f.data[..f.sealed][..|log|];
  }

  // ---- whole runs ----

  /** One step of any run: an allowed operation, finished or not; a crash; a
      promise for a file not yet spoken for; or an acknowledgement. */
  ghost predicate Step(st: State, st': State) {
    || (exists op :: Allowed(st, op) && Leaves(st.fs, op, st'.fs) && st' == st.(fs := st'.fs))
    || (CrashTo(st.fs, st'.fs) && st' == st.(fs := st'.fs))
    || Promises(st, st')
    || Acknowledges(st, st')
  }

  ghost predicate Promises(st: State, st': State) {
    exists id, log :: PromisesLog(st, st', id, log)
  }

  ghost predicate PromisesLog(st: State, st': State, id: FileId, log: seq<Block>) {
    id !in st.promised && st' == st.(promised := st.promised[id := log])
  }

  /** Publication may be acknowledged only when no crash can undo it. */
  ghost predicate Acknowledges(st: State, st': State) {
    && st'.acked.Some? && st' == st.(acked := st'.acked)
    && (st.acked.Some? ==> AtMost(st.acked.value, st'.acked.value))
    && forall entry :: entry in st.fs.Possible(Current) ==> entry.Some? && Covers(st, entry.value, st'.acked.value)
  }

  ghost predicate Covers(st: State, id: FileId, g: Generation) {
    exists m :: Complete(st, id, m) && AtMost(g, m.generation)
  }

  ghost predicate IsRun(run: seq<State>) {
    run != [] && Safe(run[0]) && forall i :: 0 <= i < |run| - 1 ==> Step(run[i], run[i + 1])
  }

  lemma AnyStepSafe(st: State, st': State)
    requires Safe(st) && Step(st, st')
    ensures Safe(st')
    ensures st.acked.Some? ==> st'.acked.Some? && AtMost(st.acked.value, st'.acked.value)
  {
    if op :| Allowed(st, op) && Leaves(st.fs, op, st'.fs) && st' == st.(fs := st'.fs) {
      StepSafe(st, op, st'.fs);
    } else if CrashTo(st.fs, st'.fs) && st' == st.(fs := st'.fs) {
      CrashSafe(st, st'.fs);
    } else if Promises(st, st') {
      PromiseSafe(st, st');
    } else {
      AckSafe(st, st');
    }
  }

  lemma PromiseSafe(st: State, st': State)
    requires Safe(st) && Promises(st, st')
    ensures Safe(st')
  {
    var spoken, kept :| PromisesLog(st, st', spoken, kept);
    forall id, m | Some(id) in st.fs.Possible(Current) && Complete(st, id, m)
      ensures Complete(st', id, m)
    {
      CompleteKept(st, st', id, m);
    }
    Frame(st, st');
  }

  lemma AckSafe(st: State, st': State)
    requires Safe(st) && Acknowledges(st, st')
    ensures Safe(st')
  {
    forall entry | entry in st'.fs.Possible(Current)
      ensures EntrySafe(st', entry)
    {
      assert EntrySafe(st, entry);
      var m :| EntryIs(st, entry.value, m);
      var w :| Complete(st, entry.value, w) && AtMost(st'.acked.value, w.generation);
      assert w == m;
      CompleteKept(st, st', entry.value, m);
      assert EntryIs(st', entry.value, m);
    }
  }

  /** In every run, every state is safe and what was acknowledged stays so. */
  lemma {:induction false} RunSafe(run: seq<State>, i: nat, j: nat)
    requires IsRun(run) && i <= j < |run|
    ensures Safe(run[i]) && Safe(run[j])
    ensures run[i].acked.Some? ==> run[j].acked.Some? && AtMost(run[i].acked.value, run[j].acked.value)
    decreases j
  {
    if i < j {
      RunSafe(run, i, j - 1);
      assert Step(run[j - 1], run[j - 1 + 1]);
      AnyStepSafe(run[j - 1], run[j]);
    } else if 0 < j {
      RunSafe(run, j - 1, j - 1);
      assert Step(run[j - 1], run[j - 1 + 1]);
      AnyStepSafe(run[j - 1], run[j]);
    }
  }

  /** What the next process finds: no catalog, or a manifest with its whole pair. */
  ghost predicate Readable(st: State, fs: Fs) {
    if Current !in fs.dir then st.acked == None
    else exists m :: ReadableAs(st, fs, m)
  }

  ghost predicate ReadableAs(st: State, fs: Fs, m: Manifest)
    requires Current in fs.dir
  {
    var c := m.generation.checkpoint;
    && fs.dir[Current] < |fs.files| && fs.files[fs.dir[Current]].data == [ManifestBlock(m)]
    && (st.acked.Some? ==> AtMost(st.acked.value, m.generation))
    && Snapshot(c) in fs.dir && fs.dir[Snapshot(c)] < |fs.files|
    && fs.files[fs.dir[Snapshot(c)]].data == [SnapshotBlock(c)]
    && Changes(c) in fs.dir && fs.dir[Changes(c)] < |fs.files|
    && fs.dir[Current] in st.promised && |st.promised[fs.dir[Current]]| == m.logEnd
    && st.promised[fs.dir[Current]] <= fs.files[fs.dir[Changes(c)]].data
  }

  /** After a crash at any state of any run, the next process finds the index as
      of the last acknowledged publication or a later one, complete. */
  lemma CrashRecovers(run: seq<State>, i: nat, j: nat, fs': Fs)
    requires IsRun(run) && i <= j < |run| && CrashTo(run[j].fs, fs')
    ensures Readable(run[j], fs')
    ensures run[i].acked.Some? ==> run[j].acked.Some? && AtMost(run[i].acked.value, run[j].acked.value)
  {
    RunSafe(run, i, j);
    var st := run[j];
    CrashSafe(st, fs');
    var st' := st.(fs := fs');
    var entry := fs'.Lookup(Current);
    assert EntrySafe(st', entry);
    if entry.Some? {
      var m :| EntryIs(st', entry.value, m);
      var lf := fs'.dir[Changes(m.generation.checkpoint)];
      assert fs'.files[lf].data[..|st.promised[entry.value]|] == st.promised[entry.value];
      assert ReadableAs(st, fs', m);
    }
  }

  /** A reader that finds the pair of an earlier manifest gone has been overtaken:
      `current` names another checkpoint, whose pair is there. */
  lemma RetryFindsNewer(st: State, read: Manifest)
    requires Safe(st) && Current in st.fs.dir
    requires Snapshot(read.generation.checkpoint) !in st.fs.dir || Changes(read.generation.checkpoint) !in st.fs.dir
    ensures exists m :: Complete(st, st.fs.dir[Current], m) && m.generation.checkpoint != read.generation.checkpoint
  {
    var entry := st.fs.Lookup(Current);
    assert EntrySafe(st, entry);
    var m :| EntryIs(st, entry.value, m);
    assert Complete(st, st.fs.dir[Current], m);
  }
}
