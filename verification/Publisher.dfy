/** The single writer: publishing a checkpoint, appending a transaction, and
    recovering, as ordered operations any of which may fail, tear or be the last
    before a crash. */
module Publisher {
  import opened Publication
  import opened Basics

  const CHECKPOINT_MAX: nat := 0xffff_ffff_ffff_ffff

  /** Done; failed without effect; or stopped after (part of) its effect. */
  datatype Outcome = Done | Unchanged | Stopped

  /** How a publication ended. Only `Published` is acknowledged; after
      `Undurable` readers may already see the new generation. */
  datatype Published = Published | Failed | Undurable

  class Store {
    var fs: Fs
    ghost var promised: map<FileId, seq<Block>>
    ghost var acked: Option<Generation>
    ghost var trace: seq<State>
    ghost var faults: nat            // operations that were not done
    var usable: bool
    var manifest: Manifest

    ghost function St(): State
      reads `fs, `promised, `acked
    {
      State(fs, promised, acked)
    }

    /** Every state this store has been in forms a run, so all of them are safe. */
    ghost predicate Sound()
      reads `fs, `promised, `acked, `trace
    {
      && IsRun(trace) && trace[|trace| - 1] == St() && Safe(St())
      && forall id :: id in promised ==> id < |fs.files|
    }

    /** A usable writer knows the one manifest a crash could leave. */
    ghost predicate Valid()
      reads this
    {
      Sound() && (usable ==> Knows(St(), manifest))
    }

    constructor ()
      ensures Valid() && !usable && fs == Fs(map[], map[], []) && acked == None
    {
      fs := Fs(map[], map[], []);
      promised, acked, usable, faults := map[], None, false, 0;
      manifest := Manifest(Generation(0, 0), 0);
      new;
      trace := [St()];
      assert fs.Possible(Current) == {None};
    }

    /** The process stops and what the disk may lose is lost. */
    method Crash(fs': Fs)
      requires Valid() && CrashTo(fs, fs')
      modifies this
      ensures Valid() && !usable && fs == fs' && acked == old(acked) && old(trace) < trace
    {
      CrashSafe(St(), fs');
      ghost var was := St();
      fs, usable := fs', false;
      Extend(trace, was, St());
      trace := trace + [St()];
    }

    /** One operation of the step alphabet. */
    method Do(op: Op) returns (r: Outcome)
      requires Sound() && Allowed(St(), op)
      modifies `fs, `trace, `faults
      ensures Sound() && old(trace) < trace && faults == old(faults) + if r == Done then 0 else 1
      ensures r == Done ==> fs == Apply(old(fs), op)
      ensures r == Unchanged && !op.Write? ==> fs == old(fs)
      ensures Leaves(old(fs), op, fs)
    {
      ghost var was := St();
      var stopped: bool := *;
      var applied: bool := *;
      if applied {
        fs := Apply(fs, op);
        r := if stopped then Stopped else Done;
      } else if op.Write? && stopped {
        fs := fs.(files := fs.files[op.id := Written(fs.files[op.id], op.at, [Torn])]);
        r := Stopped;
      } else {
        r := Unchanged;
      }
      faults := faults + if r == Done then 0 else 1;
      StepSafe(was, op, fs);
      FilesGrow(was.fs, op, fs);
      assert St() == was.(fs := fs);
      Extend(trace, was, St());
      trace := trace + [St()];
    }

    /** Records what a manifest file that is still private will refer to. */
    ghost method Promise(id: FileId, log: seq<Block>)
      requires Sound() && id !in promised && id < |fs.files|
      modifies `promised, `trace
      ensures Sound() && promised == old(promised)[id := log] && old(trace) < trace
    {
      var was := St();
      promised := promised[id := log];
      assert PromisesLog(was, St(), id, log);
      AnyStepSafe(was, St());
      Extend(trace, was, St());
      trace := trace + [St()];
    }

    ghost method Acknowledge(m: Manifest)
      requires Sound() && Knows(St(), m)
      modifies `acked, `trace
      ensures Sound() && acked == Some(m.generation) && old(trace) < trace
    {
      var was := St();
      AckAllowed(was, m);
      acked := Some(m.generation);
      AnyStepSafe(was, St());
      Extend(trace, was, St());
      trace := trace + [St()];
    }

    /** Writes a private temporary and syncs it. Nothing public changes. */
    method WriteTemp(name: Name, block: Block) returns (ok: bool)
      requires Sound() && IsTemp(name)
      modifies `fs, `trace, `faults
      ensures Sound() && old(trace) < trace && TempOnly(old(fs), fs)
      ensures if ok then faults == old(faults) else faults > old(faults)
      ensures ok ==> Private(fs, name, |old(fs).files|) && Holds(fs, |old(fs).files|, block)
    {
      var id := |fs.files|;
      ghost var before := fs;
      var r := Do(Replace(name));
      TempStep(before, before, Replace(name), fs, id);
      if r != Done {
        return false;
      }
      ReplacedPrivate(before, name);
      PrivateExpendable(St(), name, id);
      ghost var mid := fs;
      r := Do(Write(id, 0, block));
      TempStep(before, mid, Write(id, 0, block), fs, id);
      if r != Done {
        return false;
      }
      ghost var written := fs;
      r := Do(SyncFile(id));
      TempStep(before, written, SyncFile(id), fs, id);
      ok := r == Done;
    }

    /** The least number from `from` on with neither file in the directory, so
        that publishing under it replaces nothing. */
    method NextCheckpoint(from: nat) returns (c: Option<nat>)
      ensures c.Some? ==> from <= c.value < CHECKPOINT_MAX
      ensures c.Some? ==> Snapshot(c.value) !in fs.dir && Changes(c.value) !in fs.dir
      ensures c.Some? ==> forall k :: from <= k < c.value ==> Snapshot(k) in fs.dir || Changes(k) in fs.dir
      ensures c.None? ==> NoneFree(fs, from)
    {
      var k := from;
      while k < CHECKPOINT_MAX && (Snapshot(k) in fs.dir || Changes(k) in fs.dir)
        invariant from <= k
        invariant forall j :: from <= j < k ==> Snapshot(j) in fs.dir || Changes(j) in fs.dir
        decreases CHECKPOINT_MAX - k
      {
        k := k + 1;
      }
      c := if k < CHECKPOINT_MAX then Some(k) else None;
    }

    /** Publishes checkpoint `c`: snapshot, log header, their directory entries,
        then the manifest and its own. Each part is durable before the next
        refers to it. */
    method Publish(c: nat, sequence: nat) returns (r: Published)
      requires Sound() && Supersedes(St(), Manifest(Generation(c, sequence), 1))
      requires Snapshot(c) !in fs.dir && Changes(c) !in fs.dir
      modifies `fs, `promised, `acked, `trace, `faults
      ensures Sound() && old(trace) < trace
      ensures if r == Published then faults == old(faults) else faults > old(faults)
      ensures r == Published ==> Knows(St(), Manifest(Generation(c, sequence), 1)) && acked == Some(Generation(c, sequence))
      ensures r == Published ==> LogOf(St()) == [HeaderBlock(c)]
      ensures r != Published ==> acked == old(acked)
      ensures r == Failed ==> forall w :: Knows(old(St()), w) ==> Knows(St(), w)
    {
      hide Complete, PairDurable, Quiet, Knows, Supersedes, Fs.Lookup, Fs.Possible, Safe, IsRun, Fs.Valid;
      ghost var start := St();
      var ok := StagePair(c);
      KnowsQuiet(start, St(), c);
      if !ok { return Failed; }
      SupersedesQuiet(start, St(), c, Manifest(Generation(c, sequence), 1));
      r := PublishManifest(Manifest(Generation(c, sequence), 1), [HeaderBlock(c)]);
    }

    /** Writes, syncs and renames checkpoint `c`'s snapshot and log header, then
        syncs the directory; `current` and every older pair stay as they are. */
    method StagePair(c: nat) returns (ok: bool)
      requires Sound() && Snapshot(c) !in fs.dir && Changes(c) !in fs.dir
      modifies `fs, `trace, `faults
      ensures Sound() && old(trace) < trace && Quiet(old(St()), St(), c)
      ensures if ok then faults == old(faults) else faults > old(faults)
      ensures ok ==> PairDurable(fs, c, [HeaderBlock(c)])
    {
      hide Allowed, Leaves, Apply, Settled, Complete, Holds, PairDurable, Quiet, TempOnly, Private, Knows, Supersedes;
      hide Fs.Lookup, Fs.Possible, StagedAs, Safe, IsRun, Fs.Valid;
      ghost var start := St();
      ok := WriteTemp(CatalogTmp, SnapshotBlock(c));
      QuietTemp(start, St(), c);
      if !ok { return false; }
      ghost var snapshot, before := |start.fs.files|, St();
      FreshPair(start, St(), CatalogTmp, snapshot, Snapshot(c), c);
      var o := Do(Rename(CatalogTmp, Snapshot(c)));
      QuietRename(start, before, CatalogTmp, Snapshot(c), St(), c);
      if o != Done { return false; }
      StageRenamed(before.fs, CatalogTmp, Snapshot(c), snapshot, SnapshotBlock(c));
      StillAbsent(start.fs, before.fs, c);
      before := St();
      ghost var log := |fs.files|;
      ok := WriteTemp(ChangesTmp, HeaderBlock(c));
      QuietTemp(before, St(), c);
      QuietTrans(start, before, St(), c);
      if !ok { return false; }
      StageTemp(before.fs, fs, Snapshot(c), snapshot, SnapshotBlock(c));
      FreshPair(before, St(), ChangesTmp, log, Changes(c), c);
      before := St();
      o := Do(Rename(ChangesTmp, Changes(c)));
      QuietRename(start, before, ChangesTmp, Changes(c), St(), c);
      if o != Done { return false; }
      StageRenamed(before.fs, ChangesTmp, Changes(c), log, HeaderBlock(c));
      StageOther(before.fs, ChangesTmp, Changes(c), Snapshot(c), snapshot, SnapshotBlock(c));
      before := St();
      SyncAllowed(St());
      o := Do(SyncDir);
      QuietSync(start, before, St(), c);
      if o != Done { return false; }
      StageSynced(before, c, snapshot, log);
      ok := true;
    }

    /** Writes, syncs and renames the manifest for a durable pair, then syncs the
        directory: the only way `current` ever changes. */
    method PublishManifest(m: Manifest, ghost log: seq<Block>) returns (r: Published)
      requires Sound() && PairDurable(fs, m.generation.checkpoint, log) && |log| == m.logEnd
      requires Supersedes(St(), m)
      modifies `fs, `promised, `acked, `trace, `faults
      ensures Sound() && old(trace) < trace
      ensures if r == Published then faults == old(faults) else faults > old(faults)
      ensures r == Published ==> Knows(St(), m) && acked == Some(m.generation) && LogOf(St()) == log
      ensures r != Published ==> acked == old(acked)
      ensures r == Failed ==> forall w :: Knows(old(St()), w) ==> Knows(St(), w)
    {
      hide Allowed, Leaves, Apply, Settled, Complete, Holds, PairDurable, Quiet, TempOnly, Private, Knows, Supersedes, Publishes;
      hide Fs.Lookup, Fs.Possible, Safe, IsRun, Fs.Valid;
      ghost var start := St();
      var ok := WriteTemp(CurrentTmp, ManifestBlock(m));
      KnowsTemp(start, St());
      if !ok { return Failed; }
      ghost var id, written := |start.fs.files|, St();
      PrivateRange(fs, CurrentTmp, id);
      Promise(id, log);
      PromiseKnows(written, St(), id, log);
      PublishAllowed(start, St(), id, m, log);
      ghost var before := St();
      var o := Do(Rename(CurrentTmp, Current));
      if o == Unchanged {
        assert fs == before.fs;
        return Failed;
      }
      if o == Stopped { return Undurable; }
      RenamedKnows(before, id, m);
      before := St();
      SyncAllowed(St());
      o := Do(SyncDir);
      if o != Done { return Undurable; }
      KnowsSynced(before, id, m);
      SyncKeepsLog(before);
      LogPromised(before, id);
      before := St();
      Acknowledge(m);
      KnowsAcked(before, St(), m);
      LogKept(before, St());
      r := Published;
    }

    // ---- the writer's operations ----

    /** The first publication, in a directory that has none. */
    method Create() returns (r: Published)
      requires Valid() && Current !in fs.dir
      modifies this
      ensures Valid() && old(trace) <= trace && usable == (r == Published)
      ensures r != Published ==> faults > old(faults) || NoneFree(old(fs), 0)
      ensures r == Published ==> acked == Some(manifest.generation) && LogOf(St()) == [HeaderBlock(manifest.generation.checkpoint)]
    {
      usable := false;
      var c := NextCheckpoint(0);
      if c == None { return Failed; }
      r := Publish(c.value, 0);
      if r == Published {
        Adopt(Manifest(Generation(c.value, 0), 1));
      }
    }

    /** Replaces the pair by a new checkpoint's and retires the old one, which no
        crash can need any more. `poisons` is whether a failure before the rename
        also ends the session. */
    method Checkpoint(sequence: nat, poisons: bool) returns (r: Published)
      requires Valid() && usable && manifest.generation.sequence <= sequence
      modifies this
      ensures Valid() && old(trace) <= trace
      ensures r != Published ==> faults > old(faults) || NoneFree(old(fs), old(manifest.generation.checkpoint) + 1)
      ensures r == Published ==> usable && acked == Some(manifest.generation)
      ensures r == Published ==>
        manifest.generation.sequence == sequence && manifest.generation.checkpoint > old(manifest.generation.checkpoint)
      ensures r == Published ==> forall k :: old(manifest.generation.checkpoint) < k < manifest.generation.checkpoint ==>
        Snapshot(k) in old(fs.dir) || Changes(k) in old(fs.dir)
      ensures r == Published ==> LogOf(St()) == [HeaderBlock(manifest.generation.checkpoint)]
      ensures r == Published && faults == old(faults) ==>
        Snapshot(old(manifest.generation.checkpoint)) !in fs.dir && Changes(old(manifest.generation.checkpoint)) !in fs.dir
      ensures r == Failed ==> manifest == old(manifest) && acked == old(acked) && usable == !poisons
      ensures r == Undurable ==> !usable && acked == old(acked)
    {
      hide Allowed, Leaves, Apply, Settled, Complete, Holds, PairDurable, Knows, Supersedes, Expendable;
      hide Fs.Lookup, Fs.Possible, Safe, IsRun, Fs.Valid;
      var before := manifest;
      usable := false;
      var c := NextCheckpoint(before.generation.checkpoint + 1);
      if c == None {
        usable := !poisons;
        return Failed;
      }
      var m := Manifest(Generation(c.value, sequence), 1);
      KnownSupersedes(St(), before, m);
      r := Publish(c.value, sequence);
      if r == Failed {
        usable := !poisons;
      }
      if r == Published {
        Adopt(m);
        Retire(before.generation.checkpoint, m);
      }
    }

    /** Removes an old pair, which nothing possible refers to, and nothing else;
        a failure here loses nothing and is not reported. */
    method Retire(c: nat, m: Manifest)
      requires Sound() && Knows(St(), m) && c != m.generation.checkpoint
      modifies `fs, `trace, `faults
      ensures Sound() && Knows(St(), m) && old(trace) <= trace && LogOf(St()) == LogOf(old(St())) && old(faults) <= faults
      ensures faults == old(faults) ==> Snapshot(c) !in fs.dir && Changes(c) !in fs.dir
      ensures forall n :: n in old(fs.dir) && n != Snapshot(c) && n != Changes(c) ==> n in fs.dir
    {
      hide Allowed, Leaves, Apply, Settled, Complete, Holds, PairDurable, Knows, Supersedes, Expendable;
      hide Fs.Lookup, Fs.Possible, Safe, IsRun, Fs.Valid;
      RetireAllowed(St(), m, Snapshot(c));
      ghost var was := St();
      var o := Do(Remove(Snapshot(c)));
      RemoveKnows(was, Snapshot(c), St(), m);
      RemovedNames(was.fs, Snapshot(c), fs);
      RetireAllowed(St(), m, Changes(c));
      was := St();
      o := Do(Remove(Changes(c)));
      RemoveKnows(was, Changes(c), St(), m);
      RemovedNames(was.fs, Changes(c), fs);
    }

    /** Appends one transaction: the log's bytes and their sync, then a manifest
        with the new end. */
    method Append(payload: nat) returns (r: Published)
      requires Valid() && usable
      modifies this
      ensures Valid() && old(trace) <= trace && usable == (r == Published)
      ensures r != Published ==> faults > old(faults)
      ensures r == Published ==>
        acked == Some(manifest.generation) && LogOf(St()) == LogOf(old(St())) + [TransactionBlock(payload)]
      ensures r == Published ==> manifest.generation == Generation(old(manifest.generation.checkpoint), old(manifest.generation.sequence) + 1)
      ensures r != Published ==> acked == old(acked)
    {
      hide Allowed, Leaves, Apply, Settled, Complete, Holds, PairDurable, Knows, Supersedes, Expendable;
      hide Fs.Lookup, Fs.Possible, Safe, IsRun, Fs.Valid;
      KnownPair(St(), manifest);
      var c, at := manifest.generation.checkpoint, manifest.logEnd;
      var id, block := fs.dir[Changes(c)], TransactionBlock(payload);
      ghost var start := St();
      ghost var log := LogOf(start);
      usable := false;
      TailExpendable(St(), manifest);
      WriteAllowed(St(), id, at, block);
      var o := Do(Write(id, at, block));
      if o != Done { return Failed; }
      TailWritten(start, manifest, block);
      o := Do(SyncFile(id));
      if o != Done { return Failed; }
      TailSynced(start, manifest, block);
      var m := Manifest(Generation(c, manifest.generation.sequence + 1), at + 1);
      r := PublishManifest(m, log + [block]);
      if r == Published {
        Adopt(m);
      }
    }

    /** Opens the index: cuts the log to what `current` refers to, makes that
        choice of `current` durable, and clears everything else. */
    method Recover() returns (ok: bool)
      requires Valid()
      modifies this
      ensures Valid() && old(trace) <= trace && usable == ok
      ensures !ok ==> faults > old(faults) || Current !in old(fs.dir)
      ensures Current !in old(fs.dir) ==> !ok
      ensures ok ==> LogOf(St()) == LogOf(old(St())) && acked == Some(manifest.generation)
      ensures ok ==> IsManifest(old(fs), old(fs.dir)[Current], manifest)
      ensures ok ==> forall n :: n in fs.dir ==> Kept(n, manifest.generation.checkpoint)
    {
      hide Allowed, Leaves, Apply, Settled, Complete, Holds, PairDurable, Knows, Supersedes, Expendable;
      hide Fs.Lookup, Fs.Possible, Safe, IsRun, Fs.Valid;
      usable := false;
      ghost var start := St();
      if Current !in fs.dir { return false; }
      VisibleComplete(start);
      var m := fs.files[fs.dir[Current]].data[0].manifest;
      ok := Cut(m);
      if !ok { return; }
      ghost var before := St();
      SyncAllowed(St());
      var o := Do(SyncDir);
      if o != Done { return false; }
      CompleteEntry(before, m);
      KnowsSynced(before, before.fs.dir[Current], m);
      SyncKeepsLog(before);
      ok := Cleanup(m);
      if ok {
        before := St();
        Acknowledge(m);
        KnowsAcked(before, St(), m);
        LogKept(before, St());
        Adopt(m);
      }
    }

    /** Cuts an uncertain tail off the log and syncs the cut. */
    method Cut(m: Manifest) returns (ok: bool)
      requires Sound() && Current in fs.dir && Complete(St(), fs.dir[Current], m)
      modifies `fs, `trace, `faults
      ensures Sound() && old(trace) <= trace
      ensures if ok then faults == old(faults) else faults > old(faults)
      ensures ok ==> Current in fs.dir && Complete(St(), fs.dir[Current], m) && LogOf(St()) == LogOf(old(St()))
    {
      hide Allowed, Leaves, Apply, Settled, Complete, Holds, PairDurable, Knows, Supersedes, Expendable;
      hide Fs.Lookup, Fs.Possible, Safe, IsRun, Fs.Valid;
      ghost var start := St();
      CompleteLog(start, m);
      var id := fs.dir[Changes(m.generation.checkpoint)];
      if |fs.files[id].data| > m.logEnd {
        CutExpendable(start, m);
        CutAllowed(start, id, m.logEnd);
        var o := Do(Truncate(id, m.logEnd));
        if o != Done { return false; }
        CutComplete(start, m, Truncate(id, m.logEnd), St());
        ghost var cut := St();
        FileSyncAllowed(cut, id);
        o := Do(SyncFile(id));
        if o != Done { return false; }
        CutComplete(cut, m, SyncFile(id), St());
      }
      ok := true;
    }

    /** Whether cleanup leaves a name alone. */
    predicate Kept(n: Name, c: nat) {
      n == Current || n == Snapshot(c) || n == Changes(c)
    }

    /** Removes every temporary and every pair but the current one's. */
    method Cleanup(m: Manifest) returns (ok: bool)
      requires Sound() && Knows(St(), m)
      modifies `fs, `trace, `faults
      ensures if ok then faults == old(faults) else faults > old(faults)
      ensures Sound() && Knows(St(), m) && old(trace) <= trace && LogOf(St()) == LogOf(old(St()))
      ensures ok ==> forall n :: n in fs.dir ==> Kept(n, m.generation.checkpoint)
    {
      hide Allowed, Leaves, Apply, Settled, Complete, Holds, PairDurable, Knows, Supersedes, Expendable;
      hide Fs.Lookup, Fs.Possible, Safe, IsRun, Fs.Valid;
      var obsolete := set n | n in fs.dir && !Kept(n, m.generation.checkpoint);
      if obsolete != {} {
        ghost var was := St();
        SyncAllowed(was);
        var o := Do(SyncDir);
        SyncKnows(was, St(), m);
        if o != Done { return false; }
      }
      while obsolete != {}
        invariant Sound() && Knows(St(), m) && old(trace) <= trace && LogOf(St()) == LogOf(old(St()))
        invariant faults == old(faults)
        invariant forall n :: n in obsolete ==> !Kept(n, m.generation.checkpoint)
        invariant forall n :: n in fs.dir ==> n in obsolete || Kept(n, m.generation.checkpoint)
        decreases obsolete
      {
        var n :| n in obsolete;
        RetireAllowed(St(), m, n);
        ghost var was := St();
        var o := Do(Remove(n));
        RemoveKnows(was, n, St(), m);
        RemovedNames(was.fs, n, fs);
        if o != Done { return false; }
        obsolete := obsolete - {n};
      }
      ok := true;
    }

    method Adopt(m: Manifest)
      requires Sound() && Knows(St(), m)
      modifies `usable, `manifest
      ensures Valid() && usable && manifest == m
    {
      usable, manifest := true, m;
    }
  }

  /** Every checkpoint number from `from` on is taken. */
  ghost predicate NoneFree(fs: Fs, from: nat) {
    forall k: nat :: from <= k < CHECKPOINT_MAX ==> Snapshot(k) in fs.dir || Changes(k) in fs.dir
  }

  /** What the visible manifest's log is promised to hold. */
  ghost function LogOf(st: State): seq<Block> {
    var entry := st.fs.Lookup(Current);
    if entry.Some? && entry.value in st.promised then st.promised[entry.value] else []
  }

  /** The one manifest a crash could leave, complete. */
  ghost predicate Knows(st: State, m: Manifest) {
    Settled(st.fs, Current) && Complete(st, st.fs.dir[Current], m)
  }

  /** `m` is newer than whatever processes see as `current`. */
  ghost predicate Supersedes(st: State, m: Manifest) {
    forall v :: Current in st.fs.dir && IsManifest(st.fs, st.fs.dir[Current], v) ==> Newer(v, m)
  }

  /** No public entry but checkpoint `c`'s may become anything new. */
  ghost predicate Quiet(st: State, st': State, c: nat) {
    && |st.fs.files| <= |st'.fs.files| && st'.fs.files[..|st.fs.files|] == st.fs.files
    && st'.promised == st.promised && st'.acked == st.acked
    && st'.fs.Lookup(Current) == st.fs.Lookup(Current)
    && forall n :: !IsTemp(n) && n != Snapshot(c) && n != Changes(c) ==> st'.fs.Possible(n) <= st.fs.Possible(n)
  }

  /** Only temporaries and new files differ. */
  ghost predicate TempOnly(fs: Fs, fs': Fs) {
    && |fs.files| <= |fs'.files| && fs'.files[..|fs.files|] == fs.files
    && forall n :: !IsTemp(n) ==> fs'.Possible(n) == fs.Possible(n) && fs'.Lookup(n) == fs.Lookup(n)
  }

  /** `id` is what `name` holds, and no public entry can be it. */
  ghost predicate Private(fs: Fs, name: Name, id: FileId) {
    && name in fs.dir && fs.dir[name] == id && id < |fs.files|
    && forall n :: !IsTemp(n) ==> Some(id) !in fs.Possible(n)
  }

  lemma Extend(trace: seq<State>, was: State, st: State)
    requires IsRun(trace) && trace[|trace| - 1] == was && Step(was, st)
    ensures IsRun(trace + [st])
  {
    var longer := trace + [st];
    forall i | 0 <= i < |longer| - 1
      ensures Step(longer[i], longer[i + 1])
    {
      if i < |trace| - 1 {
        assert Step(trace[i], trace[i + 1]);
      }
    }
  }

  lemma FilesGrow(fs: Fs, op: Op, fs': Fs)
    requires Applies(fs, op) && Leaves(fs, op, fs')
    ensures |fs.files| <= |fs'.files|
  {
  }

  lemma AckAllowed(st: State, m: Manifest)
    requires Safe(st) && Knows(st, m)
    ensures Acknowledges(st, st.(acked := Some(m.generation)))
  {
    assert EntrySafe(st, Some(st.fs.dir[Current]));
    var w :| EntryIs(st, st.fs.dir[Current], w);
    assert w == m;
    assert Covers(st, st.fs.dir[Current], m.generation);
  }

  /** An operation on the private temporary leaves everything public alone. */
  lemma TempStep(before: Fs, mid: Fs, op: Op, fs: Fs, id: FileId)
    requires TempOnly(before, mid) && id == |before.files| && Applies(mid, op) && Leaves(mid, op, fs)
    requires match op
      case Replace(name) => IsTemp(name) && mid == before
      case Write(x, _, _) => x == id
      case SyncFile(x) => x == id
      case _ => false
    ensures TempOnly(before, fs)
  {
    if op.Replace? {
      forall n
        ensures !IsTemp(n) ==> fs.Possible(n) == before.Possible(n) && fs.Lookup(n) == before.Lookup(n)
      {
      }
    } else {
      SamePossible(mid, fs);
    }
  }

  lemma ReplacedPrivate(fs: Fs, name: Name)
    requires fs.Valid() && IsTemp(name)
    ensures Private(Apply(fs, Replace(name)), name, |fs.files|)
  {
    var made := fs.(files := fs.files + [File([], 0, false)]);
    SamePossible(fs, made);
    forall n | !IsTemp(n)
      ensures Some(|fs.files|) !in Apply(fs, Replace(name)).Possible(n)
    {
      PossibleSet(made, name, Some(|fs.files|), n);
    }
  }

  lemma PrivateExpendable(st: State, name: Name, id: FileId)
    requires Private(st.fs, name, id)
    ensures forall at: nat :: Expendable(st, id, at)
  {
    forall f, m | Some(f) in st.fs.Possible(Current) && Complete(st, f, m)
      ensures id != f && id != st.fs.dir[Snapshot(m.generation.checkpoint)]
      ensures id != st.fs.dir[Changes(m.generation.checkpoint)]
    {
      var c := m.generation.checkpoint;
      assert st.fs.Lookup(Snapshot(c)) in st.fs.Possible(Snapshot(c));
      assert st.fs.Lookup(Changes(c)) in st.fs.Possible(Changes(c));
    }
  }

  lemma PrivateRange(fs: Fs, name: Name, id: FileId)
    requires Private(fs, name, id)
    ensures id < |fs.files|
  {
  }

  lemma SyncAllowed(st: State)
    ensures Allowed(st, SyncDir)
  {
  }

  // ---- nothing public changes before the rename ----

  lemma QuietTemp(st: State, st': State, c: nat)
    requires TempOnly(st.fs, st'.fs) && st' == st.(fs := st'.fs)
    ensures Quiet(st, st', c)
  {
    hide Fs.Possible, Fs.Lookup;
  }

  lemma QuietTrans(a: State, b: State, d: State, c: nat)
    requires Quiet(a, b, c) && Quiet(b, d, c)
    ensures Quiet(a, d, c)
  {
    hide Fs.Possible, Fs.Lookup;
    assert d.fs.files[..|a.fs.files|] == d.fs.files[..|b.fs.files|][..|a.fs.files|];
  }

  lemma QuietRename(start: State, st: State, from: Name, to: Name, st': State, c: nat)
    requires Quiet(start, st, c) && IsTemp(from) && (to == Snapshot(c) || to == Changes(c))
    requires Applies(st.fs, Rename(from, to)) && Leaves(st.fs, Rename(from, to), st'.fs) && st' == st.(fs := st'.fs)
    ensures Quiet(start, st', c)
  {
    if st'.fs != st.fs {
      var mid := st.fs.Set(to, Some(st.fs.dir[from]));
      forall n
        ensures n != from && n != to ==> st'.fs.Possible(n) == st.fs.Possible(n) && st'.fs.Lookup(n) == st.fs.Lookup(n)
      {
        PossibleSet(st.fs, to, Some(st.fs.dir[from]), n);
        PossibleSet(mid, from, None, n);
      }
    }
    assert Quiet(st, st', c);
    QuietTrans(start, st, st', c);
  }

  lemma QuietSync(start: State, st: State, st': State, c: nat)
    requires Quiet(start, st, c) && Leaves(st.fs, SyncDir, st'.fs) && st' == st.(fs := st'.fs)
    ensures Quiet(start, st', c)
  {
    assert Quiet(st, st', c);
    QuietTrans(start, st, st', c);
  }

  /** A quiet change keeps what the writer knows. */
  lemma KnowsQuiet(st: State, st': State, c: nat)
    requires Quiet(st, st', c) && Snapshot(c) !in st.fs.dir && Changes(c) !in st.fs.dir
    ensures forall w :: Knows(st, w) ==> Knows(st', w)
  {
    forall w | Knows(st, w)
      ensures Knows(st', w)
    {
      var id, k := st.fs.dir[Current], w.generation.checkpoint;
      assert k != c;
      FilesSame(st, st');
      SettledKept(st.fs, st'.fs, Current);
      SettledKept(st.fs, st'.fs, Snapshot(k));
      SettledKept(st.fs, st'.fs, Changes(k));
    }
  }

  lemma FilesSame(st: State, st': State)
    requires |st.fs.files| <= |st'.fs.files| && st'.fs.files[..|st.fs.files|] == st.fs.files
    ensures forall i :: 0 <= i < |st.fs.files| ==> st'.fs.files[i] == st.fs.files[i]
  {
    forall i | 0 <= i < |st.fs.files|
      ensures st'.fs.files[i] == st.fs.files[i]
    {
      assert st'.fs.files[..|st.fs.files|][i] == st.fs.files[i];
    }
  }

  lemma KnowsTemp(st: State, st': State)
    requires TempOnly(st.fs, st'.fs) && st' == st.(fs := st'.fs)
    ensures forall w :: Knows(st, w) ==> Knows(st', w)
  {
    forall w | Knows(st, w)
      ensures Knows(st', w)
    {
      var k := w.generation.checkpoint;
      FilesSame(st, st');
      SettledKept(st.fs, st'.fs, Current);
      SettledKept(st.fs, st'.fs, Snapshot(k));
      SettledKept(st.fs, st'.fs, Changes(k));
    }
  }

  lemma SupersedesQuiet(st: State, st': State, c: nat, m: Manifest)
    requires Supersedes(st, m) && Quiet(st, st', c) && Safe(st)
    ensures Supersedes(st', m)
  {
    FilesSame(st, st');
    if Current in st'.fs.dir {
      assert st'.fs.Lookup(Current) == Some(st'.fs.dir[Current]);
      assert st.fs.Lookup(Current) in st.fs.Possible(Current);
      forall v | IsManifest(st'.fs, st'.fs.dir[Current], v)
        ensures Newer(v, m)
      {
        assert IsManifest(st.fs, st.fs.dir[Current], v);
      }
    }
  }

  /** A pair with a missing half is referenced by nothing, so its entries are free. */
  lemma FreshPair(before: State, st: State, from: Name, id: FileId, to: Name, c: nat)
    requires TempOnly(before.fs, st.fs) && st == before.(fs := st.fs)
    requires to == Snapshot(c) || to == Changes(c)
    requires to !in before.fs.dir && IsTemp(from) && Private(st.fs, from, id)
    ensures Allowed(st, Rename(from, to))
  {
    assert st.fs.Lookup(to) == before.fs.Lookup(to);
  }

  // ---- the pair, stage by stage ----

  /** Processes see `id` under `name`, and it durably holds one block. */
  ghost predicate StagedAs(fs: Fs, name: Name, id: FileId, block: Block) {
    fs.Lookup(name) == Some(id) && Holds(fs, id, block)
  }

  lemma StageRenamed(fs: Fs, from: Name, to: Name, id: FileId, block: Block)
    requires IsTemp(from) && !IsTemp(to) && Private(fs, from, id) && Holds(fs, id, block)
    ensures Applies(fs, Rename(from, to)) && StagedAs(Apply(fs, Rename(from, to)), to, id, block)
  {
    PossibleSet(fs.Set(to, Some(id)), from, None, to);
    PossibleSet(fs, to, Some(id), to);
  }

  lemma StageOther(fs: Fs, from: Name, to: Name, name: Name, id: FileId, block: Block)
    requires Applies(fs, Rename(from, to)) && name != from && name != to && StagedAs(fs, name, id, block)
    ensures StagedAs(Apply(fs, Rename(from, to)), name, id, block)
  {
    PossibleSet(fs, to, Some(fs.dir[from]), name);
    PossibleSet(fs.Set(to, Some(fs.dir[from])), from, None, name);
  }

  lemma StageTemp(fs: Fs, fs': Fs, name: Name, id: FileId, block: Block)
    requires TempOnly(fs, fs') && !IsTemp(name) && StagedAs(fs, name, id, block)
    ensures StagedAs(fs', name, id, block)
  {
    assert fs'.files[..|fs.files|][id] == fs.files[id];
  }

  lemma StillAbsent(start: Fs, mid: Fs, c: nat)
    requires Changes(c) !in start.dir
    requires TempOnly(start, mid) && Applies(mid, Rename(CatalogTmp, Snapshot(c)))
    ensures Changes(c) !in Apply(mid, Rename(CatalogTmp, Snapshot(c))).dir
  {
    assert mid.Lookup(Changes(c)) == start.Lookup(Changes(c));
  }

  lemma StageSynced(st: State, c: nat, snapshot: FileId, log: FileId)
    requires StagedAs(st.fs, Snapshot(c), snapshot, SnapshotBlock(c))
    requires StagedAs(st.fs, Changes(c), log, HeaderBlock(c)) && Safe(st)
    ensures PairDurable(Apply(st.fs, SyncDir), c, [HeaderBlock(c)])
  {
    assert st.fs.files[log].Valid();
  }

  // ---- the publishing rename ----

  lemma PromiseKnows(st: State, st': State, id: FileId, log: seq<Block>)
    requires id !in st.promised && st' == st.(promised := st.promised[id := log])
    ensures forall w :: Knows(st, w) ==> Knows(st', w)
  {
  }

  lemma PublishAllowed(start: State, st: State, id: FileId, m: Manifest, log: seq<Block>)
    requires Safe(start) && TempOnly(start.fs, st.fs) && st == start.(fs := st.fs, promised := st.promised)
    requires Private(st.fs, CurrentTmp, id) && Holds(st.fs, id, ManifestBlock(m))
    requires id in st.promised && st.promised[id] == log
    requires PairDurable(start.fs, m.generation.checkpoint, log) && |log| == m.logEnd && Supersedes(start, m)
    ensures Complete(st, id, m) && PublishesAs(st, id, m) && Allowed(st, Rename(CurrentTmp, Current))
  {
    hide Complete, PairDurable, Safe, Supersedes, TempOnly, Fs.Possible;
    PairStays(start.fs, st.fs, m.generation.checkpoint, log);
    CompleteNow(st, id, m, log);
    SupersedesStays(start, st, m);
    assert PublishesAs(st, id, m) by {
      SupersedesIs(st, m);
    }
    assert Publishes(st, Rename(CurrentTmp, Current));
  }

  lemma PairStays(fs: Fs, fs': Fs, c: nat, log: seq<Block>)
    requires PairDurable(fs, c, log) && TempOnly(fs, fs')
    ensures PairDurable(fs', c, log)
  {
    hide Fs.Possible;
    SettledKept(fs, fs', Snapshot(c));
    SettledKept(fs, fs', Changes(c));
    assert forall i :: 0 <= i < |fs.files| ==> fs'.files[..|fs.files|][i] == fs'.files[i];
  }

  lemma CompleteNow(st: State, id: FileId, m: Manifest, log: seq<Block>)
    requires Holds(st.fs, id, ManifestBlock(m)) && id in st.promised && st.promised[id] == log
    requires PairDurable(st.fs, m.generation.checkpoint, log) && |log| == m.logEnd
    ensures Complete(st, id, m)
  {
    hide PairDurable;
  }

  lemma SupersedesIs(st: State, m: Manifest)
    requires Supersedes(st, m)
    ensures forall v :: Current in st.fs.dir && IsManifest(st.fs, st.fs.dir[Current], v) ==> Newer(v, m)
  {
  }

  /** Temporary files leave what is current, and what a new manifest must be newer than. */
  lemma SupersedesStays(start: State, st: State, m: Manifest)
    requires Safe(start) && TempOnly(start.fs, st.fs) && Supersedes(start, m)
    requires st == start.(fs := st.fs, promised := st.promised)
    ensures Supersedes(st, m) && (st.acked.Some? ==> AtMost(st.acked.value, m.generation))
  {
    assert st.fs.Lookup(Current) == start.fs.Lookup(Current);
    assert start.fs.Lookup(Current) in start.fs.Possible(Current);
    assert EntrySafe(start, start.fs.Lookup(Current));
    assert forall i :: 0 <= i < |start.fs.files| ==> st.fs.files[..|start.fs.files|][i] == st.fs.files[i];
    if start.acked.Some? {
      var w :| EntryIs(start, start.fs.dir[Current], w);
      assert Newer(w, m);
    }
  }

  lemma RenamedKnows(st: State, id: FileId, m: Manifest)
    requires Private(st.fs, CurrentTmp, id) && Complete(st, id, m)
    ensures Applies(st.fs, Rename(CurrentTmp, Current))
    ensures var fs' := Apply(st.fs, Rename(CurrentTmp, Current));
      Complete(st.(fs := fs'), id, m) && fs'.Lookup(Current) == Some(id)
  {
    var c := m.generation.checkpoint;
    var mid := st.fs.Set(Current, Some(id));
    PossibleSet(st.fs, Current, Some(id), Snapshot(c));
    PossibleSet(st.fs, Current, Some(id), Changes(c));
    PossibleSet(mid, CurrentTmp, None, Snapshot(c));
    PossibleSet(mid, CurrentTmp, None, Changes(c));
    var fs' := Apply(st.fs, Rename(CurrentTmp, Current));
    SettledKept(st.fs, fs', Snapshot(c));
    SettledKept(st.fs, fs', Changes(c));
  }

  lemma KnowsSynced(st: State, id: FileId, m: Manifest)
    requires Complete(st, id, m) && st.fs.Lookup(Current) == Some(id)
    ensures Knows(st.(fs := Apply(st.fs, SyncDir)), m)
  {
    var c := m.generation.checkpoint;
    var fs' := Apply(st.fs, SyncDir);
    SettledKept(st.fs, fs', Snapshot(c));
    SettledKept(st.fs, fs', Changes(c));
  }

  lemma KnowsAcked(st: State, st': State, m: Manifest)
    requires Knows(st, m) && st' == st.(acked := st'.acked)
    ensures Knows(st', m)
  {
  }

  // ---- what the writer's operations need ----

  lemma LogKept(st: State, st': State)
    requires st'.fs.dir == st.fs.dir && st'.promised == st.promised
    ensures LogOf(st') == LogOf(st)
  {
  }

  lemma SyncKeepsLog(st: State)
    ensures LogOf(st.(fs := Apply(st.fs, SyncDir))) == LogOf(st)
  {
  }

  lemma LogPromised(st: State, id: FileId)
    requires st.fs.Lookup(Current) == Some(id) && id in st.promised
    ensures LogOf(st) == st.promised[id]
  {
  }

  lemma KnownSupersedes(st: State, known: Manifest, m: Manifest)
    requires Knows(st, known) && known.generation.sequence <= m.generation.sequence
    requires known.generation.checkpoint < m.generation.checkpoint
      || (known.generation.checkpoint == m.generation.checkpoint && known.logEnd <= m.logEnd)
    ensures Supersedes(st, m)
  {
  }

  lemma RetireAllowed(st: State, m: Manifest, name: Name)
    requires Knows(st, m) && name != Current
    requires name != Snapshot(m.generation.checkpoint) && name != Changes(m.generation.checkpoint)
    ensures Allowed(st, Remove(name))
  {
    OnlyReferenced(st, m);
  }

  lemma OnlyReferenced(st: State, m: Manifest)
    requires Knows(st, m)
    ensures forall c :: Referenced(st, c) ==> c == m.generation.checkpoint
  {
    forall c | Referenced(st, c)
      ensures c == m.generation.checkpoint
    {
      var id, w :| Some(id) in st.fs.Possible(Current) && Complete(st, id, w) && w.generation.checkpoint == c;
      assert w == m;
    }
  }

  lemma RemovedNames(fs: Fs, name: Name, fs': Fs)
    requires Leaves(fs, Remove(name), fs')
    ensures forall n :: n in fs'.dir ==> n in fs.dir
    ensures fs' == Apply(fs, Remove(name)) ==> name !in fs'.dir
    ensures forall n :: n in fs.dir && n != name ==> n in fs'.dir
  {
  }

  lemma SyncKnows(st: State, st': State, m: Manifest)
    requires Knows(st, m) && Leaves(st.fs, SyncDir, st'.fs) && st' == st.(fs := st'.fs)
    ensures Knows(st', m) && LogOf(st') == LogOf(st) && st'.fs.dir == st.fs.dir
  {
    if st'.fs != st.fs {
      KnowsSynced(st, st.fs.dir[Current], m);
    }
  }

  lemma CompleteEntry(st: State, m: Manifest)
    requires Current in st.fs.dir && Complete(st, st.fs.dir[Current], m)
    ensures st.fs.Lookup(Current) == Some(st.fs.dir[Current])
  {
  }

  lemma CompleteLog(st: State, m: Manifest)
    requires Current in st.fs.dir && Complete(st, st.fs.dir[Current], m)
    ensures Changes(m.generation.checkpoint) in st.fs.dir && LogFile(st, m) < |st.fs.files|
  {
  }

  lemma KnownPair(st: State, m: Manifest)
    requires Knows(st, m)
    ensures Changes(m.generation.checkpoint) in st.fs.dir
  {
  }

  lemma WriteAllowed(st: State, id: FileId, at: nat, block: Block)
    requires id < |st.fs.files| && at <= |st.fs.files[id].data| && Expendable(st, id, at)
    ensures Allowed(st, Write(id, at, block))
  {
  }

  lemma CutAllowed(st: State, id: FileId, length: nat)
    requires id < |st.fs.files| && length <= |st.fs.files[id].data| && Expendable(st, id, length)
    ensures Allowed(st, Truncate(id, length))
  {
  }

  lemma FileSyncAllowed(st: State, id: FileId)
    requires id < |st.fs.files|
    ensures Allowed(st, SyncFile(id))
  {
  }

  lemma RemoveKnows(st: State, name: Name, st': State, m: Manifest)
    requires Knows(st, m) && Leaves(st.fs, Remove(name), st'.fs) && st' == st.(fs := st'.fs)
    requires name != Current && name != Snapshot(m.generation.checkpoint) && name != Changes(m.generation.checkpoint)
    ensures Knows(st', m) && LogOf(st') == LogOf(st)
  {
    var c := m.generation.checkpoint;
    if st'.fs != st.fs {
      PossibleSet(st.fs, name, None, Current);
      PossibleSet(st.fs, name, None, Snapshot(c));
      PossibleSet(st.fs, name, None, Changes(c));
      SettledKept(st.fs, st'.fs, Current);
      SettledKept(st.fs, st'.fs, Snapshot(c));
      SettledKept(st.fs, st'.fs, Changes(c));
    }
  }

  /** Past the end the one possible manifest gives it, the log is free. */
  lemma TailExpendable(st: State, m: Manifest)
    requires Knows(st, m)
    ensures var id := st.fs.dir[Changes(m.generation.checkpoint)];
      id < |st.fs.files| && m.logEnd <= |st.fs.files[id].data| && Expendable(st, id, m.logEnd)
  {
    var c := m.generation.checkpoint;
    var id := st.fs.dir[Changes(c)];
    var log := st.promised[st.fs.dir[Current]];
    assert st.fs.files[id].data[..|log|][0] == HeaderBlock(c);
  }

  ghost function LogFile(st: State, m: Manifest): FileId
    requires Changes(m.generation.checkpoint) in st.fs.dir
  {
    st.fs.dir[Changes(m.generation.checkpoint)]
  }

  lemma TailWritten(st: State, m: Manifest, block: Block)
    requires Knows(st, m) && LogFile(st, m) < |st.fs.files| && m.logEnd <= |st.fs.files[LogFile(st, m)].data|
    ensures Allowed(st.(fs := Apply(st.fs, Write(LogFile(st, m), m.logEnd, block))), SyncFile(LogFile(st, m)))
  {
  }

  /** After the write and its sync the pair keeps the longer log, and the old
      manifest is still the one a crash would leave. */
  lemma TailSynced(st: State, m: Manifest, block: Block)
    requires Safe(st) && Knows(st, m) && LogFile(st, m) < |st.fs.files| && m.logEnd <= |st.fs.files[LogFile(st, m)].data|
    ensures var id := LogFile(st, m);
      var fs' := Apply(Apply(st.fs, Write(id, m.logEnd, block)), SyncFile(id));
      && PairDurable(fs', m.generation.checkpoint, LogOf(st) + [block])
      && Supersedes(st.(fs := fs'), Manifest(Generation(m.generation.checkpoint, m.generation.sequence + 1), m.logEnd + 1))
      && |LogOf(st)| == m.logEnd
  {
    var c, id := m.generation.checkpoint, LogFile(st, m);
    var wrote := Apply(st.fs, Write(id, m.logEnd, block));
    var fs' := Apply(wrote, SyncFile(id));
    TailExpendable(st, m);
    SamePossible(st.fs, wrote);
    SamePossible(wrote, fs');
    SettledKept(st.fs, fs', Snapshot(c));
    SettledKept(st.fs, fs', Changes(c));
    var log := LogOf(st);
    assert fs'.files[id].data == st.fs.files[id].data[..m.logEnd] + [block];
    assert fs'.files[id].data[..|log| + 1] == log + [block];
  }

  // ---- what recovery needs ----

  lemma VisibleComplete(st: State)
    requires Safe(st) && Current in st.fs.dir
    ensures var id := st.fs.dir[Current];
      && id < |st.fs.files| && |st.fs.files[id].data| == 1 && st.fs.files[id].data[0].ManifestBlock?
      && Complete(st, id, st.fs.files[id].data[0].manifest)
  {
    var entry := st.fs.Lookup(Current);
    assert EntrySafe(st, entry);
    var m :| EntryIs(st, entry.value, m);
  }

  /** No manifest a crash could leave refers past the visible one's end of log. */
  lemma CutExpendable(st: State, m: Manifest)
    requires Safe(st) && Current in st.fs.dir && Complete(st, st.fs.dir[Current], m)
    ensures LogFile(st, m) < |st.fs.files| && Expendable(st, LogFile(st, m), m.logEnd)
  {
    var x := LogFile(st, m);
    var log := st.promised[st.fs.dir[Current]];
    assert st.fs.files[x].data[..|log|][0] == HeaderBlock(m.generation.checkpoint);
    forall id, w | Some(id) in st.fs.Possible(Current) && Complete(st, id, w)
      ensures x != id && x != st.fs.dir[Snapshot(w.generation.checkpoint)]
      ensures x == st.fs.dir[Changes(w.generation.checkpoint)] ==> w.logEnd <= m.logEnd
    {
      assert EntrySafe(st, Some(id));
      var e :| EntryIs(st, id, e);
      assert e == w;
      var v :| IsManifest(st.fs, st.fs.dir[Current], v) && Newer(w, v);
      assert v == m;
      if x == st.fs.dir[Changes(w.generation.checkpoint)] {
        var kept := st.promised[id];
        assert st.fs.files[x].data[..|kept|][0] == HeaderBlock(w.generation.checkpoint);
      }
    }
  }

  /** Cutting the log at the manifest's end, or syncing it, keeps the manifest complete. */
  lemma CutComplete(st: State, m: Manifest, op: Op, st': State)
    requires Current in st.fs.dir && Complete(st, st.fs.dir[Current], m) && Applies(st.fs, op)
    requires op == Truncate(LogFile(st, m), m.logEnd) || op == SyncFile(LogFile(st, m))
    requires st' == st.(fs := Apply(st.fs, op))
    ensures Current in st'.fs.dir && Complete(st', st'.fs.dir[Current], m) && LogOf(st') == LogOf(st)
    ensures Changes(m.generation.checkpoint) in st'.fs.dir && LogFile(st', m) == LogFile(st, m)
    ensures LogFile(st', m) < |st'.fs.files|
  {
    var c, id := m.generation.checkpoint, LogFile(st, m);
    var log := st.promised[st.fs.dir[Current]];
    assert st.fs.files[id].data[..|log|][0] == HeaderBlock(c);
    SamePossible(st.fs, st'.fs);
    SettledKept(st.fs, st'.fs, Snapshot(c));
    SettledKept(st.fs, st'.fs, Changes(c));
    if op.Truncate? {
      assert st'.fs.files[id].data == st.fs.files[id].data[..m.logEnd];
    }
  }
}
