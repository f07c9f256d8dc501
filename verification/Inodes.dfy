/** Inode lifetimes over a log of checked transactions: ids without gaps, never
    reused, never changing between directory and not, counted exactly. */
module Inodes {
  import opened Sorting
  import opened Runs
  import opened Basics

  datatype Kind = Dir | File | Symlink | Fifo | Socket | Block | Character

  /** What a row says of an inode; a checkpoint's tables only say directory or not. */
  datatype Known = Exact(kind: Kind) | BaseDir | BaseOther {
    predicate IsDir() {
      this == BaseDir || this == Exact(Dir)
    }

    /** A later row may state this kind. */
    predicate Admits(k: Kind) {
      match this
      case Exact(stated) => stated == k
      case BaseDir => k == Dir
      case BaseOther => k != Dir
    }
  }

  /** Records of the namespace family; `Elsewhere` is one about no lifetime. */
  datatype LifeRecord = LifePut(id: nat, kind: Kind) | InodeDelete(id: nat) | Elsewhere

  /** Live inodes and the next id to allocate. */
  datatype View = View(live: map<nat, Known>, next: nat) {
    ghost predicate Valid() {
      forall id :: id in live ==> id < next
    }

    predicate Retired(id: nat) {
      id < next && id !in live
    }
  }

  ghost function Dirs(live: map<nat, Known>): set<nat> {
    set id | id in live && live[id].IsDir()
  }

  /** Each inode's last lifetime record. */
  function Last(records: seq<LifeRecord>): map<nat, LifeRecord> {
    if records == [] then map[]
    else
      var n := |records| - 1;
      if records[n] == Elsewhere then Last(records[..n]) else Last(records[..n])[records[n].id := records[n]]
  }

  lemma {:induction false} LastIds(records: seq<LifeRecord>)
    ensures forall id :: id in Last(records) ==>
      Last(records)[id] != Elsewhere && Last(records)[id].id == id && Last(records)[id] in records
  {
    if records != [] {
      LastIds(records[..|records| - 1]);
    }
  }

  // ---- the simple rule ----

  predicate RecordOk(v: View, id: nat, r: LifeRecord) {
    match r
    case LifePut(_, kind) => id >= v.next || (id in v.live && v.live[id].Admits(kind))
    case InodeDelete(_) => id in v.live
    case Elsewhere => true
  }

  ghost predicate RecordsOk(v: View, last: map<nat, LifeRecord>) {
    forall id :: id in last ==> RecordOk(v, id, last[id])
  }

  ghost predicate BirthsExact(v: View, last: map<nat, LifeRecord>, next: nat) {
    forall id: nat :: v.next <= id < next <==> id in last && last[id].LifePut? && id >= v.next
  }

  ghost predicate Admissible(v: View, t: Transaction<LifeRecord>) {
    v.next <= t.next && RecordsOk(v, Last(t.records)) && BirthsExact(v, Last(t.records), t.next)
  }

  ghost function LiveUpTo(live: map<nat, Known>, last: map<nat, LifeRecord>, done: set<nat>): map<nat, Known>
    requires done <= last.Keys
  {
    (map id | id in live && id !in done :: live[id])
    + (map id | id in done && last[id].LifePut? :: Exact(last[id].kind))
  }

  ghost function Next(v: View, t: Transaction<LifeRecord>): View {
    View(LiveUpTo(v.live, Last(t.records), Last(t.records).Keys), t.next)
  }

  lemma Step(v: View, t: Transaction<LifeRecord>, id: nat)
    requires v.Valid() && Admissible(v, t)
    ensures Next(v, t).Valid()
    ensures v.Retired(id) ==> Next(v, t).Retired(id)
    ensures id in v.live && id in Next(v, t).live ==> (v.live[id].IsDir() <==> Next(v, t).live[id].IsDir())
    ensures id in v.live && id in Next(v, t).live && v.live[id].Exact? ==> Next(v, t).live[id] == v.live[id]
    ensures v.next <= id < t.next ==> id in Next(v, t).live
  {
    var last := Last(t.records);
    assert forall x :: x in last ==> RecordOk(v, x, last[x]);
    assert v.next <= id < t.next <==> id in last && last[id].LifePut? && id >= v.next;
  }

  ghost predicate IsRun(views: seq<View>, log: seq<Transaction<LifeRecord>>) {
    Steps(Next, Admissible, views, log) && views[0].Valid()
  }

  /** Over every run: a retired id never comes back, an inode never changes
      between directory and not, and a stated kind is kept for ever. */
  lemma {:induction false} LifetimesKept(views: seq<View>, log: seq<Transaction<LifeRecord>>, i: nat, j: nat, id: nat)
    requires IsRun(views, log) && i <= j < |views|
    ensures views[j].Valid() && views[i].next <= views[j].next
    ensures views[i].Retired(id) ==> views[j].Retired(id)
    ensures id in views[i].live ==> id in views[j].live || views[j].Retired(id)
    ensures id in views[i].live && id in views[j].live ==> (views[i].live[id].IsDir() <==> views[j].live[id].IsDir())
    ensures id in views[i].live && id in views[j].live && views[i].live[id].Exact? ==> views[j].live[id] == views[i].live[id]
    decreases j
  {
    hide Known.IsDir, RecordsOk, BirthsExact, LiveUpTo;
    if i < j {
      LifetimesKept(views, log, i, j - 1, id);
      Step(views[j - 1], log[j - 1], id);
    } else if j > 0 {
      LifetimesKept(views, log, j - 1, j - 1, id);
      Step(views[j - 1], log[j - 1], id);
    }
  }

  /** An id born in a run was live at its birth: allocation leaves no gaps. */
  lemma {:induction false} NoGaps(views: seq<View>, log: seq<Transaction<LifeRecord>>, j: nat, id: nat)
    requires IsRun(views, log) && j < |views| && views[0].next <= id < views[j].next
    ensures exists i :: 0 < i <= j && id in views[i].live
  {
    hide Admissible, Next, View.Valid;
    LifetimesKept(views, log, 0, j, id);
    if id < views[j - 1].next {
      NoGaps(views, log, j - 1, id);
    } else {
      LifetimesKept(views, log, j - 1, j - 1, id);
      BornLive(views[j - 1], log[j - 1], id);
    }
  }

  lemma BornLive(v: View, t: Transaction<LifeRecord>, id: nat)
    requires v.Valid() && Admissible(v, t) && v.next <= id < Next(v, t).next
    ensures id in Next(v, t).live
  {
    Step(v, t, id);
  }

  /** A loaded log is a run, so everything runs keep holds of its views. */
  lemma FoldIsRun(v: View, log: seq<Transaction<LifeRecord>>)
    requires v.Valid() && AllAccepted(Next, Admissible, v, log)
    ensures IsRun(Views(Next, v, log), log)
  {
    hide Admissible, Next, View.Valid;
    FoldSteps(Next, Admissible, v, log);
    FoldEnds(Next, Admissible, v, log);
  }

  // ---- the checks as they are made ----

  /** The inodes of a checkpoint: numbered from zero, directories first. */
  function BaseLife(dirs: nat, inodes: nat): map<nat, Known> {
    map id: nat | id < inodes :: BaseKnown(id, dirs)
  }

  function BaseKnown(id: nat, dirs: nat): Known {
    if id < dirs then BaseDir else BaseOther
  }

  ghost predicate RowsShow(rows: map<nat, LifeRecord>, dirs: nat, inodes: nat, v: View) {
    forall id: nat :: RowShows(rows, dirs, inodes, v, id)
  }

  /** One id as its row, or failing that the checkpoint, has it. */
  ghost predicate RowShows(rows: map<nat, LifeRecord>, dirs: nat, inodes: nat, v: View, id: nat) {
    && (id in rows ==> id < v.next && rows[id] != Elsewhere)
    && (id in rows && rows[id].LifePut? ==> id in v.live && v.live[id] == Exact(rows[id].kind))
    && (id in rows && rows[id].InodeDelete? ==> id !in v.live)
    && (id !in rows && id < inodes ==> id in v.live && v.live[id] == BaseKnown(id, dirs))
    && (id !in rows && id >= inodes ==> id >= v.next)
  }

  class Projection {
    const dirs: nat
    const inodes: nat
    var rows: map<nat, LifeRecord>

    constructor (dirs: nat, inodes: nat)
      requires dirs <= inodes
      ensures this.dirs == dirs && this.inodes == inodes
      ensures Shows(View(BaseLife(dirs, inodes), inodes))
    {
      this.dirs, this.inodes := dirs, inodes;
      rows := map[];
    }

    /** The rows over the checkpoint present this view: every id between the
        checkpoint's count and the counter has a row, and no id beyond it. */
    ghost predicate Shows(v: View)
      reads this
    {
      inodes <= v.next && v.Valid() && RowsShow(rows, dirs, inodes, v)
    }

    /** Whether an id names a live inode, from its row or the checkpoint. */
    predicate LiveInode(id: nat, counter: nat)
      reads this
    {
      && id < counter
      && if id in rows then rows[id].LifePut? else id < inodes
    }

    /** The lookup is right for every id there is. */
    lemma LiveInodeExact(v: View, id: nat)
      requires Shows(v)
      ensures LiveInode(id, v.next) <==> id in v.live
    {
      assert RowShows(rows, dirs, inodes, v, id);
    }

    /** Judges one inode's last record; how many inodes and directories it adds. */
    method CheckOne(id: nat, r: LifeRecord, ghost v: View, counter: nat)
      returns (ok: bool, inode: int, dir: int, birth: bool)
      requires Shows(v) && counter == v.next && r != Elsewhere && r.id == id
      ensures ok <==> RecordOk(v, id, r)
      ensures ok ==> inode == (if r.LifePut? then 1 else 0) - (if id in v.live then 1 else 0)
      ensures ok ==> dir == (if r == LifePut(id, Dir) then 1 else 0) - (if id in v.live && v.live[id].IsDir() then 1 else 0)
      ensures ok ==> (birth <==> r.LifePut? && id >= counter)
    {
      assert RowShows(rows, dirs, inodes, v, id);
      match r
      case LifePut(_, kind) =>
        if id in rows && rows[id].InodeDelete? {
          return false, 0, 0, false;
        }
        if id >= counter {
          return true, 1, if kind == Dir then 1 else 0, true;
        }
        if id in rows {
          return rows[id].kind == kind, 0, 0, false;
        }
        return (id < dirs) == (kind == Dir), 0, 0, false;
      case InodeDelete(_) =>
        if id >= counter || (id in rows && rows[id].InodeDelete?) {
          return false, 0, 0, false;
        }
        var isDir := if id in rows then rows[id].kind == Dir else id < dirs;
        return true, -1, if isDir then -1 else 0, false;
    }

    /** Checks one transaction against the rows before it: accepted exactly by
        the simple rule, with both counts exact and never below zero. */
    method CheckInodes(t: Transaction<LifeRecord>, ghost v: View, counter: nat, inodeCount: nat, dirCount: nat)
      returns (ok: bool, inodeAfter: nat, dirAfter: nat)
      requires Shows(v) && counter == v.next && v.next <= t.next
      requires inodeCount == |v.live| && dirCount == |Dirs(v.live)|
      ensures ok <==> Admissible(v, t)
      ensures ok ==> inodeAfter == |Next(v, t).live| && dirAfter == |Dirs(Next(v, t).live)|
    {
      hide *;
      var last := Last(t.records);
      LastIds(t.records);
      var ids := InOrder(last.Keys);
      var births: set<nat> := {};
      inodeAfter, dirAfter := inodeCount, dirCount;
      TallyNone(v, last);
      ghost var done: set<nat> := {};
      for i := 0 to |ids|
        invariant forall x :: x in done <==> x in ids[..i]
        invariant Tally(v, last, done, births, inodeAfter, dirAfter)
      {
        var id := ids[i];
        Unseen(ids, i);
        var ok1, inode, dir, birth := CheckOne(id, last[id], v, counter);
        if !ok1 {
          Refused(v, t, id);
          return false, 0, 0;
        }
        TallyStep(v, last, done, births, inodeAfter, dirAfter, id, inode, dir, birth);
        done := done + {id};
        if birth {
          births := births + {id};
        }
        inodeAfter, dirAfter := inodeAfter + inode, dirAfter + dir;
      }
      Whole(ids, last.Keys, done);
      TallyDone(v, t, births, inodeAfter, dirAfter);
      ok := births == Range(counter, t.next);
    }

    method Apply(t: Transaction<LifeRecord>, ghost v: View)
      requires Shows(v) && Admissible(v, t)
      modifies `rows
      ensures Shows(Next(v, t))
    {
      LastIds(t.records);
      RowsApply(rows, dirs, inodes, v, t);
      rows := rows + Last(t.records);
    }

    /** Checks a whole log and the counts its manifest states. */
    method Load(log: seq<Transaction<LifeRecord>>, ghost v: View, counter: nat, inodeCount: nat, dirCount: nat,
                statedInodes: nat, statedDirs: nat) returns (ok: bool)
      requires Shows(v) && counter == v.next && inodeCount == |v.live| && dirCount == |Dirs(v.live)|
      requires Rising(counter, log)
      modifies `rows
      ensures ok <==>
        AllAccepted(Next, Admissible, v, log) && statedInodes == |Fold(Next, v, log).live| && statedDirs == |Dirs(Fold(Next, v, log).live)|
      ensures ok ==> Shows(Fold(Next, v, log))
    {
      hide *;
      var next: nat, i0: nat, i2: nat := counter, inodeCount, dirCount;
      FoldEnds(Next, Admissible, v, log);
      CounterNone(counter, log);
      for i := 0 to |log|
        invariant AllAccepted(Next, Admissible, v, log[..i]) && Shows(Fold(Next, v, log[..i]))
        invariant next == Fold(Next, v, log[..i]).next == CounterAt(counter, log, i)
        invariant i0 == |Fold(Next, v, log[..i]).live| && i2 == |Dirs(Fold(Next, v, log[..i]).live)|
      {
        ghost var w := Fold(Next, v, log[..i]);
        FoldStep(Next, Admissible, v, log, i);
        RisingAt(counter, log, i);
        var ok1, a, b := CheckInodes(log[i], w, next, i0, i2);
        if !ok1 {
          NotAll(Next, Admissible, v, log, i);
          return false;
        }
        Apply(log[i], w);
        NextNext(w, log[i]);
        next, i0, i2 := log[i].next, a, b;
      }
      ok := i0 == statedInodes && i2 == statedDirs;
    }
  }

  lemma NextNext(v: View, t: Transaction<LifeRecord>)
    ensures Next(v, t).next == t.next
    ensures Admissible(v, t) ==> v.next <= t.next
  {
  }

  /** One id's part of the view a transaction leaves. */
  lemma ApplyOne(v: View, t: Transaction<LifeRecord>, id: nat)
    requires Admissible(v, t)
    ensures var last, live := Last(t.records), Next(v, t).live;
      && (id in last ==> (last[id].LifePut? ==> id in live && live[id] == Exact(last[id].kind)))
      && (id in last && !last[id].LifePut? ==> id !in live)
      && (id !in last ==> (id in live <==> id in v.live) && (id in live ==> live[id] == v.live[id]))
    ensures id in Last(t.records) && v.Valid() ==> id < t.next || Last(t.records)[id] == Elsewhere
    ensures id !in Last(t.records) && id >= v.next ==> id >= t.next
  {
    var last := Last(t.records);
    assert id in last ==> RecordOk(v, id, last[id]);
    assert v.next <= id < t.next <==> id in last && last[id].LifePut? && id >= v.next;
  }

  lemma RowsApply(rows: map<nat, LifeRecord>, dirs: nat, inodes: nat, v: View, t: Transaction<LifeRecord>)
    requires RowsShow(rows, dirs, inodes, v) && v.Valid() && Admissible(v, t)
    requires forall id :: id in Last(t.records) ==> Last(t.records)[id] != Elsewhere
    ensures RowsShow(rows + Last(t.records), dirs, inodes, Next(v, t)) && Next(v, t).Valid() && v.next <= Next(v, t).next
  {
    hide Admissible, Last, LiveUpTo, View.Valid;
    Step(v, t, 0);
    NextNext(v, t);
    forall id: nat
      ensures RowShows(rows + Last(t.records), dirs, inodes, Next(v, t), id)
    {
      assert RowShows(rows, dirs, inodes, v, id);
      ApplyOne(v, t, id);
    }
  }

  // ---- the loop's steps ----

  ghost predicate Tally(v: View, last: map<nat, LifeRecord>, done: set<nat>, births: set<nat>, inodes: int, dirs: int) {
    && done <= last.Keys
    && (forall id :: id in done ==> RecordOk(v, id, last[id]))
    && inodes == |LiveUpTo(v.live, last, done)| && dirs == |Dirs(LiveUpTo(v.live, last, done))|
    && (forall id :: id in births <==> id in done && last[id].LifePut? && id >= v.next)
  }

  lemma TallyNone(v: View, last: map<nat, LifeRecord>)
    ensures Tally(v, last, {}, {}, |v.live|, |Dirs(v.live)|)
  {
    assert LiveUpTo(v.live, last, {}) == v.live;
  }

  lemma TallyStep(v: View, last: map<nat, LifeRecord>, done: set<nat>, births: set<nat>, inodes: nat, dirs: nat,
                  id: nat, inode: int, dir: int, birth: bool)
    requires id in last && id !in done && last[id] != Elsewhere && last[id].id == id && RecordOk(v, id, last[id])
    requires inode == (if last[id].LifePut? then 1 else 0) - (if id in v.live then 1 else 0)
    requires dir == (if last[id] == LifePut(id, Dir) then 1 else 0) - (if id in v.live && v.live[id].IsDir() then 1 else 0)
    requires birth <==> last[id].LifePut? && id >= v.next
    requires Tally(v, last, done, births, inodes, dirs)
    ensures inodes + inode >= 0 && dirs + dir >= 0
    ensures Tally(v, last, done + {id}, if birth then births + {id} else births, inodes + inode, dirs + dir)
  {
    hide RecordOk, LiveUpTo, Dirs, Known.IsDir;
    var a, b := LiveUpTo(v.live, last, done), LiveUpTo(v.live, last, done + {id});
    OneMore(v.live, last, done, id);
    assert |a| == |a.Keys| && |b| == |b.Keys|;
    Swap(a.Keys, b.Keys, id);
    Swap(Dirs(a), Dirs(b), id);
  }

  /** Judging one more inode changes the tables only there. */
  lemma OneMore(live: map<nat, Known>, last: map<nat, LifeRecord>, done: set<nat>, id: nat)
    requires done <= last.Keys && id in last && id !in done && last[id] != Elsewhere && last[id].id == id
    ensures var a, b := LiveUpTo(live, last, done), LiveUpTo(live, last, done + {id});
      && a.Keys - {id} == b.Keys - {id}
      && Dirs(a) - {id} == Dirs(b) - {id}
      && (id in a <==> id in live) && (id in b <==> last[id].LifePut?)
      && (id in Dirs(a) <==> id in live && live[id].IsDir()) && (id in Dirs(b) <==> last[id] == LifePut(id, Dir))
  {
    var a, b := LiveUpTo(live, last, done), LiveUpTo(live, last, done + {id});
    forall x | x != id
      ensures x in a <==> x in b
      ensures x in a ==> a[x] == b[x]
    {
    }
  }

  lemma Swap(a: set<nat>, b: set<nat>, x: nat)
    requires a - {x} == b - {x}
    ensures |b| == |a| - (if x in a then 1 else 0) + (if x in b then 1 else 0)
    ensures x in a ==> |a| >= 1
  {
    Removing(a, x);
    Removing(b, x);
  }

  lemma TallyDone(v: View, t: Transaction<LifeRecord>, births: set<nat>, inodes: nat, dirs: nat)
    requires Tally(v, Last(t.records), Last(t.records).Keys, births, inodes, dirs) && v.next <= t.next
    ensures births == Range(v.next, t.next) <==> Admissible(v, t)
    ensures inodes == |Next(v, t).live| && dirs == |Dirs(Next(v, t).live)|
  {
    hide LiveUpTo, RecordOk, Last, Dirs;
    var last := Last(t.records);
    RangeMembers(v.next, t.next);
    var range := Range(v.next, t.next);
    forall id: nat
      ensures id in births <==> id in last && last[id].LifePut? && id >= v.next
      ensures id in range <==> v.next <= id < t.next
    {
    }
    if BirthsExact(v, last, t.next) {
      forall id: nat
        ensures id in births <==> id in range
      {
        assert v.next <= id < t.next <==> id in last && last[id].LifePut? && id >= v.next;
      }
      assert births == range;
    }
    if births == range {
      forall id: nat
        ensures v.next <= id < t.next <==> id in last && last[id].LifePut? && id >= v.next
      {
        assert id in births <==> id in range;
      }
    }
  }

  lemma Refused(v: View, t: Transaction<LifeRecord>, id: nat)
    requires id in Last(t.records) && !RecordOk(v, id, Last(t.records)[id])
    ensures !Admissible(v, t)
  {
  }

  lemma Unseen(ids: seq<nat>, i: nat)
    requires Ascending(ids) && i < |ids|
    ensures ids[i] !in ids[..i] && ids[..i + 1] == ids[..i] + [ids[i]]
  {
  }

  lemma Whole(ids: seq<nat>, all: set<nat>, done: set<nat>)
    requires forall x :: x in done <==> x in ids[..|ids|]
    requires forall x :: x in ids <==> x in all
    ensures done == all
  {
    assert ids[..|ids|] == ids;
  }
}
