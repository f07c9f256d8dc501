/** What a reader accepts of inode lifetimes, said of single records and of
    batches. */
module InodeLaws {
  import opened Inodes
  import opened Runs

  function Alone(r: LifeRecord, next: nat): Transaction<LifeRecord> {
    Transaction([r], next)
  }

  /** A put is accepted for the next new id under any kind, and for a live inode
      under the kind it was stated with, or one on the same side of directory. */
  lemma PutLaw(v: View, id: nat, kind: Kind, next: nat)
    requires v.Valid()
    ensures Admissible(v, Alone(LifePut(id, kind), next)) <==>
      || (id == v.next && next == v.next + 1)
      || (id in v.live && next == v.next
          && match v.live[id]
             case Exact(stated) => kind == stated
             case BaseDir => kind == Dir
             case BaseOther => kind != Dir)
    ensures Next(v, Alone(LifePut(id, kind), next)) == View(v.live[id := Exact(kind)], next)
  {
    OneRecord(v, LifePut(id, kind), next);
  }

  /** A delete is accepted for a live inode. */
  lemma DeleteLaw(v: View, id: nat, next: nat)
    requires v.Valid()
    ensures Admissible(v, Alone(InodeDelete(id), next)) <==> id in v.live && next == v.next
    ensures Next(v, Alone(InodeDelete(id), next)) == View(v.live - {id}, next)
  {
    OneRecord(v, InodeDelete(id), next);
  }

  /** Of a checkpoint's inodes the first are its directories. */
  lemma BaseDirs(dirs: nat, inodes: nat, id: nat)
    requires dirs <= inodes
    ensures id in BaseLife(dirs, inodes) <==> id < inodes
    ensures id in Dirs(BaseLife(dirs, inodes)) <==> id < dirs
  {
  }

  /** A birth adds an inode, and a directory only if it is one; a death takes
      away what it was. */
  lemma OneMoreOrLess(v: View, id: nat, kind: Kind, next: nat)
    requires v.Valid()
    ensures id >= v.next ==>
      var w := Next(v, Alone(LifePut(id, kind), next));
      w.live.Keys == v.live.Keys + {id} && Dirs(w.live) == Dirs(v.live) + if kind == Dir then {id} else {}
    ensures var w := Next(v, Alone(InodeDelete(id), next));
      w.live.Keys == v.live.Keys - {id} && Dirs(w.live) == Dirs(v.live) - {id}
  {
    hide Admissible, Next;
    PutLaw(v, id, kind, next);
    DeleteLaw(v, id, next);
  }

  /** In whatever company, an inode's last record has the subject it needs. */
  lemma EachSubject(v: View, t: Transaction<LifeRecord>, id: nat)
    requires v.Valid() && Admissible(v, t) && id in Last(t.records)
    ensures match Last(t.records)[id]
      case LifePut(_, kind) =>
        || v.next <= id < t.next
        || (id in v.live && match v.live[id]
             case Exact(stated) => kind == stated
             case BaseDir => kind == Dir
             case BaseOther => kind != Dir)
      case InodeDelete(_) => id in v.live
      case Elsewhere => false
  {
    LastIds(t.records);
    hide Last;
    BornThere(v, Last(t.records), t.next, id);
    assert RecordOk(v, id, Last(t.records)[id]);
  }

  lemma OneRecord(v: View, r: LifeRecord, next: nat)
    requires r != Elsewhere
    ensures Next(v, Alone(r, next)) == View(if r.LifePut? then v.live[r.id := Exact(r.kind)] else v.live - {r.id}, next)
    ensures Admissible(v, Alone(r, next)) <==>
      && RecordOk(v, r.id, r)
      && if r.LifePut? && r.id >= v.next then r.id == v.next && next == v.next + 1 else next == v.next
  {
    hide RecordOk;
    LastOne(r);
    var last := map[r.id := r];
    var live := if r.LifePut? then v.live[r.id := Exact(r.kind)] else v.live - {r.id};
    assert LiveUpTo(v.live, last, last.Keys) == live;
    OneBirth(v, r, last, next);
    assert r.id in last && last[r.id] == r;
  }

  lemma LastOne(r: LifeRecord)
    requires r != Elsewhere
    ensures Last([r]) == map[r.id := r]
  {
    assert [r][..0] == [];
  }

  lemma OneBirth(v: View, r: LifeRecord, last: map<nat, LifeRecord>, next: nat)
    requires r != Elsewhere && last == map[r.id := r]
    ensures v.next <= next && BirthsExact(v, last, next) <==>
      if r.LifePut? && r.id >= v.next then r.id == v.next && next == v.next + 1 else next == v.next
  {
    if v.next < next && BirthsExact(v, last, next) {
      BornThere(v, last, next, v.next);
      BornThere(v, last, next, next - 1);
    }
    if BirthsExact(v, last, next) {
      BornThere(v, last, next, r.id);
    }
  }

  lemma BornThere(v: View, last: map<nat, LifeRecord>, next: nat, id: nat)
    requires BirthsExact(v, last, next)
    ensures v.next <= id < next <==> id in last && last[id].LifePut? && id >= v.next
  {
  }

  // ---- batches ----

  /** Two accepted transactions about different inodes are accepted as one, to
      the same view. */
  lemma Batched(v: View, t: Transaction<LifeRecord>, u: Transaction<LifeRecord>)
    requires v.Valid() && Admissible(v, t) && Admissible(Next(v, t), u)
    requires Last(t.records).Keys !! Last(u.records).Keys
    ensures var both := Transaction(t.records + u.records, u.next);
      Admissible(v, both) && Next(v, both) == Next(Next(v, t), u)
  {
    hide Last, RecordOk, LiveUpTo;
    LastConcat(t.records, u.records);
    BatchedNext(v, t, u);
    forall id: nat
      ensures var last := Last(t.records) + Last(u.records);
        id in last ==> RecordOk(v, id, last[id])
      ensures var last := Last(t.records) + Last(u.records);
        v.next <= id < u.next <==> id in last && last[id].LifePut? && id >= v.next
    {
      BatchedAt(v, t, u, id);
    }
  }

  lemma BatchedNext(v: View, t: Transaction<LifeRecord>, u: Transaction<LifeRecord>)
    ensures Next(v, Transaction(t.records + u.records, u.next)) == Next(Next(v, t), u)
  {
    hide Last, Next;
    LastConcat(t.records, u.records);
    var both := Transaction(t.records + u.records, u.next);
    var w, x := Next(v, both), Next(Next(v, t), u);
    NextAt(v, both, 0);
    NextAt(Next(v, t), u, 0);
    forall id: nat
      ensures (id in w.live <==> id in x.live) && (id in w.live ==> w.live[id] == x.live[id])
    {
      NextAt(v, both, id);
      NextAt(v, t, id);
      NextAt(Next(v, t), u, id);
    }
    assert w.live == x.live;
    assert w == x;
  }

  /** What one inode's last record makes of it. */
  lemma NextAt(v: View, t: Transaction<LifeRecord>, id: nat)
    ensures var last, w := Last(t.records), Next(v, t);
      && w.next == t.next
      && (id in w.live <==> if id in last then last[id].LifePut? else id in v.live)
      && (id in w.live ==> w.live[id] == if id in last then Exact(last[id].kind) else v.live[id])
  {
    hide Last;
  }

  lemma BatchedAt(v: View, t: Transaction<LifeRecord>, u: Transaction<LifeRecord>, id: nat)
    requires v.Valid() && Admissible(v, t) && Admissible(Next(v, t), u)
    requires Last(t.records).Keys !! Last(u.records).Keys
    ensures var last := Last(t.records) + Last(u.records);
      && (id in last ==> RecordOk(v, id, last[id]))
      && (v.next <= id < u.next <==> id in last && last[id].LifePut? && id >= v.next)
  {
    hide Last, Known.Admits;
    var a, b := Last(t.records), Last(u.records);
    BornThere(v, a, t.next, id);
    BornThere(Next(v, t), b, u.next, id);
    assert id in a ==> RecordOk(v, id, a[id]);
    assert id in b ==> RecordOk(Next(v, t), id, b[id]);
  }

  lemma LastPush(a: seq<LifeRecord>, r: LifeRecord)
    ensures Last(a + [r]) == if r == Elsewhere then Last(a) else Last(a)[r.id := r]
  {
    assert (a + [r])[..|a|] == a;
  }

  /** Later records win. */
  lemma {:induction false} LastConcat(a: seq<LifeRecord>, b: seq<LifeRecord>)
    ensures Last(a + b) == Last(a) + Last(b)
  {
    if b == [] {
      assert a + b == a;
    } else {
      var front, r := b[..|b| - 1], b[|b| - 1];
      LastConcat(a, front);
      assert a + b == (a + front) + [r] && b == front + [r];
      hide Last;
      LastPush(a + front, r);
      LastPush(front, r);
    }
  }
}
