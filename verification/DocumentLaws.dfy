/** What a reader accepts of documents, said of single records and of batches:
    which puts, deletes, grants and forgets go through, and what each leaves. */
module DocumentLaws {
  import opened Dormant
  import opened Prepare
  import opened Documents
  import opened Runs
  import opened Basics

  function Alone(r: Record, next: nat): Transaction<Record> {
    Transaction([r], next)
  }

  /** What a put is accepted for: the next new id, a live document's own hash
      again, or a revival under the hash the permission keeps. */
  lemma PutLaw(v: View, id: nat, hash: nat, next: nat)
    requires v.Valid()
    ensures Admissible(v, Alone(DocPut(id, hash), next)) <==>
      || (id == v.next && next == v.next + 1)
      || (id in v.live && v.live[id] == hash && next == v.next)
      || (id in v.dormant && v.dormant[id] == hash && next == v.next)
    ensures Next(v, Alone(DocPut(id, hash), next)) == View(v.live[id := hash], v.dormant - {id}, next)
  {
    hide Admissible, Next, Final;
    OneAdmissible(v, DocPut(id, hash), id, next);
    OneNext(v, DocPut(id, hash), id, next);
    FewerInjective(v.dormant, id);
  }

  /** A delete is accepted for a live document. */
  lemma DeleteLaw(v: View, id: nat, next: nat)
    requires v.Valid()
    ensures Admissible(v, Alone(DocDelete(id), next)) <==> id in v.live && next == v.next
    ensures Next(v, Alone(DocDelete(id), next)) == View(v.live - {id}, v.dormant - {id}, next)
  {
    hide Admissible, Next, Final;
    OneAdmissible(v, DocDelete(id), id, next);
    OneNext(v, DocDelete(id), id, next);
    FewerInjective(v.dormant, id);
  }

  /** A permission is granted to a dying document for its own hash, if no other
      has that hash and there is room. */
  lemma GrantLaw(v: View, id: nat, hash: nat, next: nat)
    requires v.Valid()
    ensures Admissible(v, Alone(DocDormant(id, hash), next)) <==>
      && id in v.live && v.live[id] == hash && next == v.next
      && (forall other :: other in v.dormant ==> v.dormant[other] != hash) && |v.dormant| < CAP
    ensures Next(v, Alone(DocDormant(id, hash), next)) == View(v.live - {id}, v.dormant[id := hash], next)
  {
    hide Admissible, Next, Final;
    OneAdmissible(v, DocDormant(id, hash), id, next);
    OneNext(v, DocDormant(id, hash), id, next);
    if id in v.live {
      MoreInjective(v.dormant, id, hash);
    }
  }

  /** A forget is accepted for a kept permission, and ends it. */
  lemma ForgetLaw(v: View, id: nat, next: nat)
    requires v.Valid()
    ensures Admissible(v, Alone(DocForget(id), next)) <==> id in v.dormant && next == v.next
    ensures Next(v, Alone(DocForget(id), next)) == View(v.live - {id}, v.dormant - {id}, next)
  {
    hide Admissible, Next, Final;
    OneAdmissible(v, DocForget(id), id, next);
    OneNext(v, DocForget(id), id, next);
    FewerInjective(v.dormant, id);
  }

  /** In whatever company, a document's last record has the subject it needs. */
  lemma EachSubject(v: View, t: Transaction<Record>, id: nat)
    requires v.Valid() && Admissible(v, t) && id in Final(t.records)
    ensures match Final(t.records)[id]
      case DocPut(_, hash) =>
        v.next <= id < t.next || (id in v.live && v.live[id] == hash) || (id in v.dormant && v.dormant[id] == hash)
      case DocDelete(_) => id in v.live
      case DocDormant(_, hash) => id in v.live && v.live[id] == hash
      case DocForget(_) => id in v.dormant
      case Other => false
  {
    hide Final, Admissible, View.Valid;
    AdmissibleAt(v, t, id);
    ValidAt(v, id);
    NextAt(v, t, id);
  }

  function LiveWith(v: View, r: Record, id: nat): map<nat, nat> {
    if r.DocPut? then v.live[id := r.hash] else v.live - {id}
  }

  function DormantWith(v: View, r: Record, id: nat): map<nat, nat> {
    if r.DocDormant? then v.dormant[id := r.hash] else v.dormant - {id}
  }

  lemma OneNext(v: View, r: Record, id: nat, next: nat)
    requires DocOf(r) == Some(id)
    ensures Next(v, Alone(r, next)) == View(LiveWith(v, r, id), DormantWith(v, r, id), next)
  {
    hide Final, Next, DocOf;
    FinalOne(r);
    var w, live, dormant := Next(v, Alone(r, next)), LiveWith(v, r, id), DormantWith(v, r, id);
    NextAt(v, Alone(r, next), 0);
    forall x: nat
      ensures (x in w.live <==> x in live) && (x in w.live ==> w.live[x] == live[x])
      ensures (x in w.dormant <==> x in dormant) && (x in w.dormant ==> w.dormant[x] == dormant[x])
    {
      NextAt(v, Alone(r, next), x);
    }
    assert w.live == live && w.dormant == dormant;
    assert w == View(live, dormant, next);
  }

  lemma OneAdmissible(v: View, r: Record, id: nat, next: nat)
    requires DocOf(r) == Some(id)
    ensures var dormant := DormantWith(v, r, id);
      Admissible(v, Alone(r, next)) <==>
        && RecordOk(v, id, r)
        && (if r.DocPut? && id >= v.next then id == v.next && next == v.next + 1 else next == v.next)
        && Injective(dormant) && |dormant| <= CAP
  {
    hide Final, RecordOk, Injective, DormantAfter, BirthsExact;
    FinalOne(r);
    OneNext(v, r, id, next);
    OneBirth(v, r, id, map[id := r], next);
    assert RecordsOk(v, map[id := r]) <==> RecordOk(v, id, r) by {
      assert map[id := r][id] == r && id in map[id := r];
    }
  }

  /** One record gives birth to its id if it puts one not yet allocated. */
  lemma OneBirth(v: View, r: Record, id: nat, last: map<nat, Record>, next: nat)
    requires last == map[id := r]
    ensures v.next <= next && BirthsExact(v, last, next) <==>
      if r.DocPut? && id >= v.next then id == v.next && next == v.next + 1 else next == v.next
  {
    if v.next < next && BirthsExact(v, last, next) {
      BornThere(v, last, next, v.next);
      BornThere(v, last, next, next - 1);
    }
    if BirthsExact(v, last, next) {
      BornThere(v, last, next, id);
    }
  }

  lemma BornThere(v: View, last: map<nat, Record>, next: nat, id: nat)
    requires BirthsExact(v, last, next)
    ensures v.next <= id < next <==> id in last && last[id].DocPut? && id >= v.next
  {
  }

  lemma FewerInjective(table: map<nat, nat>, id: nat)
    requires Injective(table)
    ensures Injective(table - {id}) && |table - {id}| <= |table|
  {
    SubsetSize((table - {id}).Keys, table.Keys);
  }

  lemma MoreInjective(table: map<nat, nat>, id: nat, hash: nat)
    requires Injective(table) && id !in table
    ensures Injective(table[id := hash]) <==> forall other :: other in table ==> table[other] != hash
    ensures |table[id := hash]| == |table| + 1
  {
    var more := table[id := hash];
    assert more.Keys == table.Keys + {id};
    assert forall other :: other in table ==> other in more && more[other] == table[other];
    assert id in more && more[id] == hash;
  }

  // ---- batches ----

  /** Two accepted transactions about different documents are accepted as one,
      to the same view. */
  lemma Batched(v: View, t: Transaction<Record>, u: Transaction<Record>)
    requires v.Valid() && Admissible(v, t) && Admissible(Next(v, t), u)
    requires Final(t.records).Keys !! Final(u.records).Keys
    ensures var both := Transaction(t.records + u.records, u.next);
      Admissible(v, both) && Next(v, both) == Next(Next(v, t), u)
  {
    hide Final, RecordOk, Injective, DormantAfter, LiveAfter;
    FinalConcat(t.records, u.records);
    BatchedNext(v, t, u);
    forall id: nat
      ensures var last := Final(t.records) + Final(u.records);
        id in last ==> RecordOk(v, id, last[id])
      ensures var last := Final(t.records) + Final(u.records);
        v.next <= id < u.next <==> id in last && last[id].DocPut? && id >= v.next
    {
      BatchedAt(v, t, u, id);
    }
  }

  lemma BatchedNext(v: View, t: Transaction<Record>, u: Transaction<Record>)
    ensures Next(v, Transaction(t.records + u.records, u.next)) == Next(Next(v, t), u)
  {
    hide Final, Next;
    FinalConcat(t.records, u.records);
    var both := Transaction(t.records + u.records, u.next);
    var w, x := Next(v, both), Next(Next(v, t), u);
    NextAt(v, both, 0);
    NextAt(Next(v, t), u, 0);
    forall id: nat
      ensures (id in w.live <==> id in x.live) && (id in w.live ==> w.live[id] == x.live[id])
      ensures (id in w.dormant <==> id in x.dormant) && (id in w.dormant ==> w.dormant[id] == x.dormant[id])
    {
      NextAt(v, both, id);
      NextAt(v, t, id);
      NextAt(Next(v, t), u, id);
    }
    assert w.live == x.live && w.dormant == x.dormant;
    assert w == x;
  }

  lemma BatchedAt(v: View, t: Transaction<Record>, u: Transaction<Record>, id: nat)
    requires v.Valid() && Admissible(v, t) && Admissible(Next(v, t), u)
    requires Final(t.records).Keys !! Final(u.records).Keys
    ensures var last := Final(t.records) + Final(u.records);
      && (id in last ==> RecordOk(v, id, last[id]))
      && (v.next <= id < u.next <==> id in last && last[id].DocPut? && id >= v.next)
  {
    hide Final, Next, Admissible, View.Valid;
    AdmissibleAt(v, t, id);
    AdmissibleAt(Next(v, t), u, id);
    NextAt(v, t, id);
    ValidAt(v, id);
  }

  lemma FinalPush(a: seq<Record>, r: Record)
    ensures Final(a + [r]) == if DocOf(r).Some? then Final(a)[DocOf(r).value := r] else Final(a)
  {
    assert (a + [r])[..|a|] == a;
  }

  /** Later records win. */
  lemma {:induction false} FinalConcat(a: seq<Record>, b: seq<Record>)
    ensures Final(a + b) == Final(a) + Final(b)
  {
    if b == [] {
      assert a + b == a;
    } else {
      var front, r := b[..|b| - 1], b[|b| - 1];
      FinalConcat(a, front);
      assert a + b == (a + front) + [r] && b == front + [r];
      hide Final, DocOf;
      FinalPush(a + front, r);
      FinalPush(front, r);
    }
  }
}
