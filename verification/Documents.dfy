/** Document lifetimes over a log of checked transactions: permanent hash
    bindings, holes, exact live counts, and unique capped permissions. */
module Documents {
  import opened Dormant
  import opened Preparing = Prepare
  import opened Sorting
  import opened Runs
  import opened Basics

  /** Live documents, retained permissions, and the next id to allocate. */
  datatype View = View(live: map<nat, nat>, dormant: map<nat, nat>, next: nat) {
    ghost predicate Valid() {
      && live.Keys !! dormant.Keys
      && (forall id :: id in live || id in dormant ==> id < next)
      && Injective(dormant) && |dormant| <= CAP
    }

    /** Assigned once, and gone for good: deleted without permission, or forgotten. */
    predicate Dead(id: nat) {
      id < next && id !in live && id !in dormant
    }
  }

  ghost predicate Injective(table: map<nat, nat>) {
    forall a, b :: a in table && b in table && table[a] == table[b] ==> a == b
  }

  ghost predicate Inverse(table: map<nat, nat>, lookup: map<nat, nat>) {
    && (forall hash :: hash in lookup ==> lookup[hash] in table && table[lookup[hash]] == hash)
    && (forall id :: id in table ==> table[id] in lookup && lookup[table[id]] == id)
  }

  // ---- the simple rule ----

  /** What one document's last record may do, given the view before. */
  predicate RecordOk(v: View, id: nat, r: Record) {
    match r
    case DocPut(_, hash) =>
      || id >= v.next
      || (id in v.live && v.live[id] == hash)
      || (id !in v.live && id in v.dormant && v.dormant[id] == hash)
    case DocDelete(_) => id in v.live
    case DocDormant(_, hash) => id in v.live && v.live[id] == hash
    case DocForget(_) => id in v.dormant
    case Other => true
  }

  /** The ids a transaction gives birth to are exactly the ones it allocates. */
  ghost predicate BirthsExact(v: View, last: map<nat, Record>, next: nat) {
    forall id: nat :: v.next <= id < next <==> id in last && last[id].DocPut? && id >= v.next
  }

  ghost predicate Admissible(v: View, t: Transaction<Record>) {
    var last := Final(t.records);
    && v.next <= t.next
    && RecordsOk(v, last)
    && BirthsExact(v, last, t.next)
    && Injective(DormantAfter(v.dormant, t.records)) && |DormantAfter(v.dormant, t.records)| <= CAP
  }

  ghost function Next(v: View, t: Transaction<Record>): View {
    View(LiveAfter(v.live, t.records), DormantAfter(v.dormant, t.records), t.next)
  }

  /** Accepted transactions keep the view well formed. */
  lemma NextValid(v: View, t: Transaction<Record>)
    requires v.Valid() && Admissible(v, t)
    ensures Next(v, t).Valid()
  {
    hide *;
    forall id: nat
      ensures IdValid(Next(v, t), id)
    {
      NextAt(v, t, id);
      AdmissibleAt(v, t, id);
      ValidAt(v, id);
      NextIdValid(v, t, id);
    }
    AllValid(v, t);
  }

  /** One id of a well formed view. */
  predicate IdValid(v: View, id: nat) {
    && !(id in v.live && id in v.dormant)
    && (id in v.live || id in v.dormant ==> id < v.next)
  }

  lemma ValidAt(v: View, id: nat)
    requires v.Valid()
    ensures IdValid(v, id)
  {
    hide Injective;
  }

  lemma AllValid(v: View, t: Transaction<Record>)
    requires Admissible(v, t) && forall id: nat :: IdValid(Next(v, t), id)
    ensures Next(v, t).Valid()
  {
    hide Injective, DormantAfter, LiveAfter, RecordsOk, BirthsExact;
    var w := Next(v, t);
    assert forall id :: id in w.live || id in w.dormant ==> IdValid(w, id);
  }

  /** What one document's last record makes of it. */
  lemma NextAt(v: View, t: Transaction<Record>, id: nat)
    ensures var last, w := Final(t.records), Next(v, t);
      && w.next == t.next
      && (id in w.live <==> if id in last then last[id].DocPut? else id in v.live)
      && (id in w.live ==> w.live[id] == if id in last then last[id].hash else v.live[id])
      && (id in w.dormant <==> if id in last then last[id].DocDormant? else id in v.dormant)
      && (id in w.dormant ==> w.dormant[id] == if id in last then last[id].hash else v.dormant[id])
    ensures id in Final(t.records) ==> DocOf(Final(t.records)[id]) == Some(id)
  {
    hide Final;
    FinalIds(t.records);
  }

  lemma AdmissibleAt(v: View, t: Transaction<Record>, id: nat)
    requires Admissible(v, t)
    ensures v.next <= t.next && (id in Final(t.records) ==> RecordOk(v, id, Final(t.records)[id]))
    ensures v.next <= id < t.next <==> id in Final(t.records) && Final(t.records)[id].DocPut? && id >= v.next
  {
    hide Final, Injective, DormantAfter, RecordOk;
    assert v.next <= id < t.next <==> id in Final(t.records) && Final(t.records)[id].DocPut? && id >= v.next;
  }

  lemma NextIdValid(v: View, t: Transaction<Record>, id: nat)
    requires IdValid(v, id) && v.next <= t.next
    requires id in Final(t.records) ==> RecordOk(v, id, Final(t.records)[id])
    requires v.next <= id < t.next <==> id in Final(t.records) && Final(t.records)[id].DocPut? && id >= v.next
    requires var last, w := Final(t.records), Next(v, t);
      && w.next == t.next
      && (id in w.live <==> if id in last then last[id].DocPut? else id in v.live)
      && (id in w.dormant <==> if id in last then last[id].DocDormant? else id in v.dormant)
    ensures IdValid(Next(v, t), id)
  {
    hide Final, Next;
  }

  ghost predicate IsRun(views: seq<View>, log: seq<Transaction<Record>>) {
    Steps(Next, Admissible, views, log) && views[0].Valid()
  }

  lemma {:induction false} RunValid(views: seq<View>, log: seq<Transaction<Record>>, i: nat)
    requires IsRun(views, log) && i < |views|
    ensures views[i].Valid()
  {
    hide Admissible, Next, View.Valid;
    if i > 0 {
      RunValid(views, log, i - 1);
      NextValid(views[i - 1], log[i - 1]);
    }
  }

  /** The hash a document has, live or retained. */
  predicate HasHash(v: View, id: nat, hash: nat) {
    (id in v.live && v.live[id] == hash) || (id in v.dormant && v.dormant[id] == hash)
  }

  lemma StepBinding(v: View, t: Transaction<Record>, id: nat, hash: nat)
    requires v.Valid() && Admissible(v, t)
    ensures HasHash(v, id, hash) ==> HasHash(Next(v, t), id, hash) || Next(v, t).Dead(id)
    ensures v.Dead(id) ==> Next(v, t).Dead(id)
    ensures id < v.next ==> id < t.next
  {
    hide Final, Next, Admissible, View.Valid;
    NextAt(v, t, id);
    AdmissibleAt(v, t, id);
    ValidAt(v, id);
  }

  /** A document keeps one hash for ever, through death and revival, and once
      deleted without permission or forgotten it never comes back. */
  lemma {:induction false} BoundForever(views: seq<View>, log: seq<Transaction<Record>>, i: nat, j: nat, id: nat, hash: nat)
    requires IsRun(views, log) && i <= j < |views|
    ensures HasHash(views[i], id, hash) ==> HasHash(views[j], id, hash) || views[j].Dead(id)
    ensures views[i].Dead(id) ==> views[j].Dead(id)
    decreases j
  {
    hide Admissible, Next, HasHash, View.Valid, View.Dead;
    if i < j {
      BoundForever(views, log, i, j - 1, id, hash);
      RunValid(views, log, j - 1);
      StepBinding(views[j - 1], log[j - 1], id, hash);
    }
  }

  /** At any two points of a run a document has at most one hash. */
  lemma OneHash(views: seq<View>, log: seq<Transaction<Record>>, i: nat, j: nat, id: nat, a: nat, b: nat)
    requires IsRun(views, log) && i <= j < |views|
    requires HasHash(views[i], id, a) && HasHash(views[j], id, b)
    ensures a == b
  {
    BoundForever(views, log, i, j, id, a);
    RunValid(views, log, j);
  }

  /** An id allocated in a run was live at its birth: there are no gaps. */
  lemma {:induction false} NoGaps(views: seq<View>, log: seq<Transaction<Record>>, j: nat, id: nat)
    requires IsRun(views, log) && j < |views| && views[0].next <= id < views[j].next
    ensures exists i :: 0 < i <= j && id in views[i].live
  {
    hide Admissible, Next, View.Valid;
    if id < views[j - 1].next {
      NoGaps(views, log, j - 1, id);
    } else {
      RunValid(views, log, j - 1);
      BornLive(views[j - 1], log[j - 1], id);
    }
  }

  lemma BornLive(v: View, t: Transaction<Record>, id: nat)
    requires v.Valid() && Admissible(v, t) && v.next <= id < Next(v, t).next
    ensures id in Next(v, t).live
  {
    FinalIds(t.records);
    assert id in Final(t.records);
  }

  /** Judged one after another, accepted transactions are a run. */
  lemma FoldIsRun(v: View, log: seq<Transaction<Record>>)
    requires v.Valid() && AllAccepted(Next, Admissible, v, log)
    ensures IsRun(Views(Next, v, log), log)
  {
    hide Admissible, Next, View.Valid;
    FoldSteps(Next, Admissible, v, log);
    FoldEnds(Next, Admissible, v, log);
  }

  /** Some run of accepted transactions goes from the one set of live documents
      to the other in its last step. */
  ghost predicate Follow(live: map<nat, nat>, live': map<nat, nat>) {
    exists views: seq<View>, log: seq<Transaction<Record>> ::
      IsRun(views, log) && |log| > 0 && views[|log| - 1].live == live && views[|log|].live == live'
  }

  /** Nothing keeps two live documents from one hash: births are not compared
      with the live, and either holder can die alone. */
  lemma TwoHolders()
    ensures Follow(map[0 := 7, 1 := 7], map[0 := 7])
  {
    hide Admissible, Next;
    TwoBirths();
    OneDeath();
    var views := [View(map[], map[], 0), View(map[0 := 7, 1 := 7], map[], 2), View(map[0 := 7], map[], 2)];
    var log := [Transaction([DocPut(0, 7), DocPut(1, 7)], 2), Transaction([DocDelete(1)], 2)];
    assert IsRun(views, log);
  }

  lemma TwoBirths()
    ensures var v, t := View(map[], map[], 0), Transaction([DocPut(0, 7), DocPut(1, 7)], 2);
      Admissible(v, t) && Next(v, t) == View(map[0 := 7, 1 := 7], map[], 2)
  {
    var v, t := View(map[], map[], 0), Transaction([DocPut(0, 7), DocPut(1, 7)], 2);
    FinalPair(DocPut(0, 7), DocPut(1, 7));
    Becomes(v, t, map[0 := DocPut(0, 7), 1 := DocPut(1, 7)], map[0 := 7, 1 := 7]);
  }

  lemma OneDeath()
    ensures var v, t := View(map[0 := 7, 1 := 7], map[], 2), Transaction([DocDelete(1)], 2);
      Admissible(v, t) && Next(v, t) == View(map[0 := 7], map[], 2)
  {
    var v, t := View(map[0 := 7, 1 := 7], map[], 2), Transaction([DocDelete(1)], 2);
    FinalOne(DocDelete(1));
    Becomes(v, t, map[1 := DocDelete(1)], map[0 := 7]);
  }

  /** A transaction that grants no permission, in a view that has none. */
  lemma Becomes(v: View, t: Transaction<Record>, last: map<nat, Record>, live: map<nat, nat>)
    requires v.dormant == map[] && v.next <= t.next && Final(t.records) == last
    requires RecordsOk(v, last) && BirthsExact(v, last, t.next)
    requires forall id :: id in last ==> !last[id].DocDormant? && (last[id].DocPut? ==> id in live && live[id] == last[id].hash)
    requires forall id :: id in live <==> if id in last then last[id].DocPut? else id in v.live
    requires forall id :: id in live && id !in last ==> live[id] == v.live[id]
    ensures Admissible(v, t) && Next(v, t) == View(live, map[], t.next)
  {
    hide Final, RecordsOk, BirthsExact;
    assert DormantAfter(v.dormant, t.records) == map[];
    assert LiveAfter(v.live, t.records) == live;
  }

  lemma FinalOne(a: Record)
    requires DocOf(a).Some?
    ensures Final([a]) == map[DocOf(a).value := a]
  {
    assert [a][..0] == [];
  }

  lemma FinalPair(a: Record, b: Record)
    requires DocOf(a).Some? && DocOf(b).Some?
    ensures Final([a, b]) == map[DocOf(a).value := a][DocOf(b).value := b]
  {
    assert [a, b][..1] == [a];
    FinalOne(a);
  }

  /** What a writer prepares always passes a reader's checks: if the records are
      in order, so is the change set with its covered deaths and evictions. */
  method PrepareTransaction(v: View, t: Transaction<Record>, coverage: Option<Coverage>, cap: nat) returns (prepared: Transaction<Record>)
    requires v.Valid() && |v.dormant| <= cap && v.next <= t.next
    requires forall r :: r in t.records ==> !r.DocDormant?
    requires RecordsOk(v, Final(t.records)) && BirthsExact(v, Final(t.records), t.next)
    ensures Admissible(v, prepared) && prepared.next == t.next
    ensures Next(v, prepared).live == Next(v, t).live
    ensures |Next(v, prepared).dormant| <= cap
  {
    hide *;
    ValidConsistent(v, cap);
    var records := Prepare(v.live, v.dormant, t.records, coverage, cap);
    prepared := Transaction(records, t.next);
    PreparedOk(v, t, records);
    CanonicalInjective(Claims(v.live, v.dormant, t.records, coverage), Min(cap, CAP), DormantAfter(v.dormant, records));
    PreparedAdmissible(v, t, prepared, cap);
  }

  lemma ValidConsistent(v: View, cap: nat)
    requires v.Valid() && |v.dormant| <= cap
    ensures Consistent(v.live, v.dormant) && |v.dormant| <= Min(cap, CAP)
  {
  }

  lemma PreparedOk(v: View, t: Transaction<Record>, prepared: seq<Record>)
    requires v.Valid() && PreparedFrom(v.live, v.dormant, Final(t.records), Final(prepared))
    requires RecordsOk(v, Final(t.records)) && BirthsExact(v, Final(t.records), t.next)
    ensures RecordsOk(v, Final(prepared)) && BirthsExact(v, Final(prepared), t.next)
  {
    hide Final;
    var last, after := Final(t.records), Final(prepared);
    forall id: nat
      ensures id in after ==> RecordOk(v, id, after[id])
      ensures v.next <= id < t.next <==> id in after && after[id].DocPut? && id >= v.next
    {
      assert id in last ==> RecordOk(v, id, last[id]);
      assert v.next <= id < t.next <==> id in last && last[id].DocPut? && id >= v.next;
      assert PreparedAt(v.live, v.dormant, last, after, id);
    }
  }

  lemma CanonicalInjective(table: map<nat, nat>, limit: nat, r: map<nat, nat>)
    requires Canonical(table, limit, r)
    ensures Injective(r) && |r| <= limit
  {
    assert |r| == |r.Keys|;
    forall a, b | a in r && b in r && r[a] == r[b]
      ensures a == b
    {
      assert a in Winners(table) && b in Winners(table);
    }
  }

  lemma PreparedAdmissible(v: View, t: Transaction<Record>, prepared: Transaction<Record>, cap: nat)
    requires v.next <= t.next && prepared.next == t.next
    requires RecordsOk(v, Final(prepared.records)) && BirthsExact(v, Final(prepared.records), t.next)
    requires Injective(DormantAfter(v.dormant, prepared.records)) && |DormantAfter(v.dormant, prepared.records)| <= Min(cap, CAP)
    requires LiveAfter(v.live, prepared.records) == LiveAfter(v.live, t.records)
    ensures Admissible(v, prepared) && Next(v, prepared).live == Next(v, t).live && |Next(v, prepared).dormant| <= cap
  {
    hide Final, RecordsOk, BirthsExact, Injective, DormantAfter, LiveAfter;
  }

  // ---- the checks as they are made ----

  /** The checkpoint's tables; the log's rows override them. */
  datatype Base = Base(live: map<nat, nat>, dormant: map<nat, nat>, next: nat) {
    ghost predicate Valid() {
      View(live, dormant, next).Valid()
    }
  }

  function LiveIn(base: Base, rows: map<nat, Record>, id: nat): Option<nat> {
    if id in rows then (if rows[id].DocPut? then Some(rows[id].hash) else None)
    else if id in base.live then Some(base.live[id]) else None
  }

  function RetainedIn(base: Base, rows: map<nat, Record>, id: nat): Option<nat> {
    if id in rows then (if rows[id].DocDormant? then Some(rows[id].hash) else None)
    else if id in base.dormant then Some(base.dormant[id]) else None
  }

  ghost predicate RowsPresent(base: Base, rows: map<nat, Record>, v: View) {
    forall id: nat :: RowPresents(base, rows, v, id)
  }

  ghost predicate RowPresents(base: Base, rows: map<nat, Record>, v: View, id: nat) {
    && LiveIn(base, rows, id) == (if id in v.live then Some(v.live[id]) else None)
    && RetainedIn(base, rows, id) == (if id in v.dormant then Some(v.dormant[id]) else None)
  }

  lemma PresentsApply(base: Base, rows: map<nat, Record>, v: View, t: Transaction<Record>)
    requires RowsPresent(base, rows, v)
    ensures RowsPresent(base, rows + Final(t.records), Next(v, t))
  {
    hide Final, Next;
    forall id: nat
      ensures RowPresents(base, rows + Final(t.records), Next(v, t), id)
    {
      assert RowPresents(base, rows, v, id);
      NextAt(v, t, id);
    }
  }

  class Projection {
    const base: Base
    var rows: map<nat, Record>
    var retained: map<nat, nat>      // hash to id, as the lookup keeps it
    var count: nat                   // how many permissions

    /** A checkpoint's tables with no rows over them; its permissions ordered by hash. */
    constructor (base: Base)
      requires base.Valid()
      ensures this.base == base && Shows(View(base.live, base.dormant, base.next))
    {
      this.base := base;
      rows := map[];
      retained := map id | id in base.dormant :: base.dormant[id] := id;
      count := |base.dormant|;
      new;
      InverseOf(base.dormant, retained);
    }

    /** A document's hash if it is live. */
    function Live(id: nat): Option<nat>
      reads `rows
    {
      LiveIn(base, rows, id)
    }

    /** A document's hash if it is retained. */
    function Retained(id: nat): Option<nat>
      reads `rows
    {
      RetainedIn(base, rows, id)
    }

    /** The rows over the base present this view. */
    ghost predicate Presents(v: View)
      reads `rows
    {
      RowsPresent(base, rows, v)
    }

    /** The lookup is the permissions' inverse, counted exactly. */
    ghost predicate Shows(v: View)
      reads this
    {
      v.Valid() && Presents(v) && Inverse(v.dormant, retained) && count == |v.dormant|
    }

    /** Judges one document's last record, and whether it adds or takes a live one. */
    method CheckDoc(id: nat, r: Record, ghost v: View, counter: nat) returns (ok: bool, change: int, birth: bool)
      requires Shows(v) && counter == v.next && DocOf(r) == Some(id)
      ensures ok <==> RecordOk(v, id, r)
      ensures ok ==> change == (if r.DocPut? then 1 else 0) - (if id in v.live then 1 else 0)
      ensures ok ==> (birth <==> r.DocPut? && id >= counter)
    {
      hide Shows, View.Valid;
      ShowsAt(this, v, id);
      var live, dormant := Live(id), Retained(id);
      match r
      case DocPut(_, hash) =>
        if id >= counter {
          return true, 1, true;
        }
        var held := if live.Some? then live else dormant;
        if held == None || held.value != hash {
          return false, 0, false;
        }
        return true, if live.None? then 1 else 0, false;
      case DocForget(_) =>
        return dormant.Some?, 0, false;
      case DocDelete(_) =>
        return live.Some?, -1, false;
      case DocDormant(_, hash) =>
        return live == Some(hash), -1, false;
    }

    /** Accepts a transaction's document records in view `v` or not, and brings
        the live count forward; the count never runs below zero. */
    method CheckDocs(t: Transaction<Record>, ghost v: View, counter: nat, before: nat) returns (r: Option<nat>)
      requires Shows(v) && counter == v.next && before == |v.live| && v.next <= t.next
      ensures r.Some? <==> RecordsOk(v, Final(t.records)) && BirthsExact(v, Final(t.records), t.next)
      ensures r.Some? ==> r.value == |LiveAfter(v.live, t.records)|
    {
      hide *;
      var last := Final(t.records);
      FinalIds(t.records);
      var ids := InOrder(last.Keys);
      var births: set<nat> := {};
      var counted: nat := before;
      TallyNone(v, last, ids);
      for i := 0 to |ids|
        invariant Tally(v, last, ids[..i], births, counted)
      {
        var id := ids[i];
        RecordsNeed(v, last, id);
        Unseen(ids, i);
        var ok, change, birth := CheckDoc(id, last[id], v, counter);
        if !ok {
          return None;
        }
        TallyStep(v, last, ids, i, births, counted, change, birth);
        if birth {
          births := births + {id};
        }
        counted := counted + change;
      }
      TallyDone(v, t, ids, births, counted);
      r := if births == Range(counter, t.next) then Some(counted) else None;
    }

    /** Moves the permissions on by one transaction, at the cost of its changed
        rows only: exactly when the whole new table would be unique and within
        the cap, and with nothing changed otherwise. */
    method AdvanceDormant(t: Transaction<Record>, ghost v: View) returns (ok: bool)
      requires Shows(v)
      modifies `retained, `count
      ensures ok <==> Injective(DormantAfter(v.dormant, t.records)) && |DormantAfter(v.dormant, t.records)| <= CAP
      ensures ok ==> Inverse(DormantAfter(v.dormant, t.records), retained) && count == |DormantAfter(v.dormant, t.records)|
      ensures !ok ==> retained == old(retained) && count == old(count)
    {
      hide *;
      var removed, added := Changes(t, v);
      ghost var after := DormantAfter(v.dormant, t.records);
      ShowsLookup(this, v);
      ChangesSum(v.dormant, t.records, removed, added);
      var lookup: map<nat, nat> := retained;
      NoneRemoved(v.dormant, removed);
      for i := 0 to |removed|
        invariant Inverse(Without(v.dormant, removed[..i]), lookup)
        invariant retained == old(retained) && count == old(count)
      {
        RemoveStep(v.dormant, removed, i, lookup);
        lookup := lookup - {removed[i].hash};
      }
      ghost var kept := Without(v.dormant, removed);
      NoneAdded(v.dormant, removed, added);
      for i := 0 to |added|
        invariant Inverse(With(kept, added[..i]), lookup)
        invariant retained == old(retained) && count == old(count)
      {
        AddStep(kept, added, i, lookup);
        if added[i].hash in lookup {
          return false;
        }
        lookup := lookup[added[i].hash := added[i].id];
      }
      AllAdded(kept, added, lookup);
      var counted: nat := count - |removed| + |added|;
      if counted > CAP {
        return false;
      }
      retained, count := lookup, counted;
      ok := true;
    }

    /** The permissions a transaction's last records take away and grant. */
    method Changes(t: Transaction<Record>, ghost v: View) returns (removed: seq<Row>, added: seq<Row>)
      requires Shows(v)
      ensures AscendingIds(removed) && AscendingIds(added)
      ensures forall r :: r in removed <==> r.id in Final(t.records) && r.id in v.dormant && v.dormant[r.id] == r.hash
      ensures forall r :: r in added <==> r.id in Final(t.records) && Final(t.records)[r.id] == DocDormant(r.id, r.hash)
    {
      hide *;
      var last := Final(t.records);
      FinalIds(t.records);
      var ids := InOrder(last.Keys);
      removed, added := [], [];
      ListsNone(v, last, ids);
      for i := 0 to |ids|
        invariant Lists(v, last, ids[..i], removed, added)
      {
        var id := ids[i];
        ShowsAt(this, v, id);
        ListsStep(v, last, ids, i, removed, added);
        var prior := Retained(id);
        if prior.Some? {
          removed := removed + [Row(id, prior.value)];
        }
        if last[id].DocDormant? {
          added := added + [Row(id, last[id].hash)];
        }
      }
      ListsDone(v, last, ids, removed, added);
    }

    /** The transaction's last records become the rows. */
    method Apply(t: Transaction<Record>, ghost v: View)
      requires Presents(v)
      modifies `rows
      ensures Presents(Next(v, t))
    {
      hide Final, Next, DormantAfter, LiveAfter;
      PresentsApply(base, rows, v, t);
      rows := rows + Final(t.records);
    }

    /** Checks a log of transactions, one after another, and the count its
        manifest states: accepted exactly when every transaction is admissible
        to the simple rule and the count is the live documents' number. */
    method Load(log: seq<Transaction<Record>>, ghost v: View, counter: nat, before: nat, stated: nat) returns (ok: bool)
      requires Shows(v) && counter == v.next && before == |v.live|
      requires Rising(counter, log)
      modifies `rows, `retained, `count
      ensures ok <==> AllAccepted(Next, Admissible, v, log) && stated == |Fold(Next, v, log).live|
      ensures ok ==> Shows(Fold(Next, v, log))
    {
      hide *;
      var next: nat, counted: nat := counter, before;
      FoldEnds(Next, Admissible, v, log);
      CounterNone(counter, log);
      for i := 0 to |log|
        invariant AllAccepted(Next, Admissible, v, log[..i]) && Shows(Fold(Next, v, log[..i]))
        invariant next == Fold(Next, v, log[..i]).next && counted == |Fold(Next, v, log[..i]).live|
        invariant next == CounterAt(counter, log, i)
      {
        ghost var w := Fold(Next, v, log[..i]);
        FoldStep(Next, Admissible, v, log, i);
        RisingAt(counter, log, i);
        ShowsPresents(this, w);
        var checked := CheckDocs(log[i], w, next, counted);
        if checked == None {
          NotAdmissible(w, log[i]);
          NotAll(Next, Admissible, v, log, i);
          return false;
        }
        var advanced := AdvanceDormant(log[i], w);
        if !advanced {
          NotAdmissible(w, log[i]);
          NotAll(Next, Admissible, v, log, i);
          return false;
        }
        IsAdmissible(w, log[i]);
        NextValid(w, log[i]);
        Apply(log[i], w);
        ShowsNext(this, w, log[i]);
        next, counted := log[i].next, checked.value;
      }
      ok := counted == stated;
    }
  }

  lemma InverseOf(table: map<nat, nat>, lookup: map<nat, nat>)
    requires Injective(table) && lookup == map id | id in table :: table[id] := id
    ensures Inverse(table, lookup)
  {
  }

  lemma ShowsPresents(p: Projection, v: View)
    requires p.Shows(v)
    ensures v.Valid() && p.Presents(v)
  {
  }

  lemma NotAdmissible(v: View, t: Transaction<Record>)
    requires !(RecordsOk(v, Final(t.records)) && BirthsExact(v, Final(t.records), t.next))
          || !(Injective(DormantAfter(v.dormant, t.records)) && |DormantAfter(v.dormant, t.records)| <= CAP)
    ensures !Admissible(v, t)
  {
    hide RecordsOk, BirthsExact, Injective, DormantAfter, Final;
  }

  lemma IsAdmissible(v: View, t: Transaction<Record>)
    requires v.next <= t.next && RecordsOk(v, Final(t.records)) && BirthsExact(v, Final(t.records), t.next)
    requires Injective(DormantAfter(v.dormant, t.records)) && |DormantAfter(v.dormant, t.records)| <= CAP
    ensures Admissible(v, t)
    ensures Next(v, t).next == t.next && Next(v, t).live == LiveAfter(v.live, t.records)
    ensures Next(v, t).dormant == DormantAfter(v.dormant, t.records)
  {
    hide RecordsOk, BirthsExact, Injective, DormantAfter, Final, LiveAfter;
  }

  lemma ShowsNext(p: Projection, v: View, t: Transaction<Record>)
    requires Next(v, t).Valid() && p.Presents(Next(v, t))
    requires Inverse(DormantAfter(v.dormant, t.records), p.retained) && p.count == |DormantAfter(v.dormant, t.records)|
    ensures p.Shows(Next(v, t))
  {
    hide View.Valid, Projection.Presents, Inverse, DormantAfter, LiveAfter;
  }

  ghost predicate RecordsOk(v: View, last: map<nat, Record>) {
    forall id :: id in last ==> RecordOk(v, id, last[id])
  }

  lemma RecordsNeed(v: View, last: map<nat, Record>, id: nat)
    requires id in last
    ensures RecordsOk(v, last) ==> RecordOk(v, id, last[id])
  {
  }

  // ---- the loops' steps ----

  /** What the check has counted once the first documents are judged. */
  ghost predicate Tally(v: View, last: map<nat, Record>, done: seq<nat>, births: set<nat>, counted: nat) {
    && (forall id :: id in done ==> id in last && RecordOk(v, id, last[id]))
    && counted == |LiveUpTo(v.live, last, done)|
    && (forall id :: id in births <==> id in done && last[id].DocPut? && id >= v.next)
  }

  lemma TallyNone(v: View, last: map<nat, Record>, ids: seq<nat>)
    ensures Tally(v, last, ids[..0], {}, |v.live|)
  {
    LiveNone(v.live, last);
  }

  lemma TallyStep(v: View, last: map<nat, Record>, ids: seq<nat>, i: nat, births: set<nat>, counted: nat, change: int, birth: bool)
    requires i < |ids| && ids[i] in last && ids[i] !in ids[..i]
    requires Tally(v, last, ids[..i], births, counted) && RecordOk(v, ids[i], last[ids[i]])
    requires change == (if last[ids[i]].DocPut? then 1 else 0) - (if ids[i] in v.live then 1 else 0)
    requires birth <==> last[ids[i]].DocPut? && ids[i] >= v.next
    ensures counted + change >= 0
    ensures Tally(v, last, ids[..i + 1], if birth then births + {ids[i]} else births, counted + change)
  {
    hide RecordOk, LiveUpTo;
    assert ids[..i + 1] == ids[..i] + [ids[i]];
    LiveStep(v.live, last, ids[..i], ids[i]);
  }

  lemma TallyDone(v: View, t: Transaction<Record>, ids: seq<nat>, births: set<nat>, counted: nat)
    requires Tally(v, Final(t.records), ids[..|ids|], births, counted)
    requires forall id :: id in ids <==> id in Final(t.records)
    ensures RecordsOk(v, Final(t.records)) && counted == |LiveAfter(v.live, t.records)|
    ensures births == Range(v.next, t.next) <==> BirthsExact(v, Final(t.records), t.next)
  {
    hide LiveUpTo, LiveAfter, RecordOk, BirthsExact, Range, Final;
    assert ids[..|ids|] == ids;
    LiveAll(v.live, t.records, ids);
    BirthsSet(v, Final(t.records), t.next, births);
    RecordsAll(v, Final(t.records), ids);
  }

  /** The change lists once the first documents are looked up. */
  ghost predicate Lists(v: View, last: map<nat, Record>, done: seq<nat>, removed: seq<Row>, added: seq<Row>) {
    && AscendingIds(removed) && AscendingIds(added)
    && (forall r :: r in removed <==> r.id in done && r.id in v.dormant && v.dormant[r.id] == r.hash)
    && (forall r :: r in added <==> r.id in done && r.id in last && last[r.id] == DocDormant(r.id, r.hash))
  }

  lemma ListsNone(v: View, last: map<nat, Record>, ids: seq<nat>)
    ensures Lists(v, last, ids[..0], [], [])
  {
  }

  lemma ListsStep(v: View, last: map<nat, Record>, ids: seq<nat>, i: nat, removed: seq<Row>, added: seq<Row>)
    requires Sorting.Ascending(ids) && i < |ids| && Lists(v, last, ids[..i], removed, added)
    requires ids[i] in last && DocOf(last[ids[i]]) == Some(ids[i])
    ensures Lists(v, last, ids[..i + 1],
                  if ids[i] in v.dormant then removed + [Row(ids[i], v.dormant[ids[i]])] else removed,
                  if last[ids[i]].DocDormant? then added + [Row(ids[i], last[ids[i]].hash)] else added)
  {
    hide AscendingIds;
    var id := ids[i];
    OneMore(ids, i);
    if id in v.dormant {
      RowPush(removed, Row(id, v.dormant[id]));
    }
    if last[id].DocDormant? {
      RowPush(added, Row(id, last[id].hash));
    }
  }

  lemma OneMore(ids: seq<nat>, i: nat)
    requires Sorting.Ascending(ids) && i < |ids|
    ensures forall x :: x in ids[..i + 1] <==> x in ids[..i] || x == ids[i]
    ensures forall x :: x in ids[..i] ==> x < ids[i]
  {
    assert ids[..i + 1] == ids[..i] + [ids[i]];
  }

  lemma RowPush(rows: seq<Row>, r: Row)
    requires AscendingIds(rows) && forall q :: q in rows ==> q.id < r.id
    ensures AscendingIds(rows + [r])
    ensures forall q :: q in rows + [r] <==> q in rows || q == r
  {
    assert forall j :: 0 <= j < |rows| ==> rows[j] in rows;
  }

  lemma ListsDone(v: View, last: map<nat, Record>, ids: seq<nat>, removed: seq<Row>, added: seq<Row>)
    requires Lists(v, last, ids[..|ids|], removed, added) && forall id :: id in ids <==> id in last
    ensures AscendingIds(removed) && AscendingIds(added)
    ensures forall r :: r in removed <==> r.id in last && r.id in v.dormant && v.dormant[r.id] == r.hash
    ensures forall r :: r in added <==> r.id in last && last[r.id] == DocDormant(r.id, r.hash)
  {
    assert ids[..|ids|] == ids;
  }

  ghost function Without(table: map<nat, nat>, removed: seq<Row>): map<nat, nat> {
    map id | id in table && !HasId(removed, id) :: table[id]
  }

  ghost function With(table: map<nat, nat>, added: seq<Row>): map<nat, nat> {
    table + MapOf(added)
  }

  lemma ShowsLookup(p: Projection, v: View)
    requires p.Shows(v)
    ensures Inverse(v.dormant, p.retained) && p.count == |v.dormant|
  {
  }

  lemma NoneRemoved(table: map<nat, nat>, removed: seq<Row>)
    ensures Without(table, removed[..0]) == table
  {
  }

  lemma NoneAdded(table: map<nat, nat>, removed: seq<Row>, added: seq<Row>)
    ensures removed[..|removed|] == removed && With(Without(table, removed), added[..0]) == Without(table, removed)
  {
  }

  /** The row to be removed is the one its hash finds. */
  lemma RemoveStep(table: map<nat, nat>, removed: seq<Row>, i: nat, lookup: map<nat, nat>)
    requires AscendingIds(removed) && i < |removed| && removed[i].id in table && table[removed[i].id] == removed[i].hash
    requires Inverse(Without(table, removed[..i]), lookup)
    ensures removed[i].hash in lookup && lookup[removed[i].hash] == removed[i].id
    ensures Inverse(Without(table, removed[..i + 1]), lookup - {removed[i].hash})
  {
    var r := removed[i];
    assert removed[..i + 1] == removed[..i] + [r];
    HasIdStep(removed[..i], r);
    assert !HasId(removed[..i], r.id);
    assert r.id in Without(table, removed[..i]);
  }

  lemma HasIdStep(rows: seq<Row>, r: Row)
    ensures forall id :: HasId(rows + [r], id) <==> HasId(rows, id) || id == r.id
  {
    forall id
      ensures HasId(rows + [r], id) <==> HasId(rows, id) || id == r.id
    {
      if HasId(rows, id) {
        var i :| 0 <= i < |rows| && rows[i].id == id;
        assert (rows + [r])[i].id == id;
      }
      assert (rows + [r])[|rows|].id == r.id;
    }
  }

  /** A hash still taken means two ids would hold it; a free one is granted. */
  lemma AddStep(kept: map<nat, nat>, added: seq<Row>, i: nat, lookup: map<nat, nat>)
    requires AscendingIds(added) && i < |added| && (forall r :: r in added ==> r.id !in kept)
    requires Inverse(With(kept, added[..i]), lookup)
    ensures added[i].hash in lookup ==> !Injective(With(kept, added))
    ensures added[i].hash !in lookup ==> Inverse(With(kept, added[..i + 1]), lookup[added[i].hash := added[i].id])
  {
    hide MapOf;
    var r := added[i];
    assert added[..i + 1][..i] == added[..i] && added[..i + 1][i] == r;
    MapOfNext(added, i);
    assert With(kept, added[..i + 1]) == With(kept, added[..i])[r.id := r.hash];
    if r.hash in lookup {
      AddedLater(added, i);
      AddedApart(kept, added);
      var other := lookup[r.hash];
      assert other in With(kept, added) && With(kept, added)[other] == r.hash;
      assert r.id in With(kept, added) && With(kept, added)[r.id] == r.hash;
    }
  }

  lemma AddedApart(kept: map<nat, nat>, added: seq<Row>)
    requires forall r :: r in added ==> r.id !in kept
    ensures forall id :: id in MapOf(added) ==> id !in kept
  {
    MapOfKeys(added);
    forall id | HasId(added, id)
      ensures id !in kept
    {
      var i :| 0 <= i < |added| && added[i].id == id;
      assert added[i] in added;
    }
  }

  lemma MapOfNext(rows: seq<Row>, i: nat)
    requires AscendingIds(rows) && i < |rows|
    ensures MapOf(rows[..i + 1]) == MapOf(rows[..i])[rows[i].id := rows[i].hash]
    ensures rows[i].id !in MapOf(rows[..i])
  {
    assert rows[..i + 1][..i] == rows[..i];
    MapOfKeys(rows[..i]);
  }

  lemma AddedLater(rows: seq<Row>, i: nat)
    requires AscendingIds(rows) && i < |rows|
    ensures forall id :: id in MapOf(rows[..i]) ==> id in MapOf(rows) && MapOf(rows)[id] == MapOf(rows[..i])[id]
    ensures rows[i].id in MapOf(rows) && MapOf(rows)[rows[i].id] == rows[i].hash
  {
    hide MapOf;
    AscendingBound(rows);
    AscendingBound(rows[..i]);
    MapOfRows(rows);
    MapOfRows(rows[..i]);
    forall id | id in MapOf(rows[..i])
      ensures id in MapOf(rows) && MapOf(rows)[id] == MapOf(rows[..i])[id]
    {
      assert Row(id, MapOf(rows[..i])[id]) in rows[..i];
      assert Row(id, MapOf(rows[..i])[id]) in rows;
    }
    assert rows[i] in rows;
  }

  lemma AllAdded(kept: map<nat, nat>, added: seq<Row>, lookup: map<nat, nat>)
    requires Inverse(With(kept, added[..|added|]), lookup)
    ensures Inverse(With(kept, added), lookup) && Injective(With(kept, added))
  {
    assert added[..|added|] == added;
  }

  /** Taking away what has a record and adding what is granted is the rule, and
      the count follows without underflow. */
  lemma ChangesSum(dormant: map<nat, nat>, records: seq<Record>, removed: seq<Row>, added: seq<Row>)
    requires AscendingIds(removed) && AscendingIds(added)
    requires forall r :: r in removed <==> r.id in Final(records) && r.id in dormant && dormant[r.id] == r.hash
    requires forall r :: r in added <==> r.id in Final(records) && Final(records)[r.id] == DocDormant(r.id, r.hash)
    ensures With(Without(dormant, removed), added) == DormantAfter(dormant, records)
    ensures |dormant| >= |removed| && |DormantAfter(dormant, records)| == |dormant| - |removed| + |added|
    ensures forall r :: r in removed ==> r.id in dormant && dormant[r.id] == r.hash
    ensures forall r :: r in added ==> r.id !in Without(dormant, removed)
  {
    hide MapOf, Final, With, Without, DormantAfter;
    FinalIds(records);
    ChangedKeys(dormant, removed);
    AddedKeys(Without(dormant, removed), removed, added, dormant, records);
    MapOfSize(added);
    assert |With(Without(dormant, removed), added).Keys| == |Without(dormant, removed).Keys| + |MapOf(added).Keys|;
  }

  lemma ChangedKeys(table: map<nat, nat>, removed: seq<Row>)
    requires AscendingIds(removed) && forall r :: r in removed ==> r.id in table
    ensures |table| >= |removed| && |Without(table, removed).Keys| == |table| - |removed|
  {
    hide MapOf;
    MapOfSize(removed);
    MapOfKeys(removed);
    assert MapOf(removed).Keys <= table.Keys by {
      forall id | id in MapOf(removed)
        ensures id in table
      {
        var i :| 0 <= i < |removed| && removed[i].id == id;
        assert removed[i] in removed;
      }
    }
    forall id | HasId(removed, id)
      ensures id in MapOf(removed)
    {
    }
    assert Without(table, removed).Keys == table.Keys - MapOf(removed).Keys;
    SubsetSize(MapOf(removed).Keys, table.Keys);
    assert |table| == |table.Keys|;
  }

  lemma AddedKeys(kept: map<nat, nat>, removed: seq<Row>, added: seq<Row>, dormant: map<nat, nat>, records: seq<Record>)
    requires AscendingIds(removed) && AscendingIds(added) && kept == Without(dormant, removed)
    requires forall id :: id in Final(records) ==> DocOf(Final(records)[id]) == Some(id)
    requires forall r :: r in removed <==> r.id in Final(records) && r.id in dormant && dormant[r.id] == r.hash
    requires forall r :: r in added <==> r.id in Final(records) && Final(records)[r.id] == DocDormant(r.id, r.hash)
    ensures With(kept, added) == DormantAfter(dormant, records)
    ensures kept.Keys !! MapOf(added).Keys && With(kept, added).Keys == kept.Keys + MapOf(added).Keys
    ensures forall r :: r in added ==> r.id !in kept
    ensures |DormantAfter(dormant, records)| == |DormantAfter(dormant, records).Keys|
  {
    hide MapOf, Final, HasId;
    AscendingBound(added);
    MapOfRows(added);
    forall id: nat
      ensures id in MapOf(added) <==> id in Final(records) && Final(records)[id].DocDormant?
      ensures id in MapOf(added) ==> MapOf(added)[id] == Final(records)[id].hash
      ensures id in kept <==> id in dormant && id !in Final(records)
    {
      AddedAt(added, records, id);
      KeptAt(kept, removed, dormant, records, id);
    }
    forall r | r in added
      ensures r.id !in kept
    {
      KeptAt(kept, removed, dormant, records, r.id);
    }
  }

  lemma AddedAt(added: seq<Row>, records: seq<Record>, id: nat)
    requires forall r :: r in added <==> r.id in MapOf(added) && MapOf(added)[r.id] == r.hash
    requires id in Final(records) ==> DocOf(Final(records)[id]) == Some(id)
    requires forall r :: r in added <==> r.id in Final(records) && Final(records)[r.id] == DocDormant(r.id, r.hash)
    ensures id in MapOf(added) <==> id in Final(records) && Final(records)[id].DocDormant?
    ensures id in MapOf(added) ==> MapOf(added)[id] == Final(records)[id].hash
  {
    hide MapOf, Final;
    if id in MapOf(added) {
      assert Row(id, MapOf(added)[id]) in added;
    }
    if id in Final(records) && Final(records)[id].DocDormant? {
      assert Row(id, Final(records)[id].hash) in added;
    }
  }

  lemma KeptAt(kept: map<nat, nat>, removed: seq<Row>, dormant: map<nat, nat>, records: seq<Record>, id: nat)
    requires kept == Without(dormant, removed)
    requires forall r :: r in removed <==> r.id in Final(records) && r.id in dormant && dormant[r.id] == r.hash
    ensures id in kept <==> id in dormant && id !in Final(records)
    ensures id in kept ==> kept[id] == dormant[id]
  {
    hide Final;
    if id in dormant && id in Final(records) {
      var r := Row(id, dormant[id]);
      assert r in removed;
      var i :| 0 <= i < |removed| && removed[i] == r;
      assert removed[i].id == id;
    }
    if HasId(removed, id) {
      var i :| 0 <= i < |removed| && removed[i].id == id;
      assert removed[i] in removed;
    }
  }

  lemma RecordsAll(v: View, last: map<nat, Record>, ids: seq<nat>)
    requires forall id :: id in ids <==> id in last
    requires forall id :: id in ids ==> RecordOk(v, id, last[id])
    ensures RecordsOk(v, last)
  {
  }

  lemma ShowsAt(p: Projection, v: View, id: nat)
    requires p.Shows(v)
    ensures p.Live(id) == if id in v.live then Some(v.live[id]) else None
    ensures p.Retained(id) == if id in v.dormant then Some(v.dormant[id]) else None
    ensures id in v.live ==> id !in v.dormant
    ensures id in v.live || id in v.dormant ==> id < v.next
    ensures v.Valid()
  {
    hide Injective, Inverse;
    assert RowPresents(p.base, p.rows, v, id);
  }

  lemma Unseen(ids: seq<nat>, i: nat)
    requires Sorting.Ascending(ids) && i < |ids|
    ensures ids[i] !in ids[..i]
  {
  }

  /** The live table with only the first documents' records applied. */
  ghost function LiveUpTo(live: map<nat, nat>, last: map<nat, Record>, done: seq<nat>): map<nat, nat>
    requires forall id :: id in done ==> id in last
  {
    (map id | id in live && id !in done :: live[id])
    + (map id | id in last && id in done && last[id].DocPut? :: last[id].hash)
  }

  lemma LiveNone(live: map<nat, nat>, last: map<nat, Record>)
    ensures LiveUpTo(live, last, []) == live
  {
  }

  lemma LiveKey(live: map<nat, nat>, last: map<nat, Record>, done: seq<nat>, x: nat)
    requires forall id :: id in done ==> id in last
    ensures x in LiveUpTo(live, last, done) <==> if x in done then last[x].DocPut? else x in live
  {
  }

  /** One document's record adds at most one live document, or takes one away. */
  lemma LiveStep(live: map<nat, nat>, last: map<nat, Record>, done: seq<nat>, id: nat)
    requires id in last && id !in done && forall x :: x in done ==> x in last
    ensures forall x :: x in done + [id] ==> x in last
    ensures var a, b := LiveUpTo(live, last, done), LiveUpTo(live, last, done + [id]);
      |b| - |a| == (if last[id].DocPut? then 1 else 0) - (if id in live then 1 else 0)
    ensures id in live ==> |LiveUpTo(live, last, done)| >= 1
  {
    hide LiveUpTo;
    assert forall x :: x in done + [id] <==> x in done || x == id;
    var a, b := LiveUpTo(live, last, done).Keys, LiveUpTo(live, last, done + [id]).Keys;
    forall x
      ensures x != id ==> (x in a <==> x in b)
      ensures id in a <==> id in live
      ensures id in b <==> last[id].DocPut?
    {
      LiveKey(live, last, done, x);
      LiveKey(live, last, done + [id], x);
      LiveKey(live, last, done, id);
      LiveKey(live, last, done + [id], id);
    }
    assert a - {id} == b - {id};
    Removing(a, id);
    Removing(b, id);
  }

  lemma LiveAll(live: map<nat, nat>, records: seq<Record>, ids: seq<nat>)
    requires forall id :: id in ids <==> id in Final(records)
    ensures LiveUpTo(live, Final(records), ids) == LiveAfter(live, records)
  {
  }

  lemma BirthsSet(v: View, last: map<nat, Record>, next: nat, births: set<nat>)
    requires forall id :: id in births <==> id in last && last[id].DocPut? && id >= v.next
    ensures births == Range(v.next, next) <==> BirthsExact(v, last, next)
  {
    RangeMembers(v.next, next);
    var range := Range(v.next, next);
    assert forall id :: id in births <==> id in last && last[id].DocPut? && id >= v.next;
    if BirthsExact(v, last, next) {
      forall id
        ensures id in births <==> id in range
      {
        assert v.next <= id < next <==> id in last && last[id].DocPut? && id >= v.next;
      }
    }
    if births == range {
      forall id: nat
        ensures v.next <= id < next <==> id in last && last[id].DocPut? && id >= v.next
      {
        assert id in births <==> id in range;
      }
    }
  }
}
