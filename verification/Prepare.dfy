/** Preparing a change set: turning covered deaths into permissions and evicting
    by cap, touching only changed and evicted rows, so that applying the result
    leaves exactly what canonicalizing the whole table would. */
module Prepare {
  import opened Sorting
  import opened Dormant
  import opened Basics

  /** The document id a record is about, if it is a document record. */
  function DocOf(r: Record): Option<nat> {
    match r
    case DocPut(id, _) => Some(id)
    case DocDelete(id) => Some(id)
    case DocDormant(id, _) => Some(id)
    case DocForget(id) => Some(id)
    case Other => None
  }

  /** Each document's last record. */
  function Final(records: seq<Record>): map<nat, Record> {
    if records == [] then map[]
    else
      var n := |records| - 1;
      var id := DocOf(records[n]);
      if id.Some? then Final(records[..n])[id.value := records[n]] else Final(records[..n])
  }

  // ---- what a change set does ----

  /** The permissions after a change set: an id with a record keeps one only if
      its last record grants it. */
  function DormantAfter(retained: map<nat, nat>, records: seq<Record>): map<nat, nat> {
    var last := Final(records);
    (map id | id in retained && id !in last :: retained[id])
    + (map id | id in last && last[id].DocDormant? :: last[id].hash)
  }

  /** The live documents after a change set. */
  function LiveAfter(live: map<nat, nat>, records: seq<Record>): map<nat, nat> {
    var last := Final(records);
    (map id | id in live && id !in last :: live[id])
    + (map id | id in last && last[id].DocPut? :: last[id].hash)
  }

  predicate Covered(coverage: Option<Coverage>, id: nat) {
    coverage.Some? && coverage.value.Covers(id)
  }

  /** Retained ids no record mentions. */
  function Untouched(retained: map<nat, nat>, last: map<nat, Record>): map<nat, nat> {
    map id | id in retained && id !in last :: retained[id]
  }

  /** Retained ids some record mentions. */
  function Removed(retained: map<nat, nat>, last: map<nat, Record>): set<nat> {
    set id | id in last && id in retained
  }

  /** Live documents this change set deletes under cover. */
  function Deaths(live: map<nat, nat>, last: map<nat, Record>, coverage: Option<Coverage>): map<nat, nat> {
    map id | id in last && last[id].DocDelete? && Covered(coverage, id) && id in live :: live[id]
  }

  /** All who claim a permission. */
  function Claims(live: map<nat, nat>, retained: map<nat, nat>, records: seq<Record>, coverage: Option<Coverage>): map<nat, nat> {
    Untouched(retained, Final(records)) + Deaths(live, Final(records), coverage)
  }

  /** The last record about a document. */
  ghost predicate LastAbout(records: seq<Record>, id: nat, r: Record) {
    DocOf(r) == Some(id) && exists i :: 0 <= i < |records| && records[i] == r && NoneAfter(records, id, i + 1)
  }

  /** No record from `i` on is about the document. */
  predicate NoneAfter(records: seq<Record>, id: nat, i: nat) {
    forall j :: i <= j < |records| ==> DocOf(records[j]) != Some(id)
  }

  lemma {:induction false} FinalIsLast(records: seq<Record>, id: nat)
    ensures id !in Final(records) <==> NoneAfter(records, id, 0)
    ensures id in Final(records) ==> LastAbout(records, id, Final(records)[id])
  {
    if records != [] {
      var n := |records| - 1;
      var front := records[..n];
      FinalIsLast(front, id);
      if DocOf(records[n]) == Some(id) {
        assert NoneAfter(records, id, n + 1);
      } else if id in Final(front) {
        var i :| 0 <= i < |front| && front[i] == Final(front)[id] && NoneAfter(front, id, i + 1);
        assert NoneAfter(records, id, i + 1);
      }
    }
  }

  lemma LastIsOne(records: seq<Record>, id: nat, a: Record, b: Record)
    requires LastAbout(records, id, a) && LastAbout(records, id, b)
    ensures a == b
  {
    var i :| 0 <= i < |records| && records[i] == a && NoneAfter(records, id, i + 1);
    var j :| 0 <= j < |records| && records[j] == b && NoneAfter(records, id, j + 1);
  }

  /** Who claims what: a kept permission that no record is about, and a live
      document whose last record is an authorized plain delete. */
  lemma ClaimsAre(live: map<nat, nat>, retained: map<nat, nat>, records: seq<Record>, coverage: Option<Coverage>, id: nat)
    requires live.Keys !! retained.Keys
    ensures var claims := Claims(live, retained, records, coverage);
      var kept := id in retained && NoneAfter(records, id, 0);
      var dies := id in live && LastAbout(records, id, DocDelete(id))
        && coverage.Some? && id < coverage.value.frontier && id !in coverage.value.unreadable;
      && (id in claims <==> kept || dies)
      && (kept ==> claims[id] == retained[id]) && (dies ==> claims[id] == live[id])
  {
    hide Final, NoneAfter;
    FinalIsLast(records, id);
    if LastAbout(records, id, DocDelete(id)) {
      LastIsFinal(records, id, DocDelete(id));
    }
  }

  lemma LastIsFinal(records: seq<Record>, id: nat, r: Record)
    requires LastAbout(records, id, r)
    ensures id in Final(records) && Final(records)[id] == r
  {
    hide Final;
    FinalIsLast(records, id);
    LastIsOne(records, id, r, Final(records)[id]);
  }

  /** The view's permissions: one id a hash, none of them live. */
  ghost predicate Consistent(live: map<nat, nat>, retained: map<nat, nat>) {
    && live.Keys !! retained.Keys
    && forall a, b :: a in retained && b in retained && retained[a] == retained[b] ==> a == b
  }

  // ---- ordered walks ----

  // ---- evicting by cap, two pointers ----

  /** What is still to come of an ordered walk, less what is skipped. */
  ghost function Ahead(s: seq<nat>, i: nat, skip: set<nat>): set<nat>
    requires i <= |s|
  {
    set x | x in s[i..] && x !in skip
  }

  lemma AheadStep(s: seq<nat>, i: nat, skip: set<nat>)
    requires Ascending(s) && i < |s|
    ensures s[i] !in Ahead(s, i + 1, skip)
    ensures Ahead(s, i, skip) == Ahead(s, i + 1, skip) + (if s[i] in skip then {} else {s[i]})
    ensures AtLeast(s[i], Ahead(s, i, skip))
  {
    var rest := s[i + 1..];
    assert s[i..] == [s[i]] + rest;
    assert forall j :: 0 <= j < |rest| ==> rest[j] == s[i + 1 + j] > s[i];
  }

  ghost function Total(a: set<nat>, b: set<nat>): nat {
    |a + b|
  }

  /** Taking `e` from the front leaves `a'`. */
  ghost predicate Head(a: set<nat>, e: nat, a': set<nat>) {
    a == a' + {e} && e !in a'
  }

  ghost predicate AtLeast(e: nat, a: set<nat>) {
    forall x :: x in a ==> e <= x
  }

  /** Evicts the lowest ids of two ordered lists until `limit` are left. `count`
      starts as how many there are; the lists never run out first. */
  method Evict(older: seq<nat>, newer: seq<nat>, skip: set<nat>, start: nat, limit: nat)
    returns (gone: set<nat>, dropped: set<nat>)
    requires Ascending(older) && Ascending(newer)
    requires Ahead(older, 0, skip) !! Ahead(newer, 0, {})
    requires start == Total(Ahead(older, 0, skip), Ahead(newer, 0, {}))
    ensures gone <= Ahead(older, 0, skip) && dropped <= Ahead(newer, 0, {})
    ensures var all := Ahead(older, 0, skip) + Ahead(newer, 0, {});
      IsTop(all, all - gone - dropped, limit)
  {
    hide Ascending, Ahead, Walk, IsTop, AtLeast, Total, Head;
    var count := start;
    var i: nat, j: nat := 0, 0;
    gone, dropped := {}, {};
    ghost var older0, newer0 := Ahead(older, 0, skip), Ahead(newer, 0, {});
    EvictStart(older0, newer0);
    while count > limit
      invariant i <= |older| && j <= |newer|
      invariant Walk(older0, newer0, Ahead(older, i, skip), Ahead(newer, j, {}), gone, dropped, count)
      invariant count == start || count >= limit
    {
      i := SkipTo(older, i, skip);
      ghost var a, b := Ahead(older, i, skip), Ahead(newer, j, {});
      HeadLeast(older, i, skip, newer, j);
      NotEmpty(older0, newer0, a, b, gone, dropped, count);
      if j < |newer| && (i == |older| || newer[j] < older[i]) {
        DropOne(older0, newer0, a, b, gone, dropped, count, newer[j], Ahead(newer, j + 1, {}));
        dropped := dropped + {newer[j]};
        j := j + 1;
      } else {
        EvictOne(older0, newer0, a, b, gone, dropped, count, older[i], Ahead(older, i + 1, skip));
        gone := gone + {older[i]};
        i := i + 1;
      }
      count := count - 1;
    }
    EvictDone(older0, newer0, Ahead(older, i, skip), Ahead(newer, j, {}), gone, dropped, count, limit);
  }

  /** Passes over ids that already have a record or a revocation. */
  method SkipTo(older: seq<nat>, from: nat, skip: set<nat>) returns (i: nat)
    requires Ascending(older) && from <= |older|
    ensures from <= i <= |older| && (i < |older| ==> older[i] !in skip)
    ensures Ahead(older, i, skip) == Ahead(older, from, skip)
  {
    i := from;
    while i < |older| && older[i] in skip
      invariant from <= i <= |older| && Ahead(older, i, skip) == Ahead(older, from, skip)
    {
      AheadStep(older, i, skip);
      i := i + 1;
    }
  }

  /** The smaller head of two ordered walks is the least of both. */
  lemma HeadLeast(older: seq<nat>, i: nat, skip: set<nat>, newer: seq<nat>, j: nat)
    requires Ascending(older) && Ascending(newer) && i <= |older| && j <= |newer|
    requires i < |older| ==> older[i] !in skip
    ensures var a, b := Ahead(older, i, skip), Ahead(newer, j, {});
      && (i == |older| ==> a == {}) && (j == |newer| ==> b == {})
      && (i < |older| ==> Head(a, older[i], Ahead(older, i + 1, skip)))
      && (j < |newer| ==> Head(b, newer[j], Ahead(newer, j + 1, {})))
      && (i < |older| && (j == |newer| || older[i] <= newer[j]) ==> AtLeast(older[i], a) && AtLeast(older[i], b))
      && (j < |newer| && (i == |older| || newer[j] <= older[i]) ==> AtLeast(newer[j], a) && AtLeast(newer[j], b))
  {
    hide Ahead, Ascending;
    if i < |older| {
      AheadStep(older, i, skip);
    } else {
      AheadEnd(older, skip);
    }
    if j < |newer| {
      AheadStep(newer, j, {});
    } else {
      AheadEnd(newer, {});
    }
  }

  /** `a` and `b` are left of the two lists; what is gone and dropped is below them. */
  ghost predicate Walk(older: set<nat>, newer: set<nat>, a: set<nat>, b: set<nat>, gone: set<nat>, dropped: set<nat>, count: int) {
    && gone <= older && dropped <= newer && a == older - gone && b == newer - dropped && a !! b
    && count == Total(a, b) <= Total(older, newer) && Lower(gone + dropped, a + b)
  }

  ghost predicate Lower(low: set<nat>, high: set<nat>) {
    forall x, y :: x in low && y in high ==> x < y
  }

  lemma NotEmpty(older: set<nat>, newer: set<nat>, a: set<nat>, b: set<nat>, gone: set<nat>, dropped: set<nat>, count: int)
    requires Walk(older, newer, a, b, gone, dropped, count) && count > 0
    ensures a != {} || b != {}
  {
  }

  lemma AheadEnd(s: seq<nat>, skip: set<nat>)
    ensures Ahead(s, |s|, skip) == {}
  {
  }

  /** Evicting the least of what is left, when it is retained. */
  lemma EvictOne(older: set<nat>, newer: set<nat>, a: set<nat>, b: set<nat>, gone: set<nat>, dropped: set<nat>, count: int,
                 e: nat, a': set<nat>)
    requires Walk(older, newer, a, b, gone, dropped, count)
    requires Head(a, e, a') && AtLeast(e, a) && AtLeast(e, b)
    ensures Walk(older, newer, a', b, gone + {e}, dropped, count - 1)
  {
    hide Total, Lower, AtLeast, Head;
    OneLess(a, e, a', b);
    LowerStep(gone + dropped, a + b, e);
    assert a' == older - (gone + {e}) && gone + {e} <= older;
    assert (gone + {e}) + dropped == (gone + dropped) + {e};
  }

  /** Taking the least of one of two disjoint sets leaves one less in all. */
  lemma OneLess(a: set<nat>, e: nat, a': set<nat>, b: set<nat>)
    requires Head(a, e, a') && a !! b && AtLeast(e, a) && AtLeast(e, b)
    ensures a' + b == (a + b) - {e} && Total(a', b) == Total(a, b) - 1 && e in a + b && AtLeast(e, a + b)
    ensures a' !! b && a' == a - {e} && e in a
  {
    assert a' + b == (a + b) - {e};
  }

  lemma LowerStep(low: set<nat>, high: set<nat>, e: nat)
    requires Lower(low, high) && e in high && AtLeast(e, high)
    ensures Lower(low + {e}, high - {e})
  {
  }

  /** The two lists may change places. */
  lemma Mirror(older: set<nat>, newer: set<nat>, a: set<nat>, b: set<nat>, gone: set<nat>, dropped: set<nat>, count: int)
    requires Walk(older, newer, a, b, gone, dropped, count)
    ensures Walk(newer, older, b, a, dropped, gone, count)
  {
    hide Lower;
    assert b + a == a + b && newer + older == older + newer && dropped + gone == gone + dropped;
  }

  /** Evicting the least of what is left, when it is newly dying. */
  lemma DropOne(older: set<nat>, newer: set<nat>, a: set<nat>, b: set<nat>, gone: set<nat>, dropped: set<nat>, count: int,
                e: nat, b': set<nat>)
    requires Walk(older, newer, a, b, gone, dropped, count)
    requires Head(b, e, b') && AtLeast(e, a) && AtLeast(e, b)
    ensures Walk(older, newer, a, b', gone, dropped + {e}, count - 1)
  {
    hide *;
    Mirror(older, newer, a, b, gone, dropped, count);
    EvictOne(newer, older, b, a, dropped, gone, count, e, b');
    Mirror(newer, older, b', a, dropped + {e}, gone, count - 1);
  }

  lemma EvictStart(older: set<nat>, newer: set<nat>)
    requires older !! newer
    ensures Walk(older, newer, older, newer, {}, {}, Total(older, newer))
  {
  }

  lemma EvictDone(older: set<nat>, newer: set<nat>, a: set<nat>, b: set<nat>, gone: set<nat>, dropped: set<nat>,
                  count: nat, limit: nat)
    requires Walk(older, newer, a, b, gone, dropped, count) && older !! newer
    requires count <= limit && (count == Total(older, newer) || count == limit)
    ensures gone <= older && dropped <= newer
    ensures IsTop(older + newer, older + newer - gone - dropped, limit)
  {
    assert older + newer - gone - dropped == a + b;
    assert forall x :: x in older + newer && x !in a + b ==> x in gone + dropped;
  }

  // ---- the newly dying ----

  /** Rows for the deaths, in id order. */
  method Dying(live: map<nat, nat>, last: map<nat, Record>, coverage: Option<Coverage>) returns (rows: seq<Row>)
    ensures Bound(rows) && MapOf(rows) == Deaths(live, last, coverage)
  {
    var ids := InOrder(last.Keys);
    rows := [];
    ghost var dead := Deaths(live, last, coverage);
    for i := 0 to |ids|
      invariant forall r :: r in rows ==> r.id in dead && dead[r.id] == r.hash
      invariant forall j :: 0 <= j < i && ids[j] in dead ==> Row(ids[j], dead[ids[j]]) in rows
    {
      var id := ids[i];
      if last[id].DocDelete? && Covered(coverage, id) && id in live {
        rows := rows + [Row(id, live[id])];
      }
    }
    forall id | id in dead
      ensures Row(id, dead[id]) in rows
    {
      assert id in ids;
    }
    MapOfExact(rows, dead);
  }

  lemma MapOfExact(rows: seq<Row>, table: map<nat, nat>)
    requires forall r :: r in rows ==> r.id in table && table[r.id] == r.hash
    requires forall id :: id in table ==> Row(id, table[id]) in rows
    ensures Bound(rows) && MapOf(rows) == table
  {
    MapOfRows(rows);
    forall id
      ensures id in MapOf(rows) <==> id in table
      ensures id in table ==> MapOf(rows)[id] == table[id]
    {
      if id in MapOf(rows) {
        assert Row(id, MapOf(rows)[id]) in rows;
      }
      if id in table {
        assert Row(id, table[id]) in rows;
      }
    }
  }

  /** The deaths that keep their hash against a retained holder, and the holders
      they displace: the higher id keeps it. */
  ghost predicate Settled(rows: seq<Row>, others: map<nat, nat>, kept: seq<Row>, revoked: set<nat>) {
    && (forall r :: r in kept <==> r in rows && !Outranked(r, others))
    && (forall id :: id in revoked <==> id in others && Displaced(id, others[id], kept))
  }

  ghost predicate Outranked(r: Row, others: map<nat, nat>) {
    exists prior :: prior in others && others[prior] == r.hash && prior > r.id
  }

  ghost predicate Displaced(id: nat, hash: nat, kept: seq<Row>) {
    exists r :: r in kept && r.hash == hash
  }

  method Settle(rows: seq<Row>, retained: map<nat, nat>, last: map<nat, Record>) returns (kept: seq<Row>, revoked: set<nat>)
    requires AscendingIds(rows)
    requires forall a, b :: a in retained && b in retained && retained[a] == retained[b] ==> a == b
    ensures AscendingIds(kept) && Settled(rows, Untouched(retained, last), kept, revoked)
  {
    kept, revoked := [], {};
    ghost var others := Untouched(retained, last);
    for i := 0 to |rows|
      invariant AscendingIds(kept) && forall r :: r in kept ==> i < |rows| ==> r.id < rows[i].id
      invariant forall r :: r in kept ==> r in rows[..i]
      invariant Settled(rows[..i], others, kept, revoked)
    {
      var row := rows[i];
      assert rows[..i + 1] == rows[..i] + [row];
      ghost var before, gone := kept, revoked;
      if exists prior :: prior in retained.Keys && retained[prior] == row.hash {
        var prior :| prior in retained.Keys && retained[prior] == row.hash;
        if prior !in last {
          if prior > row.id {
            SettleStep(rows[..i], row, others, before, gone, Some(prior));
            continue;
          }
          revoked := revoked + {prior};
          SettleStep(rows[..i], row, others, before, gone, Some(prior));
        } else {
          SettleStep(rows[..i], row, others, before, gone, None);
        }
      } else {
        SettleStep(rows[..i], row, others, before, gone, None);
      }
      kept := kept + [row];
    }
    assert rows[..|rows|] == rows;
  }

  lemma SettleStep(rows: seq<Row>, row: Row, others: map<nat, nat>, kept: seq<Row>, revoked: set<nat>, prior: Option<nat>)
    requires Settled(rows, others, kept, revoked) && row !in rows
    requires forall a, b :: a in others && b in others && others[a] == others[b] ==> a == b
    requires prior.Some? ==> prior.value in others && others[prior.value] == row.hash
    requires prior.None? ==> forall id :: id in others ==> others[id] != row.hash
    ensures if prior.Some? && prior.value > row.id
      then Settled(rows + [row], others, kept, revoked)
      else Settled(rows + [row], others, kept + [row], revoked + if prior.Some? then {prior.value} else {})
  {
    var next := kept + [row];
    forall id | id in others
      ensures Displaced(id, others[id], next) <==> Displaced(id, others[id], kept) || others[id] == row.hash
    {
      if Displaced(id, others[id], kept) {
        var r :| r in kept && r.hash == others[id];
        assert r in next;
      }
      if others[id] == row.hash {
        assert row in next;
      }
    }
    assert Outranked(row, others) <==> prior.Some? && prior.value > row.id;
  }

  // ---- who wins ----

  /** Every hash that is claimed has a highest claimant. */
  lemma HighestClaim(table: map<nat, nat>, id: nat) returns (w: nat)
    requires id in table
    ensures w in Winners(table) && table[w] == table[id] && id <= w
  {
    var same := set x | x in table && table[x] == table[id];
    w := id;
    var left := same - {id};
    while left != {}
      invariant w in same && id <= w && left <= same
      invariant forall x :: x in same && x !in left ==> x <= w
      decreases left
    {
      var x :| x in left;
      if x > w {
        w := x;
      }
      left := left - {x};
    }
    assert forall x :: x in table && table[x] == table[w] ==> x in same;
  }

  /** Settling the deaths against the untouched permissions picks the winners of
      both together. */
  lemma SettledWinners(others: map<nat, nat>, dead: map<nat, nat>, rows: seq<Row>, kept: seq<Row>, revoked: set<nat>)
    requires others.Keys !! dead.Keys
    requires forall a, b :: a in others && b in others && others[a] == others[b] ==> a == b
    requires forall r :: r in rows <==> r.id in Winners(dead) && dead[r.id] == r.hash
    requires Settled(rows, others, kept, revoked) && AscendingIds(kept)
    ensures Winners(others + dead) == (others.Keys - revoked) + MapOf(kept).Keys
  {
    hide Winners;
    var all := others + dead;
    var entrants := MapOf(kept).Keys;
    AscendingBound(kept);
    MapOfRows(kept);
    KeptDead(dead, rows, kept);
    forall id
      ensures id in Winners(all) <==> id in (others.Keys - revoked) + entrants
    {
      WinnersIn(all);
      if id in others {
        OldWins(others, dead, rows, kept, revoked, id);
        assert id !in entrants;
      } else if id in dead {
        NewWins(others, dead, rows, kept, revoked, id);
        assert id in entrants <==> Row(id, dead[id]) in kept;
      } else {
        assert id !in entrants;
      }
    }
  }

  lemma WinnersIn(table: map<nat, nat>)
    ensures Winners(table) <= table.Keys
  {
  }

  lemma KeptDead(dead: map<nat, nat>, rows: seq<Row>, kept: seq<Row>)
    requires forall r :: r in rows <==> r.id in Winners(dead) && dead[r.id] == r.hash
    requires forall r :: r in kept ==> r in rows
    requires AscendingIds(kept)
    ensures forall id :: id in MapOf(kept) ==> id in dead && MapOf(kept)[id] == dead[id]
  {
    AscendingBound(kept);
    MapOfRows(kept);
    forall id | id in MapOf(kept)
      ensures id in dead && MapOf(kept)[id] == dead[id]
    {
      assert Row(id, MapOf(kept)[id]) in kept;
    }
  }

  lemma OldWins(others: map<nat, nat>, dead: map<nat, nat>, rows: seq<Row>, kept: seq<Row>, revoked: set<nat>, id: nat)
    requires others.Keys !! dead.Keys && id in others
    requires forall a, b :: a in others && b in others && others[a] == others[b] ==> a == b
    requires forall r :: r in rows <==> r.id in Winners(dead) && dead[r.id] == r.hash
    requires Settled(rows, others, kept, revoked)
    ensures id in Winners(others + dead) <==> id !in revoked
  {
    var all := others + dead;
    if id in revoked {
      var r :| r in kept && r.hash == others[id];
      assert !Outranked(r, others);
      assert r.id in all && all[r.id] == all[id] && r.id > id;
    }
    if id !in Winners(all) {
      var other :| other in all && all[other] == all[id] && other > id;
      assert other in dead;
      var w := HighestClaim(dead, other);
      var r := Row(w, dead[w]);
      assert r in rows;
      assert !Outranked(r, others);
      assert r in kept;
      assert Displaced(id, others[id], kept);
    }
  }

  lemma NewWins(others: map<nat, nat>, dead: map<nat, nat>, rows: seq<Row>, kept: seq<Row>, revoked: set<nat>, id: nat)
    requires others.Keys !! dead.Keys && id in dead
    requires forall r :: r in rows <==> r.id in Winners(dead) && dead[r.id] == r.hash
    requires Settled(rows, others, kept, revoked)
    ensures id in Winners(others + dead) <==> Row(id, dead[id]) in kept
  {
    var all, r := others + dead, Row(id, dead[id]);
    if id in Winners(all) {
      assert forall other :: other in dead ==> other in all && all[other] == dead[other];
      assert r in rows;
      assert forall prior :: prior in others ==> prior in all && all[prior] == others[prior];
    }
    if r in kept {
      assert r in rows;
      forall other | other in all && all[other] == all[id]
        ensures other <= id
      {
        if other in others {
          assert !Outranked(r, others);
        }
      }
    }
  }

  // ---- preparing ----

  /** One record as prepared: a death that keeps a permission becomes a grant. */
  function Rewritten(r: Record, grants: map<nat, nat>): Record {
    if r.DocDelete? && r.id in grants then DocDormant(r.id, grants[r.id]) else r
  }

  function RewriteAll(records: seq<Record>, grants: map<nat, nat>): (w: seq<Record>)
    ensures |w| == |records|
  {
    seq(|records|, i requires 0 <= i < |records| => Rewritten(records[i], grants))
  }

  function Forgets(ids: seq<nat>): (w: seq<Record>)
    ensures |w| == |ids|
  {
    seq(|ids|, i requires 0 <= i < |ids| => DocForget(ids[i]))
  }

  lemma {:induction false} FinalRewrite(records: seq<Record>, grants: map<nat, nat>)
    ensures Final(RewriteAll(records, grants)).Keys == Final(records).Keys
    ensures forall id :: id in Final(records) ==>
      Final(RewriteAll(records, grants))[id] == Rewritten(Final(records)[id], grants)
  {
    if records != [] {
      var n := |records| - 1;
      FinalRewrite(records[..n], grants);
      assert RewriteAll(records, grants)[..n] == RewriteAll(records[..n], grants);
    }
  }

  lemma FinalPush(records: seq<Record>, r: Record)
    requires DocOf(r).Some?
    ensures Final(records + [r]) == Final(records)[DocOf(r).value := r]
  {
    assert (records + [r])[..|records|] == records;
  }

  lemma {:induction false} FinalForgets(records: seq<Record>, ids: seq<nat>)
    ensures Final(records + Forgets(ids)).Keys == Final(records).Keys + set x | x in ids
    ensures forall id :: id in Final(records + Forgets(ids)) ==>
      Final(records + Forgets(ids))[id] == if id in ids then DocForget(id) else Final(records)[id]
  {
    var all := records + Forgets(ids);
    if ids == [] {
      assert all == records;
    } else {
      hide Final;
      var n := |ids| - 1;
      FinalForgets(records, ids[..n]);
      FinalPush(records + Forgets(ids[..n]), DocForget(ids[n]));
      assert all[..|all| - 1] == records + Forgets(ids[..n]);
      assert ids == ids[..n] + [ids[n]];
    }
  }

  lemma {:induction false} FinalIds(records: seq<Record>)
    ensures forall id :: id in Final(records) ==> DocOf(Final(records)[id]) == Some(id) && Final(records)[id] in records
  {
    if records != [] {
      FinalIds(records[..|records| - 1]);
    }
  }

  /** Turns covered deaths into permissions: what applying the result leaves is
      what canonicalizing every claim would, under the smaller of the two caps. */
  method Prepare(live: map<nat, nat>, retained: map<nat, nat>, records: seq<Record>, coverage: Option<Coverage>, cap: nat)
    returns (prepared: seq<Record>)
    requires Consistent(live, retained) && |retained| <= Min(cap, CAP)
    requires forall r :: r in records ==> !r.DocDormant?
    ensures Canonical(Claims(live, retained, records, coverage), Min(cap, CAP), DormantAfter(retained, prepared))
    ensures LiveAfter(live, prepared) == LiveAfter(live, records)
    ensures PreparedFrom(live, retained, Final(records), Final(prepared))
  {
    hide *;
    var last := Final(records);
    var dying := Dying(live, last, coverage);
    if dying == [] {
      NothingDies(live, retained, records, coverage, cap);
      return records;
    }
    ghost var dead, others := Deaths(live, last, coverage), Untouched(retained, last);
    Separate(live, retained, last, coverage);
    var rows := Canonicalize(dying, |dying|);
    AllWinners(dying, rows);
    var eligible, revoked := Settle(rows, retained, last);
    SettledWinners(others, dead, rows, eligible, revoked);
    var removed := |Removed(retained, last)|;
    var older := InOrder(retained.Keys);
    var newer := Ids(eligible);
    EligibleDead(live, retained, last, coverage, rows, eligible, revoked);
    Counts(retained, last, eligible, revoked, older, newer);
    var count := |retained| - removed - |revoked| + |eligible|;
    var gone, dropped := Evict(older, newer, last.Keys + revoked, count, Min(cap, CAP));
    var grants := Less(MapOf(eligible), dropped);
    prepared := RewriteAll(records, grants);
    var forgotten := InOrder(revoked + gone);
    prepared := prepared + Forgets(forgotten);
    FinalPrepared(records, grants, forgotten);
    Finish(live, retained, records, coverage, Min(cap, CAP), MapOf(eligible), revoked, gone, dropped, grants, forgotten, prepared);
  }

  function Less(table: map<nat, nat>, ids: set<nat>): map<nat, nat> {
    map id | id in table && id !in ids :: table[id]
  }

  function IdsOf(rows: seq<Row>): seq<nat> {
    seq(|rows|, i requires 0 <= i < |rows| => rows[i].id)
  }

  method Ids(rows: seq<Row>) returns (ids: seq<nat>)
    requires AscendingIds(rows)
    ensures |ids| == |rows| && Ascending(ids) && forall id :: id in ids <==> id in MapOf(rows)
  {
    MapOfKeys(rows);
    ids := IdsOf(rows);
    forall id
      ensures id in ids <==> id in MapOf(rows)
    {
      if id in MapOf(rows) {
        var i :| 0 <= i < |rows| && rows[i].id == id;
        assert ids[i] == id;
      }
    }
  }

  lemma {:induction false} MapOfLe(rows: seq<Row>)
    ensures |MapOf(rows).Keys| <= |rows|
  {
    if rows != [] {
      var n := |rows| - 1;
      MapOfLe(rows[..n]);
      assert MapOf(rows).Keys == MapOf(rows[..n]).Keys + {rows[n].id};
    }
  }

  lemma AllWinners(input: seq<Row>, rows: seq<Row>)
    requires AscendingIds(rows) && Canonical(MapOf(input), |input|, MapOf(rows))
    ensures forall r :: r in rows <==> r.id in Winners(MapOf(input)) && MapOf(input)[r.id] == r.hash
    ensures forall r :: r in rows ==> r.id in MapOf(input) && MapOf(input)[r.id] == r.hash
  {
    var table := MapOf(input);
    MapOfLe(input);
    SubsetSize(Winners(table), table.Keys);
    SubsetSize(MapOf(rows).Keys, Winners(table));
    AscendingBound(rows);
    MapOfRows(rows);
  }

  lemma Separate(live: map<nat, nat>, retained: map<nat, nat>, last: map<nat, Record>, coverage: Option<Coverage>)
    requires Consistent(live, retained)
    ensures Untouched(retained, last).Keys !! Deaths(live, last, coverage).Keys
    ensures var others := Untouched(retained, last);
      forall a, b :: a in others && b in others && others[a] == others[b] ==> a == b
    ensures forall a, b :: a in retained && b in retained && retained[a] == retained[b] ==> a == b
  {
  }

  /** The count the eviction starts from is how many claims are left; it is
      reached by subtractions that never underflow. */
  lemma Counts(retained: map<nat, nat>, last: map<nat, Record>, eligible: seq<Row>, revoked: set<nat>,
               older: seq<nat>, newer: seq<nat>)
    requires AscendingIds(eligible) && revoked <= Untouched(retained, last).Keys && MapOf(eligible).Keys !! retained.Keys
    requires forall x :: x in older <==> x in retained.Keys
    requires forall id :: id in newer <==> id in MapOf(eligible)
    ensures Ahead(older, 0, last.Keys + revoked) == Untouched(retained, last).Keys - revoked
    ensures Ahead(newer, 0, {}) == MapOf(eligible).Keys
    ensures |retained| >= |Removed(retained, last)| + |revoked|
    ensures |retained| - |Removed(retained, last)| - |revoked| + |eligible|
      == Total(Untouched(retained, last).Keys - revoked, MapOf(eligible).Keys)
    ensures Untouched(retained, last).Keys !! MapOf(eligible).Keys
  {
    hide *;
    AheadAll(older, retained.Keys, last.Keys + revoked);
    AheadAll(newer, MapOf(eligible).Keys, {});
    NothingLess(MapOf(eligible).Keys);
    MapOfSize(eligible);
    UntouchedSplit(retained, last, revoked);
    CountSets(retained.Keys, Removed(retained, last), Untouched(retained, last).Keys, revoked, MapOf(eligible).Keys);
  }

  lemma NothingLess(s: set<nat>)
    ensures s - {} == s
  {
  }

  lemma UntouchedSplit(retained: map<nat, nat>, last: map<nat, Record>, revoked: set<nat>)
    ensures retained.Keys == Removed(retained, last) + Untouched(retained, last).Keys
    ensures Removed(retained, last) !! Untouched(retained, last).Keys
    ensures retained.Keys - (last.Keys + revoked) == Untouched(retained, last).Keys - revoked
    ensures |retained| == |retained.Keys|
  {
  }

  lemma AheadAll(s: seq<nat>, ids: set<nat>, skip: set<nat>)
    requires forall x :: x in s <==> x in ids
    ensures Ahead(s, 0, skip) == ids - skip
  {
    assert s[0..] == s;
  }

  lemma CountSets(retained: set<nat>, removed: set<nat>, others: set<nat>, revoked: set<nat>, entrants: set<nat>)
    requires retained == removed + others && removed !! others && revoked <= others && entrants !! others
    ensures |retained| >= |removed| + |revoked|
    ensures |retained| - |removed| - |revoked| + |entrants| == Total(others - revoked, entrants)
  {
    assert |retained| == |removed| + |others|;
    assert |others - revoked| == |others| - |revoked|;
    assert |(others - revoked) + entrants| == |others - revoked| + |entrants|;
  }

  lemma EligibleDead(live: map<nat, nat>, retained: map<nat, nat>, last: map<nat, Record>, coverage: Option<Coverage>,
                     rows: seq<Row>, eligible: seq<Row>, revoked: set<nat>)
    requires Consistent(live, retained) && AscendingIds(eligible)
    requires Settled(rows, Untouched(retained, last), eligible, revoked)
    requires var dead := Deaths(live, last, coverage); forall r :: r in rows ==> r.id in dead && dead[r.id] == r.hash
    ensures var dead := Deaths(live, last, coverage);
      forall id :: id in MapOf(eligible) ==> id in dead && MapOf(eligible)[id] == dead[id]
    ensures MapOf(eligible).Keys !! retained.Keys
    ensures revoked <= Untouched(retained, last).Keys
  {
    AscendingBound(eligible);
    MapOfRows(eligible);
    forall id | id in MapOf(eligible)
      ensures id in Deaths(live, last, coverage) && MapOf(eligible)[id] == Deaths(live, last, coverage)[id]
    {
      assert Row(id, MapOf(eligible)[id]) in eligible;
    }
  }

  /** The last record of each document in a prepared set. */
  function FinalAs(last: map<nat, Record>, grants: map<nat, nat>, forgotten: seq<nat>, id: nat): Record
    requires id in last || id in forgotten
  {
    if id in forgotten then DocForget(id) else Rewritten(last[id], grants)
  }

  lemma FinalPrepared(records: seq<Record>, grants: map<nat, nat>, forgotten: seq<nat>)
    ensures var last, after := Final(records), Final(RewriteAll(records, grants) + Forgets(forgotten));
      && after.Keys == last.Keys + (set x | x in forgotten)
      && forall id :: id in after ==> after[id] == FinalAs(last, grants, forgotten, id)
  {
    FinalRewrite(records, grants);
    FinalForgets(RewriteAll(records, grants), forgotten);
  }

  lemma Finish(live: map<nat, nat>, retained: map<nat, nat>, records: seq<Record>, coverage: Option<Coverage>, limit: nat,
               entrants: map<nat, nat>, revoked: set<nat>, gone: set<nat>, dropped: set<nat>, grants: map<nat, nat>,
               forgotten: seq<nat>, prepared: seq<Record>)
    requires Consistent(live, retained)
    requires forall r :: r in records ==> !r.DocDormant?
    requires prepared == RewriteAll(records, grants) + Forgets(forgotten)
    requires grants == Less(entrants, dropped)
    requires forall x :: x in forgotten <==> x in revoked + gone
    requires var last := Final(records);
      var others, dead := Untouched(retained, last), Deaths(live, last, coverage);
      && Winners(others + dead) == (others.Keys - revoked) + entrants.Keys
      && (forall id :: id in entrants ==> id in dead && entrants[id] == dead[id])
      && revoked <= others.Keys && gone <= others.Keys - revoked && dropped <= entrants.Keys
      && var all := (others.Keys - revoked) + entrants.Keys; IsTop(all, all - gone - dropped, limit)
    ensures Canonical(Claims(live, retained, records, coverage), limit, DormantAfter(retained, prepared))
    ensures LiveAfter(live, prepared) == LiveAfter(live, records)
    ensures PreparedFrom(live, retained, Final(records), Final(prepared))
  {
    hide IsTop, Winners, Final, RewriteAll, Forgets, FinalAs, Untouched, Deaths, DormantAfter, LiveAfter, PreparedAt, Outcome;
    FinalPrepared(records, grants, forgotten);
    FinalIds(records);
    var last, after := Final(records), Final(prepared);
    var others, dead := Untouched(retained, last), Deaths(live, last, coverage);
    var all := (others.Keys - revoked) + entrants.Keys;
    forall id
      ensures Outcome(live, retained, last, coverage, all - gone - dropped, after, id)
      ensures PreparedAt(live, retained, last, after, id)
    {
      FinishAt(live, retained, last, coverage, entrants, revoked, gone, dropped, grants, forgotten, after, id);
    }
    FinishDormant(live, retained, records, coverage, all - gone - dropped, prepared);
    FinishLive(live, retained, records, coverage, all - gone - dropped, prepared);
    assert all - gone - dropped <= all;
  }

  /** Preparing keeps every document's last record but for a covered delete that
      earns a permission, and forgets only permissions nothing else touches. */
  ghost predicate PreparedFrom(live: map<nat, nat>, retained: map<nat, nat>, last: map<nat, Record>, after: map<nat, Record>) {
    forall id :: PreparedAt(live, retained, last, after, id)
  }

  ghost predicate PreparedAt(live: map<nat, nat>, retained: map<nat, nat>, last: map<nat, Record>, after: map<nat, Record>, id: nat) {
    && (id in last ==> id in after)
    && (id in last ==> after[id] == last[id] || (last[id].DocDelete? && id in live && after[id] == DocDormant(id, live[id])))
    && (id in after && id !in last ==> id in retained && after[id] == DocForget(id))
  }

  /** What one document comes to: `kept` is who has a permission afterwards. */
  ghost predicate Outcome(live: map<nat, nat>, retained: map<nat, nat>, last: map<nat, Record>, coverage: Option<Coverage>,
                          kept: set<nat>, after: map<nat, Record>, id: nat) {
    var others, dead := Untouched(retained, last), Deaths(live, last, coverage);
    var granted := id in after && after[id].DocDormant?;
    && (granted || (id in retained && id !in after) <==> id in kept)
    && (granted ==> id in dead && after[id].hash == dead[id])
    && (id in retained && id !in after ==> id in others && retained[id] == others[id] && id !in dead)
    && (id in live ==> (id in after <==> id in last))
    && ((id in after && after[id].DocPut?) <==> (id in last && last[id].DocPut?))
    && (id in after && after[id].DocPut? ==> after[id] == last[id])
  }

  lemma FinishDormant(live: map<nat, nat>, retained: map<nat, nat>, records: seq<Record>, coverage: Option<Coverage>,
                      kept: set<nat>, prepared: seq<Record>)
    requires forall id :: Outcome(live, retained, Final(records), coverage, kept, Final(prepared), id)
    ensures DormantAfter(retained, prepared).Keys == kept
    ensures var claims := Claims(live, retained, records, coverage);
      forall id :: id in kept ==> id in claims && DormantAfter(retained, prepared)[id] == claims[id]
  {
    hide Final, Untouched, Deaths;
    var r := DormantAfter(retained, prepared);
    forall id
      ensures id in r <==> id in kept
      ensures id in r ==> id in Claims(live, retained, records, coverage) && r[id] == Claims(live, retained, records, coverage)[id]
    {
      assert Outcome(live, retained, Final(records), coverage, kept, Final(prepared), id);
    }
  }

  lemma FinishLive(live: map<nat, nat>, retained: map<nat, nat>, records: seq<Record>, coverage: Option<Coverage>,
                   kept: set<nat>, prepared: seq<Record>)
    requires forall id :: Outcome(live, retained, Final(records), coverage, kept, Final(prepared), id)
    ensures LiveAfter(live, prepared) == LiveAfter(live, records)
  {
    hide Final, Untouched, Deaths;
    forall id
      ensures id in LiveAfter(live, prepared) <==> id in LiveAfter(live, records)
      ensures id in LiveAfter(live, prepared) ==> LiveAfter(live, prepared)[id] == LiveAfter(live, records)[id]
    {
      assert Outcome(live, retained, Final(records), coverage, kept, Final(prepared), id);
    }
  }

  /** One document, before and after. */
  lemma FinishAt(live: map<nat, nat>, retained: map<nat, nat>, last: map<nat, Record>, coverage: Option<Coverage>,
                 entrants: map<nat, nat>, revoked: set<nat>, gone: set<nat>, dropped: set<nat>, grants: map<nat, nat>,
                 forgotten: seq<nat>, after: map<nat, Record>, id: nat)
    requires live.Keys !! retained.Keys
    requires id in last ==> !last[id].DocDormant? && DocOf(last[id]) == Some(id)
    requires id in grants <==> id in entrants && id !in dropped
    requires id in grants ==> grants[id] == entrants[id]
    requires id in forgotten <==> id in revoked + gone
    requires id in after <==> id in last || id in forgotten
    requires id in after ==> after[id] == FinalAs(last, grants, forgotten, id)
    requires var others, dead := Untouched(retained, last), Deaths(live, last, coverage);
      && (id in entrants ==> id in dead && entrants[id] == dead[id])
      && revoked <= others.Keys && gone <= others.Keys - revoked && dropped <= entrants.Keys
    ensures Outcome(live, retained, last, coverage, (Untouched(retained, last).Keys - revoked) + entrants.Keys - gone - dropped,
                    after, id)
    ensures PreparedAt(live, retained, last, after, id)
  {
  }

  lemma NothingDies(live: map<nat, nat>, retained: map<nat, nat>, records: seq<Record>, coverage: Option<Coverage>, cap: nat)
    requires Consistent(live, retained) && |retained| <= Min(cap, CAP)
    requires forall r :: r in records ==> !r.DocDormant?
    requires MapOf([]) == Deaths(live, Final(records), coverage)
    ensures Canonical(Claims(live, retained, records, coverage), Min(cap, CAP), DormantAfter(retained, records))
    ensures PreparedFrom(live, retained, Final(records), Final(records))
  {
    hide *;
    FinalIds(records);
    NothingClaimed(live, retained, records, coverage);
    UntouchedSubset(retained, Final(records));
    UntouchedUnique(live, retained, Final(records));
    AllKept(Untouched(retained, Final(records)), Min(cap, CAP));
  }

  lemma NothingClaimed(live: map<nat, nat>, retained: map<nat, nat>, records: seq<Record>, coverage: Option<Coverage>)
    requires forall id :: id in Final(records) ==> Final(records)[id] in records
    requires forall r :: r in records ==> !r.DocDormant?
    requires MapOf([]) == Deaths(live, Final(records), coverage)
    ensures Claims(live, retained, records, coverage) == Untouched(retained, Final(records))
    ensures DormantAfter(retained, records) == Untouched(retained, Final(records))
    ensures PreparedFrom(live, retained, Final(records), Final(records))
  {
    hide Final, Deaths;
  }

  lemma UntouchedSubset(retained: map<nat, nat>, last: map<nat, Record>)
    ensures |Untouched(retained, last)| <= |retained|
  {
    SubsetSize(Untouched(retained, last).Keys, retained.Keys);
    assert |retained| == |retained.Keys| && |Untouched(retained, last)| == |Untouched(retained, last).Keys|;
  }

  lemma UntouchedUnique(live: map<nat, nat>, retained: map<nat, nat>, last: map<nat, Record>)
    requires Consistent(live, retained)
    ensures var r := Untouched(retained, last); forall a, b :: a in r && b in r && r[a] == r[b] ==> a == b
  {
  }

  /** A table within the limit, one id a hash, is its own canonical form. */
  lemma AllKept(table: map<nat, nat>, limit: nat)
    requires |table| <= limit && forall a, b :: a in table && b in table && table[a] == table[b] ==> a == b
    ensures Canonical(table, limit, table)
  {
    assert Winners(table) == table.Keys;
    assert |table| == |table.Keys|;
  }
}
