/** Revivable document identities: which permissions a change set leaves, and the
    incremental preparation that must agree with canonicalizing the whole table. */
module Dormant {
  import opened Sorting
  import opened Basics

  const CAP: nat := 1_000_000

  /** A retained permission. Ids and hashes are ordered. */
  datatype Row = Row(id: nat, hash: nat)

  /** Document records of a change set; `Other` is any record of another kind. */
  datatype Record = DocPut(id: nat, hash: nat) | DocDelete(id: nat) | DocDormant(id: nat, hash: nat) | DocForget(id: nat)
    | Other

  /** Which deaths are authorized: of ids below the frontier, but for some. */
  datatype Coverage = Coverage(frontier: nat, unreadable: seq<nat>) {
    predicate Covers(id: nat) {
      id < frontier && id !in unreadable
    }

    /** The test as it is made, by searching exceptions in order. */
    method Test(id: nat) returns (r: bool)
      requires Ascending(unreadable)
      ensures r <==> id < frontier && forall i :: 0 <= i < |unreadable| ==> unreadable[i] != id
      ensures r <==> Covers(id)
    {
      var lo: nat, hi: nat := 0, |unreadable|;
      while lo < hi
        invariant lo <= hi <= |unreadable|
        invariant forall i :: 0 <= i < lo ==> unreadable[i] < id
        invariant forall i :: hi <= i < |unreadable| ==> unreadable[i] > id
      {
        var mid := (lo + hi) / 2;
        if unreadable[mid] == id {
          return false;
        } else if unreadable[mid] < id {
          lo := mid + 1;
        } else {
          hi := mid;
        }
      }
      r := id < frontier;
    }
  }

  /** Exceptions sorted, each once. */
  method NewCoverage(frontier: nat, unreadable: set<nat>) returns (c: Coverage)
    ensures c.frontier == frontier && Ascending(c.unreadable)
    ensures forall id: nat :: c.Covers(id) <==> id < frontier && id !in unreadable
  {
    var ids := InOrder(unreadable);
    c := Coverage(frontier, ids);
  }

  // ---- the simple rule ----

  /** The ids that hold their hash: the highest id for each. */
  ghost function Winners(table: map<nat, nat>): set<nat> {
    set id | id in table && forall other :: other in table && table[other] == table[id] ==> other <= id
  }

  /** `kept` is the `limit` greatest ids of `all`, or all of them. */
  ghost predicate IsTop(all: set<nat>, kept: set<nat>, limit: nat) {
    && kept <= all && |kept| == Min(|all|, limit)
    && forall x, y :: x in all - kept && y in kept ==> x < y
  }

  /** `r` is what `table` may keep: of its winners, the `limit` greatest ids. */
  ghost predicate Canonical(table: map<nat, nat>, limit: nat, r: map<nat, nat>) {
    && IsTop(Winners(table), r.Keys, limit)
    && forall id :: id in r ==> id in table && r[id] == table[id]
  }

  /** The rule leaves exactly one table. */
  lemma CanonicalUnique(table: map<nat, nat>, limit: nat, r: map<nat, nat>, q: map<nat, nat>)
    requires Canonical(table, limit, r) && Canonical(table, limit, q)
    ensures r == q
  {
    TopUnique(Winners(table), r.Keys, q.Keys, limit);
  }

  lemma TopUnique(all: set<nat>, a: set<nat>, b: set<nat>, limit: nat)
    requires IsTop(all, a, limit) && IsTop(all, b, limit)
    ensures a == b
  {
    if a != b {
      OneSided(a, b);
      OneSided(b, a);
      var x :| x in a && x in all - b;
      var y :| y in b && y in all - a;
    }
  }

  /** Equally large different sets each have something the other lacks. */
  lemma OneSided(a: set<nat>, b: set<nat>)
    requires |a| == |b| && a != b
    ensures exists x :: x in a && x !in b
  {
    if forall x :: x in a ==> x in b {
      SubsetSize(a, b);
    }
  }

  // ---- canonicalize, over rows ----

  function MapOf(rows: seq<Row>): map<nat, nat> {
    if rows == [] then map[]
    else
      var n := |rows| - 1;
      MapOf(rows[..n])[rows[n].id := rows[n].hash]
  }

  lemma {:induction false} MapOfKeys(rows: seq<Row>)
    ensures forall id :: id in MapOf(rows) ==> HasId(rows, id)
    ensures forall i :: 0 <= i < |rows| ==> rows[i].id in MapOf(rows)
  {
    if rows != [] {
      var n := |rows| - 1;
      MapOfKeys(rows[..n]);
      forall id | HasId(rows[..n], id)
        ensures HasId(rows, id)
      {
        var i :| 0 <= i < n && rows[..n][i].id == id;
        assert rows[i].id == id;
      }
      assert forall i :: 0 <= i < n ==> rows[..n][i] == rows[i];
      assert HasId(rows, rows[n].id);
    }
  }

  predicate HasId(rows: seq<Row>, id: nat) {
    exists i :: 0 <= i < |rows| && rows[i].id == id
  }

  /** An id is bound to one hash. */
  ghost predicate Bound(rows: seq<Row>) {
    forall r, q :: r in rows && q in rows && r.id == q.id ==> r == q
  }

  lemma {:induction false} MapOfRows(rows: seq<Row>)
    requires Bound(rows)
    ensures forall r :: r in rows <==> r.id in MapOf(rows) && MapOf(rows)[r.id] == r.hash
  {
    if rows != [] {
      var n := |rows| - 1;
      MapOfRows(rows[..n]);
      assert rows == rows[..n] + [rows[n]];
    }
  }

  /** By hash, the highest id first. */
  predicate ByHash(a: Row, b: Row) {
    a.hash < b.hash || (a.hash == b.hash && a.id >= b.id)
  }

  predicate ById(a: Row, b: Row) {
    a.id < b.id || (a.id == b.id && a.hash <= b.hash)
  }

  predicate AscendingIds(rows: seq<Row>) {
    forall i, j :: 0 <= i < j < |rows| ==> rows[i].id < rows[j].id
  }

  /** Keeps the first row of each run of equal hashes. */
  function DedupByHash(rows: seq<Row>): seq<Row> {
    if |rows| <= 1 then rows
    else
      var n := |rows| - 1;
      DedupByHash(rows[..n]) + (if rows[n].hash == rows[n - 1].hash then [] else [rows[n]])
  }

  /** What remains of each hash is its highest id, once. */
  lemma {:induction false} DedupWinners(rows: seq<Row>)
    requires SortedBy(rows, ByHash)
    ensures forall r :: r in DedupByHash(rows) <==> r in rows && Highest(r, rows)
    ensures rows != [] ==> DedupByHash(rows) != [] && DedupByHash(rows)[|DedupByHash(rows)| - 1].hash == rows[|rows| - 1].hash
  {
    if |rows| > 1 {
      hide Highest, ByHash;
      var n := |rows| - 1;
      DedupWinners(rows[..n]);
      LastHighest(rows);
      forall r
        ensures r in DedupByHash(rows) <==> r in rows && Highest(r, rows)
      {
        DedupWinner(rows, r);
      }
    }
  }

  /** Sorted rows all come before the last two. */
  lemma LastHighest(rows: seq<Row>)
    requires SortedBy(rows, ByHash) && |rows| > 1
    ensures var n := |rows| - 1; forall q :: q in rows[..n] ==> ByHash(q, rows[n]) && ByHash(q, rows[n - 1])
  {
    var n := |rows| - 1;
    forall q | q in rows[..n]
      ensures ByHash(q, rows[n]) && ByHash(q, rows[n - 1])
    {
      var i :| 0 <= i < n && rows[..n][i] == q;
      assert ByHash(rows[i], rows[n]);
      assert i < n - 1 ==> ByHash(rows[i], rows[n - 1]);
    }
  }

  lemma DedupWinner(rows: seq<Row>, r: Row)
    requires |rows| > 1
    requires var n := |rows| - 1;
      && (forall q :: q in rows[..n] ==> ByHash(q, rows[n]) && ByHash(q, rows[n - 1]))
      && (r in DedupByHash(rows[..n]) <==> r in rows[..n] && Highest(r, rows[..n]))
    ensures r in DedupByHash(rows) <==> r in rows && Highest(r, rows)
  {
    hide Highest, ByHash, DedupByHash;
    var n := |rows| - 1;
    var front, last, before := rows[..n], rows[n], rows[n - 1];
    FrontLast(rows, r);
    HighestStep(front, last, before, r);
    HighestStep(front, last, before, last);
    DedupStep(rows, r);
  }

  lemma FrontLast(rows: seq<Row>, r: Row)
    requires |rows| > 1
    ensures var n := |rows| - 1;
      && rows == rows[..n] + [rows[n]] && rows[n - 1] in rows[..n]
      && (r in rows <==> r in rows[..n] || r == rows[n])
  {
    var n := |rows| - 1;
    assert rows[..n][n - 1] == rows[n - 1];
    assert rows == rows[..n] + [rows[n]];
  }

  lemma DedupStep(rows: seq<Row>, r: Row)
    requires |rows| > 1
    ensures var n := |rows| - 1;
      r in DedupByHash(rows) <==> r in DedupByHash(rows[..n]) || (rows[n].hash != rows[n - 1].hash && r == rows[n])
  {
  }

  predicate Highest(r: Row, rows: seq<Row>) {
    forall q :: q in rows && q.hash == r.hash ==> q.id <= r.id
  }

  lemma HighestStep(front: seq<Row>, last: Row, before: Row, r: Row)
    requires before in front
    requires forall q :: q in front ==> ByHash(q, last) && ByHash(q, before)
    ensures r in front ==> (Highest(r, front + [last]) <==> Highest(r, front))
    ensures Highest(last, front + [last]) && last !in front ==> before.hash != last.hash
    ensures before.hash != last.hash ==> Highest(last, front + [last])
    ensures before.hash == last.hash && r == last && Highest(r, front + [last]) ==> r in front
  {
    assert forall q :: q in front + [last] <==> q in front || q == last;
    assert ByHash(before, last);
  }

  lemma {:induction false} DedupAscends(rows: seq<Row>)
    requires SortedBy(rows, ByHash)
    ensures forall i, j :: 0 <= i < j < |DedupByHash(rows)| ==> DedupByHash(rows)[i].hash < DedupByHash(rows)[j].hash
  {
    if |rows| > 1 {
      var n := |rows| - 1;
      DedupAscends(rows[..n]);
      DedupWinners(rows[..n]);
      assert ByHash(rows[n - 1], rows[n]);
      var d := DedupByHash(rows[..n]);
      assert d[|d| - 1].hash == rows[n - 1].hash;
    }
  }

  /** Sort, drop repeated hashes, sort by id, drop the lowest: in place. */
  method Canonicalize(input: seq<Row>, cap: nat) returns (rows: seq<Row>)
    requires Bound(input)
    ensures AscendingIds(rows)
    ensures Canonical(MapOf(input), cap, MapOf(rows))
    ensures forall r :: r in rows ==> r in input
  {
    hide Sort, DedupByHash, Canonical, MapOf, SortedBy, Bound;
    TotalOrders();
    rows := Sort(input, ByHash);
    SortSorted(input, ByHash);
    DedupWinners(rows);
    DedupAscends(rows);
    SameHighest(input, rows);
    rows := DedupByHash(rows);
    ghost var winners := rows;
    rows := Sort(rows, ById);
    SortSorted(winners, ById);
    Ascends(winners, rows, input);
    CanonicalRows(input, rows, cap);
    if |rows| > cap {
      rows := rows[|rows| - cap..];
    }
  }

  lemma TotalOrders()
    ensures TotalOrder(ByHash) && TotalOrder(ById)
  {
  }

  lemma SameHighest(a: seq<Row>, b: seq<Row>)
    requires forall r :: r in a <==> r in b
    ensures forall r :: Highest(r, a) <==> Highest(r, b)
  {
  }

  lemma Ascends(winners: seq<Row>, rows: seq<Row>, input: seq<Row>)
    requires Bound(input) && forall r :: r in winners ==> r in input
    requires forall i, j :: 0 <= i < j < |winners| ==> winners[i].hash < winners[j].hash
    requires SortedBy(rows, ById) && multiset(rows) == multiset(winners)
    ensures AscendingIds(rows)
  {
    forall i, j | 0 <= i < j < |rows|
      ensures rows[i].id < rows[j].id
    {
      assert ById(rows[i], rows[j]);
      assert rows[i] in multiset(winners) && rows[j] in multiset(winners);
      if rows[i].id == rows[j].id {
        Twice(rows, i, j);
        Once(winners, rows[i]);
      }
    }
  }

  lemma Twice(rows: seq<Row>, i: nat, j: nat)
    requires i < j < |rows| && rows[i] == rows[j]
    ensures multiset(rows)[rows[i]] >= 2
  {
    assert rows == rows[..i] + [rows[i]] + rows[i + 1..j] + [rows[j]] + rows[j + 1..];
  }

  lemma {:induction false} Once(rows: seq<Row>, x: Row)
    requires forall i, j :: 0 <= i < j < |rows| ==> rows[i].hash < rows[j].hash
    ensures multiset(rows)[x] <= 1
  {
    if rows != [] {
      var n := |rows| - 1;
      Once(rows[..n], x);
      assert rows == rows[..n] + [rows[n]];
      assert rows[n] !in rows[..n];
    }
  }

  /** Rows by id that are exactly the winners: dropping the lowest is the rule. */
  lemma CanonicalRows(input: seq<Row>, rows: seq<Row>, cap: nat)
    requires Bound(input) && AscendingIds(rows)
    requires forall r :: r in rows <==> r in input && Highest(r, input)
    ensures Canonical(MapOf(input), cap, MapOf(if |rows| > cap then rows[|rows| - cap..] else rows))
  {
    var kept := if |rows| > cap then rows[|rows| - cap..] else rows;
    var table := MapOf(input);
    assert Winners(table) == MapOf(rows).Keys by {
      forall id
        ensures id in Winners(table) <==> id in MapOf(rows)
      {
        WinnerRow(input, rows, id);
      }
    }
    SuffixTop(rows, kept, cap);
    MapOfRows(input);
    MapOfRows(kept);
    forall id | id in MapOf(kept)
      ensures id in table && MapOf(kept)[id] == table[id]
    {
      var r := Row(id, MapOf(kept)[id]);
      assert r in kept;
      assert r in rows;
    }
  }

  lemma AscendingBound(rows: seq<Row>)
    requires AscendingIds(rows)
    ensures Bound(rows)
  {
  }

  lemma SuffixTop(rows: seq<Row>, kept: seq<Row>, cap: nat)
    requires AscendingIds(rows) && kept == if |rows| > cap then rows[|rows| - cap..] else rows
    ensures Bound(kept) && IsTop(MapOf(rows).Keys, MapOf(kept).Keys, cap)
  {
    hide MapOf, Bound;
    var drop := |rows| - |kept|;
    assert kept == rows[drop..];
    AscendingBound(kept);
    MapOfSize(rows);
    MapOfSize(kept);
    SuffixKeys(rows, drop);
  }

  lemma SuffixKeys(rows: seq<Row>, drop: nat)
    requires AscendingIds(rows) && drop <= |rows|
    ensures MapOf(rows[drop..]).Keys <= MapOf(rows).Keys
    ensures forall x, y :: x in MapOf(rows) && x !in MapOf(rows[drop..]) && y in MapOf(rows[drop..]) ==> x < y
  {
    hide MapOf;
    var kept := rows[drop..];
    MapOfKeys(rows);
    MapOfKeys(kept);
    assert forall i :: drop <= i < |rows| ==> rows[i] == kept[i - drop];
    forall y | y in MapOf(kept)
      ensures exists j :: drop <= j < |rows| && rows[j].id == y
    {
      var j :| 0 <= j < |kept| && kept[j].id == y;
      assert rows[drop + j].id == y;
    }
    forall x | x in MapOf(rows) && x !in MapOf(kept)
      ensures exists i :: 0 <= i < drop && rows[i].id == x
    {
      var i :| 0 <= i < |rows| && rows[i].id == x;
    }
  }

  lemma WinnerRow(input: seq<Row>, rows: seq<Row>, id: nat)
    requires Bound(input) && AscendingIds(rows)
    requires forall r :: r in rows <==> r in input && Highest(r, input)
    ensures id in Winners(MapOf(input)) <==> id in MapOf(rows)
  {
    MapOfRows(input);
    MapOfRows(rows);
    var table := MapOf(input);
    if id in Winners(table) {
      var r := Row(id, table[id]);
      assert r in input;
      assert Highest(r, input) by {
        assert forall q :: q in input ==> q.id in table && table[q.id] == q.hash;
      }
      assert r in rows;
    }
    if id in MapOf(rows) {
      var r := Row(id, MapOf(rows)[id]);
      assert r in rows;
      forall other | other in table && table[other] == table[id]
        ensures other <= id
      {
        assert Row(other, table[other]) in input;
      }
    }
  }

  lemma {:induction false} MapOfSize(rows: seq<Row>)
    requires AscendingIds(rows)
    ensures |MapOf(rows).Keys| == |rows|
  {
    if rows != [] {
      var n := |rows| - 1;
      MapOfSize(rows[..n]);
      MapOfKeys(rows[..n]);
      assert rows[n].id !in MapOf(rows[..n]);
      assert MapOf(rows).Keys == MapOf(rows[..n]).Keys + {rows[n].id};
    }
  }
}
