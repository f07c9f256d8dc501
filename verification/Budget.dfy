/** Log budgets: replaying a log family by family must come to what projecting
    its transactions in commit order comes to. */
module Budget {
  /** Bytes of a log's header. */
  const HEADER: nat := 64

  datatype Family = Namespace | Inodes | Aux | Docs

  /** `Others` is any record that is not about an inode's or a name's state. */
  datatype Record =
    | NamePut(id: nat) | NameDelete(id: nat)
    | LifePut(id: nat) | DirPut(id: nat) | InodeDelete(id: nat) | InodePut(id: nat)
    | Others(kind: Family)
  {
    function InFamily(): Family {
      match this
      case InodePut(_) => Inodes
      case Others(kind) => kind
      case _ => Namespace
    }

    predicate AboutName(n: nat) {
      (NamePut? || NameDelete?) && id == n
    }

    predicate Touches(n: nat) {
      (LifePut? || DirPut? || InodePut?) && id == n
    }
  }

  /** A transaction's records and its framed length. */
  datatype Transaction = Transaction(records: seq<Record>, bytes: nat)

  datatype Usage = Usage(
    logBytes: nat, records: nat, transactions: nat, baseInodes: nat, baseNames: nat,
    dirtyInodes: nat, dirtyNames: nat, deadInodes: nat, deadNames: nat)

  // ---- what the sets come to ----

  /** The last record of a name. */
  function LastOfName(records: seq<Record>, n: nat): seq<Record> {
    if records == [] then []
    else
      var last := records[|records| - 1];
      if last.AboutName(n) then [last] else LastOfName(records[..|records| - 1], n)
  }

  predicate Touched(records: seq<Record>, n: nat) {
    exists r :: r in records && r.Touches(n)
  }

  /** Every row of an inode touches it, and every record of a name counts. */
  lemma {:induction false} RecordsCount(records: seq<Record>, n: nat)
    ensures Touched(records, n) <==> LifePut(n) in records || DirPut(n) in records || InodePut(n) in records
    ensures LastOfName(records, n) == [] <==> NamePut(n) !in records && NameDelete(n) !in records
    ensures LastOfName(records, n) != [] ==> LastOfName(records, n) in [[NamePut(n)], [NameDelete(n)]]
  {
    assert forall r :: r in records && r.Touches(n) ==> r == LifePut(n) || r == DirPut(n) || r == InodePut(n);
    assert LifePut(n).Touches(n) && DirPut(n).Touches(n) && InodePut(n).Touches(n);
    if records != [] {
      RecordsCount(records[..|records| - 1], n);
      assert records == records[..|records| - 1] + [records[|records| - 1]];
    }
  }

  /** Dirty inodes are those touched and never deleted, dead ones those deleted;
      a name is dirty or dead as its last record has it. */
  ghost predicate Sums(records: seq<Record>, dirtyInodes: set<nat>, dirtyNames: set<nat>, deadInodes: set<nat>, deadNames: set<nat>) {
    forall n: nat :: SumsAt(records, dirtyInodes, dirtyNames, deadInodes, deadNames, n)
  }

  ghost predicate SumsAt(records: seq<Record>, dirtyInodes: set<nat>, dirtyNames: set<nat>, deadInodes: set<nat>, deadNames: set<nat>, n: nat) {
    && (n in deadInodes <==> InodeDelete(n) in records)
    && (n in dirtyInodes <==> Touched(records, n) && InodeDelete(n) !in records)
    && (n in dirtyNames <==> LastOfName(records, n) == [NamePut(n)])
    && (n in deadNames <==> LastOfName(records, n) == [NameDelete(n)])
  }

  /** The sets are determined by the records, and dirty and dead never meet. */
  lemma SumsUnique(records: seq<Record>, a: set<nat>, b: set<nat>, c: set<nat>, d: set<nat>,
                   a': set<nat>, b': set<nat>, c': set<nat>, d': set<nat>)
    requires Sums(records, a, b, c, d) && Sums(records, a', b', c', d')
    ensures a == a' && b == b' && c == c' && d == d'
    ensures a !! c && b !! d
  {
    hide LastOfName, Touched;
    forall n: nat
      ensures n in a <==> n in a'
      ensures n in b <==> n in b'
      ensures n in c <==> n in c'
      ensures n in d <==> n in d'
      ensures !(n in a && n in c) && !(n in b && n in d)
    {
      assert SumsAt(records, a, b, c, d, n) && SumsAt(records, a', b', c', d', n);
    }
  }

  // ---- reading by family ----

  /** A log's records in commit order. */
  function All(log: seq<Transaction>): seq<Record> {
    if log == [] then [] else All(log[..|log| - 1]) + log[|log| - 1].records
  }

  /** Those of one family, still in commit order. */
  function OfFamily(records: seq<Record>, f: Family): seq<Record> {
    if records == [] then []
    else
      var last := records[|records| - 1];
      OfFamily(records[..|records| - 1], f) + if last.InFamily() == f then [last] else []
  }

  lemma {:induction false} OfFamilyMembers(records: seq<Record>, f: Family, r: Record)
    ensures r in OfFamily(records, f) <==> r in records && r.InFamily() == f
  {
    if records != [] {
      OfFamilyMembers(records[..|records| - 1], f, r);
      assert records == records[..|records| - 1] + [records[|records| - 1]];
    }
  }

  lemma {:induction false} NamespaceNames(records: seq<Record>, n: nat)
    ensures LastOfName(OfFamily(records, Namespace), n) == LastOfName(records, n)
  {
    if records != [] {
      var front, last := records[..|records| - 1], records[|records| - 1];
      NamespaceNames(front, n);
      if last.InFamily() == Namespace {
        assert (OfFamily(front, Namespace) + [last])[..|OfFamily(front, Namespace)|] == OfFamily(front, Namespace);
      } else {
        assert OfFamily(records, Namespace) == OfFamily(front, Namespace);
      }
    }
  }

  lemma {:induction false} NoNamesAfter(a: seq<Record>, b: seq<Record>, n: nat)
    requires forall r :: r in b ==> !r.AboutName(n)
    ensures LastOfName(a + b, n) == LastOfName(a, n)
  {
    if b == [] {
      assert a + b == a;
    } else {
      var front := b[..|b| - 1];
      NoNamesAfter(a, front, n);
      assert (a + b)[..|a + b| - 1] == a + front;
      assert b[|b| - 1] in b;
    }
  }

  /** The order `Budget.open` replays a log in. */
  function ByFamily(records: seq<Record>): seq<Record> {
    OfFamily(records, Namespace) + OfFamily(records, Inodes)
  }

  /** Replaying by family changes nothing: deletes are for ever and a name's
      records are all of one family. */
  lemma FamilyOrder(records: seq<Record>, a: set<nat>, b: set<nat>, c: set<nat>, d: set<nat>)
    ensures Sums(ByFamily(records), a, b, c, d) <==> Sums(records, a, b, c, d)
  {
    hide LastOfName;
    forall n: nat
      ensures SumsAt(ByFamily(records), a, b, c, d, n) <==> SumsAt(records, a, b, c, d, n)
    {
      FamilyOrderAt(records, n);
    }
    if Sums(records, a, b, c, d) {
      forall n: nat
        ensures SumsAt(ByFamily(records), a, b, c, d, n)
      {
        assert SumsAt(records, a, b, c, d, n);
      }
    }
    if Sums(ByFamily(records), a, b, c, d) {
      forall n: nat
        ensures SumsAt(records, a, b, c, d, n)
      {
        assert SumsAt(ByFamily(records), a, b, c, d, n);
      }
    }
  }

  lemma FamilyOrderAt(records: seq<Record>, n: nat)
    ensures InodeDelete(n) in ByFamily(records) <==> InodeDelete(n) in records
    ensures Touched(ByFamily(records), n) <==> Touched(records, n)
    ensures LastOfName(ByFamily(records), n) == LastOfName(records, n)
  {
    hide LastOfName;
    forall r
      ensures r in ByFamily(records) <==> r in records && (r.InFamily() == Namespace || r.InFamily() == Inodes)
      ensures r in OfFamily(records, Inodes) ==> !r.AboutName(n)
    {
      OfFamilyMembers(records, Namespace, r);
      OfFamilyMembers(records, Inodes, r);
    }
    NamespaceNames(records, n);
    NoNamesAfter(OfFamily(records, Namespace), OfFamily(records, Inodes), n);
  }

  // ---- totals ----

  function Bytes(log: seq<Transaction>): nat {
    if log == [] then 0 else Bytes(log[..|log| - 1]) + log[|log| - 1].bytes
  }

  /** How many transactions have records; a committed one always does. */
  function Filled(log: seq<Transaction>): nat {
    if log == [] then 0 else Filled(log[..|log| - 1]) + if log[|log| - 1].records != [] then 1 else 0
  }

  lemma {:induction false} AllFilled(log: seq<Transaction>)
    requires forall t :: t in log ==> t.records != []
    ensures Filled(log) == |log|
  {
    if log != [] {
      AllFilled(log[..|log| - 1]);
      assert log[|log| - 1] in log;
    }
  }

  /** Ids of a set below a checkpoint's count. */
  function Under(ids: set<nat>, count: nat): set<nat> {
    set n | n in ids && n < count
  }

  class Budget {
    var usage: Usage
    var dirtyInodes: set<nat>
    var dirtyNames: set<nat>
    var deadInodes: set<nat>
    var deadNames: set<nat>

    /** The sets are what these records come to. */
    ghost predicate Has(records: seq<Record>)
      reads `dirtyInodes, `dirtyNames, `deadInodes, `deadNames
    {
      Sums(records, dirtyInodes, dirtyNames, deadInodes, deadNames)
    }

    predicate CountsUpdated()
      reads this
    {
      && usage.dirtyInodes == |dirtyInodes| && usage.dirtyNames == |dirtyNames|
      && usage.deadInodes == |Under(deadInodes, usage.baseInodes)| && usage.deadNames == |Under(deadNames, usage.baseNames)|
    }

    /** The budget of a whole log over a checkpoint with these counts. */
    ghost predicate Shows(log: seq<Transaction>, inodes: nat, names: nat)
      reads this
    {
      && Has(All(log)) && CountsUpdated()
      && usage.baseInodes == inodes && usage.baseNames == names
      && usage.logBytes == HEADER + Bytes(log) && usage.records == |All(log)| && usage.transactions == Filled(log)
    }

    constructor Empty(inodes: nat, names: nat)
      ensures Shows([], inodes, names)
    {
      usage := Usage(HEADER, 0, 0, inodes, names, 0, 0, 0, 0);
      dirtyInodes, dirtyNames, deadInodes, deadNames := {}, {}, {}, {};
      new;
      assert Under({}, inodes) == {} && Under({}, names) == {};
    }

    constructor Copy(from: Budget)
      ensures usage == from.usage && dirtyInodes == from.dirtyInodes && dirtyNames == from.dirtyNames
      ensures deadInodes == from.deadInodes && deadNames == from.deadNames
    {
      usage := from.usage;
      dirtyInodes, dirtyNames := from.dirtyInodes, from.dirtyNames;
      deadInodes, deadNames := from.deadInodes, from.deadNames;
    }

    /** One record. A deleted inode ignores anything later. */
    method Apply(r: Record, ghost before: seq<Record>)
      requires Has(before)
      modifies `dirtyInodes, `dirtyNames, `deadInodes, `deadNames
      ensures Has(before + [r])
    {
      hide LastOfName, Touched;
      ghost var a, b, c, d := dirtyInodes, dirtyNames, deadInodes, deadNames;
      match r {
        case NamePut(id) =>
          dirtyNames := dirtyNames + {id};
          deadNames := deadNames - {id};
        case NameDelete(id) =>
          dirtyNames := dirtyNames - {id};
          deadNames := deadNames + {id};
        case InodeDelete(id) =>
          dirtyInodes := dirtyInodes - {id};
          deadInodes := deadInodes + {id};
        case Others(_) =>
        case _ =>
          if r.id !in deadInodes {
            dirtyInodes := dirtyInodes + {r.id};
          }
      }
      forall n: nat
        ensures SumsAt(before + [r], dirtyInodes, dirtyNames, deadInodes, deadNames, n)
      {
        assert SumsAt(before, a, b, c, d, n);
        OneMore(before, r, n);
      }
    }

    method UpdateCounts()
      modifies `usage
      ensures CountsUpdated()
      ensures usage == old(usage).(dirtyInodes := usage.dirtyInodes, dirtyNames := usage.dirtyNames,
                                   deadInodes := usage.deadInodes, deadNames := usage.deadNames)
    {
      usage := usage.(dirtyInodes := |dirtyInodes|, dirtyNames := |dirtyNames|,
        deadInodes := |Under(deadInodes, usage.baseInodes)|, deadNames := |Under(deadNames, usage.baseNames)|);
    }

    /** The budget a transaction would leave; this one is unchanged. */
    method Project(t: Transaction, ghost log: seq<Transaction>, ghost inodes: nat, ghost names: nat) returns (after: Budget)
      requires Shows(log, inodes, names)
      ensures fresh(after) && after.Shows(log + [t], inodes, names)
    {
      hide *;
      after := new Budget.Copy(this);
      ShowsParts(this, log, inodes, names);
      ghost var was := after.usage;
      HasCopy(this, after, All(log));
      for i := 0 to |t.records|
        invariant after.Has(All(log) + t.records[..i]) && after.usage == was
      {
        after.Apply(t.records[i], All(log) + t.records[..i]);
        assert All(log) + t.records[..i + 1] == All(log) + t.records[..i] + [t.records[i]];
      }
      assert t.records[..|t.records|] == t.records;
      after.usage := after.usage.(logBytes := after.usage.logBytes + t.bytes, records := after.usage.records + |t.records|,
        transactions := after.usage.transactions + if t.records != [] then 1 else 0);
      after.UpdateCounts();
      AllPush(log, t);
      ShowsNow(after, log + [t], inodes, names);
    }

    /** The budget of a published log, read family by family. */
    constructor Open(log: seq<Transaction>, inodes: nat, names: nat)
      requires forall t :: t in log ==> t.records != []
      ensures Shows(log, inodes, names)
    {
      usage := Usage(HEADER, 0, 0, inodes, names, 0, 0, 0, 0);
      dirtyInodes, dirtyNames, deadInodes, deadNames := {}, {}, {}, {};
      new;
      hide *;
      var all := All(log);
      var order := ByFamily(all);
      HasNone(this);
      for i := 0 to |order|
        invariant Has(order[..i]) && usage == Usage(HEADER, 0, 0, inodes, names, 0, 0, 0, 0)
      {
        Apply(order[i], order[..i]);
        assert order[..i + 1] == order[..i] + [order[i]];
      }
      assert order[..|order|] == order;
      FamilyOrder(all, dirtyInodes, dirtyNames, deadInodes, deadNames);
      HasSums(this, all, order);
      usage := usage.(records := |all|, logBytes := HEADER + Bytes(log), transactions := |log|);
      UpdateCounts();
      AllFilled(log);
      ShowsNow(this, log, inodes, names);
    }

    /** Two budgets of one log agree: projecting as it was committed, and
        opening it afterwards. Dirty and dead stay apart. */
    lemma Agree(other: Budget, log: seq<Transaction>, inodes: nat, names: nat)
      requires Shows(log, inodes, names) && other.Shows(log, inodes, names)
      ensures usage == other.usage
      ensures dirtyInodes == other.dirtyInodes && dirtyNames == other.dirtyNames
      ensures deadInodes == other.deadInodes && deadNames == other.deadNames
      ensures dirtyInodes !! deadInodes && dirtyNames !! deadNames
    {
      hide Sums, All, Bytes, Filled;
      SumsUnique(All(log), dirtyInodes, dirtyNames, deadInodes, deadNames,
                 other.dirtyInodes, other.dirtyNames, other.deadInodes, other.deadNames);
    }
  }

  /** The checkpoint's inodes that were deleted. */
  ghost function InodesGone(records: seq<Record>, inodes: nat): set<nat> {
    set n: nat | n < inodes && InodeDelete(n) in records
  }

  /** The checkpoint's names whose last record deletes them. */
  ghost function NamesGone(records: seq<Record>, names: nat): set<nat> {
    set n: nat | n < names && LastOfName(records, n) == [NameDelete(n)]
  }

  /** Dead counts are of what the checkpoint had. */
  lemma DeadCounted(b: Budget, log: seq<Transaction>, inodes: nat, names: nat)
    requires b.Shows(log, inodes, names)
    ensures b.usage.deadInodes == |InodesGone(All(log), inodes)|
    ensures b.usage.deadNames == |NamesGone(All(log), names)|
  {
    hide All, LastOfName, Touched;
    var records := All(log);
    forall n: nat
      ensures n in Under(b.deadInodes, inodes) <==> n in InodesGone(records, inodes)
      ensures n in Under(b.deadNames, names) <==> n in NamesGone(records, names)
    {
      assert SumsAt(records, b.dirtyInodes, b.dirtyNames, b.deadInodes, b.deadNames, n);
    }
    assert Under(b.deadInodes, inodes) == InodesGone(records, inodes);
    assert Under(b.deadNames, names) == NamesGone(records, names);
  }

  /** Stat rows are a family of their own, apart from names and lifetimes. */
  lemma {:induction false} FamiliesApart(records: seq<Record>)
    ensures forall r :: r in OfFamily(records, Inodes) <==> r in records && (r.InodePut? || r == Others(Inodes))
    ensures forall r :: r in OfFamily(records, Namespace) <==> r in records && !r.InodePut? && (r.Others? ==> r.kind == Namespace)
  {
    if records != [] {
      FamiliesApart(records[..|records| - 1]);
      assert records == records[..|records| - 1] + [records[|records| - 1]];
    }
  }

  lemma OneMore(before: seq<Record>, r: Record, n: nat)
    ensures InodeDelete(n) in before + [r] <==> InodeDelete(n) in before || r == InodeDelete(n)
    ensures Touched(before + [r], n) <==> Touched(before, n) || r.Touches(n)
    ensures LastOfName(before + [r], n) == if r.AboutName(n) then [r] else LastOfName(before, n)
  {
    assert (before + [r])[..|before|] == before;
    assert r in before + [r];
    assert forall x :: x in before ==> x in before + [r];
  }

  lemma HasNone(b: Budget)
    requires b.dirtyInodes == {} && b.dirtyNames == {} && b.deadInodes == {} && b.deadNames == {}
    ensures forall order: seq<Record> :: b.Has(order[..0])
  {
  }

  lemma HasCopy(a: Budget, b: Budget, records: seq<Record>)
    requires a.Has(records) && b.dirtyInodes == a.dirtyInodes && b.dirtyNames == a.dirtyNames
    requires b.deadInodes == a.deadInodes && b.deadNames == a.deadNames
    ensures forall t: seq<Record> :: b.Has(records + t[..0])
  {
    hide Sums;
    forall t: seq<Record>
      ensures b.Has(records + t[..0])
    {
      assert records + t[..0] == records;
    }
  }

  lemma HasSums(b: Budget, all: seq<Record>, order: seq<Record>)
    requires b.Has(order)
    requires Sums(order, b.dirtyInodes, b.dirtyNames, b.deadInodes, b.deadNames) <==>
             Sums(all, b.dirtyInodes, b.dirtyNames, b.deadInodes, b.deadNames)
    ensures b.Has(all)
  {
    hide Sums;
  }

  lemma ShowsParts(b: Budget, log: seq<Transaction>, inodes: nat, names: nat)
    requires b.Shows(log, inodes, names)
    ensures b.Has(All(log)) && b.usage.baseInodes == inodes && b.usage.baseNames == names
    ensures b.usage.logBytes == HEADER + Bytes(log) && b.usage.records == |All(log)| && b.usage.transactions == Filled(log)
  {
  }

  lemma ShowsNow(b: Budget, log: seq<Transaction>, inodes: nat, names: nat)
    requires b.Has(All(log)) && b.CountsUpdated() && b.usage.baseInodes == inodes && b.usage.baseNames == names
    requires b.usage.logBytes == HEADER + Bytes(log) && b.usage.records == |All(log)| && b.usage.transactions == Filled(log)
    ensures b.Shows(log, inodes, names)
  {
  }

  lemma AllPush(log: seq<Transaction>, t: Transaction)
    ensures All(log + [t]) == All(log) + t.records && Bytes(log + [t]) == Bytes(log) + t.bytes
    ensures Filled(log + [t]) == Filled(log) + if t.records != [] then 1 else 0
  {
    assert (log + [t])[..|log|] == log;
  }
}
