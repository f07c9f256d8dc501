/** The resident writer's lookups: sorted tables of one checkpoint under sparse
    overrides, which must answer as a search of the current view would. */
module Session {
  import opened Sorting
  import Documents
  import opened Basics

  /** No such name; ids stay below it. */
  const NONE: nat := 0xFFFF_FFFF

  /** Targets from here up are not inodes. */
  const LIMIT: nat := NONE - 16

  datatype Inode = Inode(dir: bool, dev: nat, ino: nat)

  const TWO64: nat := 0x1_0000_0000_0000_0000

  /** Kernel identities in the order of (device, inode number). */
  function Key(i: Inode): nat {
    i.dev * TWO64 + i.ino
  }

  /** Identities of 64-bit inode numbers have keys of their own. */
  lemma KeyTells(a: Inode, b: Inode)
    requires a.ino < TWO64 && b.ino < TWO64 && Key(a) == Key(b)
    ensures a.dev == b.dev && a.ino == b.ino
  {
    assert Key(a) / TWO64 == a.dev && Key(b) / TWO64 == b.dev;
  }

  /** A published view. Rows over the checkpoint's documents are `Some` for a
      live one and `None` for one deleted, retained or forgotten. */
  datatype View = View(
    baseDocs: map<nat, nat>, docRows: map<nat, Option<nat>>, dormant: set<nat>,
    inodes: map<nat, Inode>, names: map<nat, nat>, nextInode: nat)
  {
    /** Live documents and their hashes. */
    function Docs(): map<nat, nat> {
      (map id | id in baseDocs && id !in docRows :: baseDocs[id])
      + (map id | id in docRows && docRows[id].Some? :: docRows[id].value)
    }

    /** Live inodes other than directories and their identities. */
    function Files(): map<nat, nat> {
      map id | id in inodes && !inodes[id].dir :: Key(inodes[id])
    }

    /** Inode numbers are 64-bit numbers, a document's hash is for ever, and
        names are names of inodes there are.
        Several live documents may have one hash, and several files one identity. */
    ghost predicate Valid() {
      && (forall id :: id in inodes ==> inodes[id].ino < TWO64)
      && (forall id :: id in docRows && id in baseDocs && docRows[id].Some? ==> docRows[id].value == baseDocs[id])
      && (forall n :: n in names ==> n < NONE && (names[n] < LIMIT ==> names[n] < nextInode))
    }
  }

  datatype Record =
    | NamePut(id: nat, child: nat) | NameDelete(id: nat)
    | InodePut(id: nat) | LifePut(id: nat) | InodeDelete(id: nat)
    | DocPut(id: nat) | DocDelete(id: nat) | DocDormant(id: nat) | DocForget(id: nat)
    | Other
  {
    predicate AboutName() { NamePut? || NameDelete? }
    predicate AboutInode() { InodePut? || LifePut? || InodeDelete? }
    predicate AboutDoc() { DocPut? || DocDelete? || DocDormant? || DocForget? }

    /** The id a record is about. */
    function Subject(): nat { if Other? then 0 else id }
  }

  // ---- lookups ----

  /** The answer a search of the whole table would give. */
  ghost predicate Answers(table: map<nat, nat>, key: nat, r: Option<nat>) {
    match r
    case None => forall id :: id in table ==> table[id] != key
    case Some(id) => id in table && table[id] == key
  }

  datatype Entry = Entry(key: nat, id: nat)

  predicate EntryLe(a: Entry, b: Entry) {
    a.key < b.key || (a.key == b.key && a.id <= b.id)
  }

  lemma EntryOrder()
    ensures TotalOrder(EntryLe)
  {
  }

  /** The entries are a table in key order. */
  ghost predicate Sorts(entries: seq<Entry>, table: map<nat, nat>) {
    && SortedBy(entries, EntryLe)
    && forall e :: e in entries <==> e.id in table && table[e.id] == e.key
  }

  /** A table's entries sorted by key. */
  method SortTable(table: map<nat, nat>) returns (entries: seq<Entry>)
    ensures Sorts(entries, table)
  {
    hide Sort, SortedBy, TotalOrder;
    entries := [];
    var left := table.Keys;
    while left != {}
      invariant left <= table.Keys
      invariant forall e :: e in entries <==> e.id in table && e.id !in left && table[e.id] == e.key
      decreases left
    {
      var id :| id in left;
      entries := entries + [Entry(table[id], id)];
      left := left - {id};
    }
    EntryOrder();
    SortSorted(entries, EntryLe);
    entries := Sort(entries, EntryLe);
  }

  method BinarySearch(entries: seq<Entry>, ghost table: map<nat, nat>, key: nat) returns (r: Option<nat>)
    requires Sorts(entries, table)
    ensures Answers(table, key, r)
  {
    hide Sorts;
    var lo: nat, hi: nat := 0, |entries|;
    while lo < hi
      invariant lo <= hi <= |entries|
      invariant forall i :: 0 <= i < lo ==> entries[i].key < key
      invariant forall i :: hi <= i < |entries| ==> entries[i].key > key
    {
      var mid := (lo + hi) / 2;
      EntriesSplit(entries, table, mid);
      if entries[mid].key < key {
        lo := mid + 1;
      } else if entries[mid].key > key {
        hi := mid;
      } else {
        return Some(entries[mid].id);
      }
    }
    EntriesMiss(entries, table, key);
    return None;
  }

  lemma EntriesSplit(entries: seq<Entry>, table: map<nat, nat>, mid: nat)
    requires Sorts(entries, table) && mid < |entries|
    ensures forall i :: 0 <= i < mid ==> entries[i].key <= entries[mid].key
    ensures forall i :: mid < i < |entries| ==> entries[i].key >= entries[mid].key
    ensures entries[mid].id in table && table[entries[mid].id] == entries[mid].key
  {
    assert entries[mid] in entries;
    assert forall i :: 0 <= i < mid ==> EntryLe(entries[i], entries[mid]);
    assert forall i :: mid < i < |entries| ==> EntryLe(entries[mid], entries[i]);
  }

  lemma EntriesMiss(entries: seq<Entry>, table: map<nat, nat>, key: nat)
    requires Sorts(entries, table) && forall i :: 0 <= i < |entries| ==> entries[i].key != key
    ensures Answers(table, key, None)
  {
    forall id | id in table
      ensures table[id] != key
    {
      assert Entry(table[id], id) in entries;
    }
  }

  // ---- sparse overrides ----

  /** Overrides answer for the keys they hold; for any other key the table still
      has the holders the base has. */
  ghost predicate Cached(base: map<nat, nat>, changes: map<nat, Option<nat>>, table: map<nat, nat>) {
    forall key: nat :: CachedAt(base, changes, table, key)
  }

  ghost predicate CachedAt(base: map<nat, nat>, changes: map<nat, Option<nat>>, table: map<nat, nat>, key: nat) {
    if key in changes then Answers(table, key, changes[key])
    else forall id :: Holds(base, id, key) <==> Holds(table, id, key)
  }

  predicate Holds(table: map<nat, nat>, id: nat, key: nat) {
    id in table && table[id] == key
  }

  lemma NothingChanged(base: map<nat, nat>)
    ensures Cached(base, map[], base)
  {
  }

  /** Every key a touched id held before is cleared. */
  ghost predicate Cleared(before: map<nat, Option<nat>>, after: map<nat, Option<nat>>, table: map<nat, nat>, touched: set<nat>) {
    forall key: nat :: ClearedAt(before, after, table, touched, key)
  }

  ghost predicate ClearedAt(before: map<nat, Option<nat>>, after: map<nat, Option<nat>>, table: map<nat, nat>, touched: set<nat>, key: nat) {
    if exists id :: id in touched && Holds(table, id, key) then key in after && after[key] == None
    else (key in after <==> key in before) && (key in after ==> after[key] == before[key])
  }

  /** Every key a touched id holds now points to it. */
  ghost predicate Installed(before: map<nat, Option<nat>>, after: map<nat, Option<nat>>, table: map<nat, nat>, touched: set<nat>) {
    forall key: nat :: InstalledAt(before, after, table, touched, key)
  }

  ghost predicate InstalledAt(before: map<nat, Option<nat>>, after: map<nat, Option<nat>>, table: map<nat, nat>, touched: set<nat>, key: nat) {
    if exists id :: id in touched && Holds(table, id, key)
    then key in after && after[key].Some? && Holds(table, after[key].value, key)
    else (key in after <==> key in before) && (key in after ==> after[key] == before[key])
  }

  ghost predicate Untouched(previous: map<nat, nat>, table: map<nat, nat>, touched: set<nat>) {
    forall id: nat, key: nat :: id !in touched ==> (Holds(previous, id, key) <==> Holds(table, id, key))
  }

  /** A key loses its last touched holder while an untouched id still holds it:
      clearing it hides the holder that is left. */
  ghost predicate Hidden(previous: map<nat, nat>, table: map<nat, nat>, touched: set<nat>, key: nat) {
    && (exists id :: id in touched && Holds(previous, id, key))
    && (exists id :: id !in touched && Holds(previous, id, key))
    && forall id :: id in touched ==> !Holds(table, id, key)
  }

  ghost predicate NoneHidden(previous: map<nat, nat>, table: map<nat, nat>, touched: set<nat>) {
    forall key: nat :: !Hidden(previous, table, touched, key)
  }

  /** What a lookup may find: the override, or else some holder in the base. */
  ghost predicate Found(base: map<nat, nat>, changes: map<nat, Option<nat>>, key: nat, r: Option<nat>) {
    if key in changes then r == changes[key] else Answers(base, key, r)
  }

  /** Whatever a lookup finds is what a search of the table could. */
  ghost predicate Right(base: map<nat, nat>, changes: map<nat, Option<nat>>, table: map<nat, nat>) {
    forall key: nat :: RightAt(base, changes, table, key)
  }

  ghost predicate RightAt(base: map<nat, nat>, changes: map<nat, Option<nat>>, table: map<nat, nat>, key: nat) {
    forall r :: Found(base, changes, key, r) ==> Answers(table, key, r)
  }

  /** From exact overrides, clearing what touched ids held and installing what
      they hold is exact, and every lookup right, precisely if no holder is hidden. */
  lemma CacheStep(base: map<nat, nat>, previous: map<nat, nat>, table: map<nat, nat>, touched: set<nat>,
                  c0: map<nat, Option<nat>>, c1: map<nat, Option<nat>>, c2: map<nat, Option<nat>>)
    requires Cached(base, c0, previous) && Untouched(previous, table, touched)
    requires Cleared(c0, c1, previous, touched) && Installed(c1, c2, table, touched)
    ensures Cached(base, c2, table) <==> NoneHidden(previous, table, touched)
    ensures Right(base, c2, table) <==> NoneHidden(previous, table, touched)
  {
    hide CachedAt, RightAt, Hidden, ClearedAt, InstalledAt, Untouched;
    forall key: nat
      ensures CachedAt(base, c2, table, key) <==> !Hidden(previous, table, touched, key)
      ensures RightAt(base, c2, table, key) <==> !Hidden(previous, table, touched, key)
    {
      assert CachedAt(base, c0, previous, key);
      assert ClearedAt(c0, c1, previous, touched, key);
      assert InstalledAt(c1, c2, table, touched, key);
      CacheStepAt(base, previous, table, touched, c0, c1, c2, key);
    }
  }

  lemma CacheStepAt(base: map<nat, nat>, previous: map<nat, nat>, table: map<nat, nat>, touched: set<nat>,
                    c0: map<nat, Option<nat>>, c1: map<nat, Option<nat>>, c2: map<nat, Option<nat>>, key: nat)
    requires CachedAt(base, c0, previous, key) && Untouched(previous, table, touched)
    requires ClearedAt(c0, c1, previous, touched, key) && InstalledAt(c1, c2, table, touched, key)
    ensures CachedAt(base, c2, table, key) <==> !Hidden(previous, table, touched, key)
    ensures RightAt(base, c2, table, key) <==> !Hidden(previous, table, touched, key)
  {
    if exists id :: id in touched && Holds(table, id, key) {
      CachedIsRight(base, c2, table, key);
    } else if exists id :: id in touched && Holds(previous, id, key) {
      forall id
        ensures Holds(table, id, key) <==> id !in touched && Holds(previous, id, key)
      {
      }
      ClearedOnly(base, table, c2, key);
    } else {
      forall id
        ensures Holds(previous, id, key) <==> Holds(table, id, key)
      {
      }
      SameAnswers(base, previous, table, c0, c2, key);
      CachedIsRight(base, c2, table, key);
    }
  }

  /** A cleared key is right exactly if nothing holds it. */
  lemma ClearedOnly(base: map<nat, nat>, table: map<nat, nat>, changes: map<nat, Option<nat>>, key: nat)
    requires key in changes && changes[key] == None
    ensures CachedAt(base, changes, table, key) <==> forall id :: !Holds(table, id, key)
    ensures RightAt(base, changes, table, key) <==> forall id :: !Holds(table, id, key)
  {
    assert Found(base, changes, key, None);
    assert forall id :: id in table && table[id] == key ==> Holds(table, id, key);
  }

  lemma CachedIsRight(base: map<nat, nat>, changes: map<nat, Option<nat>>, table: map<nat, nat>, key: nat)
    requires CachedAt(base, changes, table, key)
    ensures RightAt(base, changes, table, key)
  {
    if key !in changes {
      forall r | Answers(base, key, r)
        ensures Answers(table, key, r)
      {
        assert r.Some? ==> Holds(base, r.value, key);
        assert forall id :: Holds(table, id, key) ==> Holds(base, id, key);
        assert forall id :: id in table && table[id] == key ==> Holds(table, id, key);
      }
    }
  }

  lemma SameAnswers(base: map<nat, nat>, previous: map<nat, nat>, table: map<nat, nat>,
                    c0: map<nat, Option<nat>>, c2: map<nat, Option<nat>>, key: nat)
    requires CachedAt(base, c0, previous, key)
    requires forall id :: Holds(previous, id, key) <==> Holds(table, id, key)
    requires (key in c0 <==> key in c2) && (key in c0 ==> c0[key] == c2[key])
    ensures CachedAt(base, c2, table, key)
  {
    if key in c0 && c0[key] == None {
      forall id | id in table
        ensures table[id] != key
      {
        assert Holds(table, id, key) ==> Holds(previous, id, key);
      }
    } else if key in c0 {
      assert Holds(previous, c0[key].value, key);
    }
  }

  ghost predicate Unique(table: map<nat, nat>) {
    forall a, b :: a in table && b in table && table[a] == table[b] ==> a == b
  }

  /** One holder for each key hides none. */
  lemma UniqueHidesNone(previous: map<nat, nat>, table: map<nat, nat>, touched: set<nat>)
    requires Unique(previous)
    ensures NoneHidden(previous, table, touched)
  {
    forall key: nat
      ensures !Hidden(previous, table, touched, key)
    {
      assert forall a, b :: Holds(previous, a, key) && Holds(previous, b, key) ==> a == b;
    }
  }

  /** A run of accepted transactions hides a live document: two births with one
      hash, then the death of either. */
  lemma SecondHolderLost()
    ensures var two: map<nat, nat>, one: map<nat, nat> := map[0 := 7, 1 := 7], map[0 := 7];
      var held: map<nat, Option<nat>>, cleared: map<nat, Option<nat>> := map[7 := Some(1)], map[7 := None];
      && Documents.Follow(two, one)
      && Cached(map[], held, two) && Untouched(two, one, {1})
      && Cleared(held, cleared, two, {1}) && Installed(cleared, cleared, one, {1})
      && Hidden(two, one, {1}, 7) && Found(map[], cleared, 7, None) && !Answers(one, 7, None)
  {
    Documents.TwoHolders();
    hide Documents.Follow;
    var two: map<nat, nat>, one: map<nat, nat> := map[0 := 7, 1 := 7], map[0 := 7];
    HiddenHolder(two, one);
  }

  lemma HiddenHolder(two: map<nat, nat>, one: map<nat, nat>)
    requires two == map[0 := 7, 1 := 7] && one == map[0 := 7]
    ensures var held: map<nat, Option<nat>>, cleared: map<nat, Option<nat>> := map[7 := Some(1)], map[7 := None];
      && Cached(map[], held, two) && Untouched(two, one, {1})
      && Cleared(held, cleared, two, {1}) && Installed(cleared, cleared, one, {1})
      && Hidden(two, one, {1}, 7) && Found(map[], cleared, 7, None) && !Answers(one, 7, None)
  {
    assert Holds(two, 1, 7) && Holds(two, 0, 7) && 1 in {1};
    assert one[0] == 7;
    assert forall id, key :: Holds(two, id, key) <==> (id == 0 || id == 1) && key == 7;
    assert forall id, key :: Holds(one, id, key) <==> id == 0 && key == 7;
  }

  lemma ClearStep(c0: map<nat, Option<nat>>, c: map<nat, Option<nat>>, table: map<nat, nat>, touched: set<nat>, id: nat)
    requires Cleared(c0, c, table, touched)
    ensures Cleared(c0, if id in table then c[table[id] := None] else c, table, touched + {id})
  {
    var after := if id in table then c[table[id] := None] else c;
    forall key: nat
      ensures ClearedAt(c0, after, table, touched + {id}, key)
    {
      assert ClearedAt(c0, c, table, touched, key);
      if id in table && table[id] == key {
        assert Holds(table, id, key) && id in touched + {id};
      }
      OneMoreTouched(table, touched, id, key);
    }
  }

  lemma InstallStep(c0: map<nat, Option<nat>>, c: map<nat, Option<nat>>, table: map<nat, nat>, touched: set<nat>, id: nat)
    requires Installed(c0, c, table, touched)
    ensures Installed(c0, if id in table then c[table[id] := Some(id)] else c, table, touched + {id})
  {
    var after := if id in table then c[table[id] := Some(id)] else c;
    forall key: nat
      ensures InstalledAt(c0, after, table, touched + {id}, key)
    {
      assert InstalledAt(c0, c, table, touched, key);
      if id in table && table[id] == key {
        assert Holds(table, id, key) && id in touched + {id};
      }
      OneMoreTouched(table, touched, id, key);
    }
  }

  lemma OneMoreTouched(table: map<nat, nat>, touched: set<nat>, id: nat, key: nat)
    ensures (exists x :: x in touched + {id} && Holds(table, x, key)) <==>
      Holds(table, id, key) || exists x :: x in touched && Holds(table, x, key)
  {
    if Holds(table, id, key) {
      assert id in touched + {id};
    } else if exists x :: x in touched && Holds(table, x, key) {
      var x :| x in touched && Holds(table, x, key);
      assert x in touched + {id};
    }
  }

  lemma NoneTouched(c: map<nat, Option<nat>>, table: map<nat, nat>)
    ensures Cleared(c, c, table, {}) && Installed(c, c, table, {})
  {
  }

  // ---- names ----

  /** The names of an inode in a view. */
  ghost function NamesOf(names: map<nat, nat>, child: nat): set<nat> {
    set n | n in names && names[n] == child
  }

  /** The names after a change set: the last record of each wins. */
  function NamesAfter(names: map<nat, nat>, records: seq<Record>): map<nat, nat> {
    if records == [] then names
    else
      var before, r := NamesAfter(names, records[..|records| - 1]), records[|records| - 1];
      match r
      case NamePut(id, child) => before[id := child]
      case NameDelete(id) => before - {id}
      case _ => before
  }

  /** The last record of a name, if any. */
  ghost predicate LastOfName(records: seq<Record>, n: nat, r: Record) {
    (r == NameDelete(n) || (r.NamePut? && r.id == n))
    && exists i :: 0 <= i < |records| && records[i] == r && NoneLater(records, n, i + 1)
  }

  predicate NoneLater(records: seq<Record>, n: nat, i: nat) {
    forall j :: i <= j < |records| ==> records[j] != NameDelete(n) && !(records[j].NamePut? && records[j].id == n)
  }

  /** A name is where its last record puts it, or where it was if it has none. */
  lemma {:induction false} NamedByLast(names: map<nat, nat>, records: seq<Record>, n: nat, child: nat)
    ensures Holds(NamesAfter(names, records), n, child) <==>
      LastOfName(records, n, NamePut(n, child)) || (NoneLater(records, n, 0) && Holds(names, n, child))
  {
    if records != [] {
      var k, r := |records| - 1, records[|records| - 1];
      var front := records[..k];
      NamedByLast(names, front, n, child);
      assert forall i :: 0 <= i < k ==> front[i] == records[i];
      if r == NameDelete(n) || (r.NamePut? && r.id == n) {
        assert NoneLater(records, n, k + 1);
      } else {
        assert forall i: nat :: i <= k ==> (NoneLater(records, n, i) <==> NoneLater(front, n, i));
      }
    }
  }

  /** What the cache makes of an inode's names: each record of a name takes it
      from its inode before the change set, and each put adds it to its child. */
  ghost function Tracked(names: map<nat, nat>, records: seq<Record>, child: nat): set<nat> {
    if records == [] then NamesOf(names, child)
    else
      var before, r := Tracked(names, records[..|records| - 1], child), records[|records| - 1];
      if !r.AboutName() then before
      else
        (before - if r.id in names && names[r.id] == child then {r.id} else {})
        + if r.NamePut? && r.child == child then {r.id} else {}
  }

  predicate Puts(records: seq<Record>, n: nat, child: nat) {
    NamePut(n, child) in records
  }

  /** A name put away from where it was stays where it was put. */
  ghost predicate Steady(names: map<nat, nat>, records: seq<Record>) {
    forall n: nat, child: nat :: child < LIMIT && Puts(records, n, child) && !Holds(names, n, child)
      ==> Holds(NamesAfter(names, records), n, child)
  }

  /** Who is tracked: an old child follows the last record, a new one any put. */
  lemma {:induction false} TrackedMembers(names: map<nat, nat>, records: seq<Record>, child: nat, n: nat)
    ensures n in Tracked(names, records, child) <==>
      if Holds(names, n, child) then Holds(NamesAfter(names, records), n, child) else Puts(records, n, child)
  {
    if records != [] {
      var front, r := records[..|records| - 1], records[|records| - 1];
      TrackedMembers(names, front, child, n);
      assert records == front + [r];
    }
  }

  lemma {:induction false} NamedOrPut(names: map<nat, nat>, records: seq<Record>, n: nat, child: nat)
    requires Holds(NamesAfter(names, records), n, child)
    ensures Holds(names, n, child) || Puts(records, n, child)
  {
    if records != [] {
      var front, r := records[..|records| - 1], records[|records| - 1];
      assert records == front + [r];
      if Holds(NamesAfter(names, front), n, child) {
        NamedOrPut(names, front, n, child);
      }
    }
  }

  ghost predicate TrackedRight(names: map<nat, nat>, records: seq<Record>) {
    forall child: nat :: child < LIMIT ==> Tracked(names, records, child) == NamesOf(NamesAfter(names, records), child)
  }

  /** The cached names are right for every inode exactly if the set is steady. */
  lemma NamesExact(names: map<nat, nat>, records: seq<Record>)
    ensures TrackedRight(names, records) <==> Steady(names, records)
  {
    if Steady(names, records) {
      forall child: nat | child < LIMIT
        ensures Tracked(names, records, child) == NamesOf(NamesAfter(names, records), child)
      {
        forall n: nat
          ensures n in Tracked(names, records, child) <==> n in NamesOf(NamesAfter(names, records), child)
        {
          NameExact(names, records, n, child);
        }
      }
    }
    if TrackedRight(names, records) {
      forall n: nat, child: nat | child < LIMIT && Puts(records, n, child) && !Holds(names, n, child)
        ensures Holds(NamesAfter(names, records), n, child)
      {
        NameExact(names, records, n, child);
      }
    }
  }

  lemma NameExact(names: map<nat, nat>, records: seq<Record>, n: nat, child: nat)
    ensures n in NamesOf(NamesAfter(names, records), child) <==> Holds(NamesAfter(names, records), n, child)
    ensures (n in Tracked(names, records, child) <==> n in NamesOf(NamesAfter(names, records), child)) <==>
      (Puts(records, n, child) && !Holds(names, n, child) ==> Holds(NamesAfter(names, records), n, child))
  {
    TrackedMembers(names, records, child, n);
    if Holds(NamesAfter(names, records), n, child) {
      NamedOrPut(names, records, n, child);
    }
  }

  /** One record a name is enough. */
  lemma OncePerNameSteady(names: map<nat, nat>, records: seq<Record>)
    requires OncePerName(records)
    ensures Steady(names, records)
  {
    forall n: nat, child: nat | Puts(records, n, child)
      ensures Holds(NamesAfter(names, records), n, child)
    {
      PutStays(names, records, n, child);
    }
  }

  predicate OncePerName(records: seq<Record>) {
    forall i, j :: 0 <= i < j < |records| && records[i].AboutName() && records[j].AboutName() ==> records[i].id != records[j].id
  }

  lemma {:induction false} PutStays(names: map<nat, nat>, records: seq<Record>, n: nat, child: nat)
    requires OncePerName(records) && Puts(records, n, child)
    ensures Holds(NamesAfter(names, records), n, child)
  {
    var front, r := records[..|records| - 1], records[|records| - 1];
    assert records == front + [r];
    if r != NamePut(n, child) {
      var i :| 0 <= i < |front| && records[i] == NamePut(n, child);
      assert front[i] == NamePut(n, child);
      PutStays(names, front, n, child);
    }
  }

  /** Two puts of one name in one set leave it under both inodes. */
  lemma TwicePutKeptTwice()
    ensures var records := [NamePut(9, 1), NamePut(9, 2)];
      && NamesAfter(map[], records) == map[9 := 2]
      && 9 in Tracked(map[], records, 1) && 9 in Tracked(map[], records, 2)
  {
    var records: seq<Record> := [NamePut(9, 1), NamePut(9, 2)];
    TrackedMembers(map[], records, 1, 9);
    TrackedMembers(map[], records, 2, 9);
    assert records[..1] == [NamePut(9, 1)] && records[0] in records && records[1] in records;
    assert NamesAfter(map[], records[..1]) == map[9 := 1];
  }

  /** Names found at rebuild: a first one for each inode, and its aliases. */
  function BaseNames(first: seq<nat>, alias: map<nat, seq<nat>>, id: nat): set<nat> {
    (if id < |first| && first[id] != NONE then {first[id]} else {})
    + (if id in alias then set n | n in alias[id] else {})
  }

  // ---- what a change set touches ----

  ghost function DocIds(records: seq<Record>): set<nat> {
    set r | r in records && r.AboutDoc() :: r.id
  }

  ghost function InodeIds(records: seq<Record>): set<nat> {
    set r | r in records && r.AboutInode() :: r.id
  }

  /** An id is touched by whatever record of its kind names it. */
  lemma TouchedAre(records: seq<Record>, id: nat)
    ensures id in DocIds(records) <==>
      DocPut(id) in records || DocDelete(id) in records || DocDormant(id) in records || DocForget(id) in records
    ensures id in InodeIds(records) <==> InodePut(id) in records || LifePut(id) in records || InodeDelete(id) in records
  {
    assert forall r :: r in records && r.AboutDoc() ==>
      r == DocPut(r.id) || r == DocDelete(r.id) || r == DocDormant(r.id) || r == DocForget(r.id);
    assert forall r :: r in records && r.AboutInode() ==> r == InodePut(r.id) || r == LifePut(r.id) || r == InodeDelete(r.id);
  }

  /** The view after a change set: ids no record is about are as they were, and
      names are as their last records leave them. */
  ghost predicate Follows(previous: View, view: View, records: seq<Record>) {
    && Untouched(previous.Docs(), view.Docs(), DocIds(records))
    && (forall id :: id !in DocIds(records) ==> (id in previous.dormant <==> id in view.dormant))
    && Untouched(previous.Files(), view.Files(), InodeIds(records))
    && view.names == NamesAfter(previous.names, records)
  }

  /** Exactly when a writer's lookups stay right over a change set: it hides no
      document and no file, and puts each name once and for all. */
  ghost predicate Keeps(previous: View, view: View, records: seq<Record>) {
    && NoneHidden(previous.Docs(), view.Docs(), DocIds(records))
    && NoneHidden(previous.Files(), view.Files(), InodeIds(records))
    && Steady(previous.names, records)
  }

  /** Exactly when lookups built afresh are right: the overlay's rows hide no
      document of the checkpoint. */
  ghost predicate Rebuilds(view: View) {
    NoneHidden(view.baseDocs, view.Docs(), view.docRows.Keys)
  }

  class WriterSession {
    var view: View
    var lookupBase: View
    var identities: seq<Entry>
    var documents: seq<Entry>
    var dormantIds: set<nat>
    var identityChanges: map<nat, Option<nat>>
    var documentChanges: map<nat, Option<nat>>
    var firstNames: seq<nat>
    var aliasNames: map<nat, seq<nat>>
    var nameChanges: map<nat, set<nat>>

    ghost predicate Tables()
      reads `lookupBase, `identities, `documents
    {
      Sorts(identities, lookupBase.Files()) && Sorts(documents, lookupBase.baseDocs)
    }

    ghost predicate DocsCached(v: View)
      reads `lookupBase, `documentChanges
    {
      Cached(lookupBase.baseDocs, documentChanges, v.Docs())
    }

    ghost predicate FilesCached(v: View)
      reads `lookupBase, `identityChanges
    {
      Cached(lookupBase.Files(), identityChanges, v.Files())
    }

    function Names(id: nat): set<nat>
      reads `firstNames, `aliasNames, `nameChanges
    {
      if id in nameChanges then nameChanges[id] else BaseNames(firstNames, aliasNames, id)
    }

    ghost predicate NamesCached(names: map<nat, nat>)
      reads `firstNames, `aliasNames, `nameChanges
    {
      forall child: nat :: child < LIMIT ==> Names(child) == NamesOf(names, child)
    }

    /** Sorted tables of a checkpoint, and the view's permissions. */
    ghost predicate Sound()
      reads this
    {
      view.Valid() && Tables() && dormantIds == view.dormant
    }

    /** Every lookup answers as a search of the current view would. */
    ghost predicate Valid()
      reads this
    {
      Sound() && DocsCached(view) && FilesCached(view) && NamesCached(view.names)
    }

    /** No lookup now gives an answer a search of the view could not. */
    ghost predicate LookupsRight()
      reads this
    {
      && Right(lookupBase.baseDocs, documentChanges, view.Docs())
      && Right(lookupBase.Files(), identityChanges, view.Files())
      && NamesCached(view.names)
    }

    constructor (view: View)
      requires view.Valid()
      ensures Sound() && this.view == view
      ensures Valid() <==> Rebuilds(view)
      ensures LookupsRight() <==> Rebuilds(view)
    {
      this.view, lookupBase := view, view;
      identities, documents, dormantIds := [], [], {};
      identityChanges, documentChanges, nameChanges := map[], map[], map[];
      firstNames, aliasNames := [], map[];
      new;
      Rebuild();
    }

    /** Builds every table afresh from the current view. */
    method Rebuild()
      requires view.Valid()
      modifies this
      ensures Sound() && view == old(view)
      ensures Valid() <==> Rebuilds(view)
      ensures LookupsRight() <==> Rebuilds(view)
    {
      hide *;
      lookupBase := view;
      identities := SortTable(view.Files());
      documents := SortTable(view.baseDocs);
      documentChanges := ChangedDocs(view);
      dormantIds := view.dormant;
      identityChanges := map[];
      var first, alias := NameTables(view);
      firstNames, aliasNames, nameChanges := first, alias, map[];
      FreshCaches(this);
    }

    /** Finds a live inode, not a directory, by its kernel identity. */
    method Identity(dev: nat, ino: nat) returns (r: Option<nat>)
      requires Valid() && ino < TWO64
      ensures match r
        case Some(id) => id in view.inodes && view.inodes[id] == Inode(false, dev, ino)
        case None => forall id :: id in view.inodes ==> view.inodes[id] != Inode(false, dev, ino)
    {
      FileAnswers(view, dev, ino);
      hide Cached, Sorts, Answers, View.Valid, View.Files, NamesOf, View.Docs;
      var key := Key(Inode(false, dev, ino));
      CachedAnswer(lookupBase.Files(), identityChanges, view.Files(), key);
      if key in identityChanges {
        return identityChanges[key];
      }
      r := BinarySearch(identities, lookupBase.Files(), key);
    }

    /** Finds a live document by its hash. */
    method Document(hash: nat) returns (r: Option<nat>)
      requires Valid()
      ensures match r
        case Some(id) => if id in view.docRows then view.docRows[id] == Some(hash) else id in view.baseDocs && view.baseDocs[id] == hash
        case None => forall id ::
          && (id in view.docRows ==> view.docRows[id] != Some(hash))
          && (id !in view.docRows && id in view.baseDocs ==> view.baseDocs[id] != hash)
    {
      DocAnswers(view, hash);
      hide Cached, Sorts, Answers, View.Valid, View.Files, NamesOf, View.Docs;
      CachedAnswer(lookupBase.baseDocs, documentChanges, view.Docs(), hash);
      if hash in documentChanges {
        return documentChanges[hash];
      }
      r := BinarySearch(documents, lookupBase.baseDocs, hash);
    }

    /** All names of an inode. */
    method NamesFor(id: nat) returns (names: set<nat>)
      requires Valid() && id < LIMIT
      ensures forall n :: n in names <==> n in view.names && view.names[n] == id
    {
      names := Names(id);
    }

    /** Takes on a published change set, or rebuilds where publishing began a
        new epoch. */
    method Commit(records: seq<Record>, next: View, sameEpoch: bool)
      requires Valid() && next.Valid()
      requires sameEpoch ==> Follows(view, next, records)
      modifies this
      ensures Sound() && view == next
      ensures Valid() <==> if sameEpoch then Keeps(old(view), next, records) else Rebuilds(next)
      ensures LookupsRight() <==> if sameEpoch then Keeps(old(view), next, records) else Rebuilds(next)
    {
      hide *;
      if !sameEpoch {
        view := next;
        Rebuild();
        return;
      }
      CommitStart(this);
      CacheNames(records);
      CacheIdentities(records, next);
      ghost var previous := view;
      view := next;
      CommitDone(this, previous, records);
    }

    /** Overrides the names of every inode a record names or named before. */
    method CacheNames(records: seq<Record>)
      requires NamesCached(view.names)
      modifies `nameChanges
      ensures forall child: nat :: child < LIMIT ==> Names(child) == Tracked(view.names, records, child)
    {
      hide NamesOf;
      var names: map<nat, set<nat>> := map[];
      for i := 0 to |records|
        invariant nameChanges == old(nameChanges)
        invariant forall child: nat :: child < LIMIT ==>
          (if child in names then names[child] else Names(child)) == Tracked(view.names, records[..i], child)
        invariant forall child :: child in names ==> child < LIMIT
      {
        assert records[..i + 1][..i] == records[..i];
        var r := records[i];
        if r.AboutName() {
          if r.id in view.names && view.names[r.id] < LIMIT {
            var child := view.names[r.id];
            names := names[child := (if child in names then names[child] else Names(child)) - {r.id}];
          }
          if r.NamePut? && r.child < LIMIT {
            names := names[r.child := (if r.child in names then names[r.child] else Names(r.child)) + {r.id}];
          }
        }
      }
      assert records[..|records|] == records;
      nameChanges := nameChanges + names;
    }

    /** Removes the mappings touched ids had, then installs those they have. */
    method CacheIdentities(records: seq<Record>, next: View)
      requires DocsCached(view) && FilesCached(view) && dormantIds == view.dormant
      requires Follows(view, next, records)
      modifies `identityChanges, `documentChanges, `dormantIds
      ensures dormantIds == next.dormant
      ensures DocsCached(next) <==> NoneHidden(view.Docs(), next.Docs(), DocIds(records))
      ensures FilesCached(next) <==> NoneHidden(view.Files(), next.Files(), InodeIds(records))
      ensures Right(lookupBase.baseDocs, documentChanges, next.Docs()) <==> NoneHidden(view.Docs(), next.Docs(), DocIds(records))
      ensures Right(lookupBase.Files(), identityChanges, next.Files()) <==> NoneHidden(view.Files(), next.Files(), InodeIds(records))
    {
      hide *;
      var previous := view;
      ghost var docs0, files0 := documentChanges, identityChanges;
      ghost var docs: set<nat>, inodes: set<nat> := {}, {};
      CachesNow(this, previous);
      NoneTouched(docs0, previous.Docs());
      NoneTouched(files0, previous.Files());
      TouchedNone(records);
      for i := 0 to |records|
        invariant dormantIds == old(dormantIds)
        invariant docs == DocIds(records[..i]) && inodes == InodeIds(records[..i])
        invariant Cleared(docs0, documentChanges, previous.Docs(), docs)
        invariant Cleared(files0, identityChanges, previous.Files(), inodes)
      {
        TouchedStep(records, i);
        ClearStep(docs0, documentChanges, previous.Docs(), docs, records[i].Subject());
        ClearStep(files0, identityChanges, previous.Files(), inodes, records[i].Subject());
        CacheRemoval(previous, records[i]);
        docs, inodes := DocIds(records[..i + 1]), InodeIds(records[..i + 1]);
      }
      ghost var docs1, files1 := documentChanges, identityChanges;
      docs, inodes := {}, {};
      NoneTouched(docs1, next.Docs());
      NoneTouched(files1, next.Files());
      DormantNone(this, next, records);
      for i := 0 to |records|
        invariant docs == DocIds(records[..i]) && inodes == InodeIds(records[..i])
        invariant Installed(docs1, documentChanges, next.Docs(), docs)
        invariant Installed(files1, identityChanges, next.Files(), inodes)
        invariant DormantSo(old(dormantIds), dormantIds, next.dormant, docs)
      {
        TouchedStep(records, i);
        InstallStep(docs1, documentChanges, next.Docs(), docs, records[i].Subject());
        InstallStep(files1, identityChanges, next.Files(), inodes, records[i].Subject());
        DormantStep(old(dormantIds), dormantIds, next.dormant, docs, records[i].Subject());
        CacheInstall(next, records[i]);
        docs, inodes := DocIds(records[..i + 1]), InodeIds(records[..i + 1]);
      }
      TouchedAll(this, previous, next, records, old(dormantIds));
      CacheStep(lookupBase.baseDocs, previous.Docs(), next.Docs(), docs, docs0, docs1, documentChanges);
      CacheStep(lookupBase.Files(), previous.Files(), next.Files(), inodes, files0, files1, identityChanges);
      CachesNow(this, next);
    }

    /** Clears what a touched id mapped to before, never a record's own fields. */
    method CacheRemoval(previous: View, r: Record)
      modifies `identityChanges, `documentChanges
      ensures documentChanges == if r.AboutDoc() && r.Subject() in previous.Docs()
        then old(documentChanges)[previous.Docs()[r.Subject()] := None] else old(documentChanges)
      ensures identityChanges == if r.AboutInode() && r.Subject() in previous.Files()
        then old(identityChanges)[previous.Files()[r.Subject()] := None] else old(identityChanges)
    {
      if r.AboutInode() {
        if r.id in previous.inodes && !previous.inodes[r.id].dir {
          identityChanges := identityChanges[Key(previous.inodes[r.id]) := None];
        }
      } else if r.AboutDoc() {
        if r.id in previous.Docs() {
          documentChanges := documentChanges[previous.Docs()[r.id] := None];
        }
      }
    }

    /** Installs what a touched id maps to in the checked final view. */
    method CacheInstall(next: View, r: Record)
      modifies `identityChanges, `documentChanges, `dormantIds
      ensures documentChanges == if r.AboutDoc() && r.Subject() in next.Docs()
        then old(documentChanges)[next.Docs()[r.Subject()] := Some(r.Subject())] else old(documentChanges)
      ensures identityChanges == if r.AboutInode() && r.Subject() in next.Files()
        then old(identityChanges)[next.Files()[r.Subject()] := Some(r.Subject())] else old(identityChanges)
      ensures dormantIds == if !r.AboutDoc() then old(dormantIds)
        else if r.Subject() in next.dormant then old(dormantIds) + {r.Subject()} else old(dormantIds) - {r.Subject()}
    {
      if r.AboutInode() {
        if r.id in next.inodes && !next.inodes[r.id].dir {
          identityChanges := identityChanges[Key(next.inodes[r.id]) := Some(r.id)];
        }
      } else if r.AboutDoc() {
        if r.id in next.Docs() {
          documentChanges := documentChanges[next.Docs()[r.id] := Some(r.id)];
        }
        dormantIds := if r.id in next.dormant then dormantIds + {r.id} else dormantIds - {r.id};
      }
    }
  }

  /** The answers are what a linear search finds, and there is only one. */
  lemma AnswerUnique(table: map<nat, nat>, key: nat, r: Option<nat>, q: Option<nat>)
    requires Unique(table) && Answers(table, key, r) && Answers(table, key, q)
    ensures r == q
  {
  }

  /** What the answers in the table of files come to. */
  lemma FileAnswers(view: View, dev: nat, ino: nat)
    requires view.Valid() && ino < TWO64
    ensures forall id :: Answers(view.Files(), Key(Inode(false, dev, ino)), Some(id)) ==>
      id in view.inodes && view.inodes[id] == Inode(false, dev, ino)
    ensures Answers(view.Files(), Key(Inode(false, dev, ino)), None) ==>
      forall id :: id in view.inodes ==> view.inodes[id] != Inode(false, dev, ino)
  {
    var file := Inode(false, dev, ino);
    forall id | Answers(view.Files(), Key(file), Some(id))
      ensures id in view.inodes && view.inodes[id] == file
    {
      KeyTells(view.inodes[id], file);
    }
    if Answers(view.Files(), Key(file), None) {
      forall id | id in view.inodes
        ensures view.inodes[id] != file
      {
        assert id in view.Files() ==> view.Files()[id] != Key(file);
      }
    }
  }

  /** What the answers in the table of documents come to. */
  lemma DocAnswers(view: View, hash: nat)
    ensures forall id :: Answers(view.Docs(), hash, Some(id)) ==>
      if id in view.docRows then view.docRows[id] == Some(hash) else id in view.baseDocs && view.baseDocs[id] == hash
    ensures Answers(view.Docs(), hash, None) ==> forall id ::
      && (id in view.docRows ==> view.docRows[id] != Some(hash))
      && (id !in view.docRows && id in view.baseDocs ==> view.baseDocs[id] != hash)
  {
    if Answers(view.Docs(), hash, None) {
      forall id
        ensures id in view.docRows ==> view.docRows[id] != Some(hash)
        ensures id !in view.docRows && id in view.baseDocs ==> view.baseDocs[id] != hash
      {
        assert id in view.Docs() ==> view.Docs()[id] != hash;
      }
    }
  }

  lemma CachedAnswer(base: map<nat, nat>, changes: map<nat, Option<nat>>, table: map<nat, nat>, key: nat)
    requires Cached(base, changes, table)
    ensures forall r :: Found(base, changes, key, r) ==> Answers(table, key, r)
  {
    assert CachedAt(base, changes, table, key);
    CachedIsRight(base, changes, table, key);
  }

  lemma CommitStart(s: WriterSession)
    requires s.Valid()
    ensures s.NamesCached(s.view.names) && s.DocsCached(s.view) && s.FilesCached(s.view) && s.Tables()
    ensures s.dormantIds == s.view.dormant
  {
  }

  lemma CommitDone(s: WriterSession, previous: View, records: seq<Record>)
    requires s.view.Valid() && s.Tables() && s.dormantIds == s.view.dormant
    requires Follows(previous, s.view, records)
    requires s.DocsCached(s.view) <==> NoneHidden(previous.Docs(), s.view.Docs(), DocIds(records))
    requires s.FilesCached(s.view) <==> NoneHidden(previous.Files(), s.view.Files(), InodeIds(records))
    requires Right(s.lookupBase.baseDocs, s.documentChanges, s.view.Docs())
      <==> NoneHidden(previous.Docs(), s.view.Docs(), DocIds(records))
    requires Right(s.lookupBase.Files(), s.identityChanges, s.view.Files())
      <==> NoneHidden(previous.Files(), s.view.Files(), InodeIds(records))
    requires forall child: nat :: child < LIMIT ==> s.Names(child) == Tracked(previous.names, records, child)
    ensures s.Sound()
    ensures s.Valid() <==> Keeps(previous, s.view, records)
    ensures s.LookupsRight() <==> Keeps(previous, s.view, records)
  {
    hide Tracked, Steady, NamesOf, View.Valid, View.Docs, View.Files, Cached, Sorts, Untouched, NamesAfter, NoneHidden, Right;
    NamesExact(previous.names, records);
    assert s.NamesCached(s.view.names) <==> TrackedRight(previous.names, records);
  }

  lemma FreshCaches(s: WriterSession)
    requires s.view.Valid() && s.lookupBase == s.view && s.identityChanges == map[] && s.nameChanges == map[]
    requires Sorts(s.identities, s.view.Files()) && Sorts(s.documents, s.view.baseDocs) && s.dormantIds == s.view.dormant
    requires Cached(s.view.baseDocs, s.documentChanges, s.view.Docs()) <==> Rebuilds(s.view)
    requires Right(s.view.baseDocs, s.documentChanges, s.view.Docs()) <==> Rebuilds(s.view)
    requires forall child: nat :: child < LIMIT ==> BaseNames(s.firstNames, s.aliasNames, child) == NamesOf(s.view.names, child)
    ensures s.Sound()
    ensures s.Valid() <==> Rebuilds(s.view)
    ensures s.LookupsRight() <==> Rebuilds(s.view)
  {
    hide Rebuilds, Sorts, View.Valid, View.Docs, View.Files, NamesOf, BaseNames;
    NothingChanged(s.view.Files());
    assert Right(s.view.Files(), map[], s.view.Files());
  }

  lemma CachesNow(s: WriterSession, v: View)
    ensures s.DocsCached(v) <==> Cached(s.lookupBase.baseDocs, s.documentChanges, v.Docs())
    ensures s.FilesCached(v) <==> Cached(s.lookupBase.Files(), s.identityChanges, v.Files())
  {
  }

  lemma TouchedNone(records: seq<Record>)
    ensures DocIds(records[..0]) == {} && InodeIds(records[..0]) == {}
  {
  }

  lemma TouchedStep(records: seq<Record>, i: nat)
    requires i < |records|
    ensures DocIds(records[..i + 1])
      == if records[i].AboutDoc() then DocIds(records[..i]) + {records[i].Subject()} else DocIds(records[..i])
    ensures InodeIds(records[..i + 1])
      == if records[i].AboutInode() then InodeIds(records[..i]) + {records[i].Subject()} else InodeIds(records[..i])
    ensures !(records[i].AboutDoc() && records[i].AboutInode())
  {
    assert records[..i + 1] == records[..i] + [records[i]];
  }

  /** The kept permissions: those of touched ids as the new view has them. */
  ghost predicate DormantSo(before: set<nat>, after: set<nat>, dormant: set<nat>, touched: set<nat>) {
    forall id :: id in after <==> if id in touched then id in dormant else id in before
  }

  lemma DormantNone(s: WriterSession, next: View, records: seq<Record>)
    ensures DormantSo(s.dormantIds, s.dormantIds, next.dormant, {})
    ensures DocIds(records[..0]) == {} && InodeIds(records[..0]) == {}
  {
  }

  lemma DormantStep(before: set<nat>, after: set<nat>, dormant: set<nat>, touched: set<nat>, id: nat)
    requires DormantSo(before, after, dormant, touched)
    ensures DormantSo(before, if id in dormant then after + {id} else after - {id}, dormant, touched + {id})
  {
  }

  lemma TouchedAll(s: WriterSession, previous: View, next: View, records: seq<Record>, before: set<nat>)
    requires Follows(previous, next, records)
    requires DormantSo(before, s.dormantIds, next.dormant, DocIds(records[..|records|])) && before == previous.dormant
    ensures records[..|records|] == records && s.dormantIds == next.dormant
    ensures Untouched(previous.Docs(), next.Docs(), DocIds(records)) && Untouched(previous.Files(), next.Files(), InodeIds(records))
  {
    assert records[..|records|] == records;
  }

  // ---- rebuilding ----

  /** The overrides a checkpoint's documents need: live rows in any order first
      or last, a death only for a hash no live row claims. */
  method ChangedDocs(view: View) returns (changes: map<nat, Option<nat>>)
    requires view.Valid()
    ensures Cached(view.baseDocs, changes, view.Docs()) <==> Rebuilds(view)
    ensures Right(view.baseDocs, changes, view.Docs()) <==> Rebuilds(view)
  {
    hide *;
    changes := map[];
    var ids := InOrder(view.docRows.Keys);
    ghost var done: set<nat> := {};
    RowsNone(view);
    for i := 0 to |ids|
      invariant forall x :: x in done <==> x in ids[..i]
      invariant done <= view.docRows.Keys
      invariant RowsCached(view, done, changes)
    {
      var id := ids[i];
      Prefix(ids, i);
      RowsStep(view, done, changes, id);
      match view.docRows[id] {
        case Some(hash) => changes := changes[hash := Some(id)];
        case None =>
          if id in view.baseDocs && view.baseDocs[id] !in changes {
            changes := changes[view.baseDocs[id] := None];
          }
      }
      done := done + {id};
    }
    assert ids[..|ids|] == ids;
    RowsAll(view, done, changes);
  }

  lemma Prefix(ids: seq<nat>, i: nat)
    requires i < |ids|
    ensures ids[..i + 1] == ids[..i] + [ids[i]] && ids[i] in ids
  {
  }

  /** A row of the overlay puts this hash. */
  predicate RowPuts(view: View, id: nat, key: nat) {
    id in view.docRows && view.docRows[id] == Some(key)
  }

  /** A row of the overlay takes the checkpoint's document with this hash away. */
  predicate RowTakes(view: View, id: nat, key: nat) {
    id in view.docRows && view.docRows[id] == None && Holds(view.baseDocs, id, key)
  }

  ghost predicate RowsCached(view: View, done: set<nat>, changes: map<nat, Option<nat>>) {
    forall key: nat :: RowsCachedAt(view, done, changes, key)
  }

  ghost predicate RowsCachedAt(view: View, done: set<nat>, changes: map<nat, Option<nat>>, key: nat) {
    if exists id :: id in done && RowPuts(view, id, key) then key in changes && changes[key].Some? && RowPuts(view, changes[key].value, key)
    else if exists id :: id in done && RowTakes(view, id, key) then key in changes && changes[key] == None
    else key !in changes
  }

  lemma RowsNone(view: View)
    ensures RowsCached(view, {}, map[])
  {
  }

  lemma RowsStep(view: View, done: set<nat>, changes: map<nat, Option<nat>>, id: nat)
    requires id in view.docRows && RowsCached(view, done, changes)
    ensures RowsCached(view, done + {id},
      match view.docRows[id]
      case Some(hash) => changes[hash := Some(id)]
      case None => if id in view.baseDocs && view.baseDocs[id] !in changes then changes[view.baseDocs[id] := None] else changes)
  {
    var after := match view.docRows[id]
      case Some(hash) => changes[hash := Some(id)]
      case None => if id in view.baseDocs && view.baseDocs[id] !in changes then changes[view.baseDocs[id] := None] else changes;
    forall key: nat
      ensures RowsCachedAt(view, done + {id}, after, key)
    {
      assert RowsCachedAt(view, done, changes, key);
      assert id in done + {id};
      assert forall x :: x in done ==> x in done + {id};
    }
  }

  /** The rows clear what their ids held in the checkpoint and install what
      they hold, as one change set over it would. */
  lemma RowsAll(view: View, done: set<nat>, changes: map<nat, Option<nat>>)
    requires view.Valid() && RowsCached(view, done, changes) && done == view.docRows.Keys
    ensures Cached(view.baseDocs, changes, view.Docs()) <==> Rebuilds(view)
    ensures Right(view.baseDocs, changes, view.Docs()) <==> Rebuilds(view)
  {
    hide Cached, Cleared, Installed, RowsCached, View.Docs, View.Valid, Untouched, NoneHidden, Right;
    var gone := set id | id in done && id in view.baseDocs :: view.baseDocs[id];
    var cleared: map<nat, Option<nat>> := map key | key in gone :: None;
    NothingChanged(view.baseDocs);
    RowsUntouched(view);
    RowsCleared(view, cleared, gone);
    RowsInstalled(view, cleared, gone, changes);
    CacheStep(view.baseDocs, view.baseDocs, view.Docs(), done, map[], cleared, changes);
  }

  lemma RowsUntouched(view: View)
    ensures Untouched(view.baseDocs, view.Docs(), view.docRows.Keys)
  {
  }

  lemma RowsCleared(view: View, cleared: map<nat, Option<nat>>, gone: set<nat>)
    requires gone == set id | id in view.docRows.Keys && id in view.baseDocs :: view.baseDocs[id]
    requires cleared == map key | key in gone :: None
    ensures Cleared(map[], cleared, view.baseDocs, view.docRows.Keys)
  {
  }

  lemma RowsInstalled(view: View, cleared: map<nat, Option<nat>>, gone: set<nat>, changes: map<nat, Option<nat>>)
    requires view.Valid() && RowsCached(view, view.docRows.Keys, changes)
    requires gone == set id | id in view.docRows.Keys && id in view.baseDocs :: view.baseDocs[id]
    requires cleared == map key | key in gone :: None
    ensures Installed(cleared, changes, view.Docs(), view.docRows.Keys)
  {
    var docs, touched := view.Docs(), view.docRows.Keys;
    forall key: nat
      ensures InstalledAt(cleared, changes, docs, touched, key)
    {
      assert RowsCachedAt(view, touched, changes, key);
      assert forall id :: id in touched ==> (Holds(docs, id, key) <==> RowPuts(view, id, key));
      if key in gone {
        var id :| id in touched && id in view.baseDocs && view.baseDocs[id] == key;
        assert RowPuts(view, id, key) || RowTakes(view, id, key);
      }
      assert forall id :: id in touched && RowTakes(view, id, key) ==> key in gone;
    }
  }

  /** One dense first name an inode, and sparse aliases. */
  method NameTables(view: View) returns (first: seq<nat>, alias: map<nat, seq<nat>>)
    requires view.Valid()
    ensures forall child: nat :: child < LIMIT ==> BaseNames(first, alias, child) == NamesOf(view.names, child)
  {
    hide *;
    first := seq(view.nextInode, _ => NONE);
    alias := map[];
    var ids := InOrder(view.names.Keys);
    NamesAmongNone(view.names, ids, first);
    for i := 0 to |ids|
      invariant |first| == view.nextInode
      invariant NamesSplit(view.names, ids[..i], first, alias)
    {
      var n := ids[i];
      assert n in ids;
      NameInRange(view, n);
      NamesSplitStep(view.names, ids, i, first, alias);
      if view.names[n] < LIMIT {
        var child := view.names[n];
        if first[child] == NONE {
          first := first[child := n];
        } else {
          alias := alias[child := (if child in alias then alias[child] else []) + [n]];
        }
      }
    }
    NamesAmongAll(view.names, ids, first, alias);
  }

  lemma NameInRange(view: View, n: nat)
    requires view.Valid() && n in view.names
    ensures n < NONE && (view.names[n] < LIMIT ==> view.names[n] < view.nextInode)
  {
  }

  /** The tables hold each inode's names among those seen. */
  ghost predicate NamesSplit(names: map<nat, nat>, done: seq<nat>, first: seq<nat>, alias: map<nat, seq<nat>>) {
    forall child: nat :: child < LIMIT ==> BaseNames(first, alias, child) == NamesAmong(names, done, child)
  }

  lemma NamesAmongNone(names: map<nat, nat>, ids: seq<nat>, first: seq<nat>)
    requires forall i :: 0 <= i < |first| ==> first[i] == NONE
    ensures NamesSplit(names, ids[..0], first, map[])
  {
  }

  /** A name joins its inode's, as the first or as an alias. */
  lemma NamesSplitStep(names: map<nat, nat>, ids: seq<nat>, i: nat, first: seq<nat>, alias: map<nat, seq<nat>>)
    requires i < |ids| && ids[i] in names && ids[i] < NONE && NamesSplit(names, ids[..i], first, alias)
    requires names[ids[i]] < LIMIT ==> names[ids[i]] < |first|
    ensures var n, child := ids[i], names[ids[i]];
      child >= LIMIT ==> NamesSplit(names, ids[..i + 1], first, alias)
    ensures var n, child := ids[i], names[ids[i]];
      child < LIMIT && first[child] == NONE ==> NamesSplit(names, ids[..i + 1], first[child := n], alias)
    ensures var n, child := ids[i], names[ids[i]];
      child < LIMIT && first[child] != NONE ==>
        NamesSplit(names, ids[..i + 1], first, alias[child := (if child in alias then alias[child] else []) + [n]])
  {
    hide BaseNames, NamesAmong;
    var n, child := ids[i], names[ids[i]];
    var longer := alias[child := (if child in alias then alias[child] else []) + [n]];
    var filled := if child < |first| then first[child := n] else first;
    forall c: nat | c < LIMIT
      ensures NamesAmong(names, ids[..i + 1], c) == if c == child then NamesAmong(names, ids[..i], c) + {n} else NamesAmong(names, ids[..i], c)
      ensures BaseNames(first, longer, c) == if c == child then BaseNames(first, alias, c) + {n} else BaseNames(first, alias, c)
      ensures child < |first| && first[child] == NONE ==>
        BaseNames(filled, alias, c) == if c == child then BaseNames(first, alias, c) + {n} else BaseNames(first, alias, c)
    {
      NamesAmongStep(names, ids, i, c);
      BaseAlias(first, alias, child, n, c);
      if child < |first| && first[child] == NONE {
        BaseFirst(first, alias, child, n, c);
      }
    }
  }

  lemma BaseAlias(first: seq<nat>, alias: map<nat, seq<nat>>, child: nat, n: nat, c: nat)
    ensures BaseNames(first, alias[child := (if child in alias then alias[child] else []) + [n]], c)
      == if c == child then BaseNames(first, alias, c) + {n} else BaseNames(first, alias, c)
  {
  }

  lemma BaseFirst(first: seq<nat>, alias: map<nat, seq<nat>>, child: nat, n: nat, c: nat)
    requires child < |first| && first[child] == NONE && n < NONE
    ensures BaseNames(first[child := n], alias, c)
      == if c == child then BaseNames(first, alias, c) + {n} else BaseNames(first, alias, c)
  {
  }

  ghost function NamesAmong(names: map<nat, nat>, done: seq<nat>, child: nat): set<nat> {
    set n | n in done && Holds(names, n, child)
  }

  lemma NamesAmongStep(names: map<nat, nat>, ids: seq<nat>, i: nat, child: nat)
    requires i < |ids| && ids[i] in names
    ensures NamesAmong(names, ids[..i + 1], child)
      == if names[ids[i]] == child then NamesAmong(names, ids[..i], child) + {ids[i]} else NamesAmong(names, ids[..i], child)
  {
    assert ids[..i + 1] == ids[..i] + [ids[i]];
  }

  lemma NamesAmongAll(names: map<nat, nat>, ids: seq<nat>, first: seq<nat>, alias: map<nat, seq<nat>>)
    requires NamesSplit(names, ids[..|ids|], first, alias) && forall n :: n in ids <==> n in names
    ensures forall child: nat :: child < LIMIT ==> BaseNames(first, alias, child) == NamesOf(names, child)
  {
    hide BaseNames;
    assert ids[..|ids|] == ids;
    forall child: nat
      ensures NamesAmong(names, ids, child) == NamesOf(names, child)
    {
    }
  }
}
