/** Writing a planned checkpoint's names and documents: what is written reads
    back as the old view, renumbered. */
module CompactWrite {
  import opened Compact
  import opened Sorting
  import opened Basics

  const U32_MAX: nat := 0xFFFF_FFFF

  // ---- documents ----

  ghost predicate DocIds(docs: seq<nat>) {
    Ascending(docs) && forall d :: d in docs ==> d < NONE
  }

  /** Ascending ids without a gap differ from the first by their place. */
  lemma {:induction false} Dense(docs: seq<nat>, i: nat)
    requires Ascending(docs) && docs != [] && docs[|docs| - 1] - docs[0] + 1 == |docs| && i < |docs|
    ensures docs[i] == docs[0] + i
  {
    AtLeastPlace(docs, 0, i);
    AtLeastPlace(docs, i, |docs| - 1);
  }

  lemma {:induction false} AtLeastPlace(docs: seq<nat>, i: nat, j: nat)
    requires Ascending(docs) && i <= j < |docs|
    ensures docs[j] >= docs[i] + (j - i)
  {
    if i < j {
      AtLeastPlace(docs, i, j - 1);
      assert docs[j - 1] < docs[j];
    }
  }

  /** A document's row: by subtraction where ids have no gap, else by search. */
  method DocRow(docs: seq<nat>, id: nat) returns (r: Option<nat>)
    requires DocIds(docs)
    ensures r.Some? ==> r.value < |docs| && docs[r.value] == id
    ensures r.None? ==> id !in docs
  {
    if docs != [] && docs[|docs| - 1] - docs[0] + 1 == |docs| {
      DenseMembers(docs, id);
      if id < docs[0] {
        return None;
      }
      var n := id - docs[0];
      return if n < |docs| then Some(n) else None;
    }
    var lo: nat, hi: nat := 0, |docs|;
    while lo < hi
      invariant lo <= hi <= |docs|
      invariant forall i :: 0 <= i < lo ==> docs[i] < id
      invariant forall i :: hi <= i < |docs| ==> docs[i] > id
    {
      var mid := (lo + hi) / 2;
      if docs[mid] < id {
        lo := mid + 1;
      } else if docs[mid] > id {
        hi := mid;
      } else {
        return Some(mid);
      }
    }
    return None;
  }

  lemma DenseMembers(docs: seq<nat>, id: nat)
    requires Ascending(docs) && docs != [] && docs[|docs| - 1] - docs[0] + 1 == |docs|
    ensures id in docs <==> docs[0] <= id < docs[0] + |docs|
    ensures docs[0] <= id < docs[0] + |docs| ==> docs[id - docs[0]] == id
  {
    if docs[0] <= id < docs[0] + |docs| {
      Dense(docs, id - docs[0]);
    }
    if id in docs {
      var i: nat :| i < |docs| && docs[i] == id;
      Dense(docs, i);
    }
  }

  /** How many inodes in `order` have this document. */
  function References(order: seq<nat>, docOf: map<nat, nat>, doc: nat): nat {
    if order == [] then 0
    else
      var n := |order| - 1;
      References(order[..n], docOf, doc) + if order[n] in docOf && docOf[order[n]] == doc then 1 else 0
  }

  /** Walks the inodes once, counting at each one's document. The counts must be
      those the view has stored, each at least one and a 32-bit number. */
  method CountReferences(order: seq<nat>, docOf: map<nat, nat>, docs: seq<nat>, stored: map<nat, nat>)
    returns (r: Option<seq<nat>>)
    requires DocIds(docs)
    ensures r.Some? <==> AllRows(order, docOf, docs) && AllStored(order, docOf, docs, stored)
    ensures r.Some? ==>
      |r.value| == |docs| && forall row :: 0 <= row < |docs| ==> r.value[row] == References(order, docOf, docs[row])
  {
    var refs := seq(|docs|, _ => 0);
    for i := 0 to |order|
      invariant |refs| == |docs| && AllRows(order[..i], docOf, docs)
      invariant forall row :: 0 <= row < |docs| ==> refs[row] == References(order[..i], docOf, docs[row]) <= U32_MAX
    {
      ReferencesNext(order, docOf, docs, i);
      if order[i] in docOf {
        var row := DocRow(docs, docOf[order[i]]);
        if row.None? {
          return None;
        }
        if refs[row.value] == U32_MAX {
          ReferencesGrow(order, docOf, docOf[order[i]], i + 1);
          assert !StoredAt(order, docOf, docs, stored, row.value);
          return None;
        }
        refs := refs[row.value := refs[row.value] + 1];
      }
    }
    assert order[..|order|] == order;
    for row := 0 to |docs|
      invariant forall q: nat :: q < row ==> StoredAt(order, docOf, docs, stored, q)
    {
      if refs[row] == 0 || docs[row] !in stored || stored[docs[row]] != refs[row] {
        assert !StoredAt(order, docOf, docs, stored, row);
        return None;
      }
    }
    return Some(refs);
  }

  /** Every inode's document has a row. */
  ghost predicate AllRows(order: seq<nat>, docOf: map<nat, nat>, docs: seq<nat>) {
    forall i :: 0 <= i < |order| && order[i] in docOf ==> docOf[order[i]] in docs
  }

  /** Every document has references, as many as the view says. */
  ghost predicate AllStored(order: seq<nat>, docOf: map<nat, nat>, docs: seq<nat>, stored: map<nat, nat>) {
    forall row: nat :: row < |docs| ==> StoredAt(order, docOf, docs, stored, row)
  }

  ghost predicate StoredAt(order: seq<nat>, docOf: map<nat, nat>, docs: seq<nat>, stored: map<nat, nat>, row: nat)
    requires row < |docs|
  {
    && 0 < References(order, docOf, docs[row]) <= U32_MAX
    && docs[row] in stored && stored[docs[row]] == References(order, docOf, docs[row])
  }

  lemma {:induction false} ReferencesGrow(order: seq<nat>, docOf: map<nat, nat>, doc: nat, i: nat)
    requires i <= |order|
    ensures References(order[..i], docOf, doc) <= References(order, docOf, doc)
  {
    if i == |order| {
      assert order[..i] == order;
    } else {
      ReferencesGrow(order[..|order| - 1], docOf, doc, i);
      assert order[..|order| - 1][..i] == order[..i];
    }
  }

  lemma ReferencesNext(order: seq<nat>, docOf: map<nat, nat>, docs: seq<nat>, i: nat)
    requires i < |order| && AllRows(order[..i], docOf, docs)
    ensures forall doc :: References(order[..i + 1], docOf, doc)
              == References(order[..i], docOf, doc) + if order[i] in docOf && docOf[order[i]] == doc then 1 else 0
    ensures AllRows(order[..i + 1], docOf, docs) <==> order[i] in docOf ==> docOf[order[i]] in docs
    ensures order[i] in docOf && docOf[order[i]] !in docs ==> !AllRows(order, docOf, docs)
  {
    assert order[..i + 1] == order[..i] + [order[i]];
    assert order[..i + 1][..i] == order[..i];
    if AllRows(order[..i + 1], docOf, docs) {
      assert order[..i + 1][i] == order[i];
    }
  }

  // ---- names ----

  /** How a target is written: a new inode number, or a code above them all. */
  function Child(plan: Plan, target: Target): nat
    requires target.Inode? ==> target.id < |plan.remap|
    requires target.Ignored? ==> target.kind < 7
  {
    match target
    case Inode(id) => plan.remap[id]
    case Ignored(kind) => NONE - 1 - kind
  }

  /** How it is read. */
  function TargetOf(child: nat): Target {
    if NONE - 7 <= child <= NONE - 1 then Ignored(NONE - 1 - child) else Inode(child)
  }

  /** The old target under the new numbers. */
  ghost predicate SameTarget(plan: Plan, was: Target, now: Target) {
    match was
    case Inode(id) => now.Inode? && now.id < |plan.order| && plan.order[now.id] == id
    case Ignored(kind) => now == was
  }

  lemma ChildBack(view: View, plan: Plan, n: nat)
    requires view.Valid() && Numbering(view, plan) && view.NameOk(n)
    ensures var target := view.names[n].target;
      && (target.Inode? ==> target.id < |plan.remap|) && (target.Ignored? ==> target.kind < 7)
      && SameTarget(plan, target, TargetOf(Child(plan, target)))
  {
    var target := view.names[n].target;
    if target.Inode? {
      assert target.id in plan.order;
      var i: nat :| i < |plan.order| && plan.order[i] == target.id;
      assert NumberIs(plan.remap, plan.order[i], i);
      DistinctSize(plan.order, view.dirs + view.files);
      BelowSize(view.dirs + view.files, view.nextInode);
    }
  }

  /** Every row has a name there is, with a target there is. */
  predicate RowsOk(view: View, rows: seq<NameRow>) {
    forall r :: 0 <= r < |rows| ==> view.NameOk(rows[r].name)
  }

  /** The heap of names: each one's bytes and a zero. */
  function Heap(view: View, rows: seq<NameRow>): seq<nat>
    requires RowsOk(view, rows)
  {
    if rows == [] then []
    else
      var n := |rows| - 1;
      Heap(view, rows[..n]) + view.names[rows[n].name].bytes + [0]
  }

  datatype Written = Written(parents: seq<nat>, children: seq<nat>, offsets: seq<nat>, heap: seq<nat>)

  /** What a reader finds at a row. */
  datatype ReadName = ReadName(parent: nat, target: Target, bytes: seq<nat>)

  predicate Readable(w: Written, r: nat) {
    && |w.parents| == |w.children| == |w.offsets| && r < |w.offsets|
    && w.offsets[r] <= NextOffset(w, r) - 1 < |w.heap|
  }

  /** Where a row's heap entry ends. */
  function NextOffset(w: Written, r: nat): nat
    requires r < |w.offsets|
  {
    if r + 1 < |w.offsets| then w.offsets[r + 1] else |w.heap|
  }

  function Read(w: Written, r: nat): ReadName
    requires Readable(w, r)
  {
    ReadName(w.parents[r], TargetOf(w.children[r]), w.heap[w.offsets[r]..NextOffset(w, r) - 1])
  }

  /** The old name under the new numbers: same parent, target and bytes. */
  ghost predicate SameName(view: View, plan: Plan, row: NameRow, now: ReadName) {
    && row.name in view.names
    && now.parent == row.parent && now.parent < |plan.order|
    && now.bytes == view.names[row.name].bytes
    && SameTarget(plan, view.names[row.name].target, now.target)
  }

  ghost predicate WrittenSo(view: View, plan: Plan, rows: seq<NameRow>, w: Written)
    requires RowsOk(view, rows)
  {
    && |w.parents| == |w.children| == |w.offsets| == |rows| && w.heap == Heap(view, rows)
    && forall r: nat :: r < |rows| ==> WrittenRow(view, plan, rows, w, r)
  }

  ghost predicate WrittenRow(view: View, plan: Plan, rows: seq<NameRow>, w: Written, r: nat)
    requires RowsOk(view, rows) && r < |rows| == |w.parents| == |w.children| == |w.offsets|
  {
    var target := view.names[rows[r].name].target;
    && w.parents[r] == rows[r].parent
    && (target.Inode? ==> target.id < |plan.remap|)
    && w.children[r] == (match target case Inode(id) => plan.remap[id] case Ignored(kind) => 0xFFFF_FFFE - kind)
    && w.offsets[r] == |Heap(view, rows[..r])|
  }

  /** Every written row reads back as its old name. */
  lemma ReadsBack(view: View, plan: Plan, w: Written, r: nat)
    requires view.Valid() && IsPlan(view, plan) && RowsOk(view, RowsOf(view, plan.order, plan.dirs))
    requires WrittenSo(view, plan, RowsOf(view, plan.order, plan.dirs), w) && r < view.nameCount
    ensures Readable(w, r) && SameName(view, plan, RowsOf(view, plan.order, plan.dirs)[r], Read(w, r))
  {
    hide RowsOf, Heap, SameTarget, Numbering;
    var rows := RowsOf(view, plan.order, plan.dirs);
    assert WrittenRow(view, plan, rows, w, r);
    assert r + 1 < |rows| ==> WrittenRow(view, plan, rows, w, r + 1);
    ChildBack(view, plan, rows[r].name);
    HeapAt(view, rows, r);
    assert rows[..|rows|] == rows;
    var p, k := RowWhere(view, plan.order, plan.dirs, r);
  }

  lemma PlanRowsOk(view: View, plan: Plan)
    requires IsPlan(view, plan)
    ensures RowsOk(view, RowsOf(view, plan.order, plan.dirs))
  {
    hide RowsOf;
    var rows := RowsOf(view, plan.order, plan.dirs);
    forall r: nat | r < |rows|
      ensures view.NameOk(rows[r].name)
    {
      assert OnlyName(view, plan, rows, r);
    }
  }

  /** A row's bytes lie in the heap between its offset and the next. */
  lemma {:induction false} HeapAt(view: View, rows: seq<NameRow>, r: nat)
    requires RowsOk(view, rows) && r < |rows|
    ensures var bytes, at := view.names[rows[r].name].bytes, |Heap(view, rows[..r])|;
      && |Heap(view, rows[..r + 1])| == at + |bytes| + 1 <= |Heap(view, rows)|
      && Heap(view, rows)[at..at + |bytes|] == bytes && Heap(view, rows)[at + |bytes|] == 0
  {
    var n := |rows| - 1;
    if r == n {
      assert rows[..r + 1] == rows;
    } else {
      HeapAt(view, rows[..n], r);
      assert rows[..n][..r] == rows[..r] && rows[..n][..r + 1] == rows[..r + 1];
    }
  }

  /** Writes the name rows and their heap, directory by directory. */
  method WriteNames(view: View, plan: Plan) returns (w: Written)
    requires view.Valid() && IsPlan(view, plan)
    ensures RowsOk(view, RowsOf(view, plan.order, plan.dirs))
    ensures WrittenSo(view, plan, RowsOf(view, plan.order, plan.dirs), w)
  {
    hide *;
    PlanRowsOk(view, plan);
    PlanSizes(view, plan);
    ghost var all := RowsOf(view, plan.order, plan.dirs);
    w := Written([], [], [], []);
    ghost var rows: seq<NameRow> := [];
    WriteNone(view, plan);
    for parent := 0 to plan.dirs
      invariant rows == RowsOf(view, plan.order, parent) && RowsOk(view, rows) && WrittenSo(view, plan, rows, w)
    {
      var names := view.NamesIn(plan.order[parent]);
      RowsNext(view, plan.order, parent, names);
      for k := 0 to |names|
        invariant rows == RowsOf(view, plan.order, parent) + RowsUnder(parent, names[..k])
        invariant RowsOk(view, rows) && WrittenSo(view, plan, rows, w)
      {
        RowOk(view, plan, parent, k);
        ChildBack(view, plan, names[k]);
        var name := view.names[names[k]];
        ghost var row := NameRow(parent, names[k]);
        WriteStep(view, plan, rows, w, row);
        w := Written(w.parents + [parent], w.children + [Child(plan, name.target)], w.offsets + [|w.heap|],
                     w.heap + name.bytes + [0]);
        RowsPush(parent, names, k, RowsOf(view, plan.order, parent));
        rows := rows + [row];
      }
    }
  }

  /** The heap's size, found without writing it; nothing if offsets into it
      would not fit 32 bits. */
  method SizeNames(view: View, plan: Plan) returns (r: Option<nat>)
    requires view.Valid() && IsPlan(view, plan)
    ensures RowsOk(view, RowsOf(view, plan.order, plan.dirs))
    ensures var size := |Heap(view, RowsOf(view, plan.order, plan.dirs))|;
      r == if size > U32_MAX then None else Some(size)
  {
    hide *;
    PlanRowsOk(view, plan);
    PlanSizes(view, plan);
    var size: nat := 0;
    ghost var rows: seq<NameRow> := [];
    WriteNone(view, plan);
    for parent := 0 to plan.dirs
      invariant rows == RowsOf(view, plan.order, parent) && RowsOk(view, rows) && size == |Heap(view, rows)|
    {
      var names := view.NamesIn(plan.order[parent]);
      RowsNext(view, plan.order, parent, names);
      for k := 0 to |names|
        invariant rows == RowsOf(view, plan.order, parent) + RowsUnder(parent, names[..k])
        invariant RowsOk(view, rows) && size == |Heap(view, rows)|
      {
        RowOk(view, plan, parent, k);
        ghost var row := NameRow(parent, names[k]);
        HeapStep(view, rows, row);
        size := size + |view.names[names[k]].bytes| + 1;
        RowsPush(parent, names, k, RowsOf(view, plan.order, parent));
        rows := rows + [row];
      }
    }
    r := if size > U32_MAX then None else Some(size);
  }

  lemma PlanSizes(view: View, plan: Plan)
    requires IsPlan(view, plan)
    ensures plan.dirs <= |plan.order| && RowsOf(view, plan.order, 0) == [] && Numbering(view, plan)
  {
  }

  lemma WriteNone(view: View, plan: Plan)
    ensures RowsOk(view, []) && WrittenSo(view, plan, [], Written([], [], [], [])) && Heap(view, []) == []
  {
  }

  lemma RowOk(view: View, plan: Plan, parent: nat, k: nat)
    requires IsPlan(view, plan) && parent < plan.dirs && k < |view.NamesIn(plan.order[parent])|
    ensures view.NameOk(view.NamesIn(plan.order[parent])[k]) && view.NamesIn(plan.order[parent])[k] in view.names
  {
    hide RowsOf, Numbering;
    RowAt(view, plan.order, plan.dirs, parent, k);
    assert OnlyName(view, plan, RowsOf(view, plan.order, plan.dirs), |RowsOf(view, plan.order, parent)| + k);
  }

  lemma HeapStep(view: View, rows: seq<NameRow>, row: NameRow)
    requires RowsOk(view, rows) && view.NameOk(row.name)
    ensures RowsOk(view, rows + [row]) && Heap(view, rows + [row]) == Heap(view, rows) + view.names[row.name].bytes + [0]
  {
    assert (rows + [row])[..|rows|] == rows;
  }

  lemma WriteStep(view: View, plan: Plan, rows: seq<NameRow>, w: Written, row: NameRow)
    requires RowsOk(view, rows) && WrittenSo(view, plan, rows, w) && view.NameOk(row.name)
    requires var target := view.names[row.name].target;
      (target.Inode? ==> target.id < |plan.remap|) && (target.Ignored? ==> target.kind < 7)
    ensures RowsOk(view, rows + [row])
    ensures var name := view.names[row.name];
      WrittenSo(view, plan, rows + [row], Written(w.parents + [row.parent], w.children + [Child(plan, name.target)],
                                                  w.offsets + [|w.heap|], w.heap + name.bytes + [0]))
  {
    hide Heap;
    HeapStep(view, rows, row);
    var name, after := view.names[row.name], rows + [row];
    var v := Written(w.parents + [row.parent], w.children + [Child(plan, name.target)], w.offsets + [|w.heap|],
                     w.heap + name.bytes + [0]);
    forall r: nat | r < |after|
      ensures WrittenRow(view, plan, after, v, r)
    {
      if r < |rows| {
        assert WrittenRow(view, plan, rows, w, r);
        assert after[..r] == rows[..r];
      } else {
        assert after[..r] == rows;
      }
    }
  }
}
