/** Renumbering a view for a new checkpoint, breadth first: directories first,
    each after its parent, and names in the order of their directories. */
module Compact {
  import Basics

  const NONE: nat := 0xFFFF_FFFF

  datatype Target = Inode(id: nat) | Ignored(kind: nat)

  datatype Name = Name(target: Target, bytes: seq<nat>)

  /** An effective view. `roots` come in the order of their paths, and each
      directory's names in view order. */
  datatype View = View(nextInode: nat, dirs: set<nat>, files: set<nat>, roots: seq<nat>,
                       children: map<nat, seq<nat>>, names: map<nat, Name>, nameCount: nat)
  {
    ghost predicate Valid() {
      && dirs !! files && nextInode <= NONE - 16 && nameCount <= NONE
      && (forall id :: id in dirs || id in files ==> id < nextInode)
      && (forall r :: r in roots ==> r in dirs) && Distinct(roots)
      && dirs <= children.Keys
      && forall d, n :: d in dirs && n in children[d] ==> NameOk(n)
    }

    predicate NameOk(n: nat) {
      n in names && match names[n].target
        case Inode(id) => id in dirs + files
        case Ignored(kind) => kind < 7
    }

    function InodeCount(): nat { |dirs + files| }

    function NamesIn(dir: nat): seq<nat> { if dir in children then children[dir] else [] }
  }

  predicate Distinct(s: seq<nat>) {
    forall i, j :: 0 <= i < j < |s| ==> s[i] != s[j]
  }

  /** A new name row: its parent's new number and the old name. */
  datatype NameRow = NameRow(parent: nat, name: nat)

  /** The names of one directory as rows. */
  function RowsUnder(parent: nat, names: seq<nat>): seq<NameRow> {
    seq(|names|, k requires 0 <= k < |names| => NameRow(parent, names[k]))
  }

  /** All names of the first `n` directories, by parent and then view order. */
  function RowsOf(view: View, order: seq<nat>, n: nat): seq<NameRow>
    requires n <= |order|
  {
    if n == 0 then [] else RowsOf(view, order, n - 1) + RowsUnder(n - 1, view.NamesIn(order[n - 1]))
  }

  datatype Plan = Plan(order: seq<nat>, remap: seq<nat>, dirNames: seq<nat>, dirs: nat)

  datatype Result = Ok(plan: Plan) | ReachedTwice | Unreachable | NameLimit

  // ---- what the walk keeps ----

  /** Each numbered inode knows its number, and no other has one. */
  ghost predicate Numbered(view: View, remap: seq<nat>, order: seq<nat>, files: seq<nat>) {
    && |remap| == view.nextInode
    && (forall i: nat :: i < |order| ==> NumberIs(remap, order[i], i))
    && (forall j: nat :: j < |files| ==> NumberIs(remap, files[j], j))
    && forall id: nat :: id < |remap| && id !in order && id !in files ==> remap[id] == NONE
  }

  predicate NumberIs(remap: seq<nat>, id: nat, n: nat) {
    id < |remap| && remap[id] == n
  }

  /** The directory a row names, if it names one. */
  predicate NamesDir(view: View, row: NameRow, child: nat) {
    row.name in view.names && view.names[row.name].target == Inode(child) && child in view.dirs
  }

  /** A numbered directory is a root, or is named by one row under a directory
      with a lower number. */
  ghost predicate Named(view: View, order: seq<nat>, dirNames: seq<nat>, rows: seq<NameRow>, i: nat)
    requires i < |order| == |dirNames|
  {
    if i < |view.roots| then order[i] == view.roots[i] && dirNames[i] == NONE
    else dirNames[i] < |rows| && NamesDir(view, rows[dirNames[i]], order[i]) && rows[dirNames[i]].parent < i
  }

  /** A row seen is the one its directory is known by, and its file is listed. */
  ghost predicate Seen(view: View, order: seq<nat>, files: seq<nat>, dirNames: seq<nat>, rows: seq<NameRow>, r: nat)
    requires r < |rows| && |order| == |dirNames|
  {
    && view.NameOk(rows[r].name)
    && var target := view.names[rows[r].name].target;
       target.Inode? ==>
         if target.id in view.dirs then KnownBy(order, dirNames, target.id, r) else target.id in files
  }

  /** Some row names this inode. */
  ghost predicate FileNamed(view: View, rows: seq<NameRow>, id: nat) {
    exists r :: 0 <= r < |rows| && rows[r].name in view.names && view.names[rows[r].name].target == Inode(id)
  }

  lemma FilesStayNamed(view: View, rows: seq<NameRow>, row: NameRow, files: seq<nat>)
    requires forall j: nat :: j < |files| ==> FileNamed(view, rows, files[j])
    ensures forall j: nat :: j < |files| ==> FileNamed(view, rows + [row], files[j])
    ensures row.name in view.names && view.names[row.name].target.Inode? ==>
      FileNamed(view, rows + [row], view.names[row.name].target.id)
  {
    forall j: nat | j < |files|
      ensures FileNamed(view, rows + [row], files[j])
    {
      assert FileNamed(view, rows, files[j]);
      var r :| 0 <= r < |rows| && rows[r].name in view.names && view.names[rows[r].name].target == Inode(files[j]);
      assert (rows + [row])[r] == rows[r];
    }
    assert (rows + [row])[|rows|] == row;
  }

  ghost predicate KnownBy(order: seq<nat>, dirNames: seq<nat>, child: nat, r: nat)
    requires |order| == |dirNames|
  {
    exists i :: 0 <= i < |order| && order[i] == child && dirNames[i] == r
  }

  ghost predicate Walk(view: View, order: seq<nat>, files: seq<nat>, remap: seq<nat>, dirNames: seq<nat>, rows: seq<NameRow>) {
    && Numbered(view, remap, order, files)
    && Distinct(order) && Distinct(files) && |view.roots| <= |order| == |dirNames|
    && (forall id :: id in order ==> id in view.dirs) && (forall id :: id in files ==> id in view.files)
    && (forall i: nat :: i < |order| ==> Named(view, order, dirNames, rows, i))
    && (forall j: nat :: j < |files| ==> FileNamed(view, rows, files[j]))
    && forall r: nat :: r < |rows| ==> Seen(view, order, files, dirNames, rows, r)
  }

  lemma InBounds(view: View, order: seq<nat>)
    requires view.Valid() && Distinct(order) && forall id :: id in order ==> id in view.dirs
    ensures |order| <= |view.dirs| <= view.InodeCount()
    ensures |order| <= view.nextInode
  {
    DistinctSize(order, view.dirs);
    Basics.SubsetSize(view.dirs, view.dirs + view.files);
    BelowSize(view.dirs, view.nextInode);
  }

  lemma {:induction false} DistinctSize(s: seq<nat>, all: set<nat>)
    requires Distinct(s) && forall x :: x in s ==> x in all
    ensures |s| <= |all|
    ensures |s| == |all| ==> forall x :: x in all ==> x in s
  {
    if s == [] {
    } else {
      var n := |s| - 1;
      assert s == s[..n] + [s[n]];
      DistinctSize(s[..n], all - {s[n]});
    }
  }

  lemma {:induction false} BelowSize(s: set<nat>, n: nat)
    requires forall x :: x in s ==> x < n
    ensures |s| <= n
  {
    if n == 0 {
      assert s == {};
    } else {
      BelowSize(s - {n - 1}, n - 1);
      assert s - {n - 1} == s || s == (s - {n - 1}) + {n - 1};
    }
  }

  /** A directory met for the first time is numbered next. */
  lemma MeetDir(view: View, order: seq<nat>, files: seq<nat>, remap: seq<nat>, dirNames: seq<nat>, rows: seq<NameRow>, row: NameRow, child: nat)
    requires view.Valid() && Walk(view, order, files, remap, dirNames, rows)
    requires NamesDir(view, row, child) && view.NameOk(row.name) && row.parent < |order| <= NONE && |files| <= NONE
    requires child < |remap| && remap[child] == NONE
    ensures Walk(view, order + [child], files, remap[child := |order|], dirNames + [|rows|], rows + [row])
  {
    hide View.Valid, View.NameOk, FileNamed;
    NewId(view, order, files, remap, child);
    NumberDir(view, order, files, remap, child);
    DistinctPush(order, child);
    forall i: nat | i < |order + [child]|
      ensures Named(view, order + [child], dirNames + [|rows|], rows + [row], i)
    {
      assert i < |order| ==> Named(view, order, dirNames, rows, i);
    }
    SeenGrows(view, order, files, dirNames, rows, order + [child], files, dirNames + [|rows|], row);
    FilesStayNamed(view, rows, row, files);
    SeenNewDir(view, order + [child], files, dirNames + [|rows|], rows + [row], |rows|, child);
  }

  lemma NewId(view: View, order: seq<nat>, files: seq<nat>, remap: seq<nat>, child: nat)
    requires Numbered(view, remap, order, files) && child < |remap| && remap[child] == NONE
    requires |order| <= NONE && |files| <= NONE
    ensures child !in order && child !in files
  {
  }

  lemma NumberDir(view: View, order: seq<nat>, files: seq<nat>, remap: seq<nat>, child: nat)
    requires Numbered(view, remap, order, files) && child < |remap| && child !in order && child !in files
    ensures Numbered(view, remap[child := |order|], order + [child], files)
  {
    var after, longer := remap[child := |order|], order + [child];
    forall i: nat | i < |longer|
      ensures NumberIs(after, longer[i], i)
    {
      assert i < |order| ==> NumberIs(remap, order[i], i) && order[i] in order;
    }
    forall j: nat | j < |files|
      ensures NumberIs(after, files[j], j)
    {
      assert NumberIs(remap, files[j], j) && files[j] in files;
    }
    forall id: nat | id < |after| && id !in longer && id !in files
      ensures after[id] == NONE
    {
      assert longer[|order|] == child && forall x :: x in order ==> x in longer;
    }
  }

  lemma NumberFile(view: View, order: seq<nat>, files: seq<nat>, remap: seq<nat>, child: nat)
    requires Numbered(view, remap, order, files) && child < |remap| && child !in order && child !in files
    ensures Numbered(view, remap[child := |files|], order, files + [child])
  {
    var after, longer := remap[child := |files|], files + [child];
    forall i: nat | i < |order|
      ensures NumberIs(after, order[i], i)
    {
      assert NumberIs(remap, order[i], i) && order[i] in order;
    }
    forall j: nat | j < |longer|
      ensures NumberIs(after, longer[j], j)
    {
      assert j < |files| ==> NumberIs(remap, files[j], j) && files[j] in files;
    }
    forall id: nat | id < |after| && id !in order && id !in longer
      ensures after[id] == NONE
    {
      assert longer[|files|] == child && forall x :: x in files ==> x in longer;
    }
  }

  lemma DistinctPush(s: seq<nat>, x: nat)
    requires Distinct(s) && x !in s
    ensures Distinct(s + [x]) && forall y :: y in s + [x] <==> y in s || y == x
  {
  }

  /** Rows seen stay seen as the lists grow. */
  lemma SeenGrows(view: View, order: seq<nat>, files: seq<nat>, dirNames: seq<nat>, rows: seq<NameRow>,
                  order': seq<nat>, files': seq<nat>, dirNames': seq<nat>, row: NameRow)
    requires |order| == |dirNames| && |order'| == |dirNames'| && order <= order' && files <= files' && dirNames <= dirNames'
    requires forall r: nat :: r < |rows| ==> Seen(view, order, files, dirNames, rows, r)
    ensures forall r: nat :: r < |rows| ==> Seen(view, order', files', dirNames', rows + [row], r)
  {
    forall r: nat | r < |rows|
      ensures Seen(view, order', files', dirNames', rows + [row], r)
    {
      assert Seen(view, order, files, dirNames, rows, r) && (rows + [row])[r] == rows[r];
      var target := view.names[rows[r].name].target;
      if target.Inode? && target.id in view.dirs {
        var i :| 0 <= i < |order| && order[i] == target.id && dirNames[i] == r;
        assert order'[i] == target.id && dirNames'[i] == r;
      } else if target.Inode? {
        var j :| 0 <= j < |files| && files[j] == target.id;
        assert files'[j] == target.id;
      }
    }
  }

  lemma SeenNewDir(view: View, order: seq<nat>, files: seq<nat>, dirNames: seq<nat>, rows: seq<NameRow>, r: nat, child: nat)
    requires |order| == |dirNames| && r < |rows| && NamesDir(view, rows[r], child) && view.NameOk(rows[r].name)
    requires |order| > 0 && order[|order| - 1] == child && dirNames[|order| - 1] == r
    ensures Seen(view, order, files, dirNames, rows, r)
  {
    assert KnownBy(order, dirNames, child, r);
  }

  /** A file met for the first time is listed. */
  lemma MeetFile(view: View, order: seq<nat>, files: seq<nat>, remap: seq<nat>, dirNames: seq<nat>, rows: seq<NameRow>, row: NameRow, child: nat)
    requires view.Valid() && Walk(view, order, files, remap, dirNames, rows)
    requires view.NameOk(row.name) && view.names[row.name].target == Inode(child) && child !in view.dirs
    requires child < |remap| && remap[child] == NONE && |order| <= NONE && |files| <= NONE
    ensures Walk(view, order, files + [child], remap[child := |files|], dirNames, rows + [row])
  {
    hide View.Valid, NamesDir, KnownBy, FileNamed;
    NewId(view, order, files, remap, child);
    NumberFile(view, order, files, remap, child);
    DistinctPush(files, child);
    forall i: nat | i < |order|
      ensures Named(view, order, dirNames, rows + [row], i)
    {
      assert Named(view, order, dirNames, rows, i);
    }
    SeenGrows(view, order, files, dirNames, rows, order, files + [child], dirNames, row);
    FilesStayNamed(view, rows, row, files);
    assert Seen(view, order, files + [child], dirNames, rows + [row], |rows|);
  }

  /** An alias of a listed file, or a name of no inode, changes nothing. */
  lemma MeetOther(view: View, order: seq<nat>, files: seq<nat>, remap: seq<nat>, dirNames: seq<nat>, rows: seq<NameRow>, row: NameRow)
    requires Walk(view, order, files, remap, dirNames, rows) && view.NameOk(row.name)
    requires var target := view.names[row.name].target;
      target.Inode? ==> target.id !in view.dirs && target.id < |remap| && remap[target.id] != NONE
    ensures Walk(view, order, files, remap, dirNames, rows + [row])
  {
    hide NamesDir, KnownBy, FileNamed;
    forall i: nat | i < |order|
      ensures Named(view, order, dirNames, rows + [row], i)
    {
      assert Named(view, order, dirNames, rows, i);
    }
    SeenGrows(view, order, files, dirNames, rows, order, files, dirNames, row);
    FilesStayNamed(view, rows, row, files);
    var target := view.names[row.name].target;
    if target.Inode? {
      assert target.id !in order;
      assert target.id in files;
    }
    assert Seen(view, order, files, dirNames, rows + [row], |rows|);
  }

  // ---- the plan ----

  /** A bijection from the live inodes onto the numbers below their count,
      directories first. */
  ghost predicate Numbering(view: View, plan: Plan) {
    && Distinct(plan.order) && (forall id :: id in plan.order <==> id in view.dirs + view.files)
    && |plan.order| == view.InodeCount() && plan.dirs == |view.dirs| <= |plan.order|
    && (forall i: nat :: i < |plan.order| ==> NumberIs(plan.remap, plan.order[i], i))
    && (forall i: nat :: i < |plan.order| ==> (i < plan.dirs <==> plan.order[i] in view.dirs))
    && |plan.remap| == view.nextInode
    && forall id: nat :: id < |plan.remap| && id !in plan.order ==> plan.remap[id] == NONE
  }

  /** Every directory but a root is under a lower-numbered one by the one row
      that names it, and every other inode has a row; the rows go by parent and
      view order, and all are there. */
  ghost predicate Tree(view: View, plan: Plan) {
    && plan.dirs == |plan.dirNames| <= |plan.order| && |view.roots| <= plan.dirs
    && var rows := RowsOf(view, plan.order, plan.dirs);
       && |rows| == view.nameCount
       && (forall i: nat :: i < plan.dirs ==> Named(view, plan.order[..plan.dirs], plan.dirNames, rows, i))
       && (forall j: nat :: plan.dirs <= j < |plan.order| ==> FileNamed(view, rows, plan.order[j]))
       && forall r: nat :: r < |rows| ==> OnlyName(view, plan, rows, r)
  }

  ghost predicate IsPlan(view: View, plan: Plan) {
    Numbering(view, plan) && Tree(view, plan)
  }

  /** A row that names a directory is the only one that does. */
  ghost predicate OnlyName(view: View, plan: Plan, rows: seq<NameRow>, r: nat)
    requires r < |rows|
  {
    view.NameOk(rows[r].name) && forall child: nat :: NamesDir(view, rows[r], child) ==>
      child < |plan.remap| && plan.remap[child] < |plan.dirNames| && plan.dirNames[plan.remap[child]] == r
  }

  /** Numbers the view breadth first. It ends because every directory is queued
      once, and it succeeds exactly if there is a plan at all. */
  method NewPlan(view: View) returns (r: Result)
    requires view.Valid()
    ensures r.Ok? ==> IsPlan(view, r.plan)
    ensures !r.Ok? ==> forall plan :: !IsPlan(view, plan)
  {
    hide *;
    var order: seq<nat> := view.roots;
    var remap: array<nat> := new nat[view.nextInode](_ => NONE);
    assert remap[..] == seq(view.nextInode, _ => NONE);
    var dirNames: seq<nat> := seq(|order|, _ => NONE);
    RootsFit(view);
    for i := 0 to |order|
      invariant RootsNumbered(view, remap[..], i)
    {
      RootNumber(view, remap[..], i);
      ghost var was: seq<nat> := remap[..];
      remap[order[i]] := i;
      assert remap[..] == was[order[i] := i];
    }
    var files: seq<nat> := [];
    var name: nat, at: nat := 0, 0;
    ghost var rows: seq<NameRow> := [];
    WalkStart(view, remap[..], dirNames);
    while at < |order|
      invariant at <= |order| && name == |rows|
      invariant Walk(view, order, files, remap[..], dirNames, rows) && rows == RowsOf(view, order, at)
      decreases view.InodeCount() - at
    {
      WalkBounds(view, order, files, remap[..], dirNames, rows);
      var names := view.NamesIn(order[at]);
      assert order[at] in order;
      RowsNext(view, order, at, names);
      for k := 0 to |names|
        invariant at < |order| && name == |rows| == |RowsOf(view, order, at)| + k
        invariant names == view.NamesIn(order[at]) && order[at] in view.dirs
        invariant Walk(view, order, files, remap[..], dirNames, rows)
        invariant rows == RowsOf(view, order, at) + RowsUnder(at, names[..k])
      {
        NameAt(view, order[at], k);
        WalkBounds(view, order, files, remap[..], dirNames, rows);
        ghost var row := NameRow(at, names[k]);
        var target := view.names[names[k]].target;
        if target.Inode? && target.id in view.dirs {
          if remap[target.id] != NONE {
            forall plan
              ensures !IsPlan(view, plan)
            {
              TwiceNoPlan(view, order, files, remap[..], dirNames, rows, at, k, plan);
            }
            return ReachedTwice;
          }
          RowNames(view, at, names[k], target.id);
          MeetDir(view, order, files, remap[..], dirNames, rows, row, target.id);
          OrderGrows(view, order, at, target.id);
          ghost var was: seq<nat> := remap[..];
          remap[target.id] := |order|;
          assert remap[..] == was[target.id := |order|];
          order := order + [target.id];
          dirNames := dirNames + [name];
        } else if target.Inode? && remap[target.id] == NONE {
          MeetFile(view, order, files, remap[..], dirNames, rows, row, target.id);
          ghost var was: seq<nat> := remap[..];
          remap[target.id] := |files|;
          assert remap[..] == was[target.id := |files|];
          files := files + [target.id];
        } else {
          MeetOther(view, order, files, remap[..], dirNames, rows, row);
        }
        RowsPush(at, names, k, RowsOf(view, order, at));
        rows := rows + [row];
        if name + 1 >= 0x1_0000_0000 {
          WalkBounds(view, order, files, remap[..], dirNames, rows);
          forall plan
            ensures !IsPlan(view, plan)
          {
            ManyNoPlan(view, order, at, k, plan);
          }
          return NameLimit;
        }
        name := name + 1;
      }
      RowsNext(view, order, at, names);
      at := at + 1;
    }
    WalkBounds(view, order, files, remap[..], dirNames, rows);
    ValidApart(view);
    RenumberStart(view, order, files, remap[..], dirNames, rows);
    ghost var walked := remap[..];
    for j := 0 to |files|
      invariant Renumbered(view, remap[..], order, files, j)
    {
      assert files[j] in files;
      RenumberStep(view, remap[..], order, files, j);
      ghost var was: seq<nat> := remap[..];
      remap[files[j]] := |order| + j;
      assert remap[..] == was[files[j] := |order| + j];
    }
    if |order + files| != view.InodeCount() || name != view.nameCount {
      forall plan
        ensures !IsPlan(view, plan)
      {
        MissedNoPlan(view, order, files, walked, dirNames, rows, plan);
      }
      return Unreachable;
    }
    var plan := Plan(order + files, remap[..], dirNames, |order|);
    PlanDone(view, order, files, walked, dirNames, rows, plan);
    return Ok(plan);
  }

  /** The first roots are numbered, and nothing else. */
  ghost predicate RootsNumbered(view: View, remap: seq<nat>, i: nat) {
    i <= |view.roots| && Numbered(view, remap, view.roots[..i], [])
  }

  lemma RootsFit(view: View)
    requires view.Valid()
    ensures RootsNumbered(view, seq(view.nextInode, _ => NONE), 0)
  {
  }

  lemma RootNumber(view: View, remap: seq<nat>, i: nat)
    requires view.Valid() && RootsNumbered(view, remap, i) && i < |view.roots|
    ensures view.roots[i] < |remap| && RootsNumbered(view, remap[view.roots[i] := i], i + 1)
  {
    hide Numbered;
    var root := view.roots[i];
    assert root in view.roots;
    NumberedSize(view, remap, view.roots[..i], []);
    assert view.roots[..i + 1] == view.roots[..i] + [root];
    NumberDir(view, view.roots[..i], [], remap, root);
  }

  lemma NumberedSize(view: View, remap: seq<nat>, order: seq<nat>, files: seq<nat>)
    requires Numbered(view, remap, order, files)
    ensures |remap| == view.nextInode
  {
  }

  lemma WalkStart(view: View, remap: seq<nat>, dirNames: seq<nat>)
    requires view.Valid() && RootsNumbered(view, remap, |view.roots|) && dirNames == seq(|view.roots|, _ => NONE)
    ensures Walk(view, view.roots, [], remap, dirNames, [])
    ensures RowsOf(view, view.roots, 0) == []
  {
    assert view.roots[..|view.roots|] == view.roots;
    forall i: nat | i < |view.roots|
      ensures Named(view, view.roots, dirNames, [], i)
    {
    }
  }

  lemma WalkBounds(view: View, order: seq<nat>, files: seq<nat>, remap: seq<nat>, dirNames: seq<nat>, rows: seq<NameRow>)
    requires view.Valid() && Walk(view, order, files, remap, dirNames, rows)
    ensures |order| <= |view.dirs| <= view.InodeCount() && |order| <= NONE && |files| <= NONE
    ensures |remap| == view.nextInode
    ensures Distinct(order) && Distinct(files) && (forall id :: id in order ==> id in view.dirs)
    ensures forall id :: id in files ==> id in view.files && id < |remap|
  {
    hide Named, Seen, FileNamed;
    InBounds(view, order);
    DistinctSize(files, view.files);
    BelowSize(view.files, view.nextInode);
  }

  lemma NameAt(view: View, dir: nat, k: nat)
    requires view.Valid() && dir in view.dirs && k < |view.NamesIn(dir)|
    ensures var n := view.NamesIn(dir)[k];
      view.NameOk(n) && n in view.names
      && (view.names[n].target.Inode? ==> view.names[n].target.id < view.nextInode)
    ensures var n := view.NamesIn(dir)[k];
      view.names[n].target.Inode? && view.names[n].target.id in view.dirs ==>
        NamesDir(view, NameRow(0, n), view.names[n].target.id)
  {
    assert view.children[dir][k] in view.children[dir];
  }

  lemma RowNames(view: View, parent: nat, n: nat, child: nat)
    requires NamesDir(view, NameRow(0, n), child)
    ensures NamesDir(view, NameRow(parent, n), child)
  {
  }

  lemma {:induction false} RowsSame(view: View, order: seq<nat>, longer: seq<nat>, n: nat)
    requires n <= |order| && order <= longer
    ensures RowsOf(view, longer, n) == RowsOf(view, order, n)
  {
    if n > 0 {
      RowsSame(view, order, longer, n - 1);
    }
  }

  lemma OrderGrows(view: View, order: seq<nat>, at: nat, child: nat)
    requires at < |order|
    ensures RowsOf(view, order + [child], at) == RowsOf(view, order, at)
  {
    hide RowsOf;
    RowsSame(view, order, order + [child], at);
  }

  lemma RowsPush(parent: nat, names: seq<nat>, k: nat, before: seq<NameRow>)
    requires k < |names|
    ensures before + RowsUnder(parent, names[..k]) + [NameRow(parent, names[k])] == before + RowsUnder(parent, names[..k + 1])
  {
  }

  lemma RowsNext(view: View, order: seq<nat>, at: nat, names: seq<nat>)
    requires at < |order| && names == view.NamesIn(order[at])
    ensures RowsOf(view, order, at) + RowsUnder(at, names[..0]) == RowsOf(view, order, at)
    ensures RowsOf(view, order, at) + RowsUnder(at, names[..|names|]) == RowsOf(view, order, at + 1)
  {
    assert names[..|names|] == names;
  }

  /** Files are numbered after directories. */
  ghost predicate Renumbered(view: View, remap: seq<nat>, order: seq<nat>, files: seq<nat>, j: nat) {
    && j <= |files| && |remap| == view.nextInode
    && (forall i: nat :: i < |order| ==> NumberIs(remap, order[i], i))
    && (forall k: nat :: k < j ==> NumberAfter(remap, files[k], |order|, k))
    && forall id: nat :: id < |remap| && id !in order && id !in files ==> remap[id] == NONE
  }

  predicate NumberAfter(remap: seq<nat>, id: nat, dirs: nat, k: nat) {
    NumberIs(remap, id, dirs + k)
  }

  lemma RenumberStart(view: View, order: seq<nat>, files: seq<nat>, remap: seq<nat>, dirNames: seq<nat>, rows: seq<NameRow>)
    requires Walk(view, order, files, remap, dirNames, rows)
    ensures Renumbered(view, remap, order, files, 0)
  {
    hide Named, Seen, FileNamed;
  }

  lemma RenumberStep(view: View, remap: seq<nat>, order: seq<nat>, files: seq<nat>, j: nat)
    requires Renumbered(view, remap, order, files, j) && j < |files| && Distinct(files) && files[j] < |remap|
    requires view.dirs !! view.files && (forall id :: id in order ==> id in view.dirs) && (forall id :: id in files ==> id in view.files)
    ensures Renumbered(view, remap[files[j] := |order| + j], order, files, j + 1)
  {
    var after, to := remap[files[j] := |order| + j], j + 1;
    assert files[j] in files;
    forall i: nat | i < |order|
      ensures NumberIs(after, order[i], i)
    {
      assert NumberIs(remap, order[i], i) && order[i] in order;
    }
    forall k: nat | k < to
      ensures NumberAfter(after, files[k], |order|, k)
    {
      assert k < j ==> NumberAfter(remap, files[k], |order|, k);
    }
  }

  lemma ValidApart(view: View)
    requires view.Valid()
    ensures view.dirs !! view.files && |view.dirs + view.files| == |view.dirs| + |view.files|
  {
  }

  /** All numbered, and all rows: the plan is right. */
  lemma PlanDone(view: View, order: seq<nat>, files: seq<nat>, remap: seq<nat>, dirNames: seq<nat>, rows: seq<NameRow>, plan: Plan)
    requires view.Valid() && Walk(view, order, files, remap, dirNames, rows)
    requires rows == RowsOf(view, order, |order|) && |rows| == view.nameCount
    requires plan == Plan(order + files, plan.remap, dirNames, |order|) && |order + files| == view.InodeCount()
    requires Renumbered(view, plan.remap, order, files, |files|)
    ensures IsPlan(view, plan)
  {
    hide RowsOf, Named, Seen, OnlyName, NumberIs, Distinct, Numbering, Numbered, Renumbered, FileNamed;
    RowsSame(view, order, order + files, |order|);
    assert (order + files)[..|order|] == order;
    NumberingDone(view, order, files, plan);
    forall j: nat | |order| <= j < |plan.order|
      ensures FileNamed(view, rows, plan.order[j])
    {
      assert FileNamed(view, rows, files[j - |order|]);
    }
    forall r: nat | r < |rows|
      ensures OnlyName(view, plan, rows, r)
    {
      assert Seen(view, order, files, dirNames, rows, r);
      FirstNumbered(view, order, files, plan);
      SeenOnly(view, order, files, dirNames, rows, r, plan);
    }
  }

  lemma FirstNumbered(view: View, order: seq<nat>, files: seq<nat>, plan: Plan)
    requires Renumbered(view, plan.remap, order, files, |files|)
    ensures forall i: nat :: i < |order| ==> NumberIs(plan.remap, order[i], i)
  {
  }

  lemma NumberingDone(view: View, order: seq<nat>, files: seq<nat>, plan: Plan)
    requires view.Valid() && Distinct(order) && Distinct(files)
    requires (forall id :: id in order ==> id in view.dirs) && (forall id :: id in files ==> id in view.files)
    requires plan == Plan(order + files, plan.remap, plan.dirNames, |order|) && |order + files| == view.InodeCount()
    requires Renumbered(view, plan.remap, order, files, |files|)
    ensures Numbering(view, plan)
  {
    hide View.Valid, Renumbered, Distinct, NumberIs;
    ValidApart(view);
    AllDistinct(view, order, files);
    DistinctSize(order, view.dirs);
    DistinctSize(files, view.files);
    DistinctSize(order + files, view.dirs + view.files);
    forall i: nat | i < |order + files|
      ensures NumberIs(plan.remap, (order + files)[i], i)
    {
      AllNumbered(view, order, files, plan.remap, i);
    }
    forall i: nat | i < |order + files|
      ensures i < |order| <==> (order + files)[i] in view.dirs
    {
      AllKinds(view, order, files, i);
    }
    OthersNone(view, order, files, plan.remap);
  }

  lemma OthersNone(view: View, order: seq<nat>, files: seq<nat>, remap: seq<nat>)
    requires Renumbered(view, remap, order, files, |files|)
    ensures |remap| == view.nextInode
    ensures forall id: nat :: id < |remap| && id !in order + files ==> remap[id] == NONE
  {
  }

  lemma AllNumbered(view: View, order: seq<nat>, files: seq<nat>, remap: seq<nat>, i: nat)
    requires Renumbered(view, remap, order, files, |files|) && i < |order + files|
    ensures NumberIs(remap, (order + files)[i], i)
  {
    if i < |order| {
      assert NumberIs(remap, order[i], i);
    } else {
      assert NumberAfter(remap, files[i - |order|], |order|, i - |order|);
    }
  }

  lemma AllKinds(view: View, order: seq<nat>, files: seq<nat>, i: nat)
    requires view.dirs !! view.files && i < |order + files|
    requires (forall id :: id in order ==> id in view.dirs) && (forall id :: id in files ==> id in view.files)
    ensures i < |order| <==> (order + files)[i] in view.dirs
  {
    if i < |order| {
      assert order[i] in order;
    } else {
      assert files[i - |order|] in files;
    }
  }

  lemma AllDistinct(view: View, order: seq<nat>, files: seq<nat>)
    requires Distinct(order) && Distinct(files) && view.dirs !! view.files
    requires (forall id :: id in order ==> id in view.dirs) && (forall id :: id in files ==> id in view.files)
    ensures Distinct(order + files) && forall id :: id in order + files ==> id in view.dirs + view.files
  {
    var all := order + files;
    forall i, j | 0 <= i < j < |all|
      ensures all[i] != all[j]
    {
      assert i < |order| ==> all[i] in order;
      assert j >= |order| ==> all[j] in files;
    }
  }

  lemma SeenOnly(view: View, order: seq<nat>, files: seq<nat>, dirNames: seq<nat>, rows: seq<NameRow>, r: nat, plan: Plan)
    requires r < |rows| && |order| == |dirNames| && Seen(view, order, files, dirNames, rows, r)
    requires plan.dirNames == dirNames && forall i: nat :: i < |order| ==> NumberIs(plan.remap, order[i], i)
    ensures OnlyName(view, plan, rows, r)
  {
    forall child: nat | NamesDir(view, rows[r], child)
      ensures child < |plan.remap| && plan.remap[child] < |plan.dirNames| && plan.dirNames[plan.remap[child]] == r
    {
      assert KnownBy(order, dirNames, child, r);
      var i: nat :| i < |order| && order[i] == child && dirNames[i] == r;
      assert NumberIs(plan.remap, order[i], i);
    }
  }

  // ---- a plan, if there is one, is found ----

  /** A row's place: its directory's number and its place under it. */
  lemma {:induction false} RowWhere(view: View, order: seq<nat>, n: nat, r: nat) returns (p: nat, k: nat)
    requires n <= |order| && r < |RowsOf(view, order, n)|
    ensures p < n && k < |view.NamesIn(order[p])| && r == |RowsOf(view, order, p)| + k
    ensures RowsOf(view, order, n)[r] == NameRow(p, view.NamesIn(order[p])[k])
  {
    if r < |RowsOf(view, order, n - 1)| {
      p, k := RowWhere(view, order, n - 1, r);
    } else {
      p, k := n - 1, r - |RowsOf(view, order, n - 1)|;
    }
  }

  lemma {:induction false} RowAt(view: View, order: seq<nat>, n: nat, p: nat, k: nat)
    requires p < n <= |order| && k < |view.NamesIn(order[p])|
    ensures |RowsOf(view, order, p)| + k < |RowsOf(view, order, n)|
    ensures RowsOf(view, order, n)[|RowsOf(view, order, p)| + k] == NameRow(p, view.NamesIn(order[p])[k])
  {
    if p < n - 1 {
      RowAt(view, order, n - 1, p, k);
    }
  }

  /** Two names of one directory leave no plan. */
  lemma OnlyOne(view: View, plan: Plan, d: nat, k: nat, e: nat, l: nat, child: nat)
    requires IsPlan(view, plan) && d in view.dirs && e in view.dirs && child in view.dirs
    requires k < |view.NamesIn(d)| && NamesDir(view, NameRow(0, view.NamesIn(d)[k]), child)
    requires l < |view.NamesIn(e)| && NamesDir(view, NameRow(0, view.NamesIn(e)[l]), child)
    ensures d == e && k == l
  {
    hide RowsOf, Named, Distinct, FileNamed;
    var i := NumberOf(view, plan, d);
    var j := NumberOf(view, plan, e);
    var rows := RowsOf(view, plan.order, plan.dirs);
    RowAt(view, plan.order, plan.dirs, i, k);
    RowAt(view, plan.order, plan.dirs, j, l);
    var x, y := |RowsOf(view, plan.order, i)| + k, |RowsOf(view, plan.order, j)| + l;
    assert OnlyName(view, plan, rows, x) && OnlyName(view, plan, rows, y);
    assert NamesDir(view, rows[x], child) && NamesDir(view, rows[y], child);
    assert x == y;
  }

  lemma NumberOf(view: View, plan: Plan, d: nat) returns (i: nat)
    requires Numbering(view, plan) && d in view.dirs
    ensures i < plan.dirs && plan.order[i] == d && d < |plan.remap| && plan.remap[d] == i
  {
    assert d in plan.order;
    i :| 0 <= i < |plan.order| && plan.order[i] == d;
    assert NumberIs(plan.remap, plan.order[i], i);
  }

  /** A root that has a name leaves no plan. */
  lemma RootUnnamed(view: View, plan: Plan, d: nat, k: nat, root: nat)
    requires view.Valid() && IsPlan(view, plan) && d in view.dirs && root < |view.roots|
    requires k < |view.NamesIn(d)|
    ensures !NamesDir(view, NameRow(0, view.NamesIn(d)[k]), view.roots[root])
  {
    hide RowsOf, Distinct, FileNamed;
    var rows, child := RowsOf(view, plan.order, plan.dirs), view.roots[root];
    assert Named(view, plan.order[..plan.dirs], plan.dirNames, rows, root);
    assert NumberIs(plan.remap, plan.order[root], root);
    var i := NumberOf(view, plan, d);
    RowAt(view, plan.order, plan.dirs, i, k);
    var x := |RowsOf(view, plan.order, i)| + k;
    assert OnlyName(view, plan, rows, x);
    assert NamesDir(view, NameRow(0, view.NamesIn(d)[k]), child) == NamesDir(view, rows[x], child);
  }

  lemma TwiceNoPlan(view: View, order: seq<nat>, files: seq<nat>, remap: seq<nat>, dirNames: seq<nat>, rows: seq<NameRow>,
                    at: nat, k: nat, plan: Plan)
    requires view.Valid() && Walk(view, order, files, remap, dirNames, rows)
    requires at < |order| && k < |view.NamesIn(order[at])|
    requires rows == RowsOf(view, order, at) + RowsUnder(at, view.NamesIn(order[at])[..k])
    requires view.NameOk(view.NamesIn(order[at])[k]) && view.names[view.NamesIn(order[at])[k]].target.Inode?
    requires var child := view.names[view.NamesIn(order[at])[k]].target.id;
      child in view.dirs && child < |remap| && remap[child] != NONE
    ensures !IsPlan(view, plan)
  {
    hide IsPlan, RowsOf, Seen, FileNamed, RowsUnder;
    if IsPlan(view, plan) {
      var n := view.NamesIn(order[at])[k];
      var child := view.names[n].target.id;
      assert order[at] in order;
      assert child in order by { FilesApart(view, files, child); }
      var i: nat :| i < |order| && order[i] == child;
      assert Named(view, order, dirNames, rows, i);
      if i < |view.roots| {
        RootUnnamed(view, plan, order[at], k, i);
      } else {
        var r := dirNames[i];
        var p, l := SeenWhere(view, order, at, k, r);
        assert order[p] in order;
        OnlyOne(view, plan, order[at], k, order[p], l, child);
        DistinctAt(order, at, p);
      }
    }
  }

  lemma DistinctAt(s: seq<nat>, i: nat, j: nat)
    requires Distinct(s) && i < |s| && j < |s| && s[i] == s[j]
    ensures i == j
  {
  }

  lemma FilesApart(view: View, files: seq<nat>, child: nat)
    requires view.Valid() && child in view.dirs && forall id :: id in files ==> id in view.files
    ensures child !in files
  {
  }

  /** Where a row already seen lies: before the name now being read. */
  lemma SeenWhere(view: View, order: seq<nat>, at: nat, k: nat, r: nat) returns (p: nat, l: nat)
    requires at < |order| && k < |view.NamesIn(order[at])|
    requires r < |RowsOf(view, order, at) + RowsUnder(at, view.NamesIn(order[at])[..k])|
    ensures p < at || (p == at && l < k)
    ensures l < |view.NamesIn(order[p])|
    ensures (RowsOf(view, order, at) + RowsUnder(at, view.NamesIn(order[at])[..k]))[r] == NameRow(p, view.NamesIn(order[p])[l])
  {
    if r < |RowsOf(view, order, at)| {
      p, l := RowWhere(view, order, at, r);
    } else {
      p, l := at, r - |RowsOf(view, order, at)|;
    }
  }

  // ---- counting names ----

  /** How many names some directories have together. */
  ghost function NamesTotal(view: View, dirs: set<nat>): nat {
    if dirs == {} then 0
    else
      var d :| d in dirs;
      |view.NamesIn(d)| + NamesTotal(view, dirs - {d})
  }

  lemma {:induction false} TotalRemove(view: View, dirs: set<nat>, x: nat)
    requires x in dirs
    ensures NamesTotal(view, dirs) == |view.NamesIn(x)| + NamesTotal(view, dirs - {x})
    decreases dirs
  {
    var d :| d in dirs && NamesTotal(view, dirs) == |view.NamesIn(d)| + NamesTotal(view, dirs - {d});
    if d != x {
      TotalRemove(view, dirs - {d}, x);
      TotalRemove(view, dirs - {x}, d);
      assert dirs - {d} - {x} == dirs - {x} - {d};
    }
  }

  lemma {:induction false} TotalGrows(view: View, some: set<nat>, all: set<nat>)
    requires some <= all
    ensures NamesTotal(view, some) <= NamesTotal(view, all)
    decreases some
  {
    if some != {} {
      var d :| d in some;
      TotalRemove(view, some, d);
      TotalRemove(view, all, d);
      TotalGrows(view, some - {d}, all - {d});
    }
  }

  function SetOf(s: seq<nat>): set<nat> {
    set x | x in s
  }

  lemma {:induction false} RowsTotal(view: View, order: seq<nat>, n: nat)
    requires n <= |order| && Distinct(order)
    ensures |RowsOf(view, order, n)| == NamesTotal(view, SetOf(order[..n]))
  {
    if n == 0 {
      assert SetOf(order[..0]) == {};
    } else {
      RowsTotal(view, order, n - 1);
      var d := order[n - 1];
      assert order[..n] == order[..n - 1] + [d];
      assert d !in order[..n - 1];
      assert SetOf(order[..n]) - {d} == SetOf(order[..n - 1]);
      TotalRemove(view, SetOf(order[..n]), d);
    }
  }

  /** A plan has all directories' names. */
  /** Under a plan every directory's children, and nothing else, have name rows,
      each under its directory's number. */
  lemma RowsAreChildren(view: View, plan: Plan, i: nat, n: nat)
    requires view.Valid() && IsPlan(view, plan) && i < plan.dirs
    ensures plan.order[i] in view.children
    ensures NameRow(i, n) in RowsOf(view, plan.order, plan.dirs) <==> n in view.children[plan.order[i]]
  {
    hide RowsOf, Tree;
    var rows := RowsOf(view, plan.order, plan.dirs);
    assert plan.order[i] in view.dirs;
    if NameRow(i, n) in rows {
      var r: nat :| r < |rows| && rows[r] == NameRow(i, n);
      var p, k := RowWhere(view, plan.order, plan.dirs, r);
    }
    if n in view.children[plan.order[i]] {
      var k: nat :| k < |view.children[plan.order[i]]| && view.children[plan.order[i]][k] == n;
      RowAt(view, plan.order, plan.dirs, i, k);
    }
  }

  lemma PlanTotal(view: View, plan: Plan)
    requires IsPlan(view, plan)
    ensures view.nameCount == NamesTotal(view, view.dirs)
  {
    hide RowsOf, Named, FileNamed, OnlyName, NumberIs;
    RowsTotal(view, plan.order, plan.dirs);
    var first := plan.order[..plan.dirs];
    forall d
      ensures d in first <==> d in view.dirs
    {
      if d in view.dirs {
        var i := NumberOf(view, plan, d);
        assert first[i] == d;
      }
      if d in first {
        var i: nat :| i < |first| && first[i] == d;
        assert i < plan.dirs <==> plan.order[i] in view.dirs;
      }
    }
    assert SetOf(first) == view.dirs;
  }

  lemma RowsGrow(view: View, order: seq<nat>, at: nat)
    requires at < |order|
    ensures |RowsOf(view, order, at + 1)| == |RowsOf(view, order, at)| + |view.NamesIn(order[at])|
  {
  }

  lemma ManyNoPlan(view: View, order: seq<nat>, at: nat, k: nat, plan: Plan)
    requires view.Valid() && Distinct(order) && (forall id :: id in order ==> id in view.dirs)
    requires at < |order| && k < |view.NamesIn(order[at])| && |RowsOf(view, order, at)| + k + 1 >= 0x1_0000_0000
    ensures !IsPlan(view, plan)
  {
    hide IsPlan, RowsOf, NamesTotal, View.NameOk, View.NamesIn;
    RowsGrow(view, order, at);
    if IsPlan(view, plan) {
      PlanTotal(view, plan);
      RowsTotal(view, order, at + 1);
      assert forall x :: x in order[..at + 1] ==> x in order;
      TotalGrows(view, SetOf(order[..at + 1]), view.dirs);
    }
  }

  /** Whatever a plan has under a directory that was reached is reached. */
  lemma NamedReached(view: View, order: seq<nat>, files: seq<nat>, dirNames: seq<nat>, rows: seq<NameRow>, d: nat, k: nat)
    requires |order| == |dirNames| && rows == RowsOf(view, order, |order|)
    requires forall r: nat :: r < |rows| ==> Seen(view, order, files, dirNames, rows, r)
    requires d in order && k < |view.NamesIn(d)|
    ensures var n := view.NamesIn(d)[k];
      view.NameOk(n) && (view.names[n].target.Inode? ==>
        if view.names[n].target.id in view.dirs then view.names[n].target.id in order else view.names[n].target.id in files)
  {
    hide RowsOf;
    var p: nat :| p < |order| && order[p] == d;
    RowAt(view, order, |order|, p, k);
    assert Seen(view, order, files, dirNames, rows, |RowsOf(view, order, p)| + k);
  }

  lemma {:induction false} AllReached(view: View, order: seq<nat>, files: seq<nat>, dirNames: seq<nat>, rows: seq<NameRow>, plan: Plan, p: nat)
    requires view.Valid() && |view.roots| <= |order| == |dirNames| && rows == RowsOf(view, order, |order|)
    requires forall i: nat :: i < |view.roots| ==> order[i] == view.roots[i]
    requires forall r: nat :: r < |rows| ==> Seen(view, order, files, dirNames, rows, r)
    requires IsPlan(view, plan) && p < plan.dirs
    ensures plan.order[p] in order
  {
    hide RowsOf, View.Valid, Seen, Numbering, OnlyName, FileNamed;
    var all := RowsOf(view, plan.order, plan.dirs);
    assert Named(view, plan.order[..plan.dirs], plan.dirNames, all, p);
    if p < |view.roots| {
      assert order[p] == view.roots[p];
    } else {
      var q, k := RowWhere(view, plan.order, plan.dirs, plan.dirNames[p]);
      AllReached(view, order, files, dirNames, rows, plan, q);
      NamedReached(view, order, files, dirNames, rows, plan.order[q], k);
    }
  }

  lemma FilesReached(view: View, order: seq<nat>, files: seq<nat>, dirNames: seq<nat>, rows: seq<NameRow>, plan: Plan, id: nat)
    requires view.Valid() && |view.roots| <= |order| == |dirNames| && rows == RowsOf(view, order, |order|)
    requires forall i: nat :: i < |view.roots| ==> order[i] == view.roots[i]
    requires forall r: nat :: r < |rows| ==> Seen(view, order, files, dirNames, rows, r)
    requires IsPlan(view, plan) && id in view.files
    ensures id in files
  {
    hide RowsOf, Seen, OnlyName, Named;
    assert id in plan.order;
    var j: nat :| j < |plan.order| && plan.order[j] == id;
    assert j < plan.dirs <==> plan.order[j] in view.dirs;
    var all := RowsOf(view, plan.order, plan.dirs);
    assert FileNamed(view, all, id);
    var r: nat :| r < |all| && all[r].name in view.names && view.names[all[r].name].target == Inode(id);
    var q, k := RowWhere(view, plan.order, plan.dirs, r);
    AllReached(view, order, files, dirNames, rows, plan, q);
    NamedReached(view, order, files, dirNames, rows, plan.order[q], k);
  }

  lemma MissedNoPlan(view: View, order: seq<nat>, files: seq<nat>, remap: seq<nat>, dirNames: seq<nat>, rows: seq<NameRow>, plan: Plan)
    requires view.Valid() && Walk(view, order, files, remap, dirNames, rows) && rows == RowsOf(view, order, |order|)
    requires |order + files| != view.InodeCount() || |rows| != view.nameCount
    ensures !IsPlan(view, plan)
  {
    hide RowsOf, Seen, OnlyName, FileNamed, Numbered, Numbering, Tree;
    if IsPlan(view, plan) {
      forall i: nat | i < |view.roots|
        ensures order[i] == view.roots[i]
      {
        assert Named(view, order, dirNames, rows, i);
      }
      forall d | d in view.dirs
        ensures d in order
      {
        var p := NumberOf(view, plan, d);
        AllReached(view, order, files, dirNames, rows, plan, p);
      }
      forall f | f in view.files
        ensures f in files
      {
        FilesReached(view, order, files, dirNames, rows, plan, f);
      }
      PlanTotal(view, plan);
      Counted(view, order, files, rows);
    }
  }

  lemma Counted(view: View, order: seq<nat>, files: seq<nat>, rows: seq<NameRow>)
    requires view.Valid() && Distinct(order) && Distinct(files) && rows == RowsOf(view, order, |order|)
    requires (forall id :: id in order <==> id in view.dirs) && (forall id :: id in files <==> id in view.files)
    ensures |order + files| == view.InodeCount() && |rows| == NamesTotal(view, view.dirs)
  {
    hide RowsOf, NamesTotal;
    RowsTotal(view, order, |order|);
    assert order[..|order|] == order && SetOf(order) == view.dirs;
    ValidApart(view);
    SetSize(order, view.dirs);
    SetSize(files, view.files);
  }

  lemma {:induction false} SetSize(s: seq<nat>, all: set<nat>)
    requires Distinct(s) && forall x :: x in s <==> x in all
    ensures |s| == |all|
  {
    if s == [] {
      assert all == {};
    } else {
      var n := |s| - 1;
      assert s == s[..n] + [s[n]];
      SetSize(s[..n], all - {s[n]});
    }
  }
}
