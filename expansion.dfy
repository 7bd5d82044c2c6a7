/**
 * The expansion state of the org chart: a set of node ids (job title codes
 * as text) and the handlers that replace it — seeding when the data
 * changes, expand/collapse of one node, expand all, collapse all, focus on
 * an employee and the toggle behind the expand button. Each handler
 * returns the new set; the handlers that schedule a `fitView` also return
 * whether they did.
 */
module OrgChartExpansion {
  import opened JsRuntime
  import opened EmployeeModel

  // ---------------------------------------------------------------------
  // Seeding, single-node updates, collapse all, toggle
  // ---------------------------------------------------------------------

  /** The effect of new chart data on the set: the root alone is expanded
      when it is flagged both `firstNode` and `expanded`; otherwise the
      previous set stays as it is. */
  function Seed(data: Option<Employee>, prev: set<string>): (r: set<string>)
    ensures data.Some? && data.value.firstNode && data.value.expanded ==> r == {Id(data.value.jobTitleCode)}
    ensures !(data.Some? && data.value.firstNode && data.value.expanded) ==> r == prev
  {
    if data.Some? && data.value.firstNode && data.value.expanded
    then {Id(data.value.jobTitleCode)} else prev
  }

  /** The `expandNode` event: add the id. */
  function ExpandNode(prev: set<string>, nodeId: string): (r: set<string>)
    ensures nodeId in r
    ensures forall x :: x != nodeId ==> (x in r <==> x in prev)
  {
    prev + {nodeId}
  }

  /** The `collapseNode` event: remove the id, and nothing else. */
  function CollapseNode(prev: set<string>, nodeId: string): (r: set<string>)
    ensures nodeId !in r
    ensures forall x :: x != nodeId ==> (x in r <==> x in prev)
  {
    prev - {nodeId}
  }

  /** The `collapseAll` event: no node is expanded, so every tree shows
      its root alone. */
  function CollapseAll(): (r: set<string>)
    ensures forall nodeId :: nodeId !in r
    ensures forall root :: Visible(root, r) == {root.jobTitleCode}
  {
    {}
  }

  /** `toggleExpand(jobTitleCode)`: flip the membership of the code's id.
      The boolean is whether a `fitView` is scheduled, which happens only
      when the node opens. */
  function Toggle(prev: set<string>, jobTitleCode: int): (r: (set<string>, bool))
    ensures Id(jobTitleCode) in r.0 <==> Id(jobTitleCode) !in prev
    ensures forall x :: x != Id(jobTitleCode) ==> (x in r.0 <==> x in prev)
    ensures r.1 <==> Id(jobTitleCode) !in prev
  {
    var nodeId := Id(jobTitleCode);
    if nodeId in prev then (prev - {nodeId}, false) else (prev + {nodeId}, true)
  }

  /** Toggling the same node twice restores the set. */
  lemma ToggleTwice(prev: set<string>, jobTitleCode: int)
    ensures Toggle(Toggle(prev, jobTitleCode).0, jobTitleCode).0 == prev
  {
  }

  /** Expanding then collapsing a node leaves it closed and everything else as it was. */
  lemma CollapseUndoesExpand(prev: set<string>, nodeId: string)
    ensures CollapseNode(ExpandNode(prev, nodeId), nodeId) == prev - {nodeId}
  {
  }

  // ---------------------------------------------------------------------
  // Expand all
  // ---------------------------------------------------------------------

  /** `collectIds`: add the id of `e` and of everything below it to `ids`. */
  method CollectIds(e: Employee, ids: set<string>) returns (r: set<string>)
    ensures r == ids + AllIds(e)
    decreases e
  {
    r := ids + {Id(e.jobTitleCode)};
    var cs := e.children;
    for i := 0 to |cs|
      invariant r == ids + {Id(e.jobTitleCode)} + (set c | c in ForestCodes(cs[..i]) :: Id(c))
    {
      assert cs[..i + 1][..i] == cs[..i];
      assert ForestCodes(cs[..i + 1]) == ForestCodes(cs[..i]) + Codes(cs[i]);
      r := CollectIds(cs[i], r);
    }
    assert cs[..|cs|] == cs;
  }

  /** The `expandAll` event: every id in the tree, or nothing without data. */
  method ExpandAll(data: Option<Employee>) returns (ids: set<string>)
    ensures data.None? ==> ids == {}
    ensures data.Some? ==> ids == AllIds(data.value)
  {
    ids := {};
    if data.Some? {
      ids := CollectIds(data.value, ids);
    }
  }

  // ---------------------------------------------------------------------
  // What the bulk operations make visible
  // ---------------------------------------------------------------------

  /** After expand all, the layout reaches every code in the tree. */
  lemma {:induction false} ExpandAllShowsEverything(e: Employee, expanded: set<string>)
    requires AllIds(e) <= expanded
    ensures Visible(e, expanded) == set c | c in Codes(e)
    decreases e, 1
  {
    assert Id(e.jobTitleCode) in AllIds(e);
    ForestExpandedShowsEverything(e.children, expanded);
  }

  lemma {:induction false} ForestExpandedShowsEverything(cs: seq<Employee>, expanded: set<string>)
    requires forall c :: c in ForestCodes(cs) ==> Id(c) in expanded
    ensures ForestVisible(cs, expanded) == set c | c in ForestCodes(cs)
    decreases cs, 0
  {
    if cs != [] {
      var last := cs[|cs| - 1];
      ForestExpandedShowsEverything(cs[..|cs| - 1], expanded);
      assert AllIds(last) <= expanded by {
        forall x | x in AllIds(last) ensures x in expanded {
          var c :| c in Codes(last) && x == Id(c);
          assert c in ForestCodes(cs);
        }
      }
      ExpandAllShowsEverything(last, expanded);
    }
  }

  /** A child's code is among the preorder codes of its siblings' forest. */
  lemma ChildCodeInForest(cs: seq<Employee>, k: nat)
    requires k < |cs|
    ensures cs[k].jobTitleCode in ForestCodes(cs)
  {
    assert cs == cs[..k] + ([cs[k]] + cs[k + 1..]);
    ForestCodesAppend(cs[..k], [cs[k]] + cs[k + 1..]);
    ForestCodesCons(cs[k], cs[k + 1..]);
  }

  /** A forest none of whose roots is expanded shows just those roots. */
  lemma {:induction false} ForestVisibleRootsOnly(cs: seq<Employee>, expanded: set<string>)
    requires forall k :: 0 <= k < |cs| ==> Id(cs[k].jobTitleCode) !in expanded
    ensures ForestVisible(cs, expanded) == set k | 0 <= k < |cs| :: cs[k].jobTitleCode
    decreases cs
  {
    if cs != [] {
      var init := cs[..|cs| - 1];
      ForestVisibleRootsOnly(init, expanded);
      assert (set k | 0 <= k < |cs| :: cs[k].jobTitleCode)
          == (set k | 0 <= k < |init| :: init[k].jobTitleCode) + {cs[|cs| - 1].jobTitleCode};
    }
  }

  /** Seeding a `firstNode`/`expanded` root shows the root and its direct
      reports, provided no report shares the root's code. */
  lemma SeedShowsFirstLevel(root: Employee, prev: set<string>)
    requires root.firstNode && root.expanded
    requires UniqueCodes(root)
    ensures Visible(root, Seed(Some(root), prev))
         == {root.jobTitleCode} + set k | 0 <= k < |root.children| :: root.children[k].jobTitleCode
  {
    var s := Seed(Some(root), prev);
    var cs := root.children;
    DistinctSplit([root.jobTitleCode], ForestCodes(cs));
    forall k | 0 <= k < |cs| ensures Id(cs[k].jobTitleCode) !in s {
      ChildCodeInForest(cs, k);
      IdInjective(cs[k].jobTitleCode, root.jobTitleCode);
    }
    ForestVisibleRootsOnly(cs, s);
  }

  // ---------------------------------------------------------------------
  // Focus on an employee
  // ---------------------------------------------------------------------

  /** `expandPath`: the ids from `e` down to the first employee (in
      preorder) whose code is `targetCode`, appended to `path`. */
  function ExpandPath(e: Employee, targetCode: int, path: seq<string>): Option<seq<string>>
    decreases e
  {
    var currentPath := path + [Id(e.jobTitleCode)];
    if e.jobTitleCode == targetCode then Some(currentPath)
    else SearchChildren(e.children, targetCode, currentPath)
  }

  /** The `for (const child of emp.children)` loop of `expandPath`: the
      first child whose subtree yields a path. */
  function SearchChildren(cs: seq<Employee>, targetCode: int, path: seq<string>): Option<seq<string>>
    decreases cs
  {
    if cs == [] then None
    else match ExpandPath(cs[0], targetCode, path)
      case Some(result) => Some(result)
      case None => SearchChildren(cs[1..], targetCode, path)
  }

  /** The `focusOnEmployee` event: when the code is found, the set becomes
      exactly the ids on the path and a `fitView` is scheduled; otherwise
      nothing changes. */
  function Focus(data: Option<Employee>, targetCode: int, prev: set<string>): (r: (set<string>, bool))
    ensures !r.1 ==> r.0 == prev
    ensures data.Some? && data.value.jobTitleCode == targetCode ==> r == ({Id(targetCode)}, true)
  {
    if data.None? then (prev, false)
    else match ExpandPath(data.value, targetCode, [])
      case None => (prev, false)
      case Some(pathToEmployee) =>
        assert data.value.jobTitleCode == targetCode ==>
          pathToEmployee == [Id(targetCode)] && (set x | x in pathToEmployee) == {Id(targetCode)};
        (set x | x in pathToEmployee, true)
  }

  // The reference the search is proved against: every root-to-node path of
  // the tree, listed in preorder of its last node.

  function Paths(e: Employee): seq<seq<int>>
    decreases e
  {
    [[e.jobTitleCode]] + Under(e.jobTitleCode, ForestPaths(e.children))
  }

  function ForestPaths(cs: seq<Employee>): seq<seq<int>>
    decreases cs
  {
    if cs == [] then [] else Paths(cs[0]) + ForestPaths(cs[1..])
  }

  /** Every path with `c` put in front. */
  function Under(c: int, ps: seq<seq<int>>): (r: seq<seq<int>>)
    ensures |r| == |ps|
    ensures forall i :: 0 <= i < |ps| ==> r[i] == [c] + ps[i]
  {
    seq(|ps|, i requires 0 <= i < |ps| => [c] + ps[i])
  }

  predicate EndsIn(p: seq<int>, t: int) {
    |p| > 0 && p[|p| - 1] == t
  }

  /** The first path in the list that ends in `t`. */
  function FirstEnding(ps: seq<seq<int>>, t: int): (r: Option<seq<int>>)
    ensures r.None? <==> forall i :: 0 <= i < |ps| ==> !EndsIn(ps[i], t)
    ensures r.Some? ==> r.value in ps && EndsIn(r.value, t)
  {
    if ps == [] then None
    else if EndsIn(ps[0], t) then Some(ps[0])
    else
      var r := FirstEnding(ps[1..], t);
      assert r.None? ==> forall i :: 0 <= i < |ps| ==> !EndsIn(ps[i], t) by {
        if r.None? {
          forall i | 1 <= i < |ps| ensures !EndsIn(ps[i], t) {
            assert ps[i] == ps[1..][i - 1];
          }
        }
      }
      r
  }

  /** No path before the one `FirstEnding` picks ends in `t`. */
  lemma {:induction false} FirstEndingIsFirst(ps: seq<seq<int>>, t: int)
    requires FirstEnding(ps, t).Some?
    ensures exists i :: 0 <= i < |ps| && ps[i] == FirstEnding(ps, t).value
                        && forall j :: 0 <= j < i ==> !EndsIn(ps[j], t)
    decreases |ps|
  {
    if !EndsIn(ps[0], t) {
      FirstEndingIsFirst(ps[1..], t);
      var i :| 0 <= i < |ps[1..]| && ps[1..][i] == FirstEnding(ps, t).value
               && forall j :: 0 <= j < i ==> !EndsIn(ps[1..][j], t);
      forall j | 0 <= j < i + 1 ensures !EndsIn(ps[j], t) {
        if j > 0 { assert ps[j] == ps[1..][j - 1]; }
      }
      assert ps[i + 1] == FirstEnding(ps, t).value;
    } else {
      assert ps[0] == FirstEnding(ps, t).value;
    }
  }

  lemma FirstEndingAppend(a: seq<seq<int>>, b: seq<seq<int>>, t: int)
    ensures FirstEnding(a + b, t) == if FirstEnding(a, t).Some? then FirstEnding(a, t) else FirstEnding(b, t)
    decreases |a|
  {
    if a != [] {
      assert (a + b)[0] == a[0];
      assert (a + b)[1..] == a[1..] + b;
      FirstEndingAppend(a[1..], b, t);
    } else {
      assert a + b == b;
    }
  }

  /** Putting `c` in front of non-empty paths does not change which one ends in `t` first. */
  lemma {:induction false} FirstEndingUnder(c: int, ps: seq<seq<int>>, t: int)
    requires forall i :: 0 <= i < |ps| ==> |ps[i]| > 0
    ensures FirstEnding(Under(c, ps), t)
         == if FirstEnding(ps, t).Some? then Some([c] + FirstEnding(ps, t).value) else None
    decreases |ps|
  {
    if ps != [] {
      var u := Under(c, ps);
      assert u[0] == [c] + ps[0];
      assert EndsIn(u[0], t) <==> EndsIn(ps[0], t);
      if !EndsIn(ps[0], t) {
        assert u[1..] == Under(c, ps[1..]);
        FirstEndingUnder(c, ps[1..], t);
      }
    }
  }

  lemma {:induction false} PathsNonEmpty(e: Employee)
    ensures forall i :: 0 <= i < |Paths(e)| ==> |Paths(e)[i]| > 0
    decreases e, 1
  {
    ForestPathsNonEmpty(e.children);
  }

  lemma {:induction false} ForestPathsNonEmpty(cs: seq<Employee>)
    ensures forall i :: 0 <= i < |ForestPaths(cs)| ==> |ForestPaths(cs)[i]| > 0
    decreases cs, 0
  {
    if cs != [] {
      PathsNonEmpty(cs[0]);
      ForestPathsNonEmpty(cs[1..]);
      var a, b := Paths(cs[0]), ForestPaths(cs[1..]);
      forall i | 0 <= i < |a + b| ensures |(a + b)[i]| > 0 {
        if i >= |a| { assert (a + b)[i] == b[i - |a|]; }
      }
    }
  }

  /** The ids of the codes on a path, in order. */
  function PathIds(p: seq<int>): (r: seq<string>)
    ensures |r| == |p|
    ensures forall i :: 0 <= i < |p| ==> r[i] == Id(p[i])
  {
    seq(|p|, i requires 0 <= i < |p| => Id(p[i]))
  }

  /** `path` followed by the ids of the found path, if any. */
  function Extend(path: seq<string>, found: Option<seq<int>>): Option<seq<string>> {
    if found.None? then None else Some(path + PathIds(found.value))
  }

  /** `expandPath` returns the ids of the first root-to-node path, in
      preorder, that ends at the target code. */
  lemma {:induction false} ExpandPathIsFirstPath(e: Employee, targetCode: int, path: seq<string>)
    ensures ExpandPath(e, targetCode, path) == Extend(path, FirstEnding(Paths(e), targetCode))
    decreases e, 1
  {
    var c := e.jobTitleCode;
    if c == targetCode {
      ExpandPathHere(e, targetCode, path);
    } else {
      SearchChildrenIsFirstPath(e.children, targetCode, path + [Id(c)]);
      ExpandPathBelow(e, targetCode, path);
    }
  }

  /** The target itself: the path ends here. */
  lemma ExpandPathHere(e: Employee, targetCode: int, path: seq<string>)
    requires e.jobTitleCode == targetCode
    ensures ExpandPath(e, targetCode, path) == Extend(path, FirstEnding(Paths(e), targetCode))
  {
    assert EndsIn(Paths(e)[0], targetCode);
    assert PathIds([targetCode]) == [Id(targetCode)];
  }

  /** Not the target: the path is this id followed by the first path found below. */
  lemma ExpandPathBelow(e: Employee, targetCode: int, path: seq<string>)
    requires e.jobTitleCode != targetCode
    requires var below := path + [Id(e.jobTitleCode)];
      SearchChildren(e.children, targetCode, below)
      == Extend(below, FirstEnding(ForestPaths(e.children), targetCode))
    ensures ExpandPath(e, targetCode, path) == Extend(path, FirstEnding(Paths(e), targetCode))
  {
    var c := e.jobTitleCode;
    var found := FirstEnding(ForestPaths(e.children), targetCode);
    FirstPathBelow(e, targetCode);
    if found.Some? {
      PathIdsCons(c, found.value);
      assert path + PathIds([c] + found.value) == (path + [Id(c)]) + PathIds(found.value);
    }
  }

  lemma PathIdsCons(c: int, p: seq<int>)
    ensures PathIds([c] + p) == [Id(c)] + PathIds(p)
  {
  }

  /** When `e` itself is not the target, the first path to it runs through the children. */
  lemma FirstPathBelow(e: Employee, targetCode: int)
    requires e.jobTitleCode != targetCode
    ensures var found := FirstEnding(ForestPaths(e.children), targetCode);
            FirstEnding(Paths(e), targetCode)
            == if found.Some? then Some([e.jobTitleCode] + found.value) else None
  {
    var c := e.jobTitleCode;
    var fp := ForestPaths(e.children);
    var ps := Paths(e);
    assert !EndsIn(ps[0], targetCode);
    assert ps[1..] == Under(c, fp);
    ForestPathsNonEmpty(e.children);
    FirstEndingUnder(c, fp, targetCode);
  }

  lemma {:induction false} SearchChildrenIsFirstPath(cs: seq<Employee>, targetCode: int, path: seq<string>)
    ensures SearchChildren(cs, targetCode, path) == Extend(path, FirstEnding(ForestPaths(cs), targetCode))
    decreases cs, 0
  {
    if cs != [] {
      ExpandPathIsFirstPath(cs[0], targetCode, path);
      SearchChildrenIsFirstPath(cs[1..], targetCode, path);
      FirstEndingAppend(Paths(cs[0]), ForestPaths(cs[1..]), targetCode);
    }
  }

  /** `p` is a chain of codes from `e` down through the children. */
  ghost predicate IsChain(e: Employee, p: seq<int>)
    decreases e
  {
    |p| >= 1 && p[0] == e.jobTitleCode
    && (|p| == 1 || exists k :: 0 <= k < |e.children| && IsChain(e.children[k], p[1..]))
  }

  lemma {:induction false} PathsAreChains(e: Employee)
    ensures forall i :: 0 <= i < |Paths(e)| ==> IsChain(e, Paths(e)[i])
    decreases e, 1
  {
    var fp := ForestPaths(e.children);
    ForestPathsAreChains(e.children);
    forall i | 0 <= i < |Paths(e)| ensures IsChain(e, Paths(e)[i]) {
      if i > 0 {
        var q := fp[i - 1];
        assert Paths(e)[i] == [e.jobTitleCode] + q;
        assert ([e.jobTitleCode] + q)[1..] == q;
      }
    }
  }

  lemma {:induction false} ForestPathsAreChains(cs: seq<Employee>)
    ensures forall i :: 0 <= i < |ForestPaths(cs)| ==>
              exists k :: 0 <= k < |cs| && IsChain(cs[k], ForestPaths(cs)[i])
    decreases cs, 0
  {
    if cs != [] {
      PathsAreChains(cs[0]);
      ForestPathsAreChains(cs[1..]);
      var a, b := Paths(cs[0]), ForestPaths(cs[1..]);
      var fp := ForestPaths(cs);
      assert fp == a + b;
      forall i | 0 <= i < |fp| ensures exists k :: 0 <= k < |cs| && IsChain(cs[k], fp[i]) {
        if i < |a| {
          assert fp[i] == a[i];
          assert IsChain(cs[0], fp[i]);
        } else {
          assert fp[i] == b[i - |a|];
          var k :| 0 <= k < |cs[1..]| && IsChain(cs[1..][k], b[i - |a|]);
          assert cs[1..][k] == cs[k + 1];
          assert IsChain(cs[k + 1], fp[i]);
        }
      }
    } else {
      assert ForestPaths(cs) == [];
    }
  }

  /** The last codes of the paths, in order, are the preorder codes. */
  lemma {:induction false} PathEndsAreCodes(e: Employee)
    ensures |Paths(e)| == |Codes(e)|
    ensures forall i :: 0 <= i < |Codes(e)| ==> EndsIn(Paths(e)[i], Codes(e)[i])
    decreases e, 1
  {
    ForestPathEndsAreCodes(e.children);
    var fp := ForestPaths(e.children);
    forall i | 0 < i < |Codes(e)| ensures EndsIn(Paths(e)[i], Codes(e)[i]) {
      assert Paths(e)[i] == [e.jobTitleCode] + fp[i - 1];
      assert Codes(e)[i] == ForestCodes(e.children)[i - 1];
    }
  }

  lemma {:induction false} ForestPathEndsAreCodes(cs: seq<Employee>)
    ensures |ForestPaths(cs)| == |ForestCodes(cs)|
    ensures forall i :: 0 <= i < |ForestCodes(cs)| ==> EndsIn(ForestPaths(cs)[i], ForestCodes(cs)[i])
    decreases cs, 0
  {
    if cs != [] {
      PathEndsAreCodes(cs[0]);
      ForestPathEndsAreCodes(cs[1..]);
      ForestCodesCons(cs[0], cs[1..]);
      assert cs == [cs[0]] + cs[1..];
      var a, b := Paths(cs[0]), ForestPaths(cs[1..]);
      var ca, cb := Codes(cs[0]), ForestCodes(cs[1..]);
      forall i | 0 <= i < |ca + cb| ensures EndsIn((a + b)[i], (ca + cb)[i]) {
        if i >= |a| {
          assert (a + b)[i] == b[i - |a|] && (ca + cb)[i] == cb[i - |a|];
        }
      }
    }
  }

  /** What focus does. When the code occurs in the tree, the set becomes
      exactly the ids of a chain from the root to that code (the first such
      node in preorder) and a `fitView` is scheduled; when it does not, or
      there is no data, the set is unchanged and nothing is scheduled. */
  lemma FocusResult(data: Option<Employee>, targetCode: int, prev: set<string>)
    ensures data.None? || targetCode !in Codes(data.value) ==> Focus(data, targetCode, prev) == (prev, false)
    ensures data.Some? && targetCode in Codes(data.value) ==>
              FirstEnding(Paths(data.value), targetCode).Some? &&
              var p := FirstEnding(Paths(data.value), targetCode).value;
              && IsChain(data.value, p)
              && EndsIn(p, targetCode)
              && Focus(data, targetCode, prev) == (set c | c in p :: Id(c), true)
  {
    if data.Some? {
      if targetCode in Codes(data.value) {
        FocusFound(data.value, targetCode, prev);
      } else {
        FocusMissing(data.value, targetCode, prev);
      }
    }
  }

  lemma FocusFound(root: Employee, targetCode: int, prev: set<string>)
    requires targetCode in Codes(root)
    ensures FirstEnding(Paths(root), targetCode).Some?
    ensures var p := FirstEnding(Paths(root), targetCode).value;
            && IsChain(root, p)
            && EndsIn(p, targetCode)
            && Focus(Some(root), targetCode, prev) == (set c | c in p :: Id(c), true)
  {
    FirstPathIsChain(root, targetCode);
    ExpandPathFound(root, targetCode);
    FocusOfPath(root, targetCode, prev, FirstEnding(Paths(root), targetCode).value);
  }

  lemma ExpandPathFound(root: Employee, targetCode: int)
    requires FirstEnding(Paths(root), targetCode).Some?
    ensures ExpandPath(root, targetCode, []) == Some(PathIds(FirstEnding(Paths(root), targetCode).value))
  {
    ExpandPathIsFirstPath(root, targetCode, []);
    assert [] + PathIds(FirstEnding(Paths(root), targetCode).value) == PathIds(FirstEnding(Paths(root), targetCode).value);
  }

  lemma FocusOfPath(root: Employee, targetCode: int, prev: set<string>, p: seq<int>)
    requires ExpandPath(root, targetCode, []) == Some(PathIds(p))
    ensures Focus(Some(root), targetCode, prev) == (set c | c in p :: Id(c), true)
  {
    PathIdSet(p);
  }

  /** A code of the tree ends some path, and the first such path is a chain. */
  lemma FirstPathIsChain(root: Employee, targetCode: int)
    requires targetCode in Codes(root)
    ensures FirstEnding(Paths(root), targetCode).Some?
    ensures IsChain(root, FirstEnding(Paths(root), targetCode).value)
  {
    PathEndsAreCodes(root);
    var i :| 0 <= i < |Codes(root)| && Codes(root)[i] == targetCode;
    assert EndsIn(Paths(root)[i], targetCode);
    var p := FirstEnding(Paths(root), targetCode).value;
    PathsAreChains(root);
    var j :| 0 <= j < |Paths(root)| && Paths(root)[j] == p;
    assert IsChain(root, Paths(root)[j]);
  }

  lemma FocusMissing(root: Employee, targetCode: int, prev: set<string>)
    requires targetCode !in Codes(root)
    ensures Focus(Some(root), targetCode, prev) == (prev, false)
  {
    PathEndsAreCodes(root);
    forall i | 0 <= i < |Paths(root)| ensures !EndsIn(Paths(root)[i], targetCode) {
      assert EndsIn(Paths(root)[i], Codes(root)[i]);
      assert Codes(root)[i] in Codes(root);
    }
    assert FirstEnding(Paths(root), targetCode).None?;
    ExpandPathIsFirstPath(root, targetCode, []);
    assert ExpandPath(root, targetCode, []).None?;
  }

  lemma PathIdSet(p: seq<int>)
    ensures (set x | x in PathIds(p)) == (set c | c in p :: Id(c))
  {
    forall x | x in PathIds(p) ensures x in (set c | c in p :: Id(c)) {
      var j :| 0 <= j < |p| && PathIds(p)[j] == x;
      assert p[j] in p;
    }
    forall c | c in p ensures Id(c) in PathIds(p) {
      var j :| 0 <= j < |p| && p[j] == c;
      assert PathIds(p)[j] == Id(c);
    }
  }
}
