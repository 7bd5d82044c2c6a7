/**
 * The `Employee` record and the views of an employee tree that the chart's
 * state handlers and layout are specified against: the codes in preorder,
 * the node ids, and the codes a given expansion set makes visible.
 */
module EmployeeModel {
  import opened JsRuntime

  /** One employee and the people reporting to them. An absent `children`
      list is the empty sequence: the chart treats the two alike. An absent
      `firstNode` flag is `false`. */
  datatype Employee = Employee(
    name: string,
    position: string,
    jobTitleCode: int,
    level: string,
    expanded: bool,
    firstNode: bool,
    children: seq<Employee>)

  /** The node id of a code: `jobTitleCode.toString()`. */
  function Id(code: int): string {
    IntToString(code)
  }

  lemma IdInjective(a: int, b: int)
    ensures Id(a) == Id(b) <==> a == b
  {
    IntToStringInjective(a, b);
  }

  // ---------------------------------------------------------------------
  // All codes of a tree, in preorder
  // ---------------------------------------------------------------------

  function Codes(e: Employee): (s: seq<int>)
    ensures |s| >= 1 && s[0] == e.jobTitleCode
    decreases e
  {
    [e.jobTitleCode] + ForestCodes(e.children)
  }

  function ForestCodes(cs: seq<Employee>): seq<int>
    decreases cs
  {
    if cs == [] then [] else ForestCodes(cs[..|cs| - 1]) + Codes(cs[|cs| - 1])
  }

  lemma {:induction false} ForestCodesAppend(a: seq<Employee>, b: seq<Employee>)
    ensures ForestCodes(a + b) == ForestCodes(a) + ForestCodes(b)
    decreases |b|
  {
    if b == [] {
      assert a + b == a;
    } else {
      var b' := b[..|b| - 1];
      assert (a + b)[..|a + b| - 1] == a + b';
      assert (a + b)[|a + b| - 1] == b[|b| - 1];
      ForestCodesAppend(a, b');
    }
  }

  lemma ForestCodesCons(c: Employee, cs: seq<Employee>)
    ensures ForestCodes([c] + cs) == Codes(c) + ForestCodes(cs)
  {
    ForestCodesAppend([c], cs);
    assert [c][..0] == [];
  }

  /** The ids of every employee in the tree, leaves included. */
  function AllIds(e: Employee): set<string> {
    set c | c in Codes(e) :: Id(c)
  }

  /** No code occurs twice in the sequence. */
  ghost predicate Distinct(s: seq<int>) {
    forall i, j :: 0 <= i < j < |s| ==> s[i] != s[j]
  }

  /** A tree whose job title codes are pairwise different. */
  ghost predicate UniqueCodes(e: Employee) {
    Distinct(Codes(e))
  }

  /** A sequence without repeats has as many distinct elements as entries. */
  lemma {:induction false} DistinctCard(s: seq<int>)
    requires Distinct(s)
    ensures |set c | c in s| == |s|
    decreases |s|
  {
    if s != [] {
      var init := s[..|s| - 1];
      assert Distinct(init) by {
        forall i, j | 0 <= i < j < |init| ensures init[i] != init[j] {
          assert init[i] == s[i] && init[j] == s[j];
        }
      }
      DistinctCard(init);
      assert (set c | c in s) == (set c | c in init) + {s[|s| - 1]};
      forall i | 0 <= i < |init| ensures init[i] != s[|s| - 1] {
        assert init[i] == s[i];
      }
    }
  }

  lemma DistinctSplit(a: seq<int>, b: seq<int>)
    requires Distinct(a + b)
    ensures Distinct(a) && Distinct(b)
    ensures forall x :: x in a ==> x !in b
  {
    forall i, j | 0 <= i < j < |a| ensures a[i] != a[j] {
      assert a[i] == (a + b)[i] && a[j] == (a + b)[j];
    }
    forall i, j | 0 <= i < j < |b| ensures b[i] != b[j] {
      assert b[i] == (a + b)[|a| + i] && b[j] == (a + b)[|a| + j];
    }
    forall i, j | 0 <= i < |a| && 0 <= j < |b| ensures a[i] != b[j] {
      assert a[i] == (a + b)[i] && b[j] == (a + b)[|a| + j];
    }
  }

  // ---------------------------------------------------------------------
  // What an expansion set makes visible
  // ---------------------------------------------------------------------

  /** The codes the layout reaches from `e`: `e` itself and, when `e` has
      children and its id is expanded, everything visible below them. */
  function Visible(e: Employee, expanded: set<string>): set<int>
    decreases e
  {
    {e.jobTitleCode} +
      if |e.children| > 0 && Id(e.jobTitleCode) in expanded
      then ForestVisible(e.children, expanded) else {}
  }

  function ForestVisible(cs: seq<Employee>, expanded: set<string>): set<int>
    decreases cs
  {
    if cs == [] then {}
    else ForestVisible(cs[..|cs| - 1], expanded) + Visible(cs[|cs| - 1], expanded)
  }

  lemma {:induction false} VisibleWithinTree(e: Employee, expanded: set<string>)
    ensures forall c :: c in Visible(e, expanded) ==> c in Codes(e)
    decreases e, 1
  {
    ForestVisibleWithinTree(e.children, expanded);
  }

  lemma {:induction false} ForestVisibleWithinTree(cs: seq<Employee>, expanded: set<string>)
    ensures forall c :: c in ForestVisible(cs, expanded) ==> c in ForestCodes(cs)
    decreases cs, 0
  {
    if cs != [] {
      ForestVisibleWithinTree(cs[..|cs| - 1], expanded);
      VisibleWithinTree(cs[|cs| - 1], expanded);
    }
  }

  lemma {:induction false} ForestVisibleAppend(a: seq<Employee>, b: seq<Employee>, expanded: set<string>)
    ensures ForestVisible(a + b, expanded) == ForestVisible(a, expanded) + ForestVisible(b, expanded)
    decreases |b|
  {
    if b == [] {
      assert a + b == a;
    } else {
      assert (a + b)[..|a + b| - 1] == a + b[..|b| - 1];
      ForestVisibleAppend(a, b[..|b| - 1], expanded);
    }
  }

  lemma ForestVisibleCons(c: Employee, cs: seq<Employee>, expanded: set<string>)
    ensures ForestVisible([c] + cs, expanded) == Visible(c, expanded) + ForestVisible(cs, expanded)
  {
    ForestVisibleAppend([c], cs, expanded);
    assert [c][..0] == [];
  }
}
