/**
 * What the expansion handlers and the layout give together: the node
 * counts the chart shows after "expand all" and after "collapse all".
 */
module OrgChartProperties {
  import opened JsRuntime
  import opened EmployeeModel
  import opened OrgChartExpansion
  import opened OrgChartLayout

  /** After expand all, a tree with unique codes is drawn in full: one node
      per employee. */
  lemma ExpandAllThenLayout(root: Employee)
    requires UniqueCodes(root)
    ensures var r := Layout(Some(root), AllIds(root));
      && NodeCodes(r.nodes) == (set c | c in Codes(root))
      && |r.nodes| == |Codes(root)|
  {
    var r := Layout(Some(root), AllIds(root));
    LayoutShowsVisible(root, AllIds(root));
    ExpandAllShowsEverything(root, AllIds(root));
    LayoutInv(Some(root), AllIds(root));
    NodeCodesCard(r.nodes);
    DistinctCard(Codes(root));
  }

  /** After collapse all, the root is drawn alone, without edges. */
  lemma CollapseAllThenLayout(root: Employee)
    ensures var r := Layout(Some(root), CollapseAll());
      && |r.nodes| == 1 && r.nodes[0].employee == root && r.edges == []
  {
    LayoutCollapsedRoot(root, CollapseAll());
    LayoutRoot(root, CollapseAll());
  }
}
