# Org chart layout and expansion, in Dafny

This project models the core of a React org-chart viewer. The viewer draws a tree of employees as a node-and-edge diagram. Each employee has a name, position, job title code, level and children. A set of expanded node ids decides which subtrees are drawn.

The model covers:

- the expansion handlers of `OrgChart.tsx`: seeding from new data, expand or collapse one node, expand all, collapse all, focus on an employee, and the toggle behind a card's button;
- the layout engine of `OrgChart.tsx`: the `useMemo` builder with `isSpaceOccupied`, `reserveSpace`, `findBestPosition` and the recursive `processEmployee`. It walks the tree depth first and gives each visible employee a node at a free spot of a per-level occupancy grid. It also gives each expanded parent an edge to each of its children;
- the pure helpers of `orgChartUtils.ts`: search, normalising chart data to a forest, and colour lookups;
- the helpers of `EmployeeNode.tsx`: the 32-bit `String.prototype.hashCode`, the card's colour seed, the text a card displays, and the expand button's click handler.

Modules (one file each):

- `JsRuntime` (`js_runtime.dfy`): the JavaScript semantics the code relies on. This covers truthiness, `toString` of integers, `ToInt32`, the truncating `%`, UTF-16 code units, `toLowerCase` on ASCII, `includes` and `trim`.
- `EmployeeModel` (`employee.dfy`): the `Employee` record, node ids, codes in preorder, and the codes an expansion set makes visible.
- `OrgChartExpansion` (`expansion.dfy`): the expansion handlers.
- `OrgChartLayout` (`layout.dfy`): the layout engine.
  - `Walk` states `processEmployee` as a function on a value state.
  - The `LayoutBuilder` class holds the builder's mutable state. Its methods are the source's closures, each proved to take the state to the value `Walk` gives.
- `OrgChartUtils` (`org_chart_utils.dfy`) and `EmployeeNode` (`employee_node.dfy`): the helpers.
- `OrgChartProperties` (`chart_properties.dfy`): what "expand all" and "collapse all" mean for the drawn chart.

Behaviours of the code worth knowing:

- New chart data keeps the previous expansion set unless the root is flagged both `firstNode` and `expanded`.
- A `fitView` is scheduled only when a toggle opens a node and when a focus succeeds.
- A card without a code or id and without a string name gets seed 0.
- `getLevelColor` looks the level up in a plain object literal, so a level named after an `Object.prototype` member (such as `constructor` or `toString`) finds that inherited member instead of the gray fallback.
- The layout never refuses to place a node. When all 401 candidate spots of a level are taken, the node goes to its preferred point even though that spot is occupied. `LayoutSpacing` states overlap-freedom only for nodes placed on a free spot.

## Model

| member | source | states |
|---|---|---|
| JsRuntime.IntToString | src/components/OrgChart.tsx:91 | The decimal text is never empty and starts with a minus sign exactly for negative numbers |
| JsRuntime.IntToStringDigits | src/components/OrgChart.tsx:91 | Every character after the optional minus sign is a digit |
| JsRuntime.IntToStringInjective | src/components/OrgChart.tsx:310 | Two codes have the same decimal text, and so the same node id, exactly when they are equal |
| JsRuntime.ToInt32 | src/components/EmployeeNode.tsx:183-184 | The result is a 32-bit signed integer congruent to the input modulo 2^32 |
| JsRuntime.ToInt32Congruent | src/components/EmployeeNode.tsx:183-184 | Inputs congruent modulo 2^32 convert to the same 32-bit value |
| JsRuntime.ToInt32OfInt32 | src/components/EmployeeNode.tsx:184 | A 32-bit value is unchanged by the conversion, so `hash & hash` keeps an in-range hash |
| JsRuntime.JsRem | src/components/OrgChart.tsx:36 | The remainder takes the dividend's sign: it is in [0, b) for a non-negative dividend and in (-b, 0] for a negative one |
| JsRuntime.JsRemTruncates | src/components/OrgChart.tsx:36 | The dividend is the divisor times the quotient truncated toward zero, plus the remainder; with the range above this fixes the value |
| JsRuntime.CharUnits | src/components/EmployeeNode.tsx:182 | A character below U+10000 is one code unit equal to its code point; any other is a high surrogate followed by a low surrogate that decode back to the code point |
| JsRuntime.CodeUnits | src/components/EmployeeNode.tsx:181-182 | `charCodeAt` sees at least one unit per character, each below 2^16; a string without characters above U+FFFF gives exactly its code points, in order |
| JsRuntime.IsBlank | src/utils/orgChartUtils.ts:7 | `trim()` leaves nothing exactly when every character is JavaScript whitespace |
| JsRuntime.Includes | src/utils/orgChartUtils.ts:10-13 | The empty term is included in every string; an included term is no longer than the string |
| JsRuntime.IncludesOccurrence | src/utils/orgChartUtils.ts:10-13 | `includes` holds exactly when the term occurs as a block at some index |
| JsRuntime.Lower | src/utils/orgChartUtils.ts:8-12 | Lower-casing keeps the length and maps each character by itself |
| EmployeeModel.IdInjective | src/components/OrgChart.tsx:310 | Node ids are equal exactly when the codes are |
| EmployeeModel.DistinctCard | src/components/OrgChart.tsx:171 | A list of codes without repeats has as many distinct codes as entries |
| EmployeeModel.VisibleWithinTree | src/components/OrgChart.tsx:325-358 | Every code the layout can reach under an expansion set is a code of the tree |
| OrgChartExpansion.Seed | src/components/OrgChart.tsx:44-50 | New data flagged both `firstNode` and `expanded` sets the expansion set to the root's id alone; any other data leaves the set unchanged |
| OrgChartExpansion.SeedShowsFirstLevel | src/components/OrgChart.tsx:44-50 | After seeding, a tree with unique codes shows exactly the root and its direct reports |
| OrgChartExpansion.ExpandNode | src/components/OrgChart.tsx:54-57 | The id is added and every other id keeps its membership |
| OrgChartExpansion.CollapseNode | src/components/OrgChart.tsx:59-66 | The id is removed and every other id keeps its membership |
| OrgChartExpansion.CollapseUndoesExpand | src/components/OrgChart.tsx:54-66 | Expanding then collapsing a node gives the old set without that id |
| OrgChartExpansion.Toggle | src/components/OrgChart.tsx:135-158 | The code's id flips membership and nothing else changes; a `fitView` is scheduled exactly when the node opens |
| OrgChartExpansion.ToggleTwice | src/components/OrgChart.tsx:135-158 | Two toggles of one node restore the set |
| OrgChartExpansion.CollectIds | src/components/OrgChart.tsx:70-77 | The recursive collection adds exactly the ids of every employee of the subtree |
| OrgChartExpansion.ExpandAll | src/components/OrgChart.tsx:68-82 | The new set holds exactly the ids of the whole tree, and is empty without data |
| OrgChartExpansion.ExpandAllShowsEverything | src/components/OrgChart.tsx:68-82 | With every id expanded, every code of the tree is visible |
| OrgChartExpansion.CollapseAll | src/components/OrgChart.tsx:84-86 | No node stays expanded, so every tree shows its root alone |
| OrgChartExpansion.ExpandPath | src/components/OrgChart.tsx:90-102 | Its contract is `ExpandPathIsFirstPath`: `path` followed by the ids of the first root-to-node path in preorder that ends at the target code, and null when there is none |
| OrgChartExpansion.SearchChildren | src/components/OrgChart.tsx:95-101 | Its contract is `SearchChildrenIsFirstPath`: the first path found in the children's subtrees, taken in order |
| OrgChartExpansion.FirstEnding | src/components/OrgChart.tsx:96-99 | Finds nothing exactly when no path ends at the target, and otherwise returns a listed path that ends there |
| OrgChartExpansion.FirstEndingIsFirst | src/components/OrgChart.tsx:96-99 | No path before the returned one ends at the target |
| OrgChartExpansion.ExpandPathIsFirstPath | src/components/OrgChart.tsx:90-102 | `expandPath` returns `path` followed by the ids of the first root-to-node path in preorder that ends at the target code, and null when there is none |
| OrgChartExpansion.SearchChildrenIsFirstPath | src/components/OrgChart.tsx:95-101 | The loop over the children returns the first path found in the children's subtrees, in order |
| OrgChartExpansion.PathsAreChains | src/components/OrgChart.tsx:90-102 | Every listed path descends from the root through parent-child links |
| OrgChartExpansion.PathEndsAreCodes | src/components/OrgChart.tsx:90-102 | The paths end, in order, at the tree's codes in preorder |
| OrgChartExpansion.Focus | src/components/OrgChart.tsx:88-117 | Without a `fitView` the set is unchanged; focusing on the root's own code expands the root alone and schedules a `fitView` |
| OrgChartExpansion.FocusResult | src/components/OrgChart.tsx:88-117 | When the code occurs in the tree, the set becomes exactly the ids of the root-to-target chain (the first target in preorder) and a `fitView` is scheduled. Otherwise, or without data, the set is unchanged and nothing is scheduled |
| OrgChartExpansion.FocusFound | src/components/OrgChart.tsx:104-116 | The found case of focus: the set is the ids of a chain that ends at the target |
| OrgChartExpansion.FocusMissing | src/components/OrgChart.tsx:104-117 | A code absent from the tree leaves the set unchanged, with no `fitView` |
| OrgChartUtils.MatchesTerm | src/utils/orgChartUtils.ts:9-14 | The empty term matches every employee |
| OrgChartUtils.FilterByTerm | src/utils/orgChartUtils.ts:9-14 | Keeps, in order, exactly the employees whose name, position, level or code text contains the term, each as many times as it occurs in the input |
| OrgChartUtils.FilterByLevel | src/utils/orgChartUtils.ts:18-20 | Keeps, in order, exactly the employees of the selected level, each as many times as it occurs in the input |
| OrgChartUtils.SubsequenceTrans | src/utils/orgChartUtils.ts:3-23 | Filtering a filtered list keeps the original order |
| OrgChartUtils.SearchEmployees | src/utils/orgChartUtils.ts:3-23 | The result is an ordered sublist; a blank term and no level return the input; every kept employee matches the lower-cased term and the level; every employee that matches both is kept, as many times as it occurs in the input |
| OrgChartUtils.BuildOrgTree | src/utils/orgChartUtils.ts:25-38 | Falsy data gives no roots, an array is returned as is, and any other value becomes a single root |
| OrgChartUtils.BuildOrgTreeIdempotent | src/utils/orgChartUtils.ts:25-38 | Normalising a normalised forest changes nothing |
| OrgChartUtils.GetLevelColor | src/utils/orgChartUtils.ts:40-52 | Each of the seven known levels gets its own colours; a level named after an `Object.prototype` member gets that inherited member; the gray border appears exactly for the other levels |
| OrgChartUtils.GetDepartmentColor | src/utils/orgChartUtils.ts:109-111 | The department colour is the level colour |
| OrgChartUtils.GetCardBorderColor | src/utils/orgChartUtils.ts:55-108 | The colour is a palette entry; a code from 0 to 35 picks the entry at that index (with the two lemmas below, the absolute value of the code modulo 36 for every code) |
| OrgChartUtils.CardColorIgnoresSignAndLevel | src/utils/orgChartUtils.ts:106-107 | A code and its negation get the same colour, whatever the level argument |
| OrgChartUtils.CardColorPeriodic | src/utils/orgChartUtils.ts:106-107 | Non-negative codes 36 apart share a colour |
| EmployeeNode.HashUnits | src/components/EmployeeNode.tsx:178-187 | The hash is a 32-bit integer, 0 for no code units |
| EmployeeNode.StringHash | src/components/EmployeeNode.tsx:178-187 | The hash of a string is a 32-bit integer, 0 for the empty string |
| EmployeeNode.ShiftLeft5 | src/components/EmployeeNode.tsx:183 | `h << 5` is the 32-bit value congruent to `32 * h` modulo 2^32 |
| EmployeeNode.AndSelf | src/components/EmployeeNode.tsx:184 | `h & h` is the 32-bit value congruent to `h`, and `h` itself when `h` is already 32-bit |
| EmployeeNode.HashStep | src/components/EmployeeNode.tsx:183-184 | One step `((h << 5) - h) + c` followed by `& itself` equals `ToInt32(31*h + c)` |
| EmployeeNode.HashCode | src/components/EmployeeNode.tsx:178-187 | The loop computes the specification hash of the string's code units; the result is 32-bit, and 0 for the empty string |
| EmployeeNode.StringHashSnoc | src/components/EmployeeNode.tsx:181-185 | Appending a character below U+10000 performs one more `31*h + c` step |
| EmployeeNode.ColorSeed | src/components/EmployeeNode.tsx:21-26 | A truthy key seeds by its hash when it is a string and by its number otherwise; without one, a string name is hashed, else the seed is 0 |
| EmployeeNode.ColorSeedOfStringIsInt32 | src/components/EmployeeNode.tsx:21-26 | Seeds taken from strings, or the fallback 0, are 32-bit |
| EmployeeNode.CardLevelKey | src/components/EmployeeNode.tsx:27-35 | The level argument passed to the colour lookup is always truthy |
| EmployeeNode.GetItemColors | src/components/EmployeeNode.tsx:19-37 | The card colour is the palette entry of the absolute seed, keyed by `job_title_code` in the org chart and by `id` in the company chart |
| EmployeeNode.ItemColorsDependOnSeedOnly | src/components/EmployeeNode.tsx:19-37 | Only the seed key and the name decide a card's colour |
| EmployeeNode.NumericCodeColor | src/components/EmployeeNode.tsx:22-27 | A non-zero numeric code picks the palette entry of that code |
| EmployeeNode.CompanyPosition | src/components/EmployeeNode.tsx:53-57 | Each of the five known company types gets its own text line; any other type is shown as is |
| EmployeeNode.GetDisplayInfo | src/components/EmployeeNode.tsx:42-62 | An org-chart card shows the name, position, code and level (falling back to `job_level`); a company card shows the type-dependent line, the code or id, and the type |
| EmployeeNode.KnownTypeShowsText | src/components/EmployeeNode.tsx:53-57 | Every known company type shows a text position |
| EmployeeNode.HandleExpandClick | src/components/EmployeeNode.tsx:66-76 | The click never propagates and its default is prevented; the toggle runs exactly when a callback is present and the node has children |
| OrgChartLayout.GetLevelBorderColor | src/components/OrgChart.tsx:25-37 | Level n >= 1 gets colour (n - 1) mod 8; the gray fallback appears exactly when JavaScript's remainder is negative |
| OrgChartLayout.LevelBorderColorCycles | src/components/OrgChart.tsx:25-37 | Levels eight apart share a border colour |
| OrgChartLayout.Round50 | src/components/OrgChart.tsx:198 | `Math.round(n / 50)` is the integer nearest to `n / 50`, with halves rounded up |
| OrgChartLayout.SpaceKeyInjective | src/components/OrgChart.tsx:198 | Distinct grid cells have distinct `${col}_${row}` keys, so a set of keys is a set of cells |
| OrgChartLayout.FootprintIsBlock | src/components/OrgChart.tsx:192-198 | The keys a card checks or reserves form an 8 by 7 block of cells at its rounded top-left corner |
| OrgChartLayout.CloseCardsOverlap | src/components/OrgChart.tsx:176-198 | Cards within 350 horizontally and 300 vertically share a cell |
| OrgChartLayout.DisjointFootprintsApart | src/components/OrgChart.tsx:176-198 | Cards whose areas share no cell are more than 350 apart horizontally or more than 300 vertically |
| OrgChartLayout.FarApartDisjoint | src/components/OrgChart.tsx:176-198 | Cards at least 400 apart horizontally share no cell |
| OrgChartLayout.PreferredX | src/components/OrgChart.tsx:281-293 | The root prefers 0. An only child prefers 50 right of its parent on even levels and 50 left on odd levels. Siblings in a row of k prefer slots 530 apart, starting at `parentX - 265k + 140` |
| OrgChartLayout.PreferredY | src/components/OrgChart.tsx:279-295 | Level 1 prefers y = 0 |
| OrgChartLayout.RowsDescend | src/components/OrgChart.tsx:279-295 | Each level's row lies `100 * level + 300` below the previous level's row |
| OrgChartLayout.SiblingRow | src/components/OrgChart.tsx:288-292 | Siblings are evenly spaced 530 apart, symmetric about `parentX - 125` |
| OrgChartLayout.SiblingsPreferredDisjoint | src/components/OrgChart.tsx:288-295 | The preferred spots of two different siblings never share a cell |
| OrgChartLayout.Candidates | src/components/OrgChart.tsx:242-254 | Each attempt tries eight points |
| OrgChartLayout.Rings | src/components/OrgChart.tsx:241-261 | Attempts `a` to 50 try `8 * (51 - a)` points in search order |
| OrgChartLayout.FirstFree | src/components/OrgChart.tsx:256-260 | A point found is one of the candidates and is free |
| OrgChartLayout.FirstFreeNone | src/components/OrgChart.tsx:256-260 | The search finds nothing exactly when every candidate is blocked |
| OrgChartLayout.FirstFreeIsFirst | src/components/OrgChart.tsx:256-260 | Every candidate before the one found is blocked |
| OrgChartLayout.RingsSearchStep | src/components/OrgChart.tsx:241-261 | An attempt's eight candidates are searched before all later attempts |
| OrgChartLayout.BestPosition | src/components/OrgChart.tsx:230-264 | A free preferred point is kept. Otherwise the result is a free candidate of the 50 rings. When the preferred point is blocked, the result is the first free candidate in search order. It is occupied only when it is the preferred point and every candidate is blocked |
| OrgChartLayout.BestPositionIsFirstFree | src/components/OrgChart.tsx:241-261 | When the preferred point is blocked and some candidate is free, the result is a candidate all of whose predecessors in search order are blocked |
| OrgChartLayout.EmptyLevelTakesPreferred | src/components/OrgChart.tsx:232-233 | On a level with nothing reserved, the preferred point is taken |
| OrgChartLayout.EdgeBetween | src/components/OrgChart.tsx:330-333 | An edge runs from the parent's id to the child's id |
| OrgChartLayout.EdgesTo | src/components/OrgChart.tsx:328-346 | A parent gets one edge per child, in the children's order |
| OrgChartLayout.EdgeBagMember | src/components/OrgChart.tsx:325-346 | Every emitted edge leaves an expanded node with children for one of its children |
| OrgChartLayout.Walk | src/components/OrgChart.tsx:267-360 | Processing an employee only appends nodes, edges and levels, and marks the employee's code processed |
| OrgChartLayout.WalkChildren | src/components/OrgChart.tsx:325-359 | The loop over the children only appends to the state |
| OrgChartLayout.WalkStep | src/components/OrgChart.tsx:276-359 | A new employee is placed, then its children are walked from the first when it is expanded |
| OrgChartLayout.WalkChildrenStep | src/components/OrgChart.tsx:328-358 | Each child gets its edge before it is processed, then the loop goes on |
| OrgChartLayout.WalkPlacesEmployee | src/components/OrgChart.tsx:276-322 | A new employee's node comes right after the nodes already placed, at the best position around its preferred point on its level |
| OrgChartLayout.WalkChildrenPlacesEach | src/components/OrgChart.tsx:328-358 | Every remaining child's code is processed after the loop |
| OrgChartLayout.PlaceNode | src/components/OrgChart.tsx:297-322 | Placing an employee appends one node at the best position on its level, marks its code, reserves that node's area on its level, and leaves the edges and the other levels unchanged |
| OrgChartLayout.PlaceNodeAt | src/components/OrgChart.tsx:297-322 | Placing an employee pushes its node, marks its code, reserves its area on its level, and changes nothing else |
| OrgChartLayout.PlaceNodeInv | src/components/OrgChart.tsx:276-322 | Placing a new employee keeps one node per code, every area reserved, and free placements disjoint from earlier nodes of their level |
| OrgChartLayout.WalkInv | src/components/OrgChart.tsx:267-360 | The whole walk keeps that bookkeeping |
| OrgChartLayout.WalkWithinVisible | src/components/OrgChart.tsx:276-359 | The walk places only codes the expansion set makes visible |
| OrgChartLayout.WalkCoversVisible | src/components/OrgChart.tsx:276-359 | On a tree with unique, unplaced codes, the walk places exactly the visible codes |
| OrgChartLayout.WalkEdges | src/components/OrgChart.tsx:309-346 | The edges the walk adds are, as a bag, exactly those its new nodes emit |
| OrgChartLayout.WalkChildrenEdges | src/components/OrgChart.tsx:328-358 | The loop adds the remaining children's edges plus those its new nodes emit |
| OrgChartLayout.WalkPlacesChildren | src/components/OrgChart.tsx:325-358 | Every expanded node with children that the walk places has all its children placed |
| OrgChartLayout.Layout | src/components/OrgChart.tsx:161-369 | No data gives no nodes and no edges; with data the root's code is processed and at least one node is drawn |
| OrgChartLayout.LayoutInv | src/components/OrgChart.tsx:161-369 | The chart's node list has one node per processed code, with every area reserved |
| OrgChartLayout.LayoutRoot | src/components/OrgChart.tsx:283-284 | The root is the first node, at (0, 0) on level 1, with its id, its flags and the level-1 colour |
| OrgChartLayout.LayoutCollapsedRoot | src/components/OrgChart.tsx:325 | A collapsed root is drawn alone, without edges |
| OrgChartLayout.LayoutShowsVisible | src/components/OrgChart.tsx:276-359 | The chart shows only visible employees, at most one node per distinct code; on a tree with unique codes it shows every visible employee |
| OrgChartLayout.LayoutIdsDistinct | src/components/OrgChart.tsx:276-310 | No two nodes share an id |
| OrgChartLayout.LayoutEdgeBag | src/components/OrgChart.tsx:325-346 | The edge list is, as a bag, exactly the edges the drawn nodes emit |
| OrgChartLayout.LayoutEdgesJoinNodes | src/components/OrgChart.tsx:330-333 | Every edge leaves a drawn node and reaches a drawn node |
| OrgChartLayout.LayoutSpacing | src/components/OrgChart.tsx:297-301 | Two nodes of one level, the later one placed on a free spot, are more than 350 apart horizontally or 300 vertically |
| OrgChartLayout.LayoutBuilder.constructor | src/components/OrgChart.tsx:169-174 | The builder starts with no nodes, edges, processed codes or reserved cells |
| OrgChartLayout.LayoutBuilder.IsSpaceOccupied | src/components/OrgChart.tsx:183-205 | Reports a clash exactly when the card's area meets the level's reserved cells; it creates an empty set for a new level and changes nothing else |
| OrgChartLayout.LayoutBuilder.ReserveSpace | src/components/OrgChart.tsx:208-227 | Adds exactly the card's area to its level; every other level is unchanged |
| OrgChartLayout.LayoutBuilder.FirstFreeCandidate | src/components/OrgChart.tsx:256-260 | Returns the first free candidate of one attempt |
| OrgChartLayout.LayoutBuilder.FindBestPosition | src/components/OrgChart.tsx:230-264 | Returns the best position on the level's grid; only an empty set for a new level is added |
| OrgChartLayout.LayoutBuilder.PlaceEmployee | src/components/OrgChart.tsx:276-322 | The state after placing one employee is the value placement gives |
| OrgChartLayout.LayoutBuilder.ProcessEmployee | src/components/OrgChart.tsx:267-360 | The new state is the value walk from the old one |
| OrgChartLayout.BuildLayout | src/components/OrgChart.tsx:161-369 | The nodes and edges are those of the layout of the data; no data gives none |
| OrgChartProperties.ExpandAllThenLayout | src/components/OrgChart.tsx:68-82 | After expand all, a tree with unique codes is drawn in full, one node per employee |
| OrgChartProperties.CollapseAllThenLayout | src/components/OrgChart.tsx:84-86 | After collapse all, the root is drawn alone, without edges |

## Left out

- Rendering is not modelled: ReactFlow, the JSX of the cards and the chart, `console.log`, and the `App.tsx` wiring.
- The other components, the sample data and the search bar are not part of this model. The `window` event plumbing is left out too; each handler is modelled as a function of the old set.
- The `fitView` calls and their `setTimeout` are camera effects. Only whether one is scheduled is modelled.
- The presentation constants of nodes and edges are left out: `type`, `draggable`, `selectable`, `animated`, `strokeWidth`, the arrow marker size. The edge's colour and its marker colour are the same value; the model keeps it once, as the stroke.
- Each node's `onToggleExpand` closure is not modelled. What a click does is modelled by `EmployeeNode.HandleExpandClick` and `OrgChartExpansion.Toggle`.
- `processEmployee`'s `groupStartX` argument is never read, and `buildOrgTree`'s `chartType` argument is read only for logging. Only `ProcessEmployee` keeps `groupStartX` in its signature.
- The layout prevents overlaps only within one level. Cards on different levels can overlap, and the source does not check this either.
- Grid keys are modelled as cells and level keys as integers. `SpaceKeyInjective` shows the key strings identify cells one-to-one.
- Job title codes and coordinates are JavaScript numbers (doubles); the model takes them as unbounded integers. Codes are assumed to be safe integers (|n| <= 2^53 - 1). `IntToString` agrees with `toString` only below 10^21, where JavaScript switches to exponent form, so `IntToStringInjective` and `IdInjective` speak for more values than the program can hold.
- `JsRuntime.JsValue` has no objects, arrays, fractional numbers or `NaN`. `ToNumber` maps the cases the callers never reach to 0.
- `JsRuntime.Lower` lower-cases ASCII letters only. Full Unicode case mapping is not modelled.
- `Employee.children` treats an absent list as an empty one, and an absent `firstNode` as `false`. The source treats them alike.
- LayoutSpacing: states overlap-freedom only for nodes placed on a free spot. When all candidates are taken, the source places a node on its occupied preferred point, as described above.
- LayoutShowsVisible: states "every visible employee is drawn" only for trees with unique codes. With a repeated code, `processedCodes` skips the later occurrence.
