/**
 * The pure helpers of `orgChartUtils`: employee search, normalisation of
 * chart data into a forest, and the colour lookups used by the cards.
 */
module OrgChartUtils {
  import opened JsRuntime
  import opened EmployeeModel

  /** The three Tailwind class/colour strings a card is styled with. */
  datatype ColorSet = ColorSet(color: string, bgColor: string, borderColor: string)

  // ---------------------------------------------------------------------
  // searchEmployees
  // ---------------------------------------------------------------------

  /** `a` is `b` with some elements deleted, the rest in their original order. */
  ghost predicate Subsequence<T>(a: seq<T>, b: seq<T>)
    decreases |b|
  {
    if a == [] then true
    else if b == [] then false
    else (a[0] == b[0] && Subsequence(a[1..], b[1..])) || Subsequence(a, b[1..])
  }

  lemma {:induction false} SubsequenceRefl<T>(a: seq<T>)
    ensures Subsequence(a, a)
    decreases |a|
  {
    if a != [] {
      SubsequenceRefl(a[1..]);
    }
  }

  lemma {:induction false} SubsequenceTrans<T>(a: seq<T>, b: seq<T>, c: seq<T>)
    requires Subsequence(a, b) && Subsequence(b, c)
    ensures Subsequence(a, c)
    decreases |c|
  {
    if a != [] {
      if b[0] == c[0] && Subsequence(b[1..], c[1..]) {
        if a[0] == b[0] && Subsequence(a[1..], b[1..]) {
          SubsequenceTrans(a[1..], b[1..], c[1..]);
        } else {
          SubsequenceTrans(a, b[1..], c[1..]);
        }
      } else {
        SubsequenceTrans(a, b, c[1..]);
      }
    }
  }

  /** The text filter: the (already lower-cased) term occurs in the
      lower-cased name, position or level, or in the code's decimal text. */
  predicate MatchesTerm(emp: Employee, term: string)
    ensures term == [] ==> MatchesTerm(emp, term)
  {
    || Includes(Lower(emp.name), term)
    || Includes(Lower(emp.position), term)
    || Includes(Lower(emp.level), term)
    || Includes(IntToString(emp.jobTitleCode), term)
  }

  /** `filter(emp => MatchesTerm(emp, term))`. */
  function FilterByTerm(employees: seq<Employee>, term: string): (r: seq<Employee>)
    ensures Subsequence(r, employees)
    ensures forall x :: x in r ==> x in employees && MatchesTerm(x, term)
    ensures forall x :: x in employees && MatchesTerm(x, term) ==> x in r
    ensures forall x :: multiset(r)[x] == if MatchesTerm(x, term) then multiset(employees)[x] else 0
  {
    if employees == [] then []
    else
      var rest := FilterByTerm(employees[1..], term);
      assert employees == [employees[0]] + employees[1..];
      if MatchesTerm(employees[0], term) then
        assert ([employees[0]] + rest)[1..] == rest;
        [employees[0]] + rest
      else rest
  }

  /** `filter(emp => emp.level === selectedLevel)`. */
  function FilterByLevel(employees: seq<Employee>, level: string): (r: seq<Employee>)
    ensures Subsequence(r, employees)
    ensures forall x :: x in r ==> x in employees && x.level == level
    ensures forall x :: x in employees && x.level == level ==> x in r
    ensures forall x :: multiset(r)[x] == if x.level == level then multiset(employees)[x] else 0
  {
    if employees == [] then []
    else
      var rest := FilterByLevel(employees[1..], level);
      assert employees == [employees[0]] + employees[1..];
      if employees[0].level == level then
        assert ([employees[0]] + rest)[1..] == rest;
        [employees[0]] + rest
      else rest
  }

  /** `if (selectedLevel)`: the level filter applies to a non-empty level. */
  predicate LevelFilterOn(selectedLevel: Option<string>) {
    selectedLevel.Some? && selectedLevel.value != ""
  }

  /** Whether `searchEmployees` keeps an employee: it passes the text
      filter when that applies and the level filter when that applies. */
  predicate SearchKeeps(x: Employee, searchTerm: string, selectedLevel: Option<string>) {
    && (IsBlank(searchTerm) || MatchesTerm(x, Lower(searchTerm)))
    && (LevelFilterOn(selectedLevel) ==> x.level == selectedLevel.value)
  }

  /** `searchEmployees(employees, searchTerm, selectedLevel)`. The text
      filter applies when the term is not blank; it matches the lower-cased
      term as given (not trimmed). */
  function SearchEmployees(employees: seq<Employee>, searchTerm: string, selectedLevel: Option<string>)
    : (r: seq<Employee>)
    ensures Subsequence(r, employees)
    ensures IsBlank(searchTerm) && !LevelFilterOn(selectedLevel) ==> r == employees
    ensures !IsBlank(searchTerm) ==> forall x :: x in r ==> MatchesTerm(x, Lower(searchTerm))
    ensures LevelFilterOn(selectedLevel) ==> forall x :: x in r ==> x.level == selectedLevel.value
    ensures forall x :: x in employees
                        && (IsBlank(searchTerm) || MatchesTerm(x, Lower(searchTerm)))
                        && (LevelFilterOn(selectedLevel) ==> x.level == selectedLevel.value)
                        ==> x in r
    ensures forall x :: multiset(r)[x] == if SearchKeeps(x, searchTerm, selectedLevel) then multiset(employees)[x] else 0
  {
    var byTerm := if !IsBlank(searchTerm) then FilterByTerm(employees, Lower(searchTerm)) else employees;
    SubsequenceRefl(employees);
    if LevelFilterOn(selectedLevel) then
      var byLevel := FilterByLevel(byTerm, selectedLevel.value);
      SubsequenceTrans(byLevel, byTerm, employees);
      byLevel
    else byTerm
  }

  // ---------------------------------------------------------------------
  // buildOrgTree
  // ---------------------------------------------------------------------

  /** What `buildOrgTree` can be handed: a falsy value, an array of roots,
      or any other (truthy) value, taken as a single root. */
  datatype ChartData<T> = Falsy | ArrayData(items: seq<T>) | ObjectData(item: T)

  /** `buildOrgTree(chartData, chartType)`: a forest of roots. */
  function BuildOrgTree<T>(chartData: ChartData<T>): (r: seq<T>)
    ensures chartData.Falsy? ==> r == []
    ensures chartData.ArrayData? ==> r == chartData.items
    ensures chartData.ObjectData? ==> r == [chartData.item]
  {
    match chartData
    case Falsy => []
    case ArrayData(items) => items
    case ObjectData(item) => [item]
  }

  /** Normalising an already normalised forest changes nothing. */
  lemma BuildOrgTreeIdempotent<T>(chartData: ChartData<T>)
    ensures BuildOrgTree(ArrayData(BuildOrgTree(chartData))) == BuildOrgTree(chartData)
  {
  }

  // ---------------------------------------------------------------------
  // Colours
  // ---------------------------------------------------------------------

  const GRAY_BORDER: string := "#6b7280"

  /** The seven known levels of `getLevelColor`. */
  const LEVEL_COLORS: map<string, ColorSet> := map[
    "Executive" := ColorSet("text-purple-700", "bg-purple-50 border-purple-400", "#a855f7"),
    "Senior Management" := ColorSet("text-blue-700", "bg-blue-50 border-blue-400", "#3b82f6"),
    "Middle Management" := ColorSet("text-green-700", "bg-green-50 border-green-400", "#10b981"),
    "Junior Management" := ColorSet("text-orange-700", "bg-orange-50 border-orange-400", "#f59e0b"),
    "Senior Staff" := ColorSet("text-red-700", "bg-red-50 border-red-400", "#ef4444"),
    "Staff" := ColorSet("text-pink-700", "bg-pink-50 border-pink-400", "#ec4899"),
    "Entry Level" := ColorSet("text-indigo-700", "bg-indigo-50 border-indigo-400", "#6366f1")
  ]

  const DEFAULT_LEVEL_COLOR: ColorSet := ColorSet("text-gray-700", "bg-gray-50 border-gray-400", GRAY_BORDER)

  /** The names `colors[level]` finds on `Object.prototype` when the level
      is not one of the object literal's own keys. */
  const PROTOTYPE_KEYS: set<string> := {
    "constructor", "hasOwnProperty", "isPrototypeOf", "propertyIsEnumerable",
    "toLocaleString", "toString", "valueOf", "__proto__",
    "__defineGetter__", "__defineSetter__", "__lookupGetter__", "__lookupSetter__"
  }

  /** What `getLevelColor` returns: a colour record, or the inherited
      `Object.prototype` member of that name (a function or the prototype
      object itself), which is truthy and so wins over the gray fallback,
      and whose `color`, `bgColor` and `borderColor` are all undefined. */
  datatype LevelColor = Colors(colors: ColorSet) | Inherited(member: string)

  /** `getLevelColor(level)`: the level's own entry; the inherited member
      for a prototype name; gray for any other level. Gray is reserved for
      the levels that are neither. */
  function GetLevelColor(level: string): (r: LevelColor)
    ensures level in LEVEL_COLORS ==> r == Colors(LEVEL_COLORS[level])
    ensures level in PROTOTYPE_KEYS ==> r == Inherited(level)
    ensures r.Inherited? <==> level in PROTOTYPE_KEYS
    ensures r.Colors? ==> (r.colors.borderColor == GRAY_BORDER <==> level !in LEVEL_COLORS)
  {
    if level in LEVEL_COLORS then Colors(LEVEL_COLORS[level])
    else if level in PROTOTYPE_KEYS then Inherited(level)
    else Colors(DEFAULT_LEVEL_COLOR)
  }

  /** `getDepartmentColor(level)` delegates to `getLevelColor`. */
  function GetDepartmentColor(level: string): (r: LevelColor)
    ensures r == GetLevelColor(level)
  {
    GetLevelColor(level)
  }

  /** The 36 card colours of `getCardBorderColor`, in order. */
  const CARD_PALETTE: seq<ColorSet> := [
    ColorSet("text-purple-700", "bg-purple-50", "#a855f7"),
    ColorSet("text-violet-700", "bg-violet-50", "#8b5cf6"),
    ColorSet("text-indigo-700", "bg-indigo-50", "#6366f1"),
    ColorSet("text-fuchsia-700", "bg-fuchsia-50", "#d946ef"),
    ColorSet("text-pink-700", "bg-pink-50", "#ec4899"),
    ColorSet("text-rose-700", "bg-rose-50", "#f43f5e"),
    ColorSet("text-blue-700", "bg-blue-50", "#3b82f6"),
    ColorSet("text-sky-700", "bg-sky-50", "#0ea5e9"),
    ColorSet("text-cyan-700", "bg-cyan-50", "#06b6d4"),
    ColorSet("text-teal-700", "bg-teal-50", "#14b8a6"),
    ColorSet("text-slate-700", "bg-slate-50", "#64748b"),
    ColorSet("text-zinc-700", "bg-zinc-50", "#71717a"),
    ColorSet("text-green-700", "bg-green-50", "#10b981"),
    ColorSet("text-emerald-700", "bg-emerald-50", "#059669"),
    ColorSet("text-lime-700", "bg-lime-50", "#65a30d"),
    ColorSet("text-yellow-700", "bg-yellow-50", "#eab308"),
    ColorSet("text-amber-700", "bg-amber-50", "#f59e0b"),
    ColorSet("text-orange-700", "bg-orange-50", "#ea580c"),
    ColorSet("text-red-700", "bg-red-50", "#ef4444"),
    ColorSet("text-orange-600", "bg-orange-50", "#f97316"),
    ColorSet("text-amber-600", "bg-amber-50", "#d97706"),
    ColorSet("text-yellow-600", "bg-yellow-50", "#ca8a04"),
    ColorSet("text-gray-700", "bg-gray-50", "#6b7280"),
    ColorSet("text-stone-700", "bg-stone-50", "#78716c"),
    ColorSet("text-neutral-700", "bg-neutral-50", "#737373"),
    ColorSet("text-emerald-600", "bg-emerald-50", "#059669"),
    ColorSet("text-teal-600", "bg-teal-50", "#0d9488"),
    ColorSet("text-cyan-600", "bg-cyan-50", "#0891b2"),
    ColorSet("text-sky-600", "bg-sky-50", "#0284c7"),
    ColorSet("text-blue-600", "bg-blue-50", "#2563eb"),
    ColorSet("text-indigo-600", "bg-indigo-50", "#4f46e5"),
    ColorSet("text-violet-600", "bg-violet-50", "#7c3aed"),
    ColorSet("text-purple-600", "bg-purple-50", "#9333ea"),
    ColorSet("text-fuchsia-600", "bg-fuchsia-50", "#c026d3"),
    ColorSet("text-pink-600", "bg-pink-50", "#db2777"),
    ColorSet("text-rose-600", "bg-rose-50", "#e11d48")
  ]

  /** `getCardBorderColor(jobTitleCode, level)`: the palette entry at
      `|code| mod 36`. The level argument is never read. */
  function GetCardBorderColor(jobTitleCode: int, level: JsValue): (r: ColorSet)
    ensures r in CARD_PALETTE
    ensures 0 <= jobTitleCode < 36 ==> r == CARD_PALETTE[jobTitleCode]
  {
    var n := |CARD_PALETTE|;
    assert n == 36;
    var i := Abs(jobTitleCode) % n;
    assert 0 <= jobTitleCode < 36 ==> Abs(jobTitleCode) == jobTitleCode && i == jobTitleCode;
    CARD_PALETTE[i]
  }

  /** A code and its negation get the same colour, whatever the level. */
  lemma CardColorIgnoresSignAndLevel(jobTitleCode: int, level1: JsValue, level2: JsValue)
    ensures GetCardBorderColor(-jobTitleCode, level1) == GetCardBorderColor(jobTitleCode, level2)
  {
  }

  /** Codes 36 apart on the same side of zero share a colour. */
  lemma CardColorPeriodic(jobTitleCode: nat, level: JsValue)
    ensures GetCardBorderColor(jobTitleCode + 36, level) == GetCardBorderColor(jobTitleCode, level)
  {
    assert |CARD_PALETTE| == 36;
    assert (jobTitleCode + 36) % 36 == jobTitleCode % 36;
  }
}
