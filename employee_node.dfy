/**
 * The logic of the node card: the 32-bit string hash that seeds a card's
 * colour, the choice of seed and colour, the text the card shows, and
 * when the expand button's click reaches the toggle callback.
 */
module EmployeeNode {
  import opened JsRuntime
  import opened OrgChartUtils

  // ---------------------------------------------------------------------
  // String.prototype.hashCode
  // ---------------------------------------------------------------------

  /** The hash of a sequence of UTF-16 code units: each unit takes the
      hash `h` to `ToInt32(31*h + unit)`, starting from 0. */
  function HashUnits(units: seq<int>): (h: int)
    ensures IsInt32(h)
    ensures units == [] ==> h == 0
  {
    if units == [] then 0
    else ToInt32(31 * HashUnits(units[..|units| - 1]) + units[|units| - 1])
  }

  /** The value `s.hashCode()` returns: a 32-bit integer, 0 for the empty
      string (the early return). */
  function StringHash(s: string): (h: int)
    ensures IsInt32(h)
    ensures s == [] ==> h == 0
  {
    HashUnits(CodeUnits(s))
  }

  /** `v << 5`: both the operand and the result are taken to 32 bits, so the
      result is the 32-bit value congruent to `32 * v` modulo 2^32. */
  function ShiftLeft5(v: int): (r: int)
    ensures IsInt32(r)
    ensures (r - v * 32) % TWO_32 == 0
  {
    var w := ToInt32(v);
    var r := ToInt32(w * 32);
    var k := (v - w) / TWO_32;
    var j := (w * 32 - r) / TWO_32;
    assert v - w == k * TWO_32;
    assert w * 32 - r == j * TWO_32;
    assert r - v * 32 == (-32 * k - j) * TWO_32;
    MultipleOfTwo32(-32 * k - j);
    r
  }

  /** `v & v`: the bitwise and of a value with itself is its `ToInt32`,
      which leaves a 32-bit value unchanged. */
  function AndSelf(v: int): (r: int)
    ensures IsInt32(r)
    ensures (r - v) % TWO_32 == 0
    ensures IsInt32(v) ==> r == v
  {
    if IsInt32(v) then ToInt32OfInt32(v); ToInt32(v) else ToInt32(v)
  }

  /** One loop step as written, `((h << 5) - h) + c` followed by `& itself`,
      is the step `ToInt32(31*h + c)` of the specification. */
  lemma HashStep(h: int, c: int)
    requires IsInt32(h)
    ensures AndSelf(ShiftLeft5(h) - h + c) == ToInt32(31 * h + c)
  {
    ToInt32OfInt32(h);
    var s := ShiftLeft5(h);
    assert (h * 32 - s) % TWO_32 == 0;
    var k := (h * 32 - s) / TWO_32;
    assert h * 32 - s == k * TWO_32;
    assert (s - h + c) - (31 * h + c) == (-k) * TWO_32;
    ToInt32Congruent(s - h + c, 31 * h + c);
  }

  /** `String.prototype.hashCode`: the loop over `charCodeAt(i)`. */
  method HashCode(s: string) returns (hash: int)
    ensures hash == StringHash(s)
    ensures IsInt32(hash)
    ensures s == "" ==> hash == 0
  {
    hash := 0;
    var units := CodeUnits(s);
    if |units| == 0 {
      return;
    }
    for i := 0 to |units|
      invariant IsInt32(hash)
      invariant hash == HashUnits(units[..i])
    {
      var ch := units[i];
      HashStep(hash, ch);
      hash := ShiftLeft5(hash) - hash + ch;
      hash := AndSelf(hash);
      assert units[..i + 1][..i] == units[..i];
    }
    assert units[..|units|] == units;
  }

  /** Appending a character of the Basic Multilingual Plane performs one
      more hash step. */
  lemma StringHashSnoc(s: string, c: char)
    requires c as int < 0x1_0000
    ensures StringHash(s + [c]) == ToInt32(31 * StringHash(s) + c as int)
  {
    assert (s + [c])[..|s + [c]| - 1] == s;
    assert CodeUnits(s + [c]) == CodeUnits(s) + [c as int];
    assert (CodeUnits(s) + [c as int])[..|CodeUnits(s)|] == CodeUnits(s);
  }

  // ---------------------------------------------------------------------
  // The card's data
  // ---------------------------------------------------------------------

  datatype ChartType = OrgChart | CompanyChart

  /** The untyped `item` a card is given; `kind` is the `type` field. */
  datatype Item = Item(
    name: JsValue,
    position: JsValue,
    jobTitleCode: JsValue,
    level: JsValue,
    jobLevel: JsValue,
    id: JsValue,
    kind: JsValue,
    code: JsValue,
    numberEmployees: JsValue,
    location: JsValue)

  /** The colour seed: a truthy key (hashed when it is a string), otherwise
      the hash of a string name, otherwise 0. */
  function ColorSeed(key: JsValue, name: JsValue): (seed: int)
    ensures Truthy(key) && key.Str? ==> seed == StringHash(key.s)
    ensures Truthy(key) && !key.Str? ==> seed == ToNumber(key)
    ensures !Truthy(key) && name.Str? ==> seed == StringHash(name.s)
    ensures !Truthy(key) && !name.Str? ==> seed == 0
  {
    if Truthy(key) then (if key.Str? then StringHash(key.s) else ToNumber(key))
    else if name.Str? then StringHash(name.s) else 0
  }

  /** A seed taken from a string, or the fallback 0, is a 32-bit integer. */
  lemma ColorSeedOfStringIsInt32(key: JsValue, name: JsValue)
    requires key.Str? || !Truthy(key)
    ensures IsInt32(ColorSeed(key, name))
  {
  }

  /** The level argument passed along with the seed. */
  function CardLevelKey(item: Item, chartType: ChartType): (r: JsValue)
    ensures Truthy(r)
  {
    if chartType == OrgChart then Or(Or(item.level, item.jobLevel), Str("Staff"))
    else Or(item.kind, Str("company"))
  }

  /** `getItemColors`: the palette entry of the absolute seed. The seed
      comes from `job_title_code` in the org chart and from `id` in the
      company chart. */
  function GetItemColors(item: Item, chartType: ChartType): (r: ColorSet)
    ensures r in CARD_PALETTE
    ensures chartType == OrgChart ==>
      r == CARD_PALETTE[Abs(ColorSeed(item.jobTitleCode, item.name)) % 36]
    ensures chartType == CompanyChart ==>
      r == CARD_PALETTE[Abs(ColorSeed(item.id, item.name)) % 36]
  {
    var key := if chartType == OrgChart then item.jobTitleCode else item.id;
    GetCardBorderColor(Abs(ColorSeed(key, item.name)), CardLevelKey(item, chartType))
  }

  /** Only the seed key and the name decide the colour; levels and every
      other field do not. */
  lemma ItemColorsDependOnSeedOnly(a: Item, b: Item, chartType: ChartType)
    requires a.name == b.name
    requires chartType == OrgChart ==> a.jobTitleCode == b.jobTitleCode
    requires chartType == CompanyChart ==> a.id == b.id
    ensures GetItemColors(a, chartType) == GetItemColors(b, chartType)
  {
  }

  /** An org-chart item with a numeric code gets the colour of that code. */
  lemma NumericCodeColor(item: Item, n: int)
    requires item.jobTitleCode == Num(n) && n != 0
    ensures GetItemColors(item, OrgChart) == GetCardBorderColor(n, Str("Staff"))
  {
  }

  /** What a card displays. */
  datatype DisplayInfo = DisplayInfo(name: JsValue, position: JsValue, code: JsValue, level: JsValue)

  /** The position line of a company-chart card, chosen by `type`. */
  function CompanyPosition(item: Item): (r: JsValue)
    ensures item.kind == Str("company") ==> r == Str(TemplateText(item.numberEmployees) + " employees")
    ensures item.kind == Str("branch") ==> r == Str("Location: " + TemplateText(item.location))
    ensures item.kind == Str("department") ==> r == Str("Department")
    ensures item.kind == Str("section") ==> r == Str("Section")
    ensures item.kind == Str("job_title") ==> r == Str("Level: " + TemplateText(item.level))
    ensures item.kind !in {Str("company"), Str("branch"), Str("department"), Str("section"), Str("job_title")}
      ==> r == item.kind
  {
    if item.kind == Str("company") then Str(TemplateText(item.numberEmployees) + " employees")
    else if item.kind == Str("branch") then Str("Location: " + TemplateText(item.location))
    else if item.kind == Str("department") then Str("Department")
    else if item.kind == Str("section") then Str("Section")
    else if item.kind == Str("job_title") then Str("Level: " + TemplateText(item.level))
    else item.kind
  }

  /** `getDisplayInfo`. */
  function GetDisplayInfo(item: Item, chartType: ChartType): (r: DisplayInfo)
    ensures r.name == item.name
    ensures chartType == OrgChart ==>
      r.position == item.position && r.code == item.jobTitleCode && r.level == Or(item.level, item.jobLevel)
    ensures chartType == CompanyChart ==>
      r.position == CompanyPosition(item) && r.code == Or(item.code, item.id) && r.level == item.kind
  {
    if chartType == OrgChart then
      DisplayInfo(item.name, item.position, item.jobTitleCode, Or(item.level, item.jobLevel))
    else
      DisplayInfo(item.name, CompanyPosition(item), Or(item.code, item.id), item.kind)
  }

  /** A company-chart card of a known type always shows a text position. */
  lemma KnownTypeShowsText(item: Item)
    requires item.kind in {Str("company"), Str("branch"), Str("department"), Str("section"), Str("job_title")}
    ensures GetDisplayInfo(item, CompanyChart).position.Str?
  {
  }

  // ---------------------------------------------------------------------
  // handleExpandClick
  // ---------------------------------------------------------------------

  /** What a click on the expand button does to the event and the chart. */
  datatype ClickEffect = ClickEffect(propagationStopped: bool, defaultPrevented: bool, toggleCalled: bool)

  /** `handleExpandClick`: the event never reaches the canvas, and the
      toggle runs exactly when a callback is present and the node has
      children. */
  function HandleExpandClick(hasCallback: bool, hasChildren: JsValue): (r: ClickEffect)
    ensures r.propagationStopped && r.defaultPrevented
    ensures r.toggleCalled <==> hasCallback && Truthy(hasChildren)
  {
    ClickEffect(true, true, hasCallback && Truthy(hasChildren))
  }
}
