/** The column resolver `build_mapping` (app.py:552-650): for every rule of a
    fixed, ordered table it picks the spreadsheet column that supplies the
    rule's content-control tag, cleans the cell and stores non-empty values. */
module Resolver {
  import opened Wrappers
  import opened Text
  import opened Values
  import opened SlotMaps
  import opened Seqs

  /** One entry of the rule table: spreadsheet header -> content-control tag. */
  datatype Rule = Rule(source: string, tag: string)

  /** The rule table of app.py:563-580, in dict insertion order. */
  const RuleTable: seq<Rule> := [
    Rule("اسم الدورة بالعربي", "اسم الدورة"),
    Rule("الفئة المستهدفة", "الفئة المستهدفة"),
    Rule("طريقة الطرح", "طريقة الطرح"),
    Rule("اسم المدرب", "اســــم الــمــدرب"),
    Rule("مكان الانعقاد ", "مقر التنفيذ"),
    Rule("مكان الانعقاد", "مقر التنفيذ"),
    Rule("الوقت", "وقت الدورة/البرنامج"),
    Rule("عدد الايام", DurationTag),
    Rule("تاريخ بداية الدورة بالميلادي", "تاريخ التنفيذ"),
    Rule("تاريخ بداية الدورة بالهجري", "تاريخ التنفيذ"),
    Rule("تحتاج لمعمل؟", "استخدام معمل الحاسب"),
    Rule("جهة التدريب", "تنفيذ البرنامج/الدورة"),
    Rule("اسم جهة التدريب", "تنفيذ البرنامج/الدورة")
  ]

  /** One spreadsheet row, indexed by column name. */
  type Row = map<string, Cell>

  /** A pandas row is indexed by every column of its table. */
  predicate RowCovers(row: Row, cols: seq<string>) {
    forall c | c in cols :: c in row
  }

  /** How a rule looks for its column when no column carries its exact name. */
  datatype Strategy = Venue | Lab | Generic

  const VenueHeader: string := "مكان الانعقاد"
  const VenueHeaderSpaced: string := "مكان الانعقاد "
  const PlaceWord: string := "مكان"
  const HeldWord: string := "انعقاد"
  const LabHeader: string := "تحتاج لمعمل؟"
  const LabPhrase: string := "تحتاج لمعمل"
  const LabWord: string := "معمل"

  /** The venue rules and the lab rule have special matching (app.py:595, 609). */
  function StrategyOf(source: string): Strategy {
    if Contains(source, VenueHeader) then Venue
    else if Contains(source, LabPhrase) || Contains(source, LabWord) then Lab
    else Generic
  }

  /** `str(name).strip().lower()`. */
  function Canonical(name: string): string {
    Lower(Strip(name))
  }

  /** Whether the fallback scan of a rule accepts column `col`. */
  predicate Accepts(source: string, col: string) {
    match StrategyOf(source)
    case Venue =>
      col == VenueHeaderSpaced || col == VenueHeader || (Contains(col, PlaceWord) && Contains(col, HeldWord))
    case Lab =>
      col == LabHeader || Contains(col, LabPhrase)
    case Generic =>
      var a, b := Canonical(source), Canonical(col);
      a == b || Contains(b, a) || Contains(a, b)
  }

  /** The fallback test of a rule, as a predicate on columns. */
  function Acceptor(source: string): string -> bool {
    col => Accepts(source, col)
  }

  /** The column that supplies a rule: the exact header if present, else the
      first column the rule's fallback scan accepts, else none. */
  function ResolveColumn(source: string, cols: seq<string>): (r: Option<string>)
    ensures source in cols ==> r == Some(source)
    ensures r.Some? ==> r.value in cols
  {
    if source in cols then Some(source)
    else match FirstWhere(cols, Acceptor(source))
      case None => None
      case Some(i) => Some(cols[i])
  }

  /** Without an exactly named column, the column found is the first one the
      rule's fallback scan accepts, and there is none only when the scan
      accepts no column. */
  lemma ResolveColumnByScan(source: string, cols: seq<string>)
    ensures source !in cols && ResolveColumn(source, cols).Some? ==>
      exists i | 0 <= i < |cols| ::
        && cols[i] == ResolveColumn(source, cols).value
        && Accepts(source, cols[i])
        && forall j | 0 <= j < i :: !Accepts(source, cols[j])
    ensures ResolveColumn(source, cols).None? <==>
      source !in cols && forall j | 0 <= j < |cols| :: !Accepts(source, cols[j])
  {
    var accepts := Acceptor(source);
    assert forall j | 0 <= j < |cols| :: accepts(cols[j]) == Accepts(source, cols[j]);
    if source !in cols {
      var f := FirstWhere(cols, accepts);
      if f.Some? {
        assert accepts(cols[f.value]);
      }
    }
  }

  /** The value one rule produces: the empty text when no column matched,
      else the cleaned (and, for the duration slot, formatted) cell text;
      `Raised` when the chosen cell cannot be turned into text. */
  function RuleValue(rule: Rule, row: Row, cols: seq<string>): (r: Result<string>)
    requires RowCovers(row, cols)
    ensures r.Raised? <==> ResolveColumn(rule.source, cols).Some? && row[ResolveColumn(rule.source, cols).value].Unprintable?
    ensures ResolveColumn(rule.source, cols).None? ==> r == Ok("")
    ensures r.Ok? && r.value != "" ==>
      && ResolveColumn(rule.source, cols).Some?
      && row[ResolveColumn(rule.source, cols).value].Value?
      && r.value == Normalise(row[ResolveColumn(rule.source, cols).value].text, rule.tag)
  {
    match ResolveColumn(rule.source, cols)
    case None => Ok("")
    case Some(c) =>
      match CellText(row[c])
      case Raised => Raised
      case Ok(t) => Ok(Normalise(t, rule.tag))
  }

  /** The target tags of a rule table. */
  function TagsOf(rules: seq<Rule>): set<string> {
    set i | 0 <= i < |rules| :: rules[i].tag
  }

  /** The mapping the rules build, applied in table order; each non-empty
      value overwrites the tag's entry; the first rule that raises aborts. */
  function Resolve(rules: seq<Rule>, row: Row, cols: seq<string>): (r: Result<SlotMap>)
    requires RowCovers(row, cols)
    ensures r.Ok? ==> Valid(r.value)
    ensures r.Ok? ==> forall k | k in r.value.values :: r.value.values[k] != ""
    ensures r.Ok? ==> r.value.values.Keys <= TagsOf(rules)
    decreases |rules|
  {
    if rules == [] then Ok(Empty)
    else
      var rule := rules[|rules| - 1];
      match Resolve(rules[..|rules| - 1], row, cols)
      case Raised => Raised
      case Ok(m) =>
        match RuleValue(rule, row, cols)
        case Raised => Raised
        case Ok(v) => Ok(if v != "" then Put(m, rule.tag, v) else m)
  }

  /** One more rule: its value, when non-empty, is written over the mapping
      built so far. */
  lemma ResolveStep(rules: seq<Rule>, rule: Rule, row: Row, cols: seq<string>)
    requires RowCovers(row, cols)
    ensures Resolve(rules + [rule], row, cols) ==
      match Resolve(rules, row, cols)
      case Raised => Raised
      case Ok(m) =>
        match RuleValue(rule, row, cols)
        case Raised => Raised
        case Ok(v) => Ok(if v != "" then Put(m, rule.tag, v) else m)
  {
    assert (rules + [rule])[..|rules|] == rules;
  }

  /** Reference reading of the mapping, key by key: the value of the LAST
      rule for tag `k` whose value is non-empty. */
  function LastWrite(rules: seq<Rule>, row: Row, cols: seq<string>, k: string): (r: Option<string>)
    requires RowCovers(row, cols)
    ensures r.Some? ==> r.value != "" && exists i | 0 <= i < |rules| :: rules[i].tag == k
    decreases |rules|
  {
    if rules == [] then None
    else
      var rule := rules[|rules| - 1];
      var v := RuleValue(rule, row, cols);
      if rule.tag == k && v.Ok? && v.value != "" then Some(v.value)
      else
        var r := LastWrite(rules[..|rules| - 1], row, cols, k);
        assert forall i | 0 <= i < |rules| - 1 :: rules[..|rules| - 1][i] == rules[i];
        r
  }

  /** A tag is present exactly when some rule for it produced a non-empty
      value, and then it holds the value of the last such rule: a later
      non-empty value overwrites, a later empty one leaves the entry alone. */
  lemma {:induction false} ResolveIsLastWrite(rules: seq<Rule>, row: Row, cols: seq<string>, k: string)
    requires RowCovers(row, cols)
    requires Resolve(rules, row, cols).Ok?
    ensures k in Resolve(rules, row, cols).value.values <==> LastWrite(rules, row, cols, k).Some?
    ensures k in Resolve(rules, row, cols).value.values ==>
      Resolve(rules, row, cols).value.values[k] == LastWrite(rules, row, cols, k).value
    decreases |rules|
  {
    if rules != [] {
      ResolveIsLastWrite(rules[..|rules| - 1], row, cols, k);
    }
  }

  /** Whether a rule raises on the row, as a predicate on rules. */
  function RaisesOn(row: Row, cols: seq<string>): Rule -> bool {
    rule => RowCovers(row, cols) && RuleValue(rule, row, cols).Raised?
  }

  /** Building the mapping raises exactly when some rule's chosen cell cannot
      be turned into text. */
  lemma {:induction false} ResolveRaisesIff(rules: seq<Rule>, row: Row, cols: seq<string>)
    requires RowCovers(row, cols)
    ensures Resolve(rules, row, cols).Raised? <==>
      exists i | 0 <= i < |rules| :: RuleValue(rules[i], row, cols).Raised?
    decreases |rules|
  {
    var raises := RaisesOn(row, cols);
    if rules != [] {
      var n := |rules| - 1;
      ResolveRaisesIff(rules[..n], row, cols);
      RaisesStep(rules, row, cols);
      assert rules == rules[..n] + [rules[n]];
      SomeInSnoc(rules[..n], rules[n], raises);
    }
    assert forall i | 0 <= i < |rules| :: raises(rules[i]) == RuleValue(rules[i], row, cols).Raised?;
  }

  /** The mapping raises once the rules before the last one raise, or the
      last one does. */
  lemma RaisesStep(rules: seq<Rule>, row: Row, cols: seq<string>)
    requires RowCovers(row, cols) && rules != []
    ensures Resolve(rules, row, cols).Raised? <==>
      Resolve(rules[..|rules| - 1], row, cols).Raised? || RuleValue(rules[|rules| - 1], row, cols).Raised?
  {
    var before := Resolve(rules[..|rules| - 1], row, cols);
    var last := RuleValue(rules[|rules| - 1], row, cols);
    assert before.Ok? && last.Ok? ==> Resolve(rules, row, cols).Ok?;
  }

  /** A row without unprintable cells never makes the resolver raise. */
  lemma PrintableRowResolves(rules: seq<Rule>, row: Row, cols: seq<string>)
    requires RowCovers(row, cols)
    requires forall c | c in row :: !row[c].Unprintable?
    ensures ChosenCellsPrintable(rules, row, cols)
    ensures Resolve(rules, row, cols).Ok?
  {
    ResolveRaisesIff(rules, row, cols);
  }

  /** The venue rules are the fifth and sixth rules of the table, and no
      later rule targets the venue slot. */
  const VenueTag: string := "مقر التنفيذ"

  /** The venue rule written with a trailing space does not find the header
      written without it by exact match, but through its special case. */
  lemma VenueRuleMatchesUnspacedHeader()
    ensures RuleTable[4].source == VenueHeaderSpaced && VenueHeaderSpaced !in [VenueHeader]
    ensures ResolveColumn(VenueHeaderSpaced, [VenueHeader]) == Some(VenueHeader)
  {
    assert |VenueHeaderSpaced| != |VenueHeader|;
    assert VenueHeader <= VenueHeaderSpaced;
    assert StrategyOf(VenueHeaderSpaced) == Venue;
    assert Accepts(VenueHeaderSpaced, VenueHeader);
  }

  /** Rules after position `n` that target other tags do not affect the
      last write of tag `k`. */
  lemma {:induction false} LastWriteIgnoresOtherTags(rules: seq<Rule>, row: Row, cols: seq<string>, k: string, n: nat)
    requires RowCovers(row, cols) && n <= |rules|
    requires forall i | n <= i < |rules| :: rules[i].tag != k
    ensures LastWrite(rules, row, cols, k) == LastWrite(rules[..n], row, cols, k)
    decreases |rules|
  {
    if |rules| > n {
      var p := rules[..|rules| - 1];
      assert p[..n] == rules[..n];
      LastWriteIgnoresOtherTags(p, row, cols, k, n);
    } else {
      assert rules[..n] == rules;
    }
  }

  /** No rule's chosen cell is unprintable: by `ResolveRaisesIff`, exactly
      the rows the resolver does not raise on. */
  predicate ChosenCellsPrintable(rules: seq<Rule>, row: Row, cols: seq<string>)
    requires RowCovers(row, cols)
  {
    forall i | 0 <= i < |rules| :: !RuleValue(rules[i], row, cols).Raised?
  }

  /** A rule whose column holds a usable text, and after which no rule
      targets its tag, decides that tag's slot, whichever way the column was
      found, as long as no rule's chosen cell is unprintable. */
  lemma SlotFromChosenColumn(rules: seq<Rule>, row: Row, cols: seq<string>, n: nat, c: string, text: string)
    requires RowCovers(row, cols)
    requires ChosenCellsPrintable(rules, row, cols)
    requires n < |rules| && ResolveColumn(rules[n].source, cols) == Some(c) && row[c] == Value(text)
    requires Normalise(text, rules[n].tag) != ""
    requires forall i | n < i < |rules| :: rules[i].tag != rules[n].tag
    ensures Resolve(rules, row, cols).Ok?
    ensures rules[n].tag in Resolve(rules, row, cols).value.values
    ensures Resolve(rules, row, cols).value.values[rules[n].tag] == Normalise(text, rules[n].tag)
  {
    var k := rules[n].tag;
    ResolveRaisesIff(rules, row, cols);
    ResolveIsLastWrite(rules, row, cols, k);
    assert RuleValue(rules[n], row, cols) == Ok(Normalise(text, k));
    LastWriteOfDecidingRule(rules, row, cols, n);
  }

  /** The last rule for a tag that yields a non-empty value is the one whose
      value the tag's last write holds. */
  lemma LastWriteOfDecidingRule(rules: seq<Rule>, row: Row, cols: seq<string>, n: nat)
    requires RowCovers(row, cols) && n < |rules|
    requires RuleValue(rules[n], row, cols).Ok? && RuleValue(rules[n], row, cols).value != ""
    requires forall i | n < i < |rules| :: rules[i].tag != rules[n].tag
    ensures LastWrite(rules, row, cols, rules[n].tag) == Some(RuleValue(rules[n], row, cols).value)
  {
    var p := rules[..n + 1];
    LastWriteIgnoresOtherTags(rules, row, cols, rules[n].tag, n + 1);
    assert p[|p| - 1] == rules[n];
    assert LastWrite(p, row, cols, rules[n].tag) == Some(RuleValue(rules[n], row, cols).value);
  }

  /** When the table has the venue header without a trailing space and the row
      holds a usable text there, the venue slot gets that text, trimmed. */
  lemma VenueSlotFromUnspacedHeader(row: Row, cols: seq<string>, text: string)
    requires RowCovers(row, cols)
    requires ChosenCellsPrintable(RuleTable, row, cols)
    requires VenueHeader in cols && row[VenueHeader] == Value(text) && CleanValue(text) != ""
    ensures Resolve(RuleTable, row, cols).Ok?
    ensures VenueTag in Resolve(RuleTable, row, cols).value.values
    ensures Resolve(RuleTable, row, cols).value.values[VenueTag] == Strip(text)
  {
    VenueRuleDecides();
    SlotFromChosenColumn(RuleTable, row, cols, 5, VenueHeader, text);
  }

  /** The unspaced venue rule is the sixth rule, and it is the last one for
      the venue slot. */
  lemma VenueRuleDecides()
    ensures |RuleTable| > 5 && RuleTable[5] == Rule(VenueHeader, VenueTag)
    ensures forall i | 5 < i < |RuleTable| :: RuleTable[i].tag != VenueTag
    ensures VenueTag != DurationTag
  {
  }

  /** The column scan of app.py:587-622 for one rule. */
  method FindColumn(source: string, cols: seq<string>) returns (c: Option<string>)
    ensures c == ResolveColumn(source, cols)
  {
    if source in cols {
      return Some(source);
    }
    var accepts := Acceptor(source);
    var i := 0;
    while i < |cols| && !accepts(cols[i])
      invariant 0 <= i <= |cols|
      invariant forall j | 0 <= j < i :: !accepts(cols[j])
    {
      i := i + 1;
    }
    FirstWhereAt(cols, accepts, i);
    c := if i < |cols| then Some(cols[i]) else None;
  }

  /** One rule's value, as the loop body computes it. */
  method ApplyRule(rule: Rule, row: Row, cols: seq<string>) returns (r: Result<string>)
    requires RowCovers(row, cols)
    ensures r == RuleValue(rule, row, cols)
  {
    var col := FindColumn(rule.source, cols);
    var value := "";
    if col.Some? {
      var text := CellText(row[col.value]);
      if text.Raised? {
        return Raised;
      }
      value := text.value;
    }
    value := CleanValue(value);
    if value != "" && rule.tag == DurationTag {
      value := FormatDuration(value);
    }
    return Ok(value);
  }

  /** The loop of `build_mapping` over a rule table: walks it in order,
      filling the dict; an exception from a cell escapes to the caller. */
  method ApplyRules(rules: seq<Rule>, row: Row, cols: seq<string>) returns (r: Result<SlotMap>)
    requires RowCovers(row, cols)
    ensures r == Resolve(rules, row, cols)
    ensures r.Ok? ==> forall k | k in r.value.values :: r.value.values[k] != ""
  {
    var mapping := Empty;
    var i := 0;
    while i < |rules|
      invariant 0 <= i <= |rules|
      invariant Resolve(rules[..i], row, cols) == Ok(mapping)
    {
      var rule := rules[i];
      assert rules[..i + 1] == rules[..i] + [rule];
      ResolveStep(rules[..i], rule, row, cols);
      var value := ApplyRule(rule, row, cols);
      if value.Raised? {
        ResolveRaisesIff(rules, row, cols);
        return Raised;
      }
      if value.value != "" {
        mapping := Put(mapping, rule.tag, value.value);
      }
      i := i + 1;
    }
    assert rules[..i] == rules;
    return Ok(mapping);
  }

  /** `build_mapping(row, df_columns)`: the loop over the fixed rule table. */
  method BuildMapping(row: Row, cols: seq<string>) returns (r: Result<SlotMap>)
    requires RowCovers(row, cols)
    ensures r == Resolve(RuleTable, row, cols)
    ensures r.Ok? ==> forall k | k in r.value.values :: r.value.values[k] != "" && k in TagsOf(RuleTable)
  {
    r := ApplyRules(RuleTable, row, cols);
  }
}
