/**
 * The dashboard's logic over the rows of the rule hierarchy report: picking
 * families by rule, name or outcome, the rule selector's "[ID] Activity"
 * display names and their parse, the conjunctive row mask, the summary
 * metrics and the truncation of long metric texts.
 */
module Dashboard {
  import opened Wrappers
  import opened Text
  import opened Decimal
  import opened Seqs
  import opened FamilyResolver

  /**
   * A row of the report's dataframe, with the columns the dashboard reads;
   * None is a missing (NaN) cell.
   */
  datatype ResultRow = ResultRow(
    familyReference: string,
    chainPath: string,
    ruleName: string,
    ruleType: string,
    outcome: Option<string>,
    jurisdictions: Option<string>,
    matterType: Option<string>)

  /**
   * pandas' Series.str.contains(x, case=False, na=False) on one cell: the text holds
   * `x` ignoring case, and a missing cell never matches.
   */
  predicate StrContains(cell: Option<string>, x: string) {
    match cell
    case None => false
    case Some(text) => ContainsIgnoreCase(text, x)
  }

  // ---------------------------------------------------------------------------
  // get_family_references
  // ---------------------------------------------------------------------------

  /**
   * Whether a row is picked by the first selector given, in the order rule id,
   * rule name, outcome; an empty text is a selector not given (Python's falsy
   * values). The rule id is compared with the pieces of ChainPath split on
   * "->", untrimmed.
   */
  predicate RowSelected(ruleId: string, ruleName: string, outcome: string, r: ResultRow) {
    if ruleId != "" then ruleId in Split(r.chainPath, "->")
    else if ruleName != "" then r.ruleName == ruleName
    else if outcome != "" then StrContains(r.outcome, outcome)
    else false
  }

  /** get_family_references: the distinct family references of the picked rows, in order of first appearance. */
  function GetFamilyReferences(rows: seq<ResultRow>, ruleId: string, ruleName: string, outcome: string): seq<string> {
    Dedup(Map(Filter(rows, r => RowSelected(ruleId, ruleName, outcome, r)), (r: ResultRow) => r.familyReference))
  }

  /** The references returned are distinct, and are exactly those of the rows the first given selector picks. */
  lemma GetFamilyReferencesSpec(rows: seq<ResultRow>, ruleId: string, ruleName: string, outcome: string)
    ensures NoDuplicates(GetFamilyReferences(rows, ruleId, ruleName, outcome))
    ensures forall f :: f in GetFamilyReferences(rows, ruleId, ruleName, outcome) <==>
      exists r :: r in rows && RowSelected(ruleId, ruleName, outcome, r) && f == r.familyReference
  {
    MapFilterMembers(rows, r => RowSelected(ruleId, ruleName, outcome, r), (r: ResultRow) => r.familyReference);
  }

  /** The selectors are tried in order: a rule id hides the others, a rule name hides the outcome, none gives nothing. */
  lemma SelectorPriority(rows: seq<ResultRow>, ruleId: string, ruleName: string, outcome: string)
    ensures ruleId != "" ==> GetFamilyReferences(rows, ruleId, ruleName, outcome) == GetFamilyReferences(rows, ruleId, "", "")
    ensures ruleId == "" && ruleName != "" ==>
      GetFamilyReferences(rows, ruleId, ruleName, outcome) == GetFamilyReferences(rows, "", ruleName, "")
    ensures ruleId == "" && ruleName == "" && outcome == "" ==> GetFamilyReferences(rows, ruleId, ruleName, outcome) == []
  {
    var p := r => RowSelected(ruleId, ruleName, outcome, r);
    if ruleId != "" {
      FilterSame(rows, p, r => RowSelected(ruleId, "", "", r));
    } else if ruleName != "" {
      FilterSame(rows, p, r => RowSelected("", ruleName, "", r));
    } else if outcome == "" {
      FilterNone(rows, p);
    }
  }

  /** The outcome selector is case-insensitive containment, and a row without an outcome is never picked. */
  lemma OutcomeSelector(rows: seq<ResultRow>, outcome: string)
    requires outcome != ""
    ensures forall f :: f in GetFamilyReferences(rows, "", "", outcome) <==>
      exists r :: r in rows && r.outcome.Some? && ContainsIgnoreCase(r.outcome.value, outcome) && f == r.familyReference
  {
    GetFamilyReferencesSpec(rows, "", "", outcome);
  }

  /** The pieces "->" cuts out of a path joined with " -> ": spaces on the inner sides. */
  function PathTokens(texts: seq<string>): (tokens: seq<string>)
    ensures |tokens| == |texts|
  {
    seq(|texts|, k requires 0 <= k < |texts| =>
      (if k > 0 then " " else "") + texts[k] + (if k < |texts| - 1 then " " else ""))
  }

  /** One more ID text pads the previous last piece on its right. */
  lemma PathTokensSnoc(init: seq<string>, x: string)
    requires |init| >= 1
    ensures var t, m := PathTokens(init), |init|;
      PathTokens(init + [x]) == t[..m - 1] + [t[m - 1] + " "] + [" " + x]
  {
    var texts := init + [x];
    var n := |texts|;
    var t, u := PathTokens(init), PathTokens(texts);
    var v := t[..n - 2] + [t[n - 2] + " "];
    forall k | 0 <= k < n - 1 ensures u[k] == v[k] {
      var pre := if k > 0 then " " else "";
      assert u[k] == pre + texts[k] + " ";
      assert init[k] == texts[k];
      if k == n - 2 {
        assert t[k] == pre + init[k] + "";
        assert pre + init[k] + "" + " " == pre + texts[k] + " ";
      }
    }
    assert u[n - 1] == " " + x + "";
    assert " " + x + "" == " " + x;
    assert u == v + [" " + x];
  }

  /** Joining with " -> " is joining the padded pieces with "->". */
  lemma {:induction false} PathTokensJoin(texts: seq<string>)
    requires |texts| >= 1
    ensures Join(texts, PathSeparator) == Join(PathTokens(texts), "->")
    decreases |texts|, 1
  {
    if |texts| > 1 {
      PathTokensJoinAfter(texts);
    } else {
      assert PathTokens(texts)[0] == "" + texts[0] + "";
      assert "" + texts[0] + "" == texts[0];
      assert PathTokens(texts) == [texts[0]];
    }
  }

  lemma {:induction false} PathTokensJoinAfter(texts: seq<string>)
    requires |texts| > 1
    ensures Join(texts, PathSeparator) == Join(PathTokens(texts), "->")
    decreases |texts|, 0
  {
    var n := |texts|;
    var init, x := texts[..n - 1], texts[n - 1];
    assert texts == init + [x];
    PathTokensJoin(init);
    JoinSnoc(init, x, PathSeparator);
    var t := PathTokens(init);
    var v := t[..n - 2] + [t[n - 2] + " "];
    PathTokensSnoc(init, x);
    JoinAppendLast(t, " ", "->");
    JoinSnoc(v, " " + x, "->");
  }

  /** "->" splits a chain path of IDs into the padded ID texts. */
  lemma RenderedPathTokens(ids: seq<nat>)
    requires |ids| >= 1
    ensures Split(RenderPath(ids), "->") == PathTokens(Map(ids, NatToString))
  {
    var texts := Map(ids, NatToString);
    var tokens := PathTokens(texts);
    PathTokensJoin(texts);
    forall p | p in tokens ensures '-' !in p {
      var k :| 0 <= k < |tokens| && tokens[k] == p;
      assert AllDigits(texts[k]);
      assert forall c :: c in p ==> c == ' ' || c in texts[k];
    }
    SplitJoin(tokens, "->");
  }

  /** Every piece of a path of two or more IDs carries a space. */
  lemma TokenHasSpace(texts: seq<string>, k: nat)
    requires |texts| >= 2 && k < |texts|
    ensures ' ' in PathTokens(texts)[k]
  {
    var token := PathTokens(texts)[k];
    if k > 0 {
      assert token[0] == ' ';
    } else {
      assert token[|token| - 1] == ' ';
    }
  }

  /**
   * The rule id match on a chain path joined with " -> ": the pieces of a path of two or
   * more IDs all carry a space, so the decimal text of an ID matches only a path that is
   * that one ID, i.e. a root row.
   */
  lemma RuleIdMatchOnRenderedPath(ids: seq<nat>, id: nat)
    requires |ids| >= 1
    ensures NatToString(id) in Split(RenderPath(ids), "->") <==> ids == [id]
  {
    var texts := Map(ids, NatToString);
    var tokens := PathTokens(texts);
    var t := NatToString(id);
    RenderedPathTokens(ids);
    if |ids| > 1 {
      assert ' ' !in t by {
        assert AllDigits(t) && !IsDigit(' ');
      }
      forall k | 0 <= k < |tokens| ensures tokens[k] != t {
        TokenHasSpace(texts, k);
      }
      assert ids != [id];
    } else {
      assert tokens == [texts[0]];
      NatToStringInjective(id, ids[0]);
      assert ids == [ids[0]];
    }
  }

  // ---------------------------------------------------------------------------
  // The rule selector
  // ---------------------------------------------------------------------------

  /** CONCAT('[', rd.ID, '] ', rd.Activity): the rule selector's option text. */
  function DisplayName(id: nat, activity: string): string {
    "[" + NatToString(id) + "] " + activity
  }

  /** The rule id text and the trimmed rule name of a selected option. */
  datatype Selection = Selection(ruleId: string, ruleName: string)

  /** `rule.split(']')[1]` of a text without ']' raises IndexError. */
  datatype ParseError = IndexError

  /** Python's s[1:]: everything after the first character; "" for a text of at most one. */
  function DropFirst(s: string): string {
    if s == [] then [] else s[1..]
  }

  /**
   * The parse of the selected option: nothing when none is selected; otherwise the text
   * before the first ']' without its first character, and the text between the first and
   * the second ']' stripped.
   */
  function ParseSelection(rule: string): Result<Option<Selection>, ParseError> {
    if rule == "" then Success(None)
    else
      var pieces := Split(rule, "]");
      if |pieces| < 2 then Failure(IndexError)
      else Success(Some(Selection(DropFirst(pieces[0]), Strip(pieces[1]))))
  }

  lemma SplitHasPieceAfter(s: string, c: char)
    ensures |Split(s, [c])| >= 2 <==> c in s
  {
    if c in s {
      var i :| 0 <= i < |s| && s[i] == c;
      assert OccursAt(s, [c], i);
    } else {
      NoOccurrence(s, [c]);
    }
  }

  /** The parse fails exactly on a selected text without ']'. */
  lemma ParseSelectionFails(rule: string)
    ensures ParseSelection(rule) == Success(None) <==> rule == ""
    ensures ParseSelection(rule).Failure? <==> rule != "" && ']' !in rule
  {
    SplitHasPieceAfter(rule, ']');
  }

  /**
   * Parsing a display name gives back the rule's ID text, which reads as the ID, and its
   * stripped activity, when the activity holds no ']'.
   */
  lemma ParseDisplayName(id: nat, activity: string)
    requires ']' !in activity
    ensures ParseSelection(DisplayName(id, activity)) == Success(Some(Selection(NatToString(id), Strip(activity))))
    ensures DigitsToNat(NatToString(id)) == id
  {
    var digits := NatToString(id);
    var p, q := "[" + digits, " " + activity;
    assert DisplayName(id, activity) == p + "]" + q;
    assert AllDigits(digits);
    assert ']' !in p by {
      assert forall c :: c in p ==> c == '[' || c in digits;
    }
    FirstOccurrenceAfter(p, "]", q);
    assert ']' !in q;
    NoOccurrence(q, "]");
    var s := p + "]" + q;
    assert s[..|p|] == p && s[|p| + 1..] == q;
    assert Split(s, "]") == [s[..|p|]] + Split(s[|p| + 1..], "]");
    StripLeadingSpace(' ', activity);
    DecimalRoundTrip(id);
  }

  // ---------------------------------------------------------------------------
  // The row mask
  // ---------------------------------------------------------------------------

  /** The search criteria of the sidebar; an empty text is a criterion not given. */
  datatype Criteria = Criteria(ruleId: string, outcome: string, jurisdiction: string, matterType: string)

  /** The families a rule id or an outcome selects in the report. */
  function SelectedFamilies(rows: seq<ResultRow>, c: Criteria): seq<string> {
    GetFamilyReferences(rows, c.ruleId, "", c.outcome)
  }

  /** A rule id or an outcome restricts the rows to the selected families `refs`. */
  predicate FamilyCriterion(refs: seq<string>, c: Criteria, r: ResultRow) {
    (c.ruleId == "" && c.outcome == "") || r.familyReference in refs
  }

  /** A jurisdiction other than 'All' must occur in the Jurisdictions cell, ignoring case. */
  predicate JurisdictionCriterion(c: Criteria, r: ResultRow) {
    c.jurisdiction == "" || c.jurisdiction == "All" || StrContains(r.jurisdictions, c.jurisdiction)
  }

  /** A matter type must occur in the MatterType cell, ignoring case. */
  predicate MatterTypeCriterion(c: Criteria, r: ResultRow) {
    c.matterType == "" || StrContains(r.matterType, c.matterType)
  }

  predicate KeepWith(refs: seq<string>, c: Criteria, r: ResultRow) {
    FamilyCriterion(refs, c, r) && JurisdictionCriterion(c, r) && MatterTypeCriterion(c, r)
  }

  /** A row stays when every criterion given holds of it. */
  predicate Keep(rows: seq<ResultRow>, c: Criteria, r: ResultRow) {
    KeepWith(SelectedFamilies(rows, c), c, r)
  }

  /** `mask &= cond`: each entry of the mask and-ed in place with the entry of the series. */
  method AndMask(mask: array<bool>, cond: seq<bool>)
    requires mask.Length == |cond|
    modifies mask
    ensures forall k :: 0 <= k < mask.Length ==> mask[k] == (old(mask[k]) && cond[k])
  {
    var i := 0;
    while i < mask.Length
      invariant 0 <= i <= mask.Length
      invariant forall k :: 0 <= k < i ==> mask[k] == (old(mask[k]) && cond[k])
      invariant forall k :: i <= k < mask.Length ==> mask[k] == old(mask[k])
    {
      mask[i] := mask[i] && cond[i];
      i := i + 1;
    }
  }

  /** results_df[mask]: the rows where the mask holds, in their order. */
  method ApplyMask(rows: seq<ResultRow>, mask: array<bool>, ghost keep: ResultRow -> bool) returns (filtered: seq<ResultRow>)
    requires mask.Length == |rows| && forall k :: 0 <= k < |rows| ==> mask[k] == keep(rows[k])
    ensures filtered == Filter(rows, keep)
  {
    filtered := [];
    var i := 0;
    while i < |rows|
      invariant 0 <= i <= |rows|
      invariant filtered == Filter(rows[..i], keep)
    {
      FilterPrefix(rows, i, keep);
      if mask[i] {
        filtered := filtered + [rows[i]];
      }
      i := i + 1;
    }
    assert rows[..|rows|] == rows;
  }

  /**
   * The mask of main: all true, then and-ed in place with each criterion given, and
   * the rows where it holds, in their order.
   */
  method FilterResults(rows: seq<ResultRow>, c: Criteria) returns (filtered: seq<ResultRow>)
    ensures filtered == Filter(rows, r => Keep(rows, c, r))
  {
    var n := |rows|;
    var mask := new bool[n](_ => true);
    var refs: seq<string> := [];
    if c.ruleId != "" || c.outcome != "" {
      refs := GetFamilyReferences(rows, c.ruleId, "", c.outcome);
      AndMask(mask, Map(rows, (r: ResultRow) => r.familyReference in refs));
    }
    assert forall k :: 0 <= k < n ==> mask[k] == FamilyCriterion(refs, c, rows[k]);
    if c.jurisdiction != "" && c.jurisdiction != "All" {
      AndMask(mask, Map(rows, (r: ResultRow) => StrContains(r.jurisdictions, c.jurisdiction)));
    }
    assert forall k :: 0 <= k < n ==> mask[k] == (FamilyCriterion(refs, c, rows[k]) && JurisdictionCriterion(c, rows[k]));
    if c.matterType != "" {
      AndMask(mask, Map(rows, (r: ResultRow) => StrContains(r.matterType, c.matterType)));
    }
    assert forall k :: 0 <= k < n ==> mask[k] == KeepWith(refs, c, rows[k]);
    var keep := (r: ResultRow) => KeepWith(refs, c, r);
    filtered := ApplyMask(rows, mask, keep);
    assert c.ruleId != "" || c.outcome != "" ==> refs == SelectedFamilies(rows, c);
    FilterSame(rows, keep, r => Keep(rows, c, r));
  }

  /** A row is in the result exactly when it is a row of the report and every criterion given holds of it. */
  lemma FilterResultsMembers(rows: seq<ResultRow>, c: Criteria)
    ensures forall r :: r in Filter(rows, r => Keep(rows, c, r)) <==>
      && r in rows
      && (c.ruleId != "" || c.outcome != "" ==> r.familyReference in SelectedFamilies(rows, c))
      && (c.jurisdiction != "" && c.jurisdiction != "All" ==> r.jurisdictions.Some? && ContainsIgnoreCase(r.jurisdictions.value, c.jurisdiction))
      && (c.matterType != "" ==> r.matterType.Some? && ContainsIgnoreCase(r.matterType.value, c.matterType))
  {
    FilterMembers(rows, r => Keep(rows, c, r));
  }

  /** With no criterion given (jurisdiction 'All'), every row is kept. */
  lemma NoCriteriaKeepAll(rows: seq<ResultRow>)
    ensures Filter(rows, r => Keep(rows, Criteria("", "", "All", ""), r)) == rows
  {
    FilterAll(rows, r => Keep(rows, Criteria("", "", "All", ""), r));
  }

  /** The result keeps the report's order: it is a subsequence of the rows. */
  lemma FilterResultsOrder(rows: seq<ResultRow>, c: Criteria)
    ensures IsSubsequence(Filter(rows, r => Keep(rows, c, r)), rows)
  {
    FilterIsSubsequence(rows, r => Keep(rows, c, r));
  }

  // ---------------------------------------------------------------------------
  // get_dashboard_metrics and truncate_text
  // ---------------------------------------------------------------------------

  /** The metrics row of the dashboard. */
  datatype Metrics = Metrics(jurisdictions: string, matterTypes: string, actions: nat, tasks: nat)

  /** `j.strip()` on a missing cell raises AttributeError; the column it came from. */
  datatype MetricsError = MissingValue(column: string)

  /** A piece stripped by .str.strip() and again by .strip(). */
  function StripTwice(t: string): string {
    Strip(Strip(t))
  }

  /** The comma-separated pieces of one cell, each stripped twice. */
  function CellTokens(v: string): seq<string> {
    Map(Split(v, ","), StripTwice)
  }

  /** The pieces of all cells, cell after cell (split, then explode). */
  function Tokens(cells: seq<string>): seq<string> {
    FlatMap(cells, CellTokens)
  }

  /** ', '.join(sorted(set(tokens))). */
  function Summary(cells: seq<string>): string {
    Join(SortBy(Dedup(Tokens(cells)), StrLe), ", ")
  }

  predicate AllPresent(cells: seq<Option<string>>) {
    forall k :: 0 <= k < |cells| ==> cells[k].Some?
  }

  function Present(cells: seq<Option<string>>): (vs: seq<string>)
    requires AllPresent(cells)
    ensures |vs| == |cells| && forall k :: 0 <= k < |cells| ==> vs[k] == cells[k].value
  {
    seq(|cells|, k requires 0 <= k < |cells| => cells[k].value)
  }

  function Count(rows: seq<ResultRow>, ruleType: string): nat {
    |Filter(rows, (r: ResultRow) => r.ruleType == ruleType)|
  }

  function JurisdictionsOf(r: ResultRow): Option<string> {
    r.jurisdictions
  }

  function MatterTypeOf(r: ResultRow): Option<string> {
    r.matterType
  }

  function RuleTypeOf(r: ResultRow): string {
    r.ruleType
  }

  /** get_dashboard_metrics, with the dictionary's entries evaluated in order. */
  function GetDashboardMetrics(rows: seq<ResultRow>): Result<Metrics, MetricsError> {
    var js := Map(rows, JurisdictionsOf);
    var ms := Map(rows, MatterTypeOf);
    if !AllPresent(js) then Failure(MissingValue("Jurisdictions"))
    else if !AllPresent(ms) then Failure(MissingValue("MatterType"))
    else Success(Metrics(Summary(Present(js)), Summary(Present(ms)), Count(rows, "Action"), Count(rows, "Task")))
  }

  /** `t` is a comma-separated piece of `cell`, stripped. */
  predicate IsPiece(t: string, cell: string) {
    exists p :: p in Split(cell, ",") && t == Strip(p)
  }

  /** The pieces of a cell are its comma-separated pieces, stripped. */
  lemma CellTokensMembers(v: string)
    ensures forall t :: t in CellTokens(v) <==> IsPiece(t, v)
  {
    var ps := Split(v, ",");
    MapMembers(ps, StripTwice);
    forall p | p in ps ensures StripTwice(p) == Strip(p) {
      StripIdempotent(p);
    }
  }

  /** No piece of a cell holds a comma. */
  lemma CellTokensFree(v: string)
    ensures forall t :: t in CellTokens(v) ==> ',' !in t
  {
    var ps := Split(v, ",");
    CellTokensMembers(v);
    SplitPartsFree(v, ",");
    forall p | p in ps ensures ',' !in Strip(p) {
      if ',' in p {
        var i :| 0 <= i < |p| && p[i] == ',';
        assert OccursAt(p, ",", i);
      }
    }
  }

  /** The pieces of all cells are the stripped comma-separated pieces of some cell, none holding a comma. */
  lemma TokensMembers(cells: seq<string>)
    ensures forall t :: t in Tokens(cells) <==> exists v :: v in cells && IsPiece(t, v)
    ensures forall t :: t in Tokens(cells) ==> ',' !in t
  {
    FlatMapMembers(cells, CellTokens);
    forall t ensures t in Tokens(cells) <==> exists v :: v in cells && IsPiece(t, v) {
      if t in Tokens(cells) {
        var v :| v in cells && t in CellTokens(v);
        CellTokensMembers(v);
      }
      if exists v :: v in cells && IsPiece(t, v) {
        var v :| v in cells && IsPiece(t, v);
        CellTokensMembers(v);
        assert t in CellTokens(v);
      }
    }
    forall t | t in Tokens(cells) ensures ',' !in t {
      var v :| v in cells && t in CellTokens(v);
      CellTokensFree(v);
    }
  }

  /**
   * A summary of at least one cell splits at ", " back into the stripped pieces of the
   * cells, each once and in string order.
   */
  lemma SummarySpec(cells: seq<string>)
    requires |cells| >= 1
    ensures NoDuplicates(Split(Summary(cells), ", "))
    ensures SortedBy(Split(Summary(cells), ", "), StrLe)
    ensures forall t :: t in Split(Summary(cells), ", ") <==> exists v :: v in cells && IsPiece(t, v)
  {
    var tokens := Tokens(cells);
    var ds := SortBy(Dedup(tokens), StrLe);
    TokensMembers(cells);
    SortedDistinct(tokens);
    assert |ds| >= 1 by {
      var p := Split(cells[0], ",")[0];
      assert IsPiece(Strip(p), cells[0]);
      assert Strip(p) in ds;
    }
    SplitJoin(ds, ", ");
  }

  /** A row is an Action, a Task, or neither, so the two counts together are at most the number of rows. */
  lemma CountsBounded(rows: seq<ResultRow>)
    ensures Count(rows, "Action") + Count(rows, "Task") <= |rows|
  {
    FilterDisjoint(rows, (r: ResultRow) => r.ruleType == "Action", (r: ResultRow) => r.ruleType == "Task");
  }

  /** The number of rows of a rule type is how often the RuleType column holds exactly that text. */
  lemma CountSpec(rows: seq<ResultRow>, ruleType: string)
    ensures Count(rows, ruleType) == multiset(Map(rows, RuleTypeOf))[ruleType]
  {
    FilterCount(rows, RuleTypeOf, ruleType, (r: ResultRow) => r.ruleType == ruleType);
  }

  /** The summary of a column without missing cells: its distinct stripped pieces, in string order. */
  lemma ColumnSummary(rows: seq<ResultRow>, col: ResultRow -> Option<string>)
    requires |rows| >= 1 && AllPresent(Map(rows, col))
    ensures var ds := Split(Summary(Present(Map(rows, col))), ", ");
      && NoDuplicates(ds) && SortedBy(ds, StrLe)
      && forall t :: t in ds <==> exists r :: r in rows && col(r).Some? && IsPiece(t, col(r).value)
  {
    var cells := Present(Map(rows, col));
    SummarySpec(cells);
    forall v | v in cells ensures exists r :: r in rows && col(r) == Some(v) {
      var k :| 0 <= k < |cells| && cells[k] == v;
      assert rows[k] in rows && col(rows[k]) == Some(v);
    }
    forall r | r in rows ensures col(r).Some? && col(r).value in cells {
      var k :| 0 <= k < |rows| && rows[k] == r;
      assert cells[k] == col(r).value;
    }
  }

  /** The metrics fail exactly when a Jurisdictions or MatterType cell is missing. */
  lemma DashboardMetricsFailure(rows: seq<ResultRow>)
    ensures GetDashboardMetrics(rows).Failure? <==>
      exists r :: r in rows && (r.jurisdictions.None? || r.matterType.None?)
  {
    var js := Map(rows, JurisdictionsOf);
    var ms := Map(rows, MatterTypeOf);
    if r :| r in rows && (r.jurisdictions.None? || r.matterType.None?) {
      var k :| 0 <= k < |rows| && rows[k] == r;
      assert js[k].None? || ms[k].None?;
    } else {
      forall k | 0 <= k < |rows| ensures js[k].Some? && ms[k].Some? {
        assert rows[k] in rows;
      }
    }
  }

  /**
   * Otherwise Actions and Tasks count the rows whose RuleType is exactly 'Action' and 'Task',
   * and each summary lists the distinct stripped pieces of its column, in string order.
   */
  lemma DashboardMetricsSpec(rows: seq<ResultRow>)
    requires GetDashboardMetrics(rows).Success?
    ensures var m := GetDashboardMetrics(rows).value;
      && m.actions == multiset(Map(rows, RuleTypeOf))["Action"]
      && m.tasks == multiset(Map(rows, RuleTypeOf))["Task"]
      && m.actions + m.tasks <= |rows|
    ensures |rows| >= 1 ==> var ds := Split(GetDashboardMetrics(rows).value.jurisdictions, ", ");
      && NoDuplicates(ds) && SortedBy(ds, StrLe)
      && forall t :: t in ds <==> exists r :: r in rows && r.jurisdictions.Some? && IsPiece(t, r.jurisdictions.value)
    ensures |rows| >= 1 ==> var ds := Split(GetDashboardMetrics(rows).value.matterTypes, ", ");
      && NoDuplicates(ds) && SortedBy(ds, StrLe)
      && forall t :: t in ds <==> exists r :: r in rows && r.matterType.Some? && IsPiece(t, r.matterType.value)
  {
    CountSpec(rows, "Action");
    CountSpec(rows, "Task");
    CountsBounded(rows);
    if |rows| >= 1 {
      ColumnSummary(rows, JurisdictionsOf);
      ColumnSummary(rows, MatterTypeOf);
    }
  }

  /** truncate_text's default limit: the longest text shown before truncation. */
  const MaxLength: nat := 30

  /**
   * truncate_text: a text longer than the limit (30 unless given) is cut to the limit
   * and marked with "...".
   */
  function Truncate(text: string, maxLength: nat := MaxLength): (r: string)
    ensures |r| <= maxLength + 3
    ensures |text| <= maxLength ==> r == text
    ensures |text| > maxLength ==> |r| == maxLength + 3 && r[..maxLength] == text[..maxLength] && r[maxLength..] == "..."
  {
    if |text| > maxLength then text[..maxLength] + "..." else text
  }

  /** Truncating a truncated text changes nothing. */
  lemma TruncateIdempotent(text: string, maxLength: nat)
    ensures Truncate(Truncate(text, maxLength), maxLength) == Truncate(text, maxLength)
  {
    var r := Truncate(text, maxLength);
    if |text| > maxLength {
      assert r == r[..maxLength] + r[maxLength..];
    }
  }

  /** With the default limit, texts of at most 30 characters are shown whole and longer ones take 33. */
  lemma TruncateDefault(text: string)
    ensures |text| <= 30 ==> Truncate(text) == text
    ensures |text| > 30 ==> |Truncate(text)| == 33 && Truncate(text)[30..] == "..."
  {
  }
}
