/**
 * The rule-family query of query_handler.py (get_rule_families): a recursive
 * common table expression that
 *   - lists the (jurisdiction, matter type) pairs of every active rule (RuleAttributes),
 *   - links a parent rule to a child rule when an outcome label of the parent equals a
 *     condition value of the child and the two share a pair (ValidConnections),
 *   - starts one family per active rule without an incoming link, numbered RF-00001,
 *     RF-00002, ... in ascending rule ID order, and extends chain paths along the links
 *     while the level is below 5 (RuleFamilies),
 *   - and reports every chain row with the rule's name and display names (final SELECT).
 * The CTE is evaluated here as the database evaluates a recursive CTE: the anchor rows
 * first, then the recursive member applied to the rows of the previous round.
 */
module FamilyResolver {
  import opened Wrappers
  import opened Text
  import opened Decimal
  import opened Seqs

  /** A row of tblRuleDefination, with the columns the query reads. */
  datatype RuleDefinition = RuleDefinition(
    id: nat, activity: string, active: bool, jurisdiction: string, matterType: string)

  /** A row of tblOutcomes: a label that rule `rule` produces. */
  datatype Outcome = Outcome(rule: nat, text: string)

  /** A row of tblConditions: a value that rule `rule` waits for. */
  datatype Condition = Condition(rule: nat, value: string)

  /**
   * The tables the query reads. `countryNames` stands for tblCountryMaster: the
   * name of the country a jurisdiction token is joined to.
   */
  datatype Database = Database(
    rules: seq<RuleDefinition>,
    outcomes: seq<Outcome>,
    conditions: seq<Condition>,
    countryNames: map<string, string>)

  /** Rows are extended only while their level is below this. */
  const MaxLevel: nat := 5

  /** What the recursive member puts between two rule IDs of a chain path. */
  const PathSeparator: string := " -> "

  // ---------------------------------------------------------------------------
  // RuleAttributes
  // ---------------------------------------------------------------------------

  /**
   * dbo.SplitStrings(list, ','). Its definition is not part of this model: it is
   * taken to cut the list at every comma and to keep the spaces around the items.
   */
  function SplitStrings(list: string): seq<string> {
    Split(list, ",")
  }

  /** A row of RuleAttributes. */
  datatype Attribute = Attribute(ruleId: nat, jurisdictionId: string, matterTypeId: string)

  /** The CROSS APPLY of two split lists for rule `id`. */
  function Pairs(id: nat, js: seq<string>, ms: seq<string>): seq<Attribute>
    decreases |js|
  {
    if js == [] then []
    else
      var j := js[0];
      Map(ms, m => Attribute(id, j, m)) + Pairs(id, js[1..], ms)
  }

  lemma {:induction false} PairsMembers(id: nat, js: seq<string>, ms: seq<string>)
    ensures forall a :: a in Pairs(id, js, ms) <==>
      a.ruleId == id && a.jurisdictionId in js && a.matterTypeId in ms
    decreases |js|
  {
    if js != [] {
      PairsMembers(id, js[1..], ms);
      var j := js[0];
      var row := Map(ms, m => Attribute(id, j, m));
      forall a: Attribute | a in row ensures a.ruleId == id && a.jurisdictionId == j && a.matterTypeId in ms {
        var k :| 0 <= k < |row| && row[k] == a;
      }
      forall a: Attribute | a.ruleId == id && a.jurisdictionId == j && a.matterTypeId in ms ensures a in row {
        var k :| 0 <= k < |ms| && ms[k] == a.matterTypeId;
        assert row[k] == a;
      }
      assert forall x :: x in js <==> x == j || x in js[1..];
    }
  }

  /** The attribute rows of the active rules of `rules`, in table order. */
  function AttributesOf(rules: seq<RuleDefinition>): seq<Attribute>
    decreases |rules|
  {
    if rules == [] then []
    else
      var r := rules[0];
      (if r.active then Pairs(r.id, SplitStrings(r.jurisdiction), SplitStrings(r.matterType)) else [])
      + AttributesOf(rules[1..])
  }

  /** `a` is a (rule, jurisdiction, matter type) triple of an active rule of `rules`. */
  predicate HasAttribute(rules: seq<RuleDefinition>, a: Attribute) {
    exists r :: r in rules && r.active && r.id == a.ruleId
      && a.jurisdictionId in SplitStrings(r.jurisdiction)
      && a.matterTypeId in SplitStrings(r.matterType)
  }

  lemma {:induction false} AttributesOfMembers(rules: seq<RuleDefinition>)
    ensures forall a :: a in AttributesOf(rules) <==> HasAttribute(rules, a)
    decreases |rules|
  {
    if rules != [] {
      var r := rules[0];
      AttributesOfMembers(rules[1..]);
      PairsMembers(r.id, SplitStrings(r.jurisdiction), SplitStrings(r.matterType));
      assert forall x :: x in rules <==> x == r || x in rules[1..];
    }
  }

  /** RuleAttributes: SELECT DISTINCT over the active rules' split lists. */
  function RuleAttributes(db: Database): seq<Attribute> {
    Dedup(AttributesOf(db.rules))
  }

  /** RuleAttributes holds a triple exactly when an active rule lists both of its tokens. */
  lemma RuleAttributesMembers(db: Database)
    ensures forall a :: a in RuleAttributes(db) <==> HasAttribute(db.rules, a)
  {
    AttributesOfMembers(db.rules);
  }

  // ---------------------------------------------------------------------------
  // ValidConnections
  // ---------------------------------------------------------------------------

  /** A row of ValidConnections: a link from a parent rule to a child rule. */
  datatype Connection = Connection(parent: nat, child: nat)

  /** The EXISTS test: RuleAttributes holds a pair for `p` and the same pair for `c`. */
  predicate SharesPair(attrs: seq<Attribute>, p: nat, c: nat) {
    exists a :: a in attrs && a.ruleId == p && Attribute(c, a.jurisdictionId, a.matterTypeId) in attrs
  }

  /** The links one outcome row yields when joined with the condition rows. */
  function LinksOf(o: Outcome, conds: seq<Condition>, attrs: seq<Attribute>): seq<Connection>
    decreases |conds|
  {
    if conds == [] then []
    else
      var k := conds[0];
      (if k.value == o.text && SharesPair(attrs, o.rule, k.rule) then [Connection(o.rule, k.rule)] else [])
      + LinksOf(o, conds[1..], attrs)
  }

  /** tblOutcomes JOIN tblConditions ON Value = Label, filtered by the EXISTS test. */
  function Links(outs: seq<Outcome>, conds: seq<Condition>, attrs: seq<Attribute>): seq<Connection>
    decreases |outs|
  {
    if outs == [] then [] else LinksOf(outs[0], conds, attrs) + Links(outs[1..], conds, attrs)
  }

  /** ValidConnections: the DISTINCT links. */
  function ValidConnections(db: Database): seq<Connection> {
    Dedup(Links(db.outcomes, db.conditions, RuleAttributes(db)))
  }

  /** Some outcome label of rule `p` equals some condition value of rule `c`. */
  predicate LabelMeetsValue(db: Database, p: nat, c: nat) {
    exists o, k :: o in db.outcomes && k in db.conditions && o.rule == p && k.rule == c && k.value == o.text
  }

  /** Some active rule `p` and some active rule `c` list one identical (jurisdiction, matter type) pair. */
  ghost predicate ShareAPair(db: Database, p: nat, c: nat) {
    exists r1, r2, j, m ::
      && r1 in db.rules && r2 in db.rules && r1.active && r2.active && r1.id == p && r2.id == c
      && j in SplitStrings(r1.jurisdiction) && j in SplitStrings(r2.jurisdiction)
      && m in SplitStrings(r1.matterType) && m in SplitStrings(r2.matterType)
  }

  lemma {:induction false} LinksOfMembers(o: Outcome, conds: seq<Condition>, attrs: seq<Attribute>)
    ensures forall e :: e in LinksOf(o, conds, attrs) <==>
      e.parent == o.rule && SharesPair(attrs, e.parent, e.child)
      && exists k :: k in conds && k.rule == e.child && k.value == o.text
    decreases |conds|
  {
    if conds != [] {
      LinksOfMembers(o, conds[1..], attrs);
      assert forall x :: x in conds <==> x == conds[0] || x in conds[1..];
    }
  }

  lemma {:induction false} LinksMembers(outs: seq<Outcome>, conds: seq<Condition>, attrs: seq<Attribute>)
    ensures forall e :: e in Links(outs, conds, attrs) <==>
      SharesPair(attrs, e.parent, e.child)
      && exists o, k :: o in outs && k in conds && o.rule == e.parent && k.rule == e.child && k.value == o.text
    decreases |outs|
  {
    if outs != [] {
      LinksOfMembers(outs[0], conds, attrs);
      LinksMembers(outs[1..], conds, attrs);
      assert forall x :: x in outs <==> x == outs[0] || x in outs[1..];
    }
  }

  /** The EXISTS test over RuleAttributes is the shared-pair condition on the rules themselves. */
  lemma SharesPairIff(db: Database, p: nat, c: nat)
    ensures SharesPair(RuleAttributes(db), p, c) <==> ShareAPair(db, p, c)
  {
    var attrs := RuleAttributes(db);
    RuleAttributesMembers(db);
    if SharesPair(attrs, p, c) {
      var a :| a in attrs && a.ruleId == p && Attribute(c, a.jurisdictionId, a.matterTypeId) in attrs;
      var b := Attribute(c, a.jurisdictionId, a.matterTypeId);
      assert HasAttribute(db.rules, a) && HasAttribute(db.rules, b);
      var r1 :| r1 in db.rules && r1.active && r1.id == a.ruleId
        && a.jurisdictionId in SplitStrings(r1.jurisdiction) && a.matterTypeId in SplitStrings(r1.matterType);
      var r2 :| r2 in db.rules && r2.active && r2.id == b.ruleId
        && b.jurisdictionId in SplitStrings(r2.jurisdiction) && b.matterTypeId in SplitStrings(r2.matterType);
      assert ShareAPair(db, p, c);
    }
    if ShareAPair(db, p, c) {
      var r1, r2, j, m :|
        && r1 in db.rules && r2 in db.rules && r1.active && r2.active && r1.id == p && r2.id == c
        && j in SplitStrings(r1.jurisdiction) && j in SplitStrings(r2.jurisdiction)
        && m in SplitStrings(r1.matterType) && m in SplitStrings(r2.matterType);
      assert HasAttribute(db.rules, Attribute(p, j, m));
      assert HasAttribute(db.rules, Attribute(c, j, m));
      assert Attribute(p, j, m) in attrs;
    }
  }

  /**
   * The link p -> c is a valid connection exactly when an outcome label of `p`
   * equals a condition value of `c` AND the two rules share a (jurisdiction,
   * matter type) pair: a matching label alone does not make a link.
   */
  lemma ValidConnectionIff(db: Database, p: nat, c: nat)
    ensures Connection(p, c) in ValidConnections(db) <==> LabelMeetsValue(db, p, c) && ShareAPair(db, p, c)
  {
    LinksMembers(db.outcomes, db.conditions, RuleAttributes(db));
    SharesPairIff(db, p, c);
  }

  /** Both ends of a valid connection are active rules of the table. */
  lemma ConnectionEndsActive(db: Database, e: Connection)
    requires e in ValidConnections(db)
    ensures exists r :: r in db.rules && r.active && r.id == e.parent
    ensures exists r :: r in db.rules && r.active && r.id == e.child
  {
    ValidConnectionIff(db, e.parent, e.child);
  }

  // ---------------------------------------------------------------------------
  // Roots and family references
  // ---------------------------------------------------------------------------

  /** The largest value of SQL Server's INT, the type of the rule IDs. */
  const IntMax: nat := 2147483647

  /** The rule IDs are SQL INT values. */
  predicate WellFormed(db: Database) {
    forall r :: r in db.rules ==> r.id <= IntMax
  }

  /** Some link ends at rule `id`. */
  predicate HasIncoming(edges: seq<Connection>, id: nat) {
    exists e :: e in edges && e.child == id
  }

  /** The WHERE clause of the anchor member: an active rule that no link ends at. */
  predicate IsRoot(edges: seq<Connection>, r: RuleDefinition) {
    r.active && !HasIncoming(edges, r.id)
  }

  predicate IdLe(a: RuleDefinition, b: RuleDefinition) {
    a.id <= b.id
  }

  /** The rules the anchor member selects, in table order. */
  function RootCandidates(edges: seq<Connection>, rules: seq<RuleDefinition>): seq<RuleDefinition> {
    Filter(rules, r => IsRoot(edges, r))
  }

  /** The root rules in the order OVER (ORDER BY rd.ID) numbers them. */
  function Roots(db: Database): seq<RuleDefinition> {
    SortBy(RootCandidates(ValidConnections(db), db.rules), IdLe)
  }

  /** CAST(n AS VARCHAR(width)) of an INT: its decimal text, or "*" when that needs more than `width` characters. */
  function CastVarchar(n: nat, width: nat): string {
    if |NatToString(n)| <= width then NatToString(n) else "*"
  }

  /** RIGHT(s, k): the last `k` characters of `s`, or all of `s` when it is shorter. */
  function Right(s: string, k: nat): string {
    if |s| <= k then s else s[|s| - k..]
  }

  /** CAST(s AS VARCHAR(900)): a longer text is cut after 900 characters. */
  function CastVarchar900(s: string): string {
    if |s| <= 900 then s else s[..900]
  }

  /**
   * CAST(n AS VARCHAR(width)) of a BIGINT, the type ROW_NUMBER() returns: its decimal text,
   * or None when that needs more than `width` characters. SQL Server writes "*" only for the
   * narrower integer types; for a BIGINT it stops the statement with an arithmetic overflow.
   */
  function CastBigint(n: nat, width: nat): Option<string> {
    if |NatToString(n)| <= width then Some(NatToString(n)) else None
  }

  /**
   * The FamilyReference of the root numbered `rank` by ROW_NUMBER(), the text the expression
   * has whenever its CAST succeeds. From rank 100000 on the CAST fails instead, and so does
   * the whole query (ReferenceOverflow).
   */
  function FamilyReference(rank: nat): string {
    "RF-" + Right("00000" + NatToString(rank), 5)
  }

  /** A rank cast to VARCHAR(5) overflows exactly when it is 100000 or more. */
  lemma FamilyReferenceOverflow(n: nat)
    ensures CastBigint(n, 5).None? <==> n >= 100000
    ensures CastBigint(n, 5).Some? ==> FamilyReference(n) == "RF-" + Right("00000" + CastBigint(n, 5).value, 5)
  {
    assert Pow10(5) == 100000;
    DecimalLength(n, 5);
  }

  /** A rank below 100000 is padded to five digits with leading zeros. */
  lemma PaddedRank(n: nat)
    requires n < 100000
    ensures |NatToString(n)| <= 5
    ensures Right("00000" + NatToString(n), 5) == Zeros(5 - |NatToString(n)|) + NatToString(n)
  {
    assert Pow10(5) == 100000;
    DecimalLength(n, 5);
    var d := NatToString(n);
    var t := "00000" + d;
    var z := Zeros(5 - |d|);
    assert Right(t, 5) == t[|d|..];
    forall i | 0 <= i < 5 ensures t[|d|..][i] == (z + d)[i] {
      if i < 5 - |d| {
        assert t[|d| + i] == '0';
      } else {
        assert t[|d| + i] == d[i - (5 - |d|)];
      }
    }
  }

  /** While the rank is below 100000, the five characters after "RF-" are digits that read back as the rank. */
  lemma FamilyReferenceRank(n: nat)
    requires n < 100000
    ensures |FamilyReference(n)| == 8 && FamilyReference(n)[..3] == "RF-"
    ensures AllDigits(FamilyReference(n)[3..]) && DigitsToNat(FamilyReference(n)[3..]) == n
  {
    PaddedRank(n);
    var d := NatToString(n);
    LeadingZeros(5 - |d|, d);
    DecimalRoundTrip(n);
    var f := FamilyReference(n);
    assert f[3..] == Zeros(5 - |d|) + d;
    assert forall c :: c in Zeros(5 - |d|) + d ==> c in Zeros(5 - |d|) || c in d;
  }

  /** Distinct ranks below 100000 give distinct references. */
  lemma FamilyReferenceInjective(a: nat, b: nat)
    requires a < 100000 && b < 100000
    ensures FamilyReference(a) == FamilyReference(b) ==> a == b
  {
    FamilyReferenceRank(a);
    FamilyReferenceRank(b);
  }

  /** References of ranks below 100000 sort, as text, in rank order. */
  lemma FamilyReferenceOrder(a: nat, b: nat)
    requires a < b < 100000
    ensures StrLt(FamilyReference(a), FamilyReference(b))
  {
    FamilyReferenceRank(a);
    FamilyReferenceRank(b);
    var fa, fb := FamilyReference(a), FamilyReference(b);
    SmallerValueFirst(fa[3..], fb[3..]);
    StrLeCommonPrefix("RF-", fa[3..], fb[3..]);
    assert fa == "RF-" + fa[3..] && fb == "RF-" + fb[3..];
  }

  /** A row of the RuleFamilies CTE. */
  datatype FamilyNode = FamilyNode(
    ruleId: nat,
    level: nat,
    parentRuleId: Option<nat>,
    rootRuleId: nat,
    familyReference: string,
    chainPath: string)

  /** The anchor row of root `r`, the `rank`-th root in ID order. */
  function AnchorNode(r: RuleDefinition, rank: nat): FamilyNode {
    FamilyNode(r.id, 1, None, r.id, FamilyReference(rank), CastVarchar900(CastVarchar(r.id, 10)))
  }

  /** The anchor rows of the roots `roots`, numbered from 1 in their order. */
  function AnchorRows(roots: seq<RuleDefinition>): seq<FamilyNode> {
    seq(|roots|, i requires 0 <= i < |roots| => AnchorNode(roots[i], i + 1))
  }

  /** The anchor member of RuleFamilies. */
  function Anchors(db: Database): seq<FamilyNode> {
    AnchorRows(Roots(db))
  }

  /** An INT has at most ten decimal digits, so CAST(id AS VARCHAR(10)) is its decimal text. */
  lemma CastIdExact(id: nat)
    requires id <= IntMax
    ensures |NatToString(id)| <= 10 && CastVarchar(id, 10) == NatToString(id)
  {
    assert Pow10(10) == 10000000000;
    DecimalLength(id, 10);
  }

  lemma TotalPreorderIdLe()
    ensures TotalPreorder(IdLe)
  {
  }

  /** The roots, sorted by ID, are the active rules without an incoming link, each as often as in the table. */
  lemma SortedRootsSpec(edges: seq<Connection>, rules: seq<RuleDefinition>)
    ensures var roots := SortBy(RootCandidates(edges, rules), IdLe);
      && multiset(roots) == multiset(RootCandidates(edges, rules))
      && (forall r :: r in roots <==> r in rules && r.active && !HasIncoming(edges, r.id))
      && (forall i, j :: 0 <= i < j < |roots| ==> roots[i].id <= roots[j].id)
  {
    var cands := RootCandidates(edges, rules);
    var roots := SortBy(cands, IdLe);
    FilterMembers(rules, r => IsRoot(edges, r));
    TotalPreorderIdLe();
    SortBySorted(cands, IdLe);
    assert forall r :: r in roots <==> r in multiset(roots);
    assert forall r :: r in cands <==> r in multiset(cands);
  }

  lemma RootsSpec(db: Database)
    ensures multiset(Roots(db)) == multiset(RootCandidates(ValidConnections(db), db.rules))
    ensures forall r :: r in Roots(db) <==> r in db.rules && r.active && !HasIncoming(ValidConnections(db), r.id)
    ensures forall i, j :: 0 <= i < j < |Roots(db)| ==> Roots(db)[i].id <= Roots(db)[j].id
  {
    SortedRootsSpec(ValidConnections(db), db.rules);
  }

  lemma AnchorRowsSpec(roots: seq<RuleDefinition>)
    ensures |AnchorRows(roots)| == |roots|
    ensures forall i :: 0 <= i < |roots| ==>
      var a := AnchorRows(roots)[i];
      && a.ruleId == roots[i].id && a.level == 1 && a.parentRuleId == None && a.rootRuleId == a.ruleId
      && a.familyReference == FamilyReference(i + 1)
      && (roots[i].id <= IntMax ==> a.chainPath == NatToString(a.ruleId))
  {
    forall i | 0 <= i < |roots| && roots[i].id <= IntMax
      ensures AnchorRows(roots)[i].chainPath == NatToString(roots[i].id)
    {
      CastIdExact(roots[i].id);
    }
  }

  /**
   * The anchor rows: the i-th root in ID order gets level 1, no parent, itself as root,
   * the reference of rank i + 1 and, for an INT ID, its own ID as chain path.
   */
  lemma AnchorsSpec(db: Database)
    ensures |Anchors(db)| == |Roots(db)|
    ensures forall i :: 0 <= i < |Anchors(db)| ==>
      var a := Anchors(db)[i];
      && a.ruleId == Roots(db)[i].id && a.level == 1 && a.parentRuleId == None && a.rootRuleId == a.ruleId
      && a.familyReference == FamilyReference(i + 1)
      && (WellFormed(db) ==> a.chainPath == NatToString(a.ruleId))
    ensures forall i, j :: 0 <= i < j < |Anchors(db)| ==> Anchors(db)[i].ruleId <= Anchors(db)[j].ruleId
  {
    RootsSpec(db);
    var roots := Roots(db);
    AnchorRowsSpec(roots);
    assert forall i :: 0 <= i < |roots| ==> roots[i] in roots;
  }

  /** Rule `id` starts a family exactly when an active rule with that ID has no incoming valid connection. */
  lemma AnchorIff(db: Database, id: nat)
    ensures (exists a :: a in Anchors(db) && a.ruleId == id)
      <==> exists r :: r in db.rules && r.id == id && r.active && !HasIncoming(ValidConnections(db), id)
  {
    RootsSpec(db);
    AnchorsSpec(db);
    var roots := Roots(db);
    var anchors := Anchors(db);
    if r :| r in db.rules && r.id == id && r.active && !HasIncoming(ValidConnections(db), id) {
      var i :| 0 <= i < |roots| && roots[i] == r;
      assert anchors[i].ruleId == id;
    }
  }

  /** tblRuleDefination.ID identifies a rule: no two rows of the table share it. */
  predicate UniqueIds(db: Database) {
    forall i, j :: 0 <= i < |db.rules| && 0 <= j < |db.rules| && i != j ==> db.rules[i].id != db.rules[j].id
  }

  lemma UniqueIdsDistinct(db: Database, r1: RuleDefinition, r2: RuleDefinition)
    requires UniqueIds(db) && r1 in db.rules && r2 in db.rules && r1 != r2
    ensures r1.id != r2.id
  {
    var a :| 0 <= a < |db.rules| && db.rules[a] == r1;
    var b :| 0 <= b < |db.rules| && db.rules[b] == r2;
  }

  lemma RootCandidatesNoDuplicates(edges: seq<Connection>, rules: seq<RuleDefinition>)
    requires NoDuplicates(rules)
    ensures NoDuplicates(RootCandidates(edges, rules))
  {
    FilterNoDuplicates(rules, r => IsRoot(edges, r));
  }

  /** When the rule IDs are unique, no two anchor rows are for the same rule. */
  lemma AnchorIdsDistinct(db: Database)
    requires UniqueIds(db)
    ensures forall i, j :: 0 <= i < j < |Anchors(db)| ==> Anchors(db)[i].ruleId != Anchors(db)[j].ruleId
  {
    RootsSpec(db);
    AnchorsSpec(db);
    var roots := Roots(db);
    RootCandidatesNoDuplicates(ValidConnections(db), db.rules);
    PermutationNoDuplicates(RootCandidates(ValidConnections(db), db.rules), roots);
    forall i, j | 0 <= i < j < |Anchors(db)| ensures Anchors(db)[i].ruleId != Anchors(db)[j].ruleId {
      assert roots[i] in roots && roots[j] in roots;
      UniqueIdsDistinct(db, roots[i], roots[j]);
    }
  }

  /**
   * With unique rule IDs and while the query does not overflow, each root starts exactly one family:
   * two anchor rows are for the same rule exactly when they share a reference.
   */
  lemma OneReferencePerRoot(db: Database)
    requires UniqueIds(db) && |Roots(db)| < 100000
    ensures forall i, j :: 0 <= i < |Anchors(db)| && 0 <= j < |Anchors(db)| ==>
      (Anchors(db)[i].ruleId == Anchors(db)[j].ruleId <==> Anchors(db)[i].familyReference == Anchors(db)[j].familyReference)
  {
    var anchors := Anchors(db);
    AnchorIdsDistinct(db);
    AnchorReferencesDistinct(db);
    forall i, j | 0 <= i < |anchors| && 0 <= j < |anchors| && i != j
      ensures anchors[i].ruleId != anchors[j].ruleId && anchors[i].familyReference != anchors[j].familyReference
    {
      if i > j {
        assert anchors[j].ruleId != anchors[i].ruleId && anchors[j].familyReference != anchors[i].familyReference;
      }
    }
  }

  /** While the query does not overflow, distinct families get distinct references. */
  lemma AnchorReferencesDistinct(db: Database)
    requires |Roots(db)| < 100000
    ensures forall i, j :: 0 <= i < j < |Anchors(db)| ==>
      Anchors(db)[i].familyReference != Anchors(db)[j].familyReference
  {
    AnchorsSpec(db);
    forall i, j | 0 <= i < j < |Anchors(db)|
      ensures Anchors(db)[i].familyReference != Anchors(db)[j].familyReference
    {
      FamilyReferenceInjective(i + 1, j + 1);
    }
  }

  /** Some root's rank does not fit VARCHAR(5), so evaluating the anchor member fails. */
  predicate ReferenceOverflow(db: Database) {
    exists rank :: 1 <= rank <= |Roots(db)| && CastBigint(rank, 5).None?
  }

  /** The anchor member overflows exactly when there are 100000 roots or more. */
  lemma ReferenceOverflowIff(db: Database)
    ensures ReferenceOverflow(db) <==> |Roots(db)| >= 100000
  {
    if |Roots(db)| >= 100000 {
      FamilyReferenceOverflow(|Roots(db)|);
    }
    if ReferenceOverflow(db) {
      var rank :| 1 <= rank <= |Roots(db)| && CastBigint(rank, 5).None?;
      FamilyReferenceOverflow(rank);
    }
  }

  // ---------------------------------------------------------------------------
  // The recursive member
  // ---------------------------------------------------------------------------

  /** The row the recursive member joins to row `n` along a link to `child`. */
  function Extend(n: FamilyNode, child: nat): FamilyNode {
    FamilyNode(child, n.level + 1, Some(n.ruleId), n.rootRuleId, n.familyReference,
      CastVarchar900(n.chainPath + PathSeparator + CastVarchar(child, 10)))
  }

  /** rf JOIN ValidConnections vc ON rf.RuleID = vc.ParentRuleID, for one row rf. */
  function Children(edges: seq<Connection>, n: FamilyNode): seq<FamilyNode>
    decreases |edges|
  {
    if edges == [] then []
    else (if edges[0].parent == n.ruleId then [Extend(n, edges[0].child)] else []) + Children(edges[1..], n)
  }

  /** One round of the recursive member over the rows of the previous round, WHERE rf.Level < 5. */
  function Step(edges: seq<Connection>, frontier: seq<FamilyNode>): seq<FamilyNode>
    decreases |frontier|
  {
    if frontier == [] then []
    else (if frontier[0].level < MaxLevel then Children(edges, frontier[0]) else []) + Step(edges, frontier[1..])
  }

  /** The recursive member as a function from the rows of one round to the rows of the next. */
  function NextRound(edges: seq<Connection>): seq<FamilyNode> -> seq<FamilyNode> {
    frontier => Step(edges, frontier)
  }

  lemma NextRoundStep(edges: seq<Connection>, frontier: seq<FamilyNode>)
    ensures NextRound(edges)(frontier) == Step(edges, frontier)
  {
  }

  /**
   * The rows of round `level` and of every later round, `next` giving each round from the
   * one before. The recursion ends when a round yields no rows; rows of level 5 yield none
   * (StepAtMaxLevel), so it stops there.
   */
  function Expand(next: seq<FamilyNode> -> seq<FamilyNode>, frontier: seq<FamilyNode>, level: nat): seq<FamilyNode>
    decreases MaxLevel - level
  {
    if frontier == [] || level >= MaxLevel then frontier
    else frontier + Expand(next, next(frontier), level + 1)
  }

  /** The RuleFamilies CTE: the anchor rows, then every recursion round. */
  function RuleFamilies(db: Database): seq<FamilyNode> {
    Expand(NextRound(ValidConnections(db)), Anchors(db), 1)
  }

  lemma {:induction false} ChildrenMembers(edges: seq<Connection>, n: FamilyNode)
    ensures forall y :: y in Children(edges, n) <==>
      exists e :: e in edges && e.parent == n.ruleId && y == Extend(n, e.child)
    decreases |edges|
  {
    if edges != [] {
      ChildrenMembers(edges[1..], n);
      assert forall e :: e in edges <==> e == edges[0] || e in edges[1..];
    }
  }

  /** A round extends exactly the previous round's rows below level 5, along every link from their rule. */
  lemma {:induction false} StepMembers(edges: seq<Connection>, frontier: seq<FamilyNode>)
    ensures forall y :: y in Step(edges, frontier) <==>
      exists x, e :: x in frontier && x.level < MaxLevel && e in edges && e.parent == x.ruleId && y == Extend(x, e.child)
    decreases |frontier|
  {
    if frontier != [] {
      ChildrenMembers(edges, frontier[0]);
      StepMembers(edges, frontier[1..]);
      assert forall x :: x in frontier <==> x == frontier[0] || x in frontier[1..];
    }
  }

  /** The link a row of Children comes from. */
  lemma {:induction false} ChildOrigin(edges: seq<Connection>, n: FamilyNode, y: FamilyNode) returns (e: Connection)
    requires y in Children(edges, n)
    ensures e in edges && e.parent == n.ruleId && y == Extend(n, e.child)
    decreases |edges|
  {
    if edges[0].parent == n.ruleId && y == Extend(n, edges[0].child) {
      e := edges[0];
    } else {
      e := ChildOrigin(edges[1..], n, y);
    }
  }

  /** The row of the previous round and the link a row of a round comes from. */
  lemma {:induction false} StepOrigin(edges: seq<Connection>, frontier: seq<FamilyNode>, y: FamilyNode)
    returns (x: FamilyNode, e: Connection)
    requires y in Step(edges, frontier)
    ensures x in frontier && x.level < MaxLevel && e in edges && e.parent == x.ruleId && y == Extend(x, e.child)
    decreases |frontier|
  {
    var here := if frontier[0].level < MaxLevel then Children(edges, frontier[0]) else [];
    assert Step(edges, frontier) == here + Step(edges, frontier[1..]);
    if y in here {
      x := frontier[0];
      e := ChildOrigin(edges, x, y);
    } else {
      x, e := StepOrigin(edges, frontier[1..], y);
    }
  }

  /** Rows of level 5 are never extended, so the recursion ends after the fifth round, with or without cycles. */
  lemma {:induction false} StepAtMaxLevel(edges: seq<Connection>, frontier: seq<FamilyNode>)
    requires forall x :: x in frontier ==> x.level >= MaxLevel
    ensures Step(edges, frontier) == []
    decreases |frontier|
  {
    if frontier != [] {
      assert frontier[0] in frontier;
      StepAtMaxLevel(edges, frontier[1..]);
    }
  }

  /** The rows of round `level` of the recursion; round 1 holds the anchor rows. */
  function Round(next: seq<FamilyNode> -> seq<FamilyNode>, anchors: seq<FamilyNode>, level: nat): seq<FamilyNode>
    requires level >= 1
    decreases level
  {
    if level == 1 then anchors else next(Round(next, anchors, level - 1))
  }

  /** The rows of rounds `l` to 5, one round after the other. */
  function RoundsFrom(next: seq<FamilyNode> -> seq<FamilyNode>, anchors: seq<FamilyNode>, l: nat): seq<FamilyNode>
    requires l >= 1
    decreases MaxLevel - l
  {
    if l >= MaxLevel then Round(next, anchors, l) else Round(next, anchors, l) + RoundsFrom(next, anchors, l + 1)
  }

  /** Once a round is empty, so are the later ones, when `next` yields nothing from nothing. */
  lemma {:induction false} RoundsFromEmpty(next: seq<FamilyNode> -> seq<FamilyNode>, anchors: seq<FamilyNode>, l: nat)
    requires next([]) == [] && l >= 1 && Round(next, anchors, l) == []
    ensures RoundsFrom(next, anchors, l) == []
    decreases MaxLevel - l
  {
    if l < MaxLevel {
      assert Round(next, anchors, l + 1) == next(Round(next, anchors, l));
      RoundsFromEmpty(next, anchors, l + 1);
    }
  }

  /** Expansion from round `l` yields the rows of rounds `l` to 5, in that order. */
  lemma {:induction false} ExpandRounds(next: seq<FamilyNode> -> seq<FamilyNode>, anchors: seq<FamilyNode>, l: nat)
    requires next([]) == [] && 1 <= l <= MaxLevel
    ensures Expand(next, Round(next, anchors, l), l) == RoundsFrom(next, anchors, l)
    decreases MaxLevel - l
  {
    var f := Round(next, anchors, l);
    if f == [] {
      RoundsFromEmpty(next, anchors, l);
    } else if l < MaxLevel {
      assert Round(next, anchors, l + 1) == next(f);
      ExpandRounds(next, anchors, l + 1);
    }
  }

  /** Below round 5, RoundsFrom(l) is round `l` followed by the later rounds. */
  lemma RoundsFromSplit(next: seq<FamilyNode> -> seq<FamilyNode>, anchors: seq<FamilyNode>, l: nat)
    requires 1 <= l < MaxLevel
    ensures RoundsFrom(next, anchors, l) == Round(next, anchors, l) + RoundsFrom(next, anchors, l + 1)
  {
  }

  /** The round a row of rounds `l` to 5 comes from. */
  lemma {:induction false} RoundOf(next: seq<FamilyNode> -> seq<FamilyNode>, anchors: seq<FamilyNode>, l: nat, x: FamilyNode)
    returns (k: nat)
    requires 1 <= l <= MaxLevel && x in RoundsFrom(next, anchors, l)
    ensures l <= k <= MaxLevel && x in Round(next, anchors, k)
    decreases MaxLevel - l
  {
    k := l;
    if l < MaxLevel {
      RoundsFromSplit(next, anchors, l);
      if x !in Round(next, anchors, l) {
        k := RoundOf(next, anchors, l + 1, x);
      }
    }
  }

  /** Every row of one of the rounds `l` to 5 is in RoundsFrom(l). */
  lemma {:induction false} InRoundsFrom(next: seq<FamilyNode> -> seq<FamilyNode>, anchors: seq<FamilyNode>, l: nat, k: nat, x: FamilyNode)
    requires 1 <= l <= k <= MaxLevel && x in Round(next, anchors, k)
    ensures x in RoundsFrom(next, anchors, l)
    decreases k - l
  {
    if l < MaxLevel {
      RoundsFromSplit(next, anchors, l);
      if l < k {
        InRoundsFrom(next, anchors, l + 1, k, x);
      }
    }
  }

  /** The round of the recursion a row of RuleFamilies comes from. */
  lemma RuleFamiliesRound(db: Database, x: FamilyNode) returns (k: nat)
    requires x in RuleFamilies(db)
    ensures 1 <= k <= MaxLevel && x in Round(NextRound(ValidConnections(db)), Anchors(db), k)
  {
    var next := NextRound(ValidConnections(db));
    NextRoundStep(ValidConnections(db), []);
    ExpandRounds(next, Anchors(db), 1);
    k := RoundOf(next, Anchors(db), 1, x);
  }

  /** Every row of a round of the recursion is a row of RuleFamilies. */
  lemma RoundInRuleFamilies(db: Database, k: nat, x: FamilyNode)
    requires 1 <= k <= MaxLevel && x in Round(NextRound(ValidConnections(db)), Anchors(db), k)
    ensures x in RuleFamilies(db)
  {
    var next := NextRound(ValidConnections(db));
    NextRoundStep(ValidConnections(db), []);
    ExpandRounds(next, Anchors(db), 1);
    InRoundsFrom(next, Anchors(db), 1, k, x);
  }

  /** The last rule ID of the chain that starts at `r` and goes on along `cs`. */
  function LastId(r: nat, cs: seq<nat>): nat {
    if cs == [] then r else cs[|cs| - 1]
  }

  /** The last ID of the chain `[r] + cs` is LastId(r, cs). */
  lemma LastIdAt(r: nat, cs: seq<nat>)
    ensures ([r] + cs)[|cs|] == LastId(r, cs)
  {
  }

  /** The row the recursive member reaches from anchor row `a` along the rule IDs `cs`, one link per ID. */
  function Walk(a: FamilyNode, cs: seq<nat>): (w: FamilyNode)
    ensures w.level == a.level + |cs|
    ensures w.ruleId == LastId(a.ruleId, cs)
    ensures w.rootRuleId == a.rootRuleId && w.familyReference == a.familyReference
    decreases |cs|
  {
    if cs == [] then a else Extend(Walk(a, cs[..|cs| - 1]), cs[|cs| - 1])
  }

  /** Every two consecutive IDs of `ids` are linked. */
  ghost predicate IsChain(edges: seq<Connection>, ids: seq<nat>) {
    forall i, j :: 0 <= i < j < |ids| && j == i + 1 ==> Connection(ids[i], ids[j]) in edges
  }

  lemma ChainSnoc(edges: seq<Connection>, ids: seq<nat>, c: nat)
    requires |ids| >= 1
    ensures IsChain(edges, ids + [c]) <==> IsChain(edges, ids) && Connection(ids[|ids| - 1], c) in edges
  {
    var t := ids + [c];
    if IsChain(edges, t) {
      forall i, j | 0 <= i < j < |ids| && j == i + 1 ensures Connection(ids[i], ids[j]) in edges {
        assert t[i] == ids[i] && t[j] == ids[j];
      }
      assert t[|ids| - 1] == ids[|ids| - 1] && t[|ids|] == c;
    }
  }

  /** A single ID is a chain of no links. */
  lemma ChainSingleton(edges: seq<Connection>, r: nat)
    ensures IsChain(edges, [r] + [])
  {
    assert [r] + [] == [r];
  }

  /** A chain extended by a link from its last ID is a chain. */
  lemma ChainExtend(edges: seq<Connection>, r: nat, cs: seq<nat>, c: nat)
    requires IsChain(edges, [r] + cs) && Connection(LastId(r, cs), c) in edges
    ensures IsChain(edges, [r] + (cs + [c]))
  {
    var ids := [r] + cs;
    LastIdAt(r, cs);
    ConsSnoc(r, cs, c);
    ChainSnoc(edges, ids, c);
  }

  /** A chain without its last ID is a chain, and its last link is an edge. */
  lemma ChainInit(edges: seq<Connection>, r: nat, cs: seq<nat>)
    requires cs != [] && IsChain(edges, [r] + cs)
    ensures IsChain(edges, [r] + cs[..|cs| - 1]) && Connection(LastId(r, cs[..|cs| - 1]), cs[|cs| - 1]) in edges
  {
    var init := cs[..|cs| - 1];
    var ids := [r] + init;
    InitLast(cs);
    ConsSnoc(r, init, cs[|cs| - 1]);
    LastIdAt(r, init);
    ChainSnoc(edges, ids, cs[|cs| - 1]);
  }

  /** Walking one more link extends the row reached so far. */
  lemma WalkSnoc(a: FamilyNode, cs: seq<nat>, c: nat)
    ensures Walk(a, cs + [c]) == Extend(Walk(a, cs), c)
  {
    assert (cs + [c])[..|cs|] == cs;
  }

  /** A row below level 5 is extended in the next round along every link from its rule. */
  lemma StepComplete(edges: seq<Connection>, frontier: seq<FamilyNode>, x: FamilyNode, e: Connection)
    requires x in frontier && x.level < MaxLevel && e in edges && e.parent == x.ruleId
    ensures Extend(x, e.child) in Step(edges, frontier)
  {
    StepMembers(edges, frontier);
  }

  /** Every row reached from an anchor row along a chain of l - 1 links is a row of round `l`. */
  lemma {:induction false} RoundComplete(edges: seq<Connection>, anchors: seq<FamilyNode>, a: FamilyNode, cs: seq<nat>)
    requires forall b :: b in anchors ==> b.level == 1
    requires a in anchors && |cs| < MaxLevel && IsChain(edges, [a.ruleId] + cs)
    ensures Walk(a, cs) in Round(NextRound(edges), anchors, |cs| + 1)
    decreases |cs|, 1
  {
    if cs != [] {
      RoundCompleteAfter(edges, anchors, a, cs);
    }
  }

  lemma {:induction false} RoundCompleteAfter(edges: seq<Connection>, anchors: seq<FamilyNode>, a: FamilyNode, cs: seq<nat>)
    requires forall b :: b in anchors ==> b.level == 1
    requires a in anchors && 0 < |cs| < MaxLevel && IsChain(edges, [a.ruleId] + cs)
    ensures Walk(a, cs) in Round(NextRound(edges), anchors, |cs| + 1)
    decreases |cs|, 0
  {
    var init, c := cs[..|cs| - 1], cs[|cs| - 1];
    ChainInit(edges, a.ruleId, cs);
    RoundComplete(edges, anchors, a, init);
    var x, frontier := Walk(a, init), Round(NextRound(edges), anchors, |init| + 1);
    StepComplete(edges, frontier, x, Connection(x.ruleId, c));
    NextRoundStep(edges, frontier);
  }

  /** One more link at the end of a chain walked from `a`. */
  lemma WalkExtend(edges: seq<Connection>, a: FamilyNode, cs: seq<nat>, e: Connection) returns (cs': seq<nat>)
    requires IsChain(edges, [a.ruleId] + cs) && e in edges && e.parent == Walk(a, cs).ruleId
    ensures |cs'| == |cs| + 1
    ensures IsChain(edges, [a.ruleId] + cs') && Walk(a, cs') == Extend(Walk(a, cs), e.child)
  {
    cs' := cs + [e.child];
    ChainExtend(edges, a.ruleId, cs, e.child);
    WalkSnoc(a, cs, e.child);
  }

  /** Every row of round `l` is reached from an anchor row along a chain of l - 1 links. */
  lemma {:induction false} RoundSound(edges: seq<Connection>, anchors: seq<FamilyNode>, l: nat, y: FamilyNode)
    returns (a: FamilyNode, cs: seq<nat>)
    requires 1 <= l && y in Round(NextRound(edges), anchors, l)
    ensures a in anchors && |cs| == l - 1 && IsChain(edges, [a.ruleId] + cs) && y == Walk(a, cs)
    decreases l, 1
  {
    if l == 1 {
      a, cs := y, [];
      ChainSingleton(edges, a.ruleId);
    } else {
      a, cs := RoundSoundAfter(edges, anchors, l, y);
    }
  }

  lemma {:induction false} RoundSoundAfter(edges: seq<Connection>, anchors: seq<FamilyNode>, l: nat, y: FamilyNode)
    returns (a: FamilyNode, cs: seq<nat>)
    requires 1 < l && y in Round(NextRound(edges), anchors, l)
    ensures a in anchors && |cs| == l - 1 && IsChain(edges, [a.ruleId] + cs) && y == Walk(a, cs)
    decreases l, 0
  {
    var x, e := RoundPrevious(edges, anchors, l, y);
    var init;
    a, init := RoundSound(edges, anchors, l - 1, x);
    cs := WalkExtend(edges, a, init, e);
  }

  /** A row of a round after the first extends a row of the round before along a link. */
  lemma RoundPrevious(edges: seq<Connection>, anchors: seq<FamilyNode>, k: nat, x: FamilyNode) returns (y: FamilyNode, e: Connection)
    requires 1 < k && x in Round(NextRound(edges), anchors, k)
    ensures y in Round(NextRound(edges), anchors, k - 1) && e in edges && e.parent == y.ruleId && x == Extend(y, e.child)
  {
    var frontier := Round(NextRound(edges), anchors, k - 1);
    NextRoundStep(edges, frontier);
    y, e := StepOrigin(edges, frontier, x);
  }

  /** A row above level 1 of a round extends a row of the round before along a link. */
  lemma RoundParent(edges: seq<Connection>, anchors: seq<FamilyNode>, k: nat, x: FamilyNode) returns (y: FamilyNode)
    requires forall b :: b in anchors ==> b.level == 1
    requires 1 <= k && x in Round(NextRound(edges), anchors, k) && x.level > 1
    ensures k > 1 && y in Round(NextRound(edges), anchors, k - 1)
    ensures Connection(y.ruleId, x.ruleId) in edges && x == Extend(y, x.ruleId)
  {
    assert k != 1;
    var e;
    y, e := RoundPrevious(edges, anchors, k, x);
  }

  /** Every anchor row has level 1, no parent and itself as root. */
  lemma AnchorRowLevels(roots: seq<RuleDefinition>)
    ensures forall b :: b in AnchorRows(roots) ==> b.level == 1 && b.parentRuleId == None && b.rootRuleId == b.ruleId
  {
    var rows := AnchorRows(roots);
    forall b | b in rows ensures b.level == 1 && b.parentRuleId == None && b.rootRuleId == b.ruleId {
      var i :| 0 <= i < |rows| && rows[i] == b;
    }
  }

  lemma AnchorLevels(db: Database)
    ensures forall b :: b in Anchors(db) ==> b.level == 1 && b.parentRuleId == None && b.rootRuleId == b.ruleId
  {
    AnchorRowLevels(Roots(db));
  }

  /** The anchor row and the chain of rule IDs a row of RuleFamilies comes from. */
  lemma RuleFamilyOrigin(db: Database, x: FamilyNode) returns (a: FamilyNode, cs: seq<nat>)
    requires x in RuleFamilies(db)
    ensures a in Anchors(db) && |cs| < MaxLevel && IsChain(ValidConnections(db), [a.ruleId] + cs) && x == Walk(a, cs)
  {
    var k := RuleFamiliesRound(db, x);
    a, cs := RoundSound(ValidConnections(db), Anchors(db), k, x);
  }

  /** Every row reached from an anchor row along a chain of at most four valid connections is in RuleFamilies. */
  lemma RuleFamilyFrom(db: Database, a: FamilyNode, cs: seq<nat>)
    requires a in Anchors(db) && |cs| < MaxLevel && IsChain(ValidConnections(db), [a.ruleId] + cs)
    ensures Walk(a, cs) in RuleFamilies(db)
  {
    AnchorLevels(db);
    RoundComplete(ValidConnections(db), Anchors(db), a, cs);
    RoundInRuleFamilies(db, |cs| + 1, Walk(a, cs));
  }

  /**
   * The rows of RuleFamilies are exactly the rows reached from an anchor row along a
   * chain of valid connections of at most four links: the CTE follows every path from
   * every root, and nothing else, even when the connections form cycles.
   */
  lemma RuleFamiliesMember(db: Database, x: FamilyNode)
    ensures x in RuleFamilies(db) <==>
      exists a, cs :: a in Anchors(db) && |cs| < MaxLevel && IsChain(ValidConnections(db), [a.ruleId] + cs) && x == Walk(a, cs)
  {
    if x in RuleFamilies(db) {
      var a, cs := RuleFamilyOrigin(db, x);
    }
    if exists a, cs :: a in Anchors(db) && |cs| < MaxLevel && IsChain(ValidConnections(db), [a.ruleId] + cs) && x == Walk(a, cs) {
      var a, cs :| a in Anchors(db) && |cs| < MaxLevel && IsChain(ValidConnections(db), [a.ruleId] + cs) && x == Walk(a, cs);
      RuleFamilyFrom(db, a, cs);
    }
  }

  // ---------------------------------------------------------------------------
  // Chain paths
  // ---------------------------------------------------------------------------

  /** The chain path of the rule IDs `ids`: their decimal texts joined with " -> ". */
  function RenderPath(ids: seq<nat>): string {
    Join(Map(ids, NatToString), PathSeparator)
  }

  /** The rule IDs a chain path lists, read back from the texts between separators. */
  function PathIds(path: string): seq<nat> {
    Map(Split(path, PathSeparator), DigitsToNat)
  }

  /** Reading back a rendered chain path gives its rule IDs. */
  lemma PathRoundTrip(ids: seq<nat>)
    requires |ids| >= 1
    ensures PathIds(RenderPath(ids)) == ids
  {
    var texts := Map(ids, NatToString);
    forall p | p in texts ensures PathSeparator[0] !in p {
      var k :| 0 <= k < |texts| && texts[k] == p;
      assert AllDigits(p);
    }
    SplitJoin(texts, PathSeparator);
    forall k | 0 <= k < |ids| ensures DigitsToNat(texts[k]) == ids[k] {
      DecimalRoundTrip(ids[k]);
    }
  }

  lemma RenderSnoc(ids: seq<nat>, c: nat)
    requires |ids| >= 1
    ensures RenderPath(ids + [c]) == RenderPath(ids) + PathSeparator + NatToString(c)
  {
    assert Map(ids + [c], NatToString) == Map(ids, NatToString) + [NatToString(c)];
    JoinSnoc(Map(ids, NatToString), NatToString(c), PathSeparator);
  }

  /** A chain path of INT IDs takes at most 14 characters per ID. */
  lemma RenderLength(ids: seq<nat>)
    requires forall i :: i in ids ==> i <= IntMax
    ensures |RenderPath(ids)| <= 14 * |ids|
  {
    var texts := Map(ids, NatToString);
    forall p | p in texts ensures |p| <= 10 {
      var k :| 0 <= k < |texts| && texts[k] == p;
      assert ids[k] in ids;
      CastIdExact(ids[k]);
    }
    JoinLength(texts, PathSeparator, 10);
  }

  /**
   * Along a chain of INT IDs from an anchor row, the chain path is the rendered list of
   * the IDs (never cut by the VARCHAR(900) cast) and the parent is the previous ID.
   */
  lemma {:induction false} WalkPath(a: FamilyNode, cs: seq<nat>)
    requires a.level == 1 && a.parentRuleId == None && a.chainPath == NatToString(a.ruleId)
    requires a.ruleId <= IntMax && (forall c :: c in cs ==> c <= IntMax) && |cs| < MaxLevel
    ensures Walk(a, cs).chainPath == RenderPath([a.ruleId] + cs)
    ensures Walk(a, cs).parentRuleId == if cs == [] then None else Some(LastId(a.ruleId, cs[..|cs| - 1]))
    decreases |cs|
  {
    if cs == [] {
      assert [a.ruleId] + cs == [a.ruleId];
    } else {
      var init, c := cs[..|cs| - 1], cs[|cs| - 1];
      assert forall x :: x in init ==> x in cs;
      WalkPath(a, init);
      var ids := [a.ruleId] + init;
      InitLast(cs);
      ConsSnoc(a.ruleId, init, c);
      assert forall x :: x in ids ==> x == a.ruleId || x in init;
      assert c in cs;
      ExtendPath(Walk(a, init), ids, c);
    }
  }

  /** Extending a row whose chain path renders `ids` by an INT ID renders one ID more, uncut. */
  lemma ExtendPath(n: FamilyNode, ids: seq<nat>, c: nat)
    requires 1 <= |ids| < MaxLevel && n.chainPath == RenderPath(ids)
    requires c <= IntMax && forall x :: x in ids ==> x <= IntMax
    ensures Extend(n, c).chainPath == RenderPath(ids + [c])
  {
    RenderSnoc(ids, c);
    CastIdExact(c);
    assert forall x :: x in ids + [c] ==> x in ids || x == c;
    RenderLength(ids + [c]);
  }

  /** An anchor row of a table of INT IDs has level 1, no parent, itself as root and its own ID as chain path. */
  lemma AnchorOfInts(db: Database, a: FamilyNode)
    requires WellFormed(db) && a in Anchors(db)
    ensures a.level == 1 && a.parentRuleId == None && a.rootRuleId == a.ruleId
    ensures a.ruleId <= IntMax && a.chainPath == NatToString(a.ruleId)
  {
    RootsSpec(db);
    AnchorRowOfInts(Roots(db), a);
  }

  lemma AnchorRowOfInts(roots: seq<RuleDefinition>, a: FamilyNode)
    requires (forall r :: r in roots ==> r.id <= IntMax) && a in AnchorRows(roots)
    ensures a.level == 1 && a.parentRuleId == None && a.rootRuleId == a.ruleId
    ensures a.ruleId <= IntMax && a.chainPath == NatToString(a.ruleId)
  {
    var i :| 0 <= i < |AnchorRows(roots)| && AnchorRows(roots)[i] == a;
    assert roots[i] in roots;
    CastIdExact(roots[i].id);
  }

  /** In a table of INT IDs every ID of a chain of valid connections is an INT. */
  lemma ChainOfInts(db: Database, ids: seq<nat>)
    requires WellFormed(db) && |ids| >= 1 && ids[0] <= IntMax && IsChain(ValidConnections(db), ids)
    ensures forall c :: c in ids ==> c <= IntMax
  {
    forall k | 0 < k < |ids| ensures ids[k] <= IntMax {
      ConnectionEndsActive(db, Connection(ids[k - 1], ids[k]));
    }
  }

  /**
   * Every row of RuleFamilies, for INT rule IDs: its level is 1 to 5, it has a parent
   * exactly when its level is above 1, and its chain path lists `level` rule IDs that
   * start with its root, end with its own rule, follow valid connections and end in
   * its parent and itself. Its reference is the reference of its root's anchor row.
   */
  lemma RuleFamilyRow(db: Database, x: FamilyNode)
    requires WellFormed(db) && x in RuleFamilies(db)
    ensures 1 <= x.level <= MaxLevel
    ensures x.parentRuleId.None? <==> x.level == 1
    ensures var ids := PathIds(x.chainPath);
      && |ids| == x.level && x.chainPath == RenderPath(ids)
      && ids[0] == x.rootRuleId && ids[|ids| - 1] == x.ruleId
      && IsChain(ValidConnections(db), ids)
      && (x.level > 1 ==> x.parentRuleId == Some(ids[|ids| - 2]))
    ensures exists a :: a in Anchors(db) && a.ruleId == x.rootRuleId && a.familyReference == x.familyReference
  {
    var a, cs := RuleFamilyOrigin(db, x);
    AnchorOfInts(db, a);
    var ids := [a.ruleId] + cs;
    ChainOfInts(db, ids);
    assert forall c :: c in cs ==> c in ids;
    WalkPath(a, cs);
    PathRoundTrip(ids);
    LastIdAt(a.ruleId, cs);
    if cs != [] {
      LastIdAt(a.ruleId, cs[..|cs| - 1]);
      assert ([a.ruleId] + cs[..|cs| - 1])[|cs| - 1] == ids[|cs| - 1];
    }
  }

  /** Every row below level 5 is extended along every valid connection from its rule. */
  lemma RuleFamiliesClosed(db: Database, y: FamilyNode, e: Connection)
    requires y in RuleFamilies(db) && y.level < MaxLevel
    requires e in ValidConnections(db) && e.parent == y.ruleId
    ensures Extend(y, e.child) in RuleFamilies(db)
  {
    var a, cs := RuleFamilyOrigin(db, y);
    AnchorLevels(db);
    ChainExtend(ValidConnections(db), a.ruleId, cs, e.child);
    WalkSnoc(a, cs, e.child);
    RuleFamilyFrom(db, a, cs + [e.child]);
  }

  /**
   * Every row above level 1 extends a row one level below along a valid connection: it
   * has that row's rule as parent and inherits its root and its reference.
   */
  lemma RuleFamiliesParent(db: Database, x: FamilyNode) returns (y: FamilyNode)
    requires x in RuleFamilies(db) && x.level > 1
    ensures && y in RuleFamilies(db) && y.level == x.level - 1
            && Connection(y.ruleId, x.ruleId) in ValidConnections(db)
            && x.parentRuleId == Some(y.ruleId) && x.rootRuleId == y.rootRuleId
            && x.familyReference == y.familyReference && x == Extend(y, x.ruleId)
  {
    AnchorLevels(db);
    var k := RuleFamiliesRound(db, x);
    y := RoundParent(ValidConnections(db), Anchors(db), k, x);
    RoundInRuleFamilies(db, k - 1, y);
  }

  // ---------------------------------------------------------------------------
  // The final SELECT
  // ---------------------------------------------------------------------------

  /** The names the CASE expression gives the matter-type IDs '1' to '6'. */
  const KnownMatterTypes: seq<string> := ["Patent", "Trademark", "Design", "Utility Model", "Domain Name", "Unitary Patent"]

  /** CASE ra.MatterTypeID: the display name of a matter-type token. */
  function MatterTypeName(id: string): string {
    if id == "1" then "Patent"
    else if id == "2" then "Trademark"
    else if id == "3" then "Design"
    else if id == "4" then "Utility Model"
    else if id == "5" then "Domain Name"
    else if id == "6" then "Unitary Patent"
    else id
  }

  /** IDs '1' to '6' get the names of KnownMatterTypes in turn; every other token is shown as it is. */
  lemma MatterTypeNameSpec()
    ensures forall k :: 1 <= k <= 6 ==> MatterTypeName(NatToString(k)) == KnownMatterTypes[k - 1]
    ensures forall id :: (forall k :: 1 <= k <= 6 ==> id != NatToString(k)) ==> MatterTypeName(id) == id
  {
    assert NatToString(1) == "1" && NatToString(2) == "2" && NatToString(3) == "3";
    assert NatToString(4) == "4" && NatToString(5) == "5" && NatToString(6) == "6";
  }

  /**
   * STUFF((SELECT DISTINCT ', ' + name ... FOR XML PATH('')), 1, 2, ''): the distinct
   * names, each after ", ", without the first ", "; NULL when there is no name. The
   * order of a DISTINCT subquery is not fixed by SQL; the names are taken in string order.
   */
  function NameList(names: seq<string>): Option<string> {
    var distinct := SortBy(Dedup(names), StrLe);
    if distinct == [] then None
    else
      var xml := Concat(Map(distinct, n => ", " + n));
      assert xml == (", " + distinct[0]) + Concat(Map(distinct, n => ", " + n)[1..]);
      Some(xml[2..])
  }

  lemma {:induction false} PrefixedConcat(ds: seq<string>)
    requires |ds| >= 1
    ensures Concat(Map(ds, n => ", " + n)) == ", " + Join(ds, ", ")
    decreases |ds|
  {
    var m := Map(ds, n => ", " + n);
    if |ds| > 1 {
      assert m[1..] == Map(ds[1..], n => ", " + n);
      PrefixedConcat(ds[1..]);
    } else {
      assert m[1..] == [];
    }
  }

  /** sorted(set(xs)), and SELECT DISTINCT in string order: every text of `xs` once, in string order. */
  lemma SortedDistinct(xs: seq<string>)
    ensures var ds := SortBy(Dedup(xs), StrLe);
      NoDuplicates(ds) && SortedBy(ds, StrLe) && forall t :: t in ds <==> t in xs
  {
    var d := Dedup(xs);
    var ds := SortBy(d, StrLe);
    forall t ensures t in ds <==> t in xs {
      assert t in ds <==> t in multiset(ds);
      assert t in d <==> t in multiset(d);
    }
    StrLeOrder();
    SortBySorted(d, StrLe);
    PermutationNoDuplicates(d, ds);
  }

  /** The STUFF / FOR XML construction is the distinct names in order, joined with ", ". */
  lemma NameListJoin(names: seq<string>)
    ensures names == [] <==> NameList(names) == None
    ensures names != [] ==> NameList(names) == Some(Join(SortBy(Dedup(names), StrLe), ", "))
    ensures names != [] ==> var ds := SortBy(Dedup(names), StrLe);
      NoDuplicates(ds) && SortedBy(ds, StrLe) && forall n :: n in ds <==> n in names
  {
    var ds := SortBy(Dedup(names), StrLe);
    SortedDistinct(names);
    if names != [] {
      assert names[0] in ds;
      PrefixedConcat(ds);
    }
  }

  /** NameList in terms of the sorted distinct names, for empty and non-empty lists alike. */
  lemma NameListOf(names: seq<string>)
    ensures var ds := SortBy(Dedup(names), StrLe);
      && (names == [] <==> NameList(names) == None)
      && NoDuplicates(ds) && SortedBy(ds, StrLe) && (forall n :: n in ds <==> n in names)
      && NameList(names) == (if ds == [] then None else Some(Join(ds, ", ")))
  {
    NameListJoin(names);
    if names == [] {
      assert Dedup(names) == [];
    }
  }

  /** ra.RuleID = id, with a tblCountryMaster row for the jurisdiction token. */
  function CountryOf(db: Database, id: nat): Attribute -> bool {
    (a: Attribute) => a.ruleId == id && a.jurisdictionId in db.countryNames
  }

  /** cm.CountryName of a joined RuleAttributes row. */
  function CountryNameOf(db: Database): Attribute -> string {
    (a: Attribute) => if a.jurisdictionId in db.countryNames then db.countryNames[a.jurisdictionId] else ""
  }

  /** The country names of rule `id`'s jurisdiction tokens, one per RuleAttributes row, before DISTINCT. */
  function JurisdictionTexts(db: Database, id: nat): seq<string> {
    Map(Filter(RuleAttributes(db), CountryOf(db, id)), CountryNameOf(db))
  }

  /** The country names tblCountryMaster gives rule `id`'s jurisdiction tokens (the Jurisdictions column). */
  function JurisdictionNames(db: Database, id: nat): Option<string> {
    NameList(JurisdictionTexts(db, id))
  }

  /** `n` is the country name of a jurisdiction token of an active rule with ID `id`. */
  ghost predicate HasCountryName(db: Database, id: nat, n: string) {
    exists r, j :: r in db.rules && r.active && r.id == id && j in SplitStrings(r.jurisdiction)
      && j in db.countryNames && n == db.countryNames[j]
  }

  lemma JurisdictionTextsMembers(db: Database, id: nat)
    ensures forall n :: n in JurisdictionTexts(db, id) <==> HasCountryName(db, id, n)
  {
    var keep, name := CountryOf(db, id), CountryNameOf(db);
    RuleAttributesMembers(db);
    MapFilterMembers(RuleAttributes(db), keep, name);
    forall n ensures n in JurisdictionTexts(db, id) <==> HasCountryName(db, id, n) {
      if n in JurisdictionTexts(db, id) {
        var a :| a in RuleAttributes(db) && keep(a) && n == name(a);
        var r :| r in db.rules && r.active && r.id == a.ruleId
          && a.jurisdictionId in SplitStrings(r.jurisdiction) && a.matterTypeId in SplitStrings(r.matterType);
        assert a.jurisdictionId in db.countryNames && n == db.countryNames[a.jurisdictionId];
      }
      if HasCountryName(db, id, n) {
        var r, j :| r in db.rules && r.active && r.id == id && j in SplitStrings(r.jurisdiction)
          && j in db.countryNames && n == db.countryNames[j];
        var a := Attribute(id, j, SplitStrings(r.matterType)[0]);
        assert HasAttribute(db.rules, a);
        assert keep(a) && n == name(a);
      }
    }
  }

  /**
   * The Jurisdictions column of rule `id` is NULL exactly when no active rule with that ID
   * has a jurisdiction token listed in tblCountryMaster; otherwise it is the distinct
   * country names of those tokens, in string order, joined with ", ".
   */
  lemma JurisdictionNamesSpec(db: Database, id: nat)
    ensures JurisdictionNames(db, id) == None <==> forall n :: !HasCountryName(db, id, n)
    ensures var ds := SortBy(Dedup(JurisdictionTexts(db, id)), StrLe);
      && NoDuplicates(ds) && SortedBy(ds, StrLe)
      && (forall n :: n in ds <==> HasCountryName(db, id, n))
      && JurisdictionNames(db, id) == (if ds == [] then None else Some(Join(ds, ", ")))
  {
    var texts := JurisdictionTexts(db, id);
    JurisdictionTextsMembers(db, id);
    NameListOf(texts);
    if texts != [] {
      assert texts[0] in texts;
    }
  }

  /** ra.RuleID = id. */
  function OfRule(id: nat): Attribute -> bool {
    (a: Attribute) => a.ruleId == id
  }

  /** The CASE of the MatterType column applied to a RuleAttributes row. */
  function MatterTypeNameOf(): Attribute -> string {
    (a: Attribute) => MatterTypeName(a.matterTypeId)
  }

  /** The display names of rule `id`'s matter-type tokens, one per RuleAttributes row, before DISTINCT. */
  function MatterTypeTexts(db: Database, id: nat): seq<string> {
    Map(Filter(RuleAttributes(db), OfRule(id)), MatterTypeNameOf())
  }

  /** The display names of rule `id`'s matter-type tokens (the MatterType column). */
  function MatterTypeNames(db: Database, id: nat): Option<string> {
    NameList(MatterTypeTexts(db, id))
  }

  /** `n` is the display name of a matter-type token of an active rule with ID `id`. */
  ghost predicate HasMatterTypeName(db: Database, id: nat, n: string) {
    exists r, m :: r in db.rules && r.active && r.id == id && m in SplitStrings(r.matterType) && n == MatterTypeName(m)
  }

  lemma MatterTypeTextsMembers(db: Database, id: nat)
    ensures forall n :: n in MatterTypeTexts(db, id) <==> HasMatterTypeName(db, id, n)
  {
    var keep, name := OfRule(id), MatterTypeNameOf();
    RuleAttributesMembers(db);
    MapFilterMembers(RuleAttributes(db), keep, name);
    forall n ensures n in MatterTypeTexts(db, id) <==> HasMatterTypeName(db, id, n) {
      if n in MatterTypeTexts(db, id) {
        var a :| a in RuleAttributes(db) && keep(a) && n == name(a);
        var r :| r in db.rules && r.active && r.id == a.ruleId
          && a.jurisdictionId in SplitStrings(r.jurisdiction) && a.matterTypeId in SplitStrings(r.matterType);
        assert n == MatterTypeName(a.matterTypeId);
      }
      if HasMatterTypeName(db, id, n) {
        var r, m :| r in db.rules && r.active && r.id == id && m in SplitStrings(r.matterType) && n == MatterTypeName(m);
        var a := Attribute(id, SplitStrings(r.jurisdiction)[0], m);
        assert HasAttribute(db.rules, a);
        assert keep(a) && n == name(a);
      }
    }
  }

  /**
   * The MatterType column of rule `id` is NULL exactly when no active rule with that ID
   * exists (every split list has a token); otherwise it is the distinct display names of
   * its matter-type tokens, in string order, joined with ", ".
   */
  lemma MatterTypeNamesSpec(db: Database, id: nat)
    ensures MatterTypeNames(db, id) == None <==> forall n :: !HasMatterTypeName(db, id, n)
    ensures var ds := SortBy(Dedup(MatterTypeTexts(db, id)), StrLe);
      && NoDuplicates(ds) && SortedBy(ds, StrLe)
      && (forall n :: n in ds <==> HasMatterTypeName(db, id, n))
      && MatterTypeNames(db, id) == (if ds == [] then None else Some(Join(ds, ", ")))
  {
    var texts := MatterTypeTexts(db, id);
    MatterTypeTextsMembers(db, id);
    NameListOf(texts);
    if texts != [] {
      assert texts[0] in texts;
    }
  }

  /** A row of the query's result. */
  datatype FamilyRow = FamilyRow(
    familyReference: string,
    ruleId: nat,
    chainPath: string,
    ruleName: string,
    level: nat,
    jurisdictions: Option<string>,
    matterType: Option<string>)

  /** A row of RuleFamilies rf JOIN tblRuleDefination rd ON rd.ID = rf.RuleID. */
  datatype Joined = Joined(node: FamilyNode, rule: RuleDefinition)

  function JoinRules(nodes: seq<FamilyNode>, rules: seq<RuleDefinition>): seq<Joined>
    decreases |nodes|
  {
    if nodes == [] then []
    else Map(Filter(rules, (r: RuleDefinition) => r.id == nodes[0].ruleId), (r: RuleDefinition) => Joined(nodes[0], r)) + JoinRules(nodes[1..], rules)
  }

  lemma {:induction false} JoinRulesMembers(nodes: seq<FamilyNode>, rules: seq<RuleDefinition>)
    ensures forall j :: j in JoinRules(nodes, rules) <==> j.node in nodes && j.rule in rules && j.rule.id == j.node.ruleId
    decreases |nodes|
  {
    if nodes != [] {
      var n := nodes[0];
      var here := Filter(rules, (r: RuleDefinition) => r.id == n.ruleId);
      var row := Map(here, (r: RuleDefinition) => Joined(n, r));
      FilterMembers(rules, (r: RuleDefinition) => r.id == n.ruleId);
      JoinRulesMembers(nodes[1..], rules);
      forall j | j in row ensures j.node == n && j.rule in here {
        var k :| 0 <= k < |row| && row[k] == j;
      }
      forall j: Joined | j.node == n && j.rule in here ensures j in row {
        var k :| 0 <= k < |here| && here[k] == j.rule;
        assert row[k] == j;
      }
      assert forall x :: x in nodes <==> x == n || x in nodes[1..];
    }
  }

  /** The SELECT list for one joined row. */
  function Project(db: Database, j: Joined): FamilyRow {
    FamilyRow(j.node.familyReference, j.rule.id, j.node.chainPath, j.rule.activity, j.node.level,
      JurisdictionNames(db, j.rule.id), MatterTypeNames(db, j.rule.id))
  }

  function ProjectFor(db: Database): Joined -> FamilyRow {
    j => Project(db, j)
  }

  /** The rows of the final SELECT before WHERE and ORDER BY. */
  function AllRows(db: Database): seq<FamilyRow> {
    Map(JoinRules(RuleFamilies(db), db.rules), ProjectFor(db))
  }

  /** ORDER BY rf.FamilyReference, rf.Level. */
  predicate RowLe(a: FamilyRow, b: FamilyRow) {
    StrLt(a.familyReference, b.familyReference) || (a.familyReference == b.familyReference && a.level <= b.level)
  }

  lemma RowLeTotalPreorder()
    ensures TotalPreorder(RowLe)
  {
    StrLeOrder();
  }

  /** The optional filters of get_rule_families; an empty text stands for a filter not given. */
  datatype Filters = Filters(matterType: string, jurisdiction: string)

  /** col LIKE '%x%' under a case-insensitive collation; NULL never matches. */
  predicate Like(col: Option<string>, x: string) {
    col.Some? && ContainsIgnoreCase(col.value, x)
  }

  /** The filters, applied to the displayed MatterType and Jurisdictions columns. */
  predicate RowMatches(f: Filters, r: FamilyRow) {
    && (f.matterType == "" || Like(r.matterType, f.matterType))
    && (f.jurisdiction == "" || Like(r.jurisdictions, f.jurisdiction))
  }

  function MatchesFor(f: Filters): FamilyRow -> bool {
    r => RowMatches(f, r)
  }

  /** The rows of the query with the filters it evidently means, on the displayed columns, when it runs. */
  function GetRuleFamilies(db: Database, f: Filters): seq<FamilyRow> {
    SortBy(Filter(AllRows(db), MatchesFor(f)), RowLe)
  }

  /** The query with the intended filters, run: it fails when a family reference overflows. */
  function RunRuleFamilies(db: Database, f: Filters): Result<seq<FamilyRow>, QueryError> {
    if ReferenceOverflow(db) then Failure(ArithmeticOverflow) else Success(GetRuleFamilies(db, f))
  }

  /** The query stops with an overflow exactly from 100000 roots on, whatever the filters. */
  lemma RunRuleFamiliesOverflow(db: Database, f: Filters)
    ensures RunRuleFamilies(db, f) == Failure(ArithmeticOverflow) <==> |Roots(db)| >= 100000
    ensures |Roots(db)| < 100000 ==> RunRuleFamilies(db, f) == Success(GetRuleFamilies(db, f))
  {
    ReferenceOverflowIff(db);
  }

  /**
   * The result holds the rows of the final SELECT that match the filters, each as often as
   * the SELECT yields it, ordered by family reference and then by level.
   */
  lemma GetRuleFamiliesSpec(db: Database, f: Filters)
    ensures multiset(GetRuleFamilies(db, f)) == multiset(Filter(AllRows(db), MatchesFor(f)))
    ensures forall r :: r in GetRuleFamilies(db, f) <==> r in AllRows(db) && RowMatches(f, r)
    ensures SortedBy(GetRuleFamilies(db, f), RowLe)
  {
    FilterSortSpec(AllRows(db), MatchesFor(f));
  }

  /** Ordering the rows a predicate keeps. */
  lemma FilterSortSpec(rows: seq<FamilyRow>, keep: FamilyRow -> bool)
    ensures multiset(SortBy(Filter(rows, keep), RowLe)) == multiset(Filter(rows, keep))
    ensures forall r :: r in SortBy(Filter(rows, keep), RowLe) <==> r in rows && keep(r)
    ensures SortedBy(SortBy(Filter(rows, keep), RowLe), RowLe)
  {
    var kept := Filter(rows, keep);
    var sorted := SortBy(kept, RowLe);
    FilterMembers(rows, keep);
    RowLeTotalPreorder();
    SortBySorted(kept, RowLe);
    assert forall r :: r in sorted <==> r in multiset(sorted);
    assert forall r :: r in kept <==> r in multiset(kept);
  }

  /** With no filter, every row of the final SELECT is in the result. */
  lemma NoFiltersKeepAll(db: Database)
    ensures multiset(GetRuleFamilies(db, Filters("", ""))) == multiset(AllRows(db))
  {
    FilterAll(AllRows(db), r => RowMatches(Filters("", ""), r));
  }

  /** The rows of the result are rows of RuleFamilies joined with their rule. */
  lemma AllRowsOrigin(db: Database, r: FamilyRow)
    requires r in AllRows(db)
    ensures exists x, rd :: && x in RuleFamilies(db) && rd in db.rules && rd.id == x.ruleId
                            && r == Project(db, Joined(x, rd))
  {
    var js := JoinRules(RuleFamilies(db), db.rules);
    var k :| 0 <= k < |js| && AllRows(db)[k] == r;
    JoinRulesMembers(RuleFamilies(db), db.rules);
    assert js[k] in js;
  }

  /** Every RuleFamilies row joined with a rule of its ID reaches the final SELECT. */
  lemma AllRowsComplete(db: Database, x: FamilyNode, rd: RuleDefinition)
    requires x in RuleFamilies(db) && rd in db.rules && rd.id == x.ruleId
    ensures Project(db, Joined(x, rd)) in AllRows(db)
  {
    var js := JoinRules(RuleFamilies(db), db.rules);
    JoinRulesMembers(RuleFamilies(db), db.rules);
    var k :| 0 <= k < |js| && js[k] == Joined(x, rd);
    assert AllRows(db)[k] == Project(db, Joined(x, rd));
  }

  // ---------------------------------------------------------------------------
  // The filters as the query is written
  // ---------------------------------------------------------------------------

  /**
   * The errors the database reports: a column name the query cannot resolve, found before
   * anything runs, and the overflow of a CAST while it runs.
   */
  datatype QueryError = InvalidColumnName(column: string) | ArithmeticOverflow

  /** `MatterType LIKE '%x%'` as the WHERE clause resolves it: on rd's raw list of matter-type IDs. */
  predicate RawMatterTypeLike(f: Filters, j: Joined) {
    f.matterType == "" || ContainsIgnoreCase(j.rule.matterType, f.matterType)
  }

  function RawMatchFor(f: Filters): Joined -> bool {
    j => RawMatterTypeLike(f, j)
  }

  /**
   * The query of get_rule_families as written. The WHERE clause is evaluated over rf JOIN rd, before the
   * SELECT list, so it cannot see the SELECT's aliases: `MatterType` resolves to rd's raw
   * list of matter-type IDs, and `Jurisdictions` resolves to no column at all.
   */
  function GetRuleFamiliesAsWritten(db: Database, f: Filters): Result<seq<FamilyRow>, QueryError> {
    if f.jurisdiction != "" then Failure(InvalidColumnName("Jurisdictions"))
    else if ReferenceOverflow(db) then Failure(ArithmeticOverflow)
    else
      var kept := Filter(JoinRules(RuleFamilies(db), db.rules), RawMatchFor(f));
      Success(SortBy(Map(kept, ProjectFor(db)), RowLe))
  }

  /** Projecting and ordering the joined rows a predicate keeps. */
  lemma SelectSpec(js: seq<Joined>, keep: Joined -> bool, proj: Joined -> FamilyRow)
    ensures SortedBy(SortBy(Map(Filter(js, keep), proj), RowLe), RowLe)
    ensures forall r :: r in SortBy(Map(Filter(js, keep), proj), RowLe) <==> exists j :: j in js && keep(j) && r == proj(j)
  {
    var rows := Map(Filter(js, keep), proj);
    var result := SortBy(rows, RowLe);
    RowLeTotalPreorder();
    SortBySorted(rows, RowLe);
    forall r ensures r in result <==> r in rows {
      assert r in result <==> r in multiset(result);
      assert r in rows <==> r in multiset(rows);
    }
    MapFilterMembers(js, keep, proj);
  }

  /**
   * As written, any jurisdiction filter makes the query fail before it runs; otherwise it
   * overflows from 100000 roots on, and below that a matter-type filter keeps exactly the
   * rows whose rule's raw ID list contains the filter text.
   */
  lemma AsWrittenSpec(db: Database, f: Filters)
    ensures GetRuleFamiliesAsWritten(db, f) == Failure(InvalidColumnName("Jurisdictions")) <==> f.jurisdiction != ""
    ensures GetRuleFamiliesAsWritten(db, f) == Failure(ArithmeticOverflow) <==> f.jurisdiction == "" && |Roots(db)| >= 100000
    ensures GetRuleFamiliesAsWritten(db, f).Success? ==>
      && SortedBy(GetRuleFamiliesAsWritten(db, f).value, RowLe)
      && forall r :: r in GetRuleFamiliesAsWritten(db, f).value <==>
           exists j :: j in JoinRules(RuleFamilies(db), db.rules) && RawMatterTypeLike(f, j) && r == Project(db, j)
  {
    ReferenceOverflowIff(db);
    if f.jurisdiction == "" {
      AsWrittenRows(db, f);
    }
  }

  lemma AsWrittenRows(db: Database, f: Filters)
    requires f.jurisdiction == ""
    ensures var rows := SortBy(Map(Filter(JoinRules(RuleFamilies(db), db.rules), RawMatchFor(f)), ProjectFor(db)), RowLe);
      && SortedBy(rows, RowLe)
      && forall r :: r in rows <==> exists j :: j in JoinRules(RuleFamilies(db), db.rules) && RawMatterTypeLike(f, j) && r == Project(db, j)
  {
    var js := JoinRules(RuleFamilies(db), db.rules);
    var keep, proj := RawMatchFor(f), ProjectFor(db);
    SelectSpec(js, keep, proj);
    assert forall j :: keep(j) == RawMatterTypeLike(f, j) && proj(j) == Project(db, j);
  }

  /** Without filters the query as written and the corrected one give the same rows in the same order. */
  lemma AsWrittenWithoutFilters(db: Database)
    ensures GetRuleFamiliesAsWritten(db, Filters("", "")) == RunRuleFamilies(db, Filters("", ""))
  {
    var f := Filters("", "");
    var js := JoinRules(RuleFamilies(db), db.rules);
    FilterAll(js, RawMatchFor(f));
    FilterAll(AllRows(db), MatchesFor(f));
  }

  /** A rule with one jurisdiction and matter type 1 (Patent), and no links. */
  const PatentRule: RuleDefinition := RuleDefinition(1, "File application", true, "1", "1")

  const PatentDb: Database := Database([PatentRule], [], [], map["1" := "India"])

  lemma {:induction false} SingletonFilter<T>(x: T, p: T -> bool)
    ensures Filter([x], p) == if p(x) then [x] else []
  {
    assert [x][..0] == [];
  }

  lemma PairsSingleton(id: nat, j: string, m: string)
    ensures Pairs(id, [j], [m]) == [Attribute(id, j, m)]
  {
    assert [j][1..] == [];
    MapSingleton(m, (m': string) => Attribute(id, j, m'));
  }

  lemma AttributesOfSingleton(r: RuleDefinition)
    ensures AttributesOf([r]) == if r.active then Pairs(r.id, SplitStrings(r.jurisdiction), SplitStrings(r.matterType)) else []
  {
    assert [r][1..] == [];
  }

  lemma PatentAttributes()
    ensures RuleAttributes(PatentDb) == [Attribute(1, "1", "1")]
  {
    NoOccurrence("1", ",");
    AttributesOfSingleton(PatentRule);
    PairsSingleton(1, "1", "1");
    DedupSingleton(Attribute(1, "1", "1"));
  }

  /** The example has no outcomes, so it has no links. */
  lemma PatentConnections()
    ensures ValidConnections(PatentDb) == []
  {
    PatentAttributes();
    assert Links(PatentDb.outcomes, PatentDb.conditions, RuleAttributes(PatentDb)) == [];
  }

  /** A table of one rule that is a root has one anchor row, numbered 1. */
  lemma AnchorsSingleton(db: Database, r: RuleDefinition)
    requires db.rules == [r] && IsRoot(ValidConnections(db), r)
    ensures Roots(db) == [r] && Anchors(db) == [AnchorNode(r, 1)]
  {
    assert [r][..0] == [];
    assert RootCandidates(ValidConnections(db), [r]) == [r];
    SortSingleton(r, IdLe);
  }

  /** The Patent rule has no links, so it is the one family: a single anchor row. */
  lemma PatentFamilies()
    ensures RuleFamilies(PatentDb) == [AnchorNode(PatentRule, 1)]
  {
    var anchor := AnchorNode(PatentRule, 1);
    PatentConnections();
    assert !HasIncoming([], 1);
    AnchorsSingleton(PatentDb, PatentRule);
    NextRoundStep([], [anchor]);
    assert Step([], [anchor]) == [];
  }

  lemma PatentMatterType()
    ensures MatterTypeNames(PatentDb, 1) == Some("Patent")
  {
    var attr := Attribute(1, "1", "1");
    PatentAttributes();
    SingletonFilter(attr, OfRule(1));
    MapSingleton(attr, MatterTypeNameOf());
    assert MatterTypeTexts(PatentDb, 1) == ["Patent"];
    DedupSingleton("Patent");
    NameListJoin(["Patent"]);
  }

  /** The Patent rule is the one root, so the query does not overflow. */
  lemma PatentRoots()
    ensures Roots(PatentDb) == [PatentRule] && !ReferenceOverflow(PatentDb)
  {
    PatentConnections();
    assert !HasIncoming([], 1);
    AnchorsSingleton(PatentDb, PatentRule);
    ReferenceOverflowIff(PatentDb);
  }

  /** The family joined with the rule table: one row. */
  lemma PatentJoined()
    ensures JoinRules(RuleFamilies(PatentDb), PatentDb.rules) == [Joined(AnchorNode(PatentRule, 1), PatentRule)]
  {
    PatentFamilies();
    JoinSingleton(AnchorNode(PatentRule, 1), PatentRule);
  }

  lemma JoinSingleton(n: FamilyNode, r: RuleDefinition)
    requires r.id == n.ruleId
    ensures JoinRules([n], [r]) == [Joined(n, r)]
  {
    SingletonFilter(r, (r': RuleDefinition) => r'.id == n.ruleId);
    MapSingleton(r, (r': RuleDefinition) => Joined(n, r'));
    assert [n][1..] == [];
  }

  /** As written, the filter "Patent" looks for the text in the raw list "1" and keeps nothing. */
  lemma PatentAsWritten()
    ensures GetRuleFamiliesAsWritten(PatentDb, Filters("Patent", "")) == Success([])
  {
    var f := Filters("Patent", "");
    var joined := Joined(AnchorNode(PatentRule, 1), PatentRule);
    PatentJoined();
    PatentRoots();
    assert !ContainsIgnoreCase("1", "Patent");
    SingletonFilter(joined, RawMatchFor(f));
  }

  /** On the displayed column, the filter "Patent" keeps the Patent rule's row. */
  lemma PatentCorrected()
    ensures GetRuleFamilies(PatentDb, Filters("Patent", "")) == [Project(PatentDb, Joined(AnchorNode(PatentRule, 1), PatentRule))]
    ensures Project(PatentDb, Joined(AnchorNode(PatentRule, 1), PatentRule)).matterType == Some("Patent")
  {
    var f := Filters("Patent", "");
    var row := Project(PatentDb, Joined(AnchorNode(PatentRule, 1), PatentRule));
    PatentAllRows();
    PatentMatterType();
    ContainsIgnoreCaseSelf("Patent");
    assert RowMatches(f, row);
    SingletonFilter(row, MatchesFor(f));
    SortSingleton(row, RowLe);
  }

  /** The final SELECT over the Patent rule yields the one joined row, projected. */
  lemma PatentAllRows()
    ensures AllRows(PatentDb) == [Project(PatentDb, Joined(AnchorNode(PatentRule, 1), PatentRule))]
  {
    PatentJoined();
    MapSingleton(Joined(AnchorNode(PatentRule, 1), PatentRule), ProjectFor(PatentDb));
  }

  /**
   * The matter-type filter "Patent" finds the Patent rule when it is applied to the displayed
   * MatterType column, but finds nothing as written, because the raw ID list "1" does not
   * contain "Patent".
   */
  lemma MatterTypeFilterFinding()
    ensures GetRuleFamiliesAsWritten(PatentDb, Filters("Patent", "")) == Success([])
    ensures |GetRuleFamilies(PatentDb, Filters("Patent", ""))| == 1
    ensures GetRuleFamilies(PatentDb, Filters("Patent", ""))[0].matterType == Some("Patent")
  {
    PatentAsWritten();
    PatentCorrected();
  }

  /** dbo.SplitStrings cuts "1, 2" at the comma without trimming: the second token keeps its space. */
  lemma SplitUntrimmed()
    ensures SplitStrings("1, 2") == ["1", " 2"]
  {
    var s := "1" + "," + " 2";
    FirstOccurrenceAfter("1", ",", " 2");
    NoOccurrence(" 2", ",");
    assert s == "1, 2";
    assert s[..1] == "1" && s[2..] == " 2";
    assert Split(s, ",") == [s[..1]] + Split(s[2..], ",");
  }

  /** Rule 1 lists matter types "1, 2"; rule 2 lists "2"; an outcome of rule 1 is a condition of rule 2. */
  const FilingRule: RuleDefinition := RuleDefinition(1, "File", true, "1", "1, 2")
  const ResponseRule: RuleDefinition := RuleDefinition(2, "Respond", true, "1", "2")
  const UntrimmedDb: Database := Database([FilingRule, ResponseRule], [Outcome(1, "Filed")], [Condition(2, "Filed")], map[])

  lemma UntrimmedNoPair()
    ensures !ShareAPair(UntrimmedDb, 1, 2)
  {
    NoOccurrence("2", ",");
    SplitUntrimmed();
    forall r1, r2, m | r1 in UntrimmedDb.rules && r2 in UntrimmedDb.rules && r1.id == 1 && r2.id == 2
      && m in SplitStrings(r1.matterType)
      ensures m !in SplitStrings(r2.matterType)
    {
      assert r1 == FilingRule && r2 == ResponseRule;
    }
  }

  /** A label that meets a value is not enough: the untrimmed token " 2" of "1, 2" is not the token "2". */
  lemma UntrimmedTokensFinding()
    ensures LabelMeetsValue(UntrimmedDb, 1, 2) && Connection(1, 2) !in ValidConnections(UntrimmedDb)
  {
    assert Outcome(1, "Filed") in UntrimmedDb.outcomes && Condition(2, "Filed") in UntrimmedDb.conditions;
    UntrimmedNoPair();
    ValidConnectionIff(UntrimmedDb, 1, 2);
  }
}
