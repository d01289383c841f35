# Rule families of the IP rule engine, in Dafny

This project models the core of the IP Rule Family Analyzer. That core has two parts.

The first is the rule-family query `get_rule_families` (query_handler.py), which is a recursive SQL common table expression:

- **RuleAttributes** lists the (jurisdiction ID, matter-type ID) pairs of every active rule. It splits the rule's comma-separated lists with `dbo.SplitStrings`.
- **ValidConnections** links a parent rule to a child rule. A link exists when an outcome label of the parent equals a condition value of the child, and the two rules share one (jurisdiction, matter type) pair.
- **RuleFamilies** starts one family for each active rule that no link ends at. Families are numbered `RF-00001`, `RF-00002`, … in rule ID order. Each chain path is extended along the links while its level is below 5, and the path is rendered as `id -> id -> …`.
- The **final SELECT** joins every chain row with its rule. It adds the rule's country names and matter-type names as comma-separated lists, applies the optional filters, and orders the rows by family reference and level.

The second part is the dashboard logic of app.py:

- `get_family_references`: picks families by rule ID, by rule name or by outcome text.
- The rule selector's `[ID] Activity` display names and their parse.
- The conjunctive row mask of `main`, and-ed in place one criterion at a time.
- `get_dashboard_metrics`: the distinct jurisdictions and matter types, and the counts of actions and tasks.
- `truncate_text`.

Module layout:

- `family_resolver.dfy` (module `FamilyResolver`) models query_handler.py.
- `dashboard.dfy` (module `Dashboard`) models app.py.
- `text.dfy`, `decimal.dfy`, `seqs.dfy` and `wrappers.dfy` hold the shared vocabulary:
  - Python's and SQL's `split`, `strip`, `join` and case-insensitive containment;
  - decimal text of IDs;
  - pandas' `unique()` (first-appearance order), filtering, and a sort by a total preorder;
  - `Option` and `Result`.

The CTE is evaluated the way the database evaluates a recursive CTE. The anchor rows come first, then rounds of the recursive member, each round over the rows of the round before. The main theorem is `RuleFamiliesMember`. It says the rows of RuleFamilies are exactly the walks of at most four valid connections from an anchor row, even when the connections form cycles. Around it sit facts about each row: its chain path reads back as its rule IDs, it starts at its root, and it follows valid connections. While there are fewer than 100000 roots, the family references are distinct and sort in root-ID order. `ROW_NUMBER()` returns a BIGINT, and from rank 100000 on its decimal text no longer fits VARCHAR(5). SQL Server writes `*` for an INT that does not fit, but for a BIGINT it stops the statement with an arithmetic overflow. So from 100000 roots on the query fails (`ReferenceOverflowIff`, `RunRuleFamiliesOverflow`, `AsWrittenSpec`).

In four places the code behaves differently from what one would expect, and the model follows the code:

- **Tokens are not trimmed.** One would expect the tokens of a comma-separated list to be trimmed; the query does not trim them. It uses `dbo.SplitStrings` and compares its items without trimming, so a list `"1, 2"` yields the token `" 2"`. `UntrimmedTokensFinding` shows a label match that then makes no link. (The definition of `dbo.SplitStrings` is not part of this model; it is taken to keep spaces.)
- **Rule IDs match only one-ID paths.** One would expect a rule ID to be found anywhere in a chain path. `get_family_references` splits the path at `"->"` and keeps the spaces, and the query joins IDs with `" -> "`. So on such a path an ID matches only a path that is that one ID (`RuleIdMatchOnRenderedPath`).
- **Display columns are the row's own rule's.** One might expect the Jurisdictions/MatterType display columns to describe the family's root. The query computes them for each row's own rule (`ra.RuleID = rd.ID`).
- **Tokens are not checked for being numeric.** One would expect jurisdiction and matter-type tokens to be IDs; they are compared as text.

## Model

| member | source | states |
|---|---|---|
| FamilyResolver.RuleAttributesMembers | query_handler.py:3-12 | a (rule, jurisdiction, matter type) triple is in RuleAttributes exactly when an active rule with that ID lists both tokens in its split lists |
| FamilyResolver.SharesPairIff | query_handler.py:19-27 | the EXISTS test over RuleAttributes holds exactly when an active parent rule and an active child rule list one identical jurisdiction token and one identical matter-type token |
| FamilyResolver.ValidConnectionIff | query_handler.py:13-28 | p -> c is a valid connection exactly when an outcome label of p equals a condition value of c and the two rules share a pair; both directions |
| FamilyResolver.ConnectionEndsActive | query_handler.py:11-27 | both ends of every valid connection are active rules of the table |
| FamilyResolver.RootsSpec | query_handler.py:35-41 | the roots are a permutation of the active rules without an incoming link, in ascending ID order, and nothing else |
| FamilyResolver.AnchorsSpec | query_handler.py:30-41 | the i-th anchor row is the i-th root with level 1, no parent, itself as root, reference of rank i+1 and (for INT IDs) its own ID as chain path |
| FamilyResolver.AnchorIff | query_handler.py:37-41 | a rule starts a family exactly when it is active and has no incoming valid connection |
| FamilyResolver.AnchorIdsDistinct | query_handler.py:30-41 | when tblRuleDefination's IDs are unique, no two anchor rows are for the same rule |
| FamilyResolver.OneReferencePerRoot | query_handler.py:30-41 | with unique IDs and fewer than 100000 roots (the query fails otherwise), two anchor rows share a rule exactly when they share a reference: each root starts one family |
| FamilyResolver.FamilyReferenceRank | query_handler.py:35 | below rank 100000 the reference is "RF-" and five digits that read back as the rank |
| FamilyResolver.FamilyReferenceInjective | query_handler.py:35 | distinct ranks below 100000 give distinct references |
| FamilyResolver.FamilyReferenceOrder | query_handler.py:35 | references of ranks below 100000 sort as text in rank order, so ORDER BY FamilyReference orders families by root ID |
| FamilyResolver.FamilyReferenceOverflow | query_handler.py:35 | the BIGINT rank's cast to VARCHAR(5) overflows exactly when the rank is 100000 or more; when it succeeds the reference is "RF-" and the last five characters of "00000" and the rank's text |
| FamilyResolver.ReferenceOverflowIff | query_handler.py:30-41 | some root's rank overflows its cast exactly when there are 100000 roots or more |
| FamilyResolver.AnchorReferencesDistinct | query_handler.py:35 | with fewer than 100000 roots no two families share a reference |
| FamilyResolver.CastIdExact | query_handler.py:36 | an INT ID has at most ten digits, so its VARCHAR(10) cast is its decimal text |
| FamilyResolver.Walk | query_handler.py:45-51 | the row reached along k links has level raised by k, the last ID as rule, and the root and reference of its start |
| FamilyResolver.StepMembers | query_handler.py:45-54 | a recursion round holds exactly the extensions of previous-round rows below level 5 along every link from their rule |
| FamilyResolver.StepAtMaxLevel | query_handler.py:54 | rows of level 5 yield no rows, so the recursion ends after the fifth round even on cyclic links |
| FamilyResolver.RoundSound | query_handler.py:29-54 | every row of recursion round l is the walk from an anchor row along a chain of l - 1 links |
| FamilyResolver.RoundComplete | query_handler.py:29-54 | every walk from an anchor row along a chain of fewer than five links is a row of the round one past its length |
| FamilyResolver.RoundParent | query_handler.py:45-53 | a row above level 1 extends a row of the previous round along a link, taking that row's rule as parent |
| FamilyResolver.RuleFamiliesMember | query_handler.py:29-55 | a row is in RuleFamilies exactly when it is reached from an anchor row along a chain of at most four valid connections |
| FamilyResolver.RuleFamiliesClosed | query_handler.py:45-54 | every row below level 5 is extended along every valid connection from its rule |
| FamilyResolver.RuleFamiliesParent | query_handler.py:45-53 | every row above level 1 extends a row one level below along a valid connection, with that row's rule as parent and its root and reference |
| FamilyResolver.RuleFamilyRow | query_handler.py:29-55 | for INT IDs, each row has level 1..5 and a parent exactly above level 1; its chain path lists level IDs, from its root to its rule, following valid connections and ending in parent and rule; its reference is its root anchor's |
| FamilyResolver.WalkPath | query_handler.py:36-51 | along a chain of INT IDs the chain path is the " -> "-joined IDs, never cut by VARCHAR(900), and the parent is the previous ID |
| FamilyResolver.PathRoundTrip | query_handler.py:51 | splitting a rendered chain path at " -> " and reading the pieces gives back its IDs |
| FamilyResolver.RenderLength | query_handler.py:51 | a chain path of INT IDs takes at most 14 characters per ID |
| FamilyResolver.MatterTypeNameSpec | query_handler.py:71-79 | tokens '1' to '6' get the names Patent … Unitary Patent in turn, every other token is shown as it is |
| FamilyResolver.NameListJoin | query_handler.py:62-83 | the STUFF / FOR XML list is NULL exactly for no names, else the distinct names, sorted, each once, joined with ", " |
| FamilyResolver.JurisdictionNamesSpec | query_handler.py:62-68 | the Jurisdictions column is NULL exactly when no active rule with the ID has a token in tblCountryMaster; otherwise it is the distinct country names of its tokens, sorted, joined with ", " |
| FamilyResolver.JurisdictionTextsMembers | query_handler.py:63-66 | the names before DISTINCT are exactly the country names of the active rule's jurisdiction tokens |
| FamilyResolver.MatterTypeNamesSpec | query_handler.py:69-82 | the MatterType column is NULL exactly when no active rule has the ID; otherwise it is the distinct CASE names of its matter-type tokens, sorted, joined with ", " |
| FamilyResolver.MatterTypeTextsMembers | query_handler.py:70-81 | the names before DISTINCT are exactly the CASE names of the active rule's matter-type tokens |
| FamilyResolver.RunRuleFamiliesOverflow | query_handler.py:2-98 | the query fails with an arithmetic overflow exactly from 100000 roots on, whatever the filters, and otherwise returns its rows |
| FamilyResolver.GetRuleFamiliesSpec | query_handler.py:56-98 | the result is a permutation of the joined rows the filters keep, every such row is in it, and it is ordered by reference then level |
| FamilyResolver.NoFiltersKeepAll | query_handler.py:88-98 | without filters the result is a permutation of all joined rows |
| FamilyResolver.AllRowsOrigin | query_handler.py:84-85 | every result row is a RuleFamilies row joined with a rule of that ID |
| FamilyResolver.AllRowsComplete | query_handler.py:84-85 | every RuleFamilies row joined with a rule of its ID is a row of the final SELECT |
| FamilyResolver.AsWrittenSpec | query_handler.py:88-96 | as written, the query fails with an invalid column name exactly when a jurisdiction filter is given, before it runs; otherwise it fails with an overflow exactly from 100000 roots on; if it succeeds it is ordered and keeps exactly the rows whose rule's raw matter-type ID list contains the filter text |
| FamilyResolver.AsWrittenRows | query_handler.py:92-96 | as written and with no jurisdiction filter, the result is ordered and holds exactly the projected joined rows whose raw matter-type ID list contains the filter text |
| FamilyResolver.AsWrittenWithoutFilters | query_handler.py:88-98 | without filters the query as written and the corrected one give the same result: the same rows in the same order, or the same overflow |
| FamilyResolver.MatterTypeFilterFinding | query_handler.py:90-91 | on a one-rule Patent table, the filter "Patent" yields no row as written and the Patent row on the displayed column |
| FamilyResolver.SplitUntrimmed | query_handler.py:9-10 | splitting "1, 2" at commas keeps the space: ["1", " 2"] |
| FamilyResolver.UntrimmedTokensFinding | query_handler.py:9-27 | a rule listing "1, 2" and a rule listing "2" whose label meets a value are not linked |
| Dashboard.GetFamilyReferencesSpec | app.py:63-70 | the references are distinct and are exactly those of the rows the first given selector picks |
| Dashboard.SelectorPriority | app.py:63-70 | a rule ID hides the name and outcome, a name hides the outcome, and no selector gives the empty result |
| Dashboard.OutcomeSelector | app.py:68-69 | the outcome selector picks rows whose outcome contains the text ignoring case; a missing outcome never matches |
| Dashboard.RenderedPathTokens | app.py:65 | splitting a " -> "-joined path at "->" gives the ID texts padded with a space on their inner sides |
| Dashboard.RuleIdMatchOnRenderedPath | app.py:64-65 | on a path rendered as the query renders it, an ID's text is a piece exactly when the path is that one ID |
| Dashboard.ParseSelectionFails | app.py:121-122 | nothing is selected exactly for the empty text, and the parse raises IndexError exactly for a non-empty text without ']' |
| Dashboard.ParseDisplayName | app.py:121-122 | parsing the display name "[ID] Activity" of line 51 gives the ID's text, which reads back as the ID, and the stripped activity, when the activity holds no ']' |
| Dashboard.AndMask | app.py:140-145 | each mask entry becomes its old value and the series entry, in place |
| Dashboard.FilterResults | app.py:132-147 | the rows left by the all-true mask and-ed with each given criterion are the rows of the report that Keep accepts, in order |
| Dashboard.FilterResultsMembers | app.py:134-147 | a row is kept exactly when it is in the report, lies in a selected family if a rule ID or outcome is given, and its Jurisdictions (unless 'All') and MatterType cells contain the given texts ignoring case |
| Dashboard.NoCriteriaKeepAll | app.py:132-147 | with no criterion (jurisdiction 'All') every row is kept |
| Dashboard.FilterResultsOrder | app.py:147 | the filtered rows are a subsequence of the report |
| Dashboard.SummarySpec | app.py:17-18 | a summary of at least one cell splits at ", " into the stripped comma-separated pieces of the cells, each once, in string order |
| Dashboard.ColumnSummary | app.py:17-18 | the summary of a column without missing cells lists the stripped pieces of its rows' cells, distinct and sorted |
| Dashboard.CountSpec | app.py:19-20 | the count of a rule type is how often the RuleType column holds exactly that text |
| Dashboard.CountsBounded | app.py:19-20 | Actions plus Tasks is at most the number of rows |
| Dashboard.DashboardMetricsFailure | app.py:17-18 | the metrics raise exactly when a Jurisdictions or MatterType cell is missing |
| Dashboard.DashboardMetricsSpec | app.py:15-21 | otherwise Actions and Tasks are the counts of 'Action' and 'Task' rows, and each summary lists its column's distinct stripped pieces in string order |
| Dashboard.Truncate | app.py:152-153 | a text within the limit is unchanged; a longer one becomes its first max_length characters followed by "..." |
| Dashboard.TruncateIdempotent | app.py:152-153 | truncating a truncated text changes nothing |
| Dashboard.TruncateDefault | app.py:152-153 | with the default limit of 30, at most 30 characters are shown whole and longer texts become 30 characters and "..." |

## Left out

- SQL Server collation is not modelled. Comparisons with `=` are exact, with no case folding and no ignored trailing spaces. `LIKE '%x%'` is case-insensitive containment, with no `%`, `_` or `[` wildcards inside `x`.
- Quotes and wildcards inside interpolated filter values are not modelled. Filter values are treated as plain text that needs no escaping.
- pandas' `str.contains` is treated as plain case-insensitive substring search; its regular-expression semantics are not modelled.
- The key of tblRuleDefination is not part of the table model. A table with two rows of one ID gets two anchor rows, with two references, for that rule, as SQL gives on a table without a key. `UniqueIds` states the key where a lemma needs it (`AnchorIdsDistinct`, `OneReferencePerRoot`).
- Case folding covers ASCII letters only.
- The order of `SELECT DISTINCT … FOR XML PATH('')` is not fixed by SQL. The model lists the names in ascending code-point order.
- ORDER BY leaves the order of rows with the same reference and level open. The model keeps the order in which the recursion produces them.
- The definition of `dbo.SplitStrings` is not part of this model. It is taken to cut at every comma and keep the spaces. It is also taken to give one empty token for an empty list (`Split("", ",") == [""]`). So two active rules with empty Jurisdiction lists and a common matter-type token share the pair ("", m) and can be linked; if the real function yields no rows for an empty list, such rules are not linked.
- `tblCountryMaster` is an abstract map from jurisdiction token to country name, matched on the exact token text. The type conversion in its join is not modelled. app.py:57 casts `c.ID` to VARCHAR, which suggests the column is an INT. If it is, `cm.ID = ra.JurisdictionID` (query_handler.py:65) converts the token to a number: `" 2"` then finds country 2, where the model finds none, and a non-numeric token makes the whole query fail.
- Rule IDs are non-negative and bounded by SQL Server's INT only where a lemma needs it (`WellFormed`). NULL columns of tblRuleDefination are not modelled.
- The dashboard works on the rows of `dbo.RuleHierarchyReport`, a stored procedure that is not part of this model. Its rows are an input, and its chain paths are assumed to be rendered as the rule-family query renders them.
- `get_jurisdictions`, `get_filtered_options`, the matter-type list query and `get_db_connection` are not modelled. They are database reads and a connection.
- The Streamlit UI and the CSV export are not modelled. They are presentation and are outside the modelled core. No date-formula evaluator appears in app.py or query_handler.py, so none is modelled.
- The exception handler of `main` (app.py:184) is not modelled. The errors it would catch are results: `Failure(IndexError)` and `Failure(MissingValue)`. `main` reads its rows from `dbo.RuleHierarchyReport` (app.py:130) and never calls `get_rule_families`. So the failures of that query, `Failure(InvalidColumnName)` and `Failure(ArithmeticOverflow)`, reach the caller of `get_rule_families`, which is not part of this model.
- query_handler.py imports nothing, yet `get_rule_families` calls `pd.read_sql` (query_handler.py:100). As shown, the module raises NameError on every call, before any SQL runs. The model gives the result of the SQL query (`GetRuleFamiliesAsWritten`, `RunRuleFamilies`), as it would be with `import pandas as pd` in place. The connection and reading the result into a DataFrame are not modelled.
- The overflow of the BIGINT cast at query_handler.py:35 follows SQL Server's documented conversion rules: only the INT, SMALLINT and TINYINT types are written as `*`. The query's text alone does not settle this. The model fails the query from 100000 roots on, whatever the filters. Whether SQL Server computes the reference of a row its WHERE clause then drops depends on its plan.
- Dashboard.CountSpec: a missing RuleType cell is not modelled. RuleType is always text, so a NaN cell in the source, which equals no text, is not represented.

## Findings

| source | as written | input that shows it | evidently intended | confidence | as-written member | corrected member |
|---|---|---|---|---|---|---|
| query_handler.py:88-96 | `MatterType LIKE '%x%'` is in the WHERE clause, which cannot see SELECT aliases. `MatterType` resolves to the raw ID list of tblRuleDefination. | one active rule with MatterType '1' and filter matter_type='Patent': no row | filter on the displayed MatterType column, which holds 'Patent' | high; not executed | FamilyResolver.MatterTypeFilterFinding | FamilyResolver.GetRuleFamiliesSpec |
| query_handler.py:92-93 | `Jurisdictions LIKE '%x%'` names a SELECT alias that no table of the FROM clause has. | any jurisdiction filter: invalid column name 'Jurisdictions' | filter on the displayed Jurisdictions column | high; not executed | FamilyResolver.AsWrittenSpec | FamilyResolver.GetRuleFamiliesSpec |
