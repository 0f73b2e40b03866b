# Campaign dimension analysis: a verified model of the data processor

`data_processor.py` is the engine of a small advertising-report tool. It
takes a spreadsheet of ad campaigns and finds three dimensions in each
campaign name "ParentCode Pattern Attribute": the first, second and third
whitespace-separated tokens, with "未分类" (unclassified) when a token is
missing. It then aggregates the numeric columns by one dimension (single
mode, which adds the derived metrics CTR, CPC, ROAS, ACoS, CVR and CPA) or
by an ordered pair of dimensions (cross mode). It also formats metric
values for display and validates an uploaded frame.

This project models that engine in Dafny and proves properties of the
model. It also models the drill-down of `app.py`: keep the rows with one
dimension value, then aggregate them by that dimension.

Modules, in dependency order:

- `Wrappers`: `Option` and `Result`.
- `Text`: `str.split()`, `' '.join`, and Python's string order.
- `Tables`: the data frame.
  - A `Table` is a value: column names plus one map per row.
  - A `Frame` class models the frame that the code updates in place with `df[name] = values`.
- `DimensionExtractor`: `extract_parent_code`, `extract_pattern`, `extract_attribute` and `extract_all_dimensions`.
- `Grouping` and `GroupTables`: `groupby(...).agg(sum).reset_index()`.
  - The group keys are ascending and distinct.
  - The rows of each group are summed.
- `DimensionSummary`: `get_dimension_summary`.
- `Formatting`: `format_value`, plus the float values a pandas division can give (finite, ±inf, NaN).
- `Aggregation`: `aggregate_single`.
  - One method follows the function's nested loop that resolves the metric roles through the synonym table, with the inner `break`.
  - Another method turns the six consecutive `if` blocks that add the derived columns into a loop over the fixed list `MetricOrder`, one in-place column assignment per active metric.
  - Each method is proved equal to a specification function.
  - With no column left to sum, pandas' `agg({})` raises, and both modes return that error.
- `SingleMode`: properties of single mode, and the drill-down.
- `CrossMode`: `aggregate_cross`.
- `Validation`: `validate_data`.
- `Examples`: the worked examples from the doc strings, and the edge cases of the derived metrics, as lemmas.

The model follows the code. Three intentions one might read into the tool are not what the code does:

- One might expect that a zero denominator shows "-". The code shows "inf" or "-inf" when the numerator is non-zero; only 0/0 gives "-". This is `Aggregation.MetricText`, `Examples.ZeroSalesCost` and `Examples.NoTrafficRate`.
- One might expect Spend 50 and Sales 0 to show "-" for both ROAS and ACoS. The code shows ROAS "0.00x", a finite zero, and ACoS "inf%". These are `Examples.ZeroSalesReturn` and `Examples.ZeroSalesCost`.
- One might expect the validator to accept both campaign columns that extraction accepts. It checks only the English 'Campaign Name'. A frame whose campaign column is '广告活动' is reported invalid. This is `Validation.ChineseCampaignColumnRejected`.

## Model

| member | source | states |
|---|---|---|
| Text.Split | data_processor.py:24 | every part of `split()` is a non-empty run of non-whitespace characters; where it cuts is stated by SplitSeparated, SplitToken and SplitSkipsSpace |
| Text.SplitJoin | data_processor.py:24 | splitting undoes joining tokens with single spaces: `Split(Join(parts)) == parts` |
| Text.SplitKeepsNonSpace | data_processor.py:24 | the tokens, concatenated, are exactly the non-whitespace characters of the input, in order |
| Text.SplitSkipsSpace | data_processor.py:24 | leading whitespace does not change the split |
| Text.SplitSeparated | data_processor.py:24 | any non-empty run of whitespace, of any kind and length, ends a token: a token, a run of whitespace and a rest split into the token followed by the parts of the rest |
| Text.SplitToken | data_processor.py:24 | a token with no whitespace around it splits into itself |
| Text.StrLtTotal | data_processor.py:238 | the string order used for sorting is total |
| Text.StrLtTransitive | data_processor.py:238 | the string order is transitive |
| Text.StrLtIrreflexive | data_processor.py:238 | the string order is strict |
| DimensionExtractor.ExtractToken | data_processor.py:15-58 | token k if the cell is a string with more than k tokens, otherwise "未分类"; the result is always a token |
| DimensionExtractor.ParentCode | data_processor.py:15-27 | the first token of a string campaign name, else "未分类" |
| DimensionExtractor.Pattern | data_processor.py:30-42 | the second token, else "未分类" |
| DimensionExtractor.Attribute | data_processor.py:45-58 | the third token, else "未分类" |
| DimensionExtractor.CampaignColumn | data_processor.py:74-80 | 'Campaign Name' when present, otherwise '广告活动' when present, otherwise none (each case iff) |
| DimensionExtractor.ExtractAll | data_processor.py:61-87 | the error exactly when neither campaign column exists; otherwise the extracted frame |
| DimensionExtractor.ExtractAllDimensions | data_processor.py:71-87 | the method (copy, choose column, three in-place assignments) returns what `ExtractAll` specifies |
| DimensionExtractor.ExtractedValid | data_processor.py:83-85 | the result is a well-formed frame whose columns are the original ones plus the three dimensions |
| DimensionExtractor.ExtractedShape | data_processor.py:83-85 | same row count; original columns first and in order; non-dimension cells unchanged; each dimension cell is its extractor applied to the row's campaign cell |
| DimensionExtractor.ExtractedDimensions | data_processor.py:83-85 | every dimension cell of the result is a string token |
| DimensionExtractor.ExtractIdempotent | data_processor.py:61-87 | extracting again from an extracted frame gives the same frame |
| DimensionExtractor.ThreeAssignsAreExtracted | data_processor.py:83-85 | the three successive column assignments build exactly the extracted frame |
| Tables.AssignColumn | data_processor.py:83-85 | `df[name] = values` keeps the frame well formed; an existing column stays in place, a new one is appended; each row changes only at `name` |
| Tables.Frame.Assign | data_processor.py:83-85 | the in-place assignment leaves the frame equal to `AssignColumn` of its old value |
| Tables.Frame.Copy | data_processor.py:71 | `df.copy()`: the new frame holds exactly the given table |
| Tables.ColumnTotalAppend | data_processor.py:156-159 | a column sum splits over consecutive blocks of rows, and one row contributes its numeric value, 0 for NaN or text |
| DimensionSummary.Summary | data_processor.py:90-105 | a KeyError exactly when a dimension column is missing, naming a missing one; otherwise each count is the number of distinct non-NaN values of that column |
| DimensionSummary.CountIsGroupCount | data_processor.py:100-104 | on a column of strings, `nunique()` equals the number of groups of that column |
| DimensionSummary.ExtractedSummary | data_processor.py:90-105 | after extraction the summary always succeeds and each count is the number of groups of that dimension |
| Formatting.FormatValue | data_processor.py:108-136 | "-" for None, NaN and non-numbers; two decimals with '%', '¥' or 'x' for the three kinds; truncation toward zero for 'number'; OverflowError exactly for an infinity under 'number' |
| Formatting.Truncate | data_processor.py:134 | `int()` truncates toward zero: the result is within one unit of the value, on the side of zero |
| Formatting.Fixed2 | data_processor.py:128-132 | the `.2f` text of a finite value has at least one integer digit, a '.' and two decimals, and starts with '-' iff the value is negative |
| Formatting.FloatFixed2 | data_processor.py:128-132 | `.2f` of a float prints 'inf' iff +inf and '-inf' iff -inf; a finite value gets the two-decimal form |
| Formatting.PlainText | data_processor.py:136 | the model's stand-in for the fallback `str(value)`: a 17-decimal text with trailing zeros trimmed, always with a '.', starting with '-' iff the value is negative |
| Formatting.Fixed2RoundTrip | data_processor.py:128-132 | the `.2f` text reads back to a value within 0.005 of the number |
| Formatting.NatTextRoundTrip | data_processor.py:134 | the decimal numeral of a natural number reads back to that number |
| Formatting.RoundHalfEven | data_processor.py:128 | the rounded count is within half a unit of its argument |
| Formatting.Divide | data_processor.py:188 | float division: finite iff the denominator is non-zero, and then exact; NaN iff 0/0; +inf iff a positive number over zero |
| Formatting.Times100 | data_processor.py:188 | `* 100` keeps a float finite, NaN, +inf or -inf as it was, and scales a finite one by 100 |
| Aggregation.SumColumns | data_processor.py:156-159 | the summed columns are exactly the frame's columns outside the four excluded names, and stay distinct |
| Aggregation.SumColumnsInOrder | data_processor.py:156-159 | the summed columns keep the frame's column order |
| Aggregation.NothingSummed | data_processor.py:156-159 | a frame whose every column is excluded has nothing to sum |
| Aggregation.CandidateLists | data_processor.py:168-174 | every role of the synonym table has at least one name, none twice, and no name is excluded from the sums |
| Aggregation.FirstPresent | data_processor.py:178-182 | none iff no candidate is a column; otherwise the earliest candidate that is a column |
| Aggregation.Resolved | data_processor.py:177-182 | a role is bound iff one of its candidates is a column, and it is bound to the first such candidate |
| Aggregation.ResolveRoles | data_processor.py:177-182 | the nested loop over the synonym table builds exactly `Resolved` |
| Aggregation.ScanCandidates | data_processor.py:179-182 | the inner loop with `break` returns the first candidate present |
| Aggregation.Def | data_processor.py:184-230 | each of the six formulas divides two different roles; exactly the percentages are scaled by 100; every kind prints two decimals |
| Aggregation.DerivedColumn | data_processor.py:188 | the derived column has one cell per row, each the metric's text of that row's two role cells, and "-" iff both are zero |
| Aggregation.MetricText | data_processor.py:184-230 | a derived cell is "-" iff both totals are zero; a non-zero denominator gives the decorated two-decimal text of the (×100 for percentages) quotient; x/0 gives "inf" or "-inf" |
| Aggregation.QuotientValue | data_processor.py:184-230 | the derived quotient is NaN iff 0/0, exact for a non-zero denominator, a signed infinity otherwise |
| Aggregation.DecoratedFormat | data_processor.py:127-132 | the metric kinds render any non-NaN float as its decorated `.2f` text, never "-" |
| Aggregation.ActiveMetrics | data_processor.py:185-230 | a metric is computed iff it is one of the six and both its roles are bound |
| Aggregation.ActiveMetricsInOrder | data_processor.py:184-230 | the computed metrics keep the order CTR, CPC, ROAS, ACoS, CVR, CPA |
| Aggregation.DerivedCells | data_processor.py:184-230 | the derived cells of a row are exactly the active metrics' columns, each holding its `MetricText` of the row's totals |
| Aggregation.WithMetricsStep | data_processor.py:185-190 | one `if` block: assigning an active metric's column adds exactly its derived cells; an inactive one changes nothing |
| Aggregation.AddMetric | data_processor.py:185-190 | the method form of one `if` block moves the frame to the next `WithMetrics` state |
| Aggregation.AddDerivedColumns | data_processor.py:184-230 | the six blocks in order turn the grouped frame into `WithMetrics(base, actual, MetricOrder)` |
| Aggregation.SingleSummary | data_processor.py:139-240 | ValueError iff the dimension is not one of the three; KeyError iff it is not a column; the `agg({})` ValueError iff no column is left to sum; success iff none of these |
| Aggregation.AggregateSingle | data_processor.py:139-240 | the method (validate, group into a fresh frame, resolve, assign, reorder) returns what `SingleSummary` specifies |
| Aggregation.DimensionFirst | data_processor.py:233-235 | reordering a distinct column list that already starts with the dimension leaves it unchanged |
| Aggregation.SingleSummaryIsWithMetrics | data_processor.py:233-238 | the result is the grouped table plus its metrics, with the dimension as first column, so the reorder is the identity |
| Grouping.GroupKeys | data_processor.py:162 | the groups are strictly ascending (hence distinct) and are exactly the keys that occur in some row |
| Grouping.KeyOf | data_processor.py:162 | a row has a key iff every grouping cell is a string, and the key lists those strings in order; NaN rows are dropped |
| Grouping.GroupSumAbsent | data_processor.py:162 | a key that no row has sums to 0 in every column |
| Grouping.Insert | data_processor.py:162 | inserting a key keeps the list strictly ascending and adds exactly that key |
| Grouping.KeyLtTotal | data_processor.py:238 | the key order is total |
| Grouping.KeyLtTransitive | data_processor.py:238 | the key order is transitive |
| Grouping.GroupSumsAddUp | data_processor.py:162 | the group sums over all keys add up to the total of the rows that have a key |
| Grouping.KeyedTotalIsTotal | data_processor.py:162 | when every row has a key, the keyed total is the column total |
| GroupTables.GroupedTable | data_processor.py:162 | the grouped table is well formed, with the key columns followed by the summed columns |
| GroupTables.GroupedRows | data_processor.py:162 | one row per group, in key order, each carrying its own key |
| GroupTables.GroupedKeyCells | data_processor.py:162 | each key column of the grouped rows holds the key's value at that position |
| GroupTables.GroupedTotals | data_processor.py:162 | each summed column's total over the groups is its total over the keyed input rows |
| SingleMode.SingleColumns | data_processor.py:156-235 | the result's columns are the dimension, then the summed columns, then the active metrics; an ordinary column is present iff it is the dimension or summed; a metric column is present iff active or already in the input |
| SingleMode.RolesOfGrouped | data_processor.py:162-182 | resolving the roles on the grouped table gives the same bindings as on the input frame |
| SingleMode.SingleRowsAreGrouped | data_processor.py:184-230 | adding the metrics keeps the grouped rows and their ordinary cells |
| SingleMode.SingleKeyColumn | data_processor.py:162 | result row i holds the i-th group key in the dimension column |
| SingleMode.SingleGroups | data_processor.py:162-238 | the result rows are strictly ascending by dimension value and hold exactly the string values of the input's dimension column; empty input gives empty output |
| SingleMode.SingleSums | data_processor.py:156-162 | each summed column's total over the result equals its total over the input rows whose dimension value is a string |
| SingleMode.SingleSumsOfStrings | data_processor.py:156-162 | after extraction, the result's totals equal the input totals |
| SingleMode.SingleMetricCells | data_processor.py:184-230 | metric m of group i is the text of the group's numerator total over its denominator total |
| SingleMode.Filter | app.py:95 | the kept rows are input rows that have the selected value, and there are some iff the input has such a row |
| SingleMode.FilterKeepsMatches | app.py:95 | the boolean mask keeps the matching rows in input order, each as often as it occurs in the input, and no other row |
| SingleMode.FilterTotal | app.py:95 | a column total over the selection is the group sum of the selected value over the whole frame |
| SingleMode.DrillDown | app.py:95-102 | aggregating a non-empty selection by its own dimension succeeds iff the frame has a column to sum, and then gives exactly one row, holding the selected value |
| SingleMode.DrillDownTotals | app.py:95-102 | on the drill-down page each summed column of the aggregated selection totals every row of the frame that holds the selected value |
| SingleMode.SelectionSummary | app.py:102 | aggregating rows that all hold one value gives exactly one row, holding that value |
| CrossMode.CrossSummary | data_processor.py:243-276 | invalid dimension iff either argument is outside the three; duplicate iff both valid and equal; KeyError iff both valid, distinct, and one is not a column, naming the first missing; the `agg({})` ValueError iff then no column is left to sum; otherwise the pair, then the summed columns |
| CrossMode.CrossGroups | data_processor.py:271-274 | rows are strictly ascending by (dim1, dim2) and hold exactly the pairs of string values that occur together in an input row; empty input gives empty output |
| CrossMode.CrossKeyColumns | data_processor.py:271 | row i holds the i-th pair key in its two dimension columns |
| CrossMode.CrossSums | data_processor.py:265-271 | each summed column's total over the groups is its total over the input rows with two string dimension values |
| CrossMode.CrossSumsOfStrings | data_processor.py:265-271 | after extraction, the totals equal the input totals |
| CrossMode.KeyLtPair | data_processor.py:274 | pairs sort by the first value, then by the second |
| Validation.Problems | data_processor.py:290-298 | each message appears iff its condition holds, no other message appears, none twice, and in check order |
| Validation.EmptyMeansNoCells | data_processor.py:297 | `df.empty` holds exactly when the frame has no cell |
| Validation.ValidateData | data_processor.py:280-300 | the method returns `Problems`, and the frame is valid iff it has 'Campaign Name' and is not empty |
| Validation.ChineseCampaignColumnRejected | data_processor.py:293-294 | a frame with only '广告活动' is accepted by extraction but reported as lacking 'Campaign Name' |
| Examples.ExtractTwoTokens | data_processor.py:15-42 | "SP-US 模式A1" gives Parent Code "SP-US", Pattern "模式A1", Attribute "未分类" |
| Examples.ExtractThreeTokens | data_processor.py:45-58 | "SP-US 模式A1 品类B" gives all three tokens |
| Examples.ExtractNonString | data_processor.py:21-22 | a non-string campaign cell is "未分类" in every dimension |
| Examples.ClickThroughExample | data_processor.py:184-190 | 20 clicks on 400 impressions show CTR "5.00%" |
| Examples.ZeroSalesReturn | data_processor.py:200-206 | Sales 0 over Spend 50 shows ROAS "0.00x" |
| Examples.ZeroSalesCost | data_processor.py:208-214 | Spend 50 over Sales 0 shows ACoS "inf%" |
| Examples.NoTrafficRate | data_processor.py:184-190 | no clicks and no impressions show CTR "-" |
| Examples.UnknownDimension | data_processor.py:152-153 | single mode rejects "Region" as a dimension |
| Examples.SameDimensionTwice | data_processor.py:261-262 | cross mode rejects the same dimension twice |
| Examples.CampaignOnlyUpload | data_processor.py:156-162 | an upload with only 'Campaign Name' extracts fine, but then nothing is summed and both modes raise the `agg({})` error |
| Examples.OnlyExcludedColumns | data_processor.py:156-159 | a frame holding only 'Campaign Name' and the three dimension columns fails in both modes with the `agg({})` error |

## Left out

- The Streamlit interface of `app.py` is not modelled: the upload widget, the pickle cache that stores the extracted frame for the detail page, page routing, the `st.dataframe` tables and the HTML table with links. Only the drill-down's filter and its call to `aggregate_single` are modelled.
- Spreadsheet parsing (`pd.read_excel`) is I/O. The model starts from a parsed frame.
- Floating point: cells hold exact reals, so sums and quotients are exact, and there is no signed zero. pandas gives 0 / -5 as -0.0, which `.2f` prints as "-0.00"; the model prints "0.00". `%.2f` rounds half to even on the exact value rather than on the nearest double.
- FormatValue: the fallback kind (`str(value)`) is modelled as a 17-decimal text with trailing zeros trimmed, not as Python's shortest round-trip representation.
- PlainText: does not model Python's `str` of a float. Python switches to exponent form when |x| >= 1e16 or 0 < |x| < 1e-4 ('1e+16', '1e-05'), which has no '.'. It also prints the shortest digits that round-trip (16 significant digits for 1/3), not 17 decimals. No caller in the repository formats a value of this kind.
- FormatValue: a `Text` value always gives "-". Python's `float()` would also parse a numeric string such as "3.5". No caller passes strings.
- Column sums count only numeric cells; text and empty cells add 0. pandas would concatenate a text column such as '广告活动', which is not excluded from the sum; the model treats it as contributing 0.
- Group keys are the string values of the grouping columns. Rows whose grouping cell is NaN are dropped, as pandas does. Rows whose grouping cell is a number are also dropped, whereas pandas would keep them as a group. After extraction, every dimension cell is a string.
- SingleSums: requires that the column is not named like a derived metric ('CTR', …), because an input column with such a name is overwritten by the metric of the same name.
- SingleSumsOfStrings: the same restriction as SingleSums, for the same reason.
- Exceptions (ValueError, KeyError, OverflowError) are modelled as `Error` and `FormatError` values. Their message texts are not modelled; the messages of `validate_data` are.
- `groupby(...).agg({})` on a frame with no column to sum raises in pandas; the model returns `NoObjectsToConcatenate` for it, from pandas' dict-aggregation behaviour rather than from this repository's code.
- The six `if` blocks of the derived metrics are modelled as one loop over the fixed list `MetricOrder`. It makes the same assignments in the same order.
- `sort_values` is not a separate step. The groups are already strictly ascending by key and the keys are distinct, so sorting leaves them unchanged. The string order is code-point order, as for Python `str`.
- `df.copy()` gives value semantics: inputs are `Table` values and are never changed. `Frame.Copy` models the copy that the code then updates in place.
