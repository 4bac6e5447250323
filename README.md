# Rules engine and screening steps of the portfolio risk screener

This project models the decision core of a geospatial portfolio screener. The screener takes a table of assets with
locations. It attaches spatial facts to them: Natura 2000 overlaps, CORINE land cover, and the distance to the
nearest water body. Then it classifies every asset with a configurable rule pack. The model covers:

- **The rules engine** (`src/rules/engine.py`):
  - loading a rule pack document (`Rules.LoadPack`);
  - the small condition language (`Syntax`, `Conditions`): the `" not null"` shortcut rewrite, the environment of
    row cells overridden by pack parameters, the whitelist of names, and Python-style evaluation of comparisons,
    `in`, `not`, `and` and `or`;
  - `evaluate` (`Rules`): for each dimension, in pack order, every row walks the dimension's rules.
    - A `default` rule fills the category only while it is still unset or empty.
    - The first `when` rule whose condition holds sets its `then` category, appends
      `dimension:condition=>category` to the row's audit trail, and stops the walk.
    - A condition error aborts the whole evaluation.
    - Finally the pack version, the pack name and the audit trail are stamped on every row.
- **Combined risk** (`app.py`): `worst` and the `overall_risk` column (`RiskCombination`).
- **Spatial helpers** (`src/ingestion/spatial.py`):
  - the join configuration defaults and the buffer guard;
  - the nearest-water loop, with the spatial index and the distance computation as oracles;
  - the distance threshold flag (`Spatial`).
- **Upload validation** (`src/ingestion/uploaders.py`): the required-columns check (`Uploaders`).

Tables are values (`Frames.Frame`): an ordered list of column names and one map per row.

- `WellFormed` means the column names are distinct and every row has exactly those columns.
- Python values are `Values.Value`: `None`, booleans, numbers as reals, NaN, strings, lists and tuples. Equality,
  ordering, truthiness and `in` follow Python, including `True == 1`.
- Missing values come in two forms. Pandas leaves NaN in a cell that a left join does not fill, while `None` is
  Python's null.
  - `x not null` is rewritten to `x != None`, so it holds on NaN (`Conditions.MissingNumberInConditions`).
  - Ordering NaN against a number is false, while ordering `None` against a number is a type error that aborts
    `evaluate`.
  - `flag_within_water_threshold` compares element-wise, so both NaN and `None` give False there (`Spatial.AtMost`).
- `evaluate` mutates a copy of the frame column by column with three nested loops. It is modelled as three methods,
  one per loop level: `Rules.Evaluate` over dimensions, `Rules.EvaluateDimension` over rows and `Rules.WalkRules`
  over rules. Each method is proved equal to a specification function.
- `RuleProperties` proves what those functions mean:
  - rule precedence;
  - the shape and provenance of the audit trail;
  - the columns added and kept;
  - independence of rows: evaluating dimension by dimension equals evaluating each row on its own.

`overall_risk` combines only `biodiversity_category` and `water_category`, whichever dimensions the pack defines.

Where the code and the docstring of `_eval_condition` differ, the model follows the code:

- The `not null` shortcut becomes `!= None`, although the docstring at engine.py:47 speaks of an `is not None` pattern.
- The docstring says "'null' means None", but only the `" not null"` shortcut is rewritten (engine.py:50).
  - A bare `null`, as in `x == null`, is an ordinary name.
  - It fails with "Illegal name in expression: null" unless a column or parameter is called `null`.
  - The model does the same: `null` is reported by `Conditions.IllegalNameExactly` like any unbound name.

The `{"in"}` exemption of the name check never applies, because `in` is an operator and never appears as a name.

## Model

| member | source | states |
|---|---|---|
| Rules.LoadPack | src/rules/engine.py:33-41 | The pack loads iff `version`, `name` and `logic` are present. A missing key is reported in the order version, name, logic. An absent description defaults to "" and absent parameters default to an empty mapping. Other fields are copied unchanged. |
| Rules.WalkRules | src/rules/engine.py:73-82 | Walking one dimension's rules for one row returns exactly the verdict of the rule-walk specification `Walk`, starting from an unset category. |
| Rules.EvaluateDimension | src/rules/engine.py:70-83 | The row loop for one dimension returns an error iff some row's walk fails. Otherwise every row gets its category column and its audit trail extended, as the per-dimension specification says. |
| Rules.Evaluate | src/rules/engine.py:65-88 | The whole evaluation equals `EvaluateSpec`: a dimension-major pass followed by the version, name and audit stamps. |
| RuleProperties.WalkFirstMatch | src/rules/engine.py:74-82 | If rules before a conditional rule do not fire and its condition holds, the category is that rule's `then`, and the audit entry names the dimension, condition and category. |
| RuleProperties.WalkConditionError | src/rules/engine.py:78-79 | If the first conditional rule reached has a failing condition, the whole walk fails with that error. |
| RuleProperties.WalkIgnoresLaterRules | src/rules/engine.py:81-82 | Once a conditional rule fires (`break`) or its condition fails, the rules after it never affect the outcome. |
| RuleProperties.WalkNoMatchNoDefault | src/rules/engine.py:73-83 | With no default rule and no condition holding, the category stays unset (`None`) and nothing is audited. |
| RuleProperties.WalkKeepsSetLabel | src/rules/engine.py:75-77 | When no condition holds, a non-empty category already assigned survives every default rule, and nothing is audited. |
| RuleProperties.WalkFirstDefaultWins | src/rules/engine.py:75-77 | When no condition holds, the first default with a non-empty label gives the category. |
| RuleProperties.WalkVerdictSource | src/rules/engine.py:73-83 | An audit entry exists only when a conditional rule whose condition held fired. Without an entry, the category is the initial one or some default's label. |
| RuleProperties.FiresAtUnique | src/rules/engine.py:74-82 | At most one rule of a dimension fires on a row: the conditional whose condition holds with every earlier rule stepped over. |
| RuleProperties.WalkFiresSource | src/rules/engine.py:78-82 | A walk that reports an audit entry stopped at a rule that fires. |
| RuleProperties.WalkFires | src/rules/engine.py:74-82 | When rule j fires, the walk returns that rule's `then` label and its audit entry `dimension:condition=>label`. |
| RuleProperties.WalkEntry | src/rules/engine.py:73-82 | A successful walk reports exactly the entry of the rule that fires, and no entry when no rule fires. |
| RuleProperties.FiredTrailBound | src/rules/engine.py:80-82 | A row's audit trail has at most one entry per dimension. |
| RuleProperties.RowPassAudit | src/rules/engine.py:79-82 | One dimension pass appends exactly the entry of the rule that fires on the row its conditions see, and appends nothing when no rule fires. That row has its own category reset to `None`. |
| RuleProperties.RowPassFiredCategory | src/rules/engine.py:78-83 | When a rule fires on the row a dimension's conditions see, the pass succeeds and writes that rule's `then` label into the dimension's category column. |
| RuleProperties.RowPassCells | src/rules/engine.py:70-83 | One dimension pass writes that dimension's category column and leaves every other cell untouched. |
| RuleProperties.RowEvaluateAudit | src/rules/engine.py:67-82 | The row's audit trail is the old trail plus, for each dimension in order, the entry of the rule that fires on the row that dimension sees. Dimensions where no rule fires add nothing. |
| RuleProperties.RowEvaluateCells | src/rules/engine.py:69-83 | After all dimensions, a row's keys are its old keys plus every dimension's category column. Category cells are `None` or strings, and other cells are unchanged. |
| RuleProperties.DimensionPassByRow | src/rules/engine.py:72-83 | A dimension pass over all rows succeeds iff each row's pass succeeds, and then gives each row's own result. |
| RuleProperties.LogicPassByRow | src/rules/engine.py:69-83 | Dimension-major evaluation succeeds iff every row evaluated on its own succeeds, and then agrees with it row by row. |
| RuleProperties.EvaluateByRow | src/rules/engine.py:65-88 | `evaluate` fails iff some row fails. Otherwise every output row is that row evaluated on its own plus the stamps. |
| RuleProperties.DimensionColumnsEffect | src/rules/engine.py:69-71 | The category columns are appended after the input columns, without duplicates. |
| RuleProperties.StampColumnsEffect | src/rules/engine.py:85-87 | Stamping adds exactly the version, name and audit columns. |
| RuleProperties.StampEffect | src/rules/engine.py:85-87 | Each stamped row carries the pack version, the pack name and its own audit list. |
| RuleProperties.EvaluateRowCount | src/rules/engine.py:66-88 | Evaluation keeps the number of rows. |
| RuleProperties.EvaluateRowKeys | src/rules/engine.py:66-87 | Each output row's keys are its input keys plus the category columns plus the three stamp columns. |
| RuleProperties.EvaluateColumns | src/rules/engine.py:66-87 | The input columns are a prefix of the output columns, and the column set grows by the category and stamp columns. A well-formed frame stays well formed. |
| RuleProperties.EvaluateStamps | src/rules/engine.py:85-87 | Every output row holds the pack version and name. Its audit list is the entries of the rules that fired on it, one per firing dimension in dimension order, so at most one per dimension. |
| RuleProperties.EvaluateCells | src/rules/engine.py:66-83 | Input cells outside the added columns are unchanged, and category cells are `None` or strings. |
| Conditions.ReplaceAllWithoutOccurrence | src/rules/engine.py:50 | Replacing a pattern that does not occur leaves the text unchanged. |
| Conditions.RewriteKeepsMismatch | src/rules/engine.py:50 | The rewrite never creates a text that starts with a proper suffix of `" not null"` when the input did not start with it. This is the step that rules out new occurrences. |
| Conditions.RewriteLeavesNoShortcut | src/rules/engine.py:50 | After the rewrite, no `" not null"` occurrence remains. |
| Conditions.ReplaceAllAtFirst | src/rules/engine.py:50 | `str.replace` replaces the first occurrence with the replacement, keeps the text before it, and continues after it. |
| Conditions.RewriteAtFirst | src/rules/engine.py:50 | Each `" not null"` becomes `" != None"`, taken at its first occurrence. |
| Conditions.RewriteAfterWord | src/rules/engine.py:50 | `x not null` becomes `x != None` for any word `x` without spaces. |
| Conditions.Environment | src/rules/engine.py:52-55 | The bound names are exactly `None`, the row's columns and the parameters. A parameter overrides a row cell of the same name, and other row cells are visible as they are. |
| Conditions.NamesBound | src/rules/engine.py:58-63 | If every name of the compiled expression is allowed, evaluation has every variable it needs. |
| Conditions.FirstIllegal | src/rules/engine.py:60-62 | The reported name is the first name, in order, that is not among the allowed names, and every earlier name is allowed. No name is reported iff all names are allowed. |
| Conditions.FirstIllegalAt | src/rules/engine.py:60-62 | If the name at position i is not allowed and all earlier names are, that name is the one reported. |
| Conditions.EvalCondition | src/rules/engine.py:43-63 | The method returns exactly `ConditionHolds`: rewrite, compile, name check, then evaluation and truthiness. |
| Conditions.EvalFailsOnlyOnTypes | src/rules/engine.py:63 | Once names are checked, evaluation can only fail with a type error, such as ordering `None` against a number. |
| Conditions.RewriteKeepsIndent | src/rules/engine.py:50 | The `" not null"` rewrite keeps a leading space or tab, so an indented condition is still indented when compiled. |
| Conditions.IndentedConditionFails | src/rules/engine.py:50-59 | A condition that starts with a space or a tab fails with a syntax error for every row and parameter set. |
| Conditions.IllegalNameExactly | src/rules/engine.py:58-62 | An illegal-name error occurs iff some name of the expression is unbound. The reported name is such a name. |
| Conditions.NotNullShortcutMeaning | src/rules/engine.py:47-63 | `x not null` holds iff the bound value of `x` is not `None`. If `x` is unbound, it fails naming `x`. |
| Conditions.MissingNumberInConditions | src/rules/engine.py:50-63 | On a cell holding NaN, `x not null` holds and `<=`/`>=` against a number is false. On `None`, `<=` against a number is a type error. |
| Syntax.TokenizeNotNone | src/rules/engine.py:50 | `x != None` tokenizes to name, `!=` and `None`. |
| Syntax.CompileNotNone | src/rules/engine.py:59 | `x != None` compiles to the comparison of `x` with `None`. |
| Syntax.CompileName | src/rules/engine.py:59 | A bare name compiles to that name, and the same name after a leading space or tab is a syntax error (the indent `compile` refuses). |
| Values.Numeric | src/rules/engine.py:63 | Booleans and numbers have numeric values, with `True` as 1 and `False` as 0. Other values have none. |
| Values.Less | src/rules/engine.py:63 | `<` is defined exactly when both operands are numbers, booleans or NaN, or both are strings. Other operand pairs are a type error. Any ordering involving NaN is false. |
| Values.Contains | src/rules/engine.py:63 | `in` on a string is substring search on strings. On a list or tuple it is membership by Python equality. Otherwise it is a type error. |
| Frames.AddColumn | src/rules/engine.py:71 | Assigning a column adds it to the column set, keeps distinctness and keeps the existing order. |
| Frames.Get | app.py:249 | `row.get(c)` is the cell, or `None` when the column is absent. |
| RiskCombination.Rank | app.py:244 | `Low`, `Medium` and `High` rank 0, 1 and 2. Everything else, including `None`, ranks -1. |
| RiskCombination.Worst | app.py:245-246 | The result is one of the two arguments and has the higher rank. On a tie it is the first argument. |
| RiskCombination.WorstAssociative | app.py:245-246 | `worst` is associative, so combining more columns does not depend on grouping. |
| RiskCombination.WorstHigh | app.py:245-246 | `High` absorbs anything on either side. |
| RiskCombination.WorstExamples | app.py:244-246 | Concrete cases: High beats Low, Medium beats `None`, two `None` values give `None`, and `worst(x, x) == x`. |
| RiskCombination.OverallRisk | app.py:248-250 | The overall risk is the worse of the biodiversity and water categories. |
| RiskCombination.OverallRiskOnlyTwoColumns | app.py:248-250 | The overall risk depends on those two columns only. |
| RiskCombination.AddOverallRisk | app.py:248-251 | Every row gets its overall risk in the new column, the row count is kept, and well-formedness is preserved. |
| Spatial.DefaultConfig | src/ingestion/spatial.py:12-18 | The defaults are a left join on `intersects`, no buffer, and a 1000 m water threshold. |
| Spatial.PrepareForJoin | src/ingestion/spatial.py:33-35 | Points are buffered iff a non-zero buffer distance is configured. Otherwise they pass through unchanged. |
| Spatial.BufferGuard | src/ingestion/spatial.py:33 | A missing buffer or a buffer of 0 is skipped, and any other value is applied. |
| Spatial.DistanceToNearestWater | src/ingestion/spatial.py:54-75 | It fails iff there are points but no water features. Otherwise each row gets the distance to, and the id of, the feature the index picks. When the index answers every point with a closest feature, every `dist_water_m` cell is the minimum distance over all water features. |
| Spatial.MinDistance | src/ingestion/spatial.py:65-69 | The minimum distance is attained by some water feature and is at most the distance to every feature. |
| Spatial.NearestIsMinimal | src/ingestion/spatial.py:65-69 | If the index returns a closest feature, the distance to it equals the exhaustive minimum distance. |
| Spatial.AtMost | src/ingestion/spatial.py:82 | `distance <= threshold` is true only for numbers within the threshold. A missing value, NaN or `None`, compares false, and other values are a type error. |
| Spatial.FlagWithinWaterThreshold | src/ingestion/spatial.py:78-83 | A missing distance column is an error. Otherwise every row gets `near_water_bool` equal to its comparison and keeps all other cells. |
| Spatial.ThresholdInclusive | src/ingestion/spatial.py:82 | A distance exactly at the threshold is flagged as near. |
| Spatial.ThresholdMonotone | src/ingestion/spatial.py:82 | Raising the threshold never unflags a row. |
| Uploaders.Missing | src/ingestion/uploaders.py:58 | The missing list holds exactly the required names absent from the columns, and is no longer than the required list. |
| Uploaders.MissingConcat | src/ingestion/uploaders.py:58 | The missing list of concatenated requirements is the concatenation of the missing lists, so order follows `required`. |
| Uploaders.MissingCounts | src/ingestion/uploaders.py:58 | Each absent name appears in the missing list as often as it is required. Present names never appear. |
| Uploaders.ValidateColumns | src/ingestion/uploaders.py:55-60 | It fails iff some required column is absent, and the error lists exactly the missing names. |
| Uploaders.NothingRequired | src/ingestion/uploaders.py:58-59 | Requiring nothing always passes. |

## Left out

- File and YAML I/O: `LoadPack` takes the parsed document, with absent keys as `None` options.
- Required pack keys present with a null value are not representable, because the document holds `None` for an absent
  key. The model reports `MissingKey` at load time for all of these.
  - `version: null` or `name: null` loads in the source, and `evaluate` then stamps `None` on every row.
  - `logic: null` loads in the source, and `evaluate` then fails at `pack.logic.items()` with an AttributeError.
- A `description` or `parameters` key present with an explicit null value is not modelled. Absent keys take their
  defaults.
- Rule keys present with a null value are not representable, because a `Rule` holds `None` for an absent key.
  - `then: null` on a rule that fires sets the category to `None` and audits `…=>None` in the source. The model reports
    `MissingKey("then")` instead.
  - `default: null` is a default rule in the source, since only the key's presence is tested. The model reads that rule
    as conditional and reports `MissingKey("when")`.
  - Non-string labels are not modelled.
- `logic` is a mapping from dimension to rules in insertion order. It is modelled as a sequence of dimensions. Duplicate
  dimension names are possible in the model, but none of the proved properties depends on their absence.
- Rows are addressed by position. The source indexes the audit list with the frame's index label, which coincides for
  the default 0..n-1 index.
- Python's `compile`/`eval` are modelled by a closed grammar:
  - supported:
    - ASCII names;
    - non-negative integer literals, and decimal literals of the form `digits.digits` such as `1000.0`;
    - quoted strings without escapes or prefixes;
    - `None`, `True` and `False`;
    - parentheses, parenthesised tuples and lists;
    - `not`, `and`, `or`, `==`, `!=`, `<`, `<=`, `>`, `>=`, `in`, `not in`, and chained comparisons;
    - spaces and tabs between tokens. A condition that starts with a space or a tab is a syntax error, as the
      "unexpected indent" that `compile` raises for it.
  - not supported: arithmetic, unary minus, exponent or hexadecimal literals, attribute access, calls, `is`, sets and
    dicts. Text outside the grammar is a syntax error.
  - Python accepts some forms that the model rejects as syntax errors:
    - a bare top-level tuple such as `CLC_CODE in "111", "112"`, or a trailing comma as in `x == 1,`. Python builds a
      non-empty tuple, which is always true, so the rule always fires;
    - `#` comments;
    - line breaks, including the trailing newline a YAML `when: |` block leaves;
    - non-ASCII identifiers;
    - string prefixes such as `r"..."`.
    - adjacent string literals such as `x == "a" "b"`;
    - digit separators such as `1_000`;
    - subscripts such as `CLC_CODE[0] == "1"`;
    - conditional expressions (`a if c else b`).

    This list names the common cases; it is not exhaustive.
- `and`/`or` return one of their operands and skip the right one when the left decides, as Python does. Only the
  final result is reduced to truthiness, as `bool(...)` does.
- Values.Less: ordering between lists or tuples is not modelled. The model reports it as a type error, while Python
  compares them element by element.
- Numbers are reals. Infinities, rounding and integer/float distinctions are not modelled. NaN is one value that
  equals nothing. Python's identity shortcut, which makes the same NaN object a member of a list holding it, is not
  modelled.
- Geometry, coordinate reference systems (`to_crs`, `set_crs`), `sjoin`, `buffer` and `nearest_points` are left out.
  - Spatial.DistanceToNearestWater takes the spatial index's `nearest` query and the distance as function parameters.
  - It models only what the loop does with their answers.
- Spatial.DistanceToNearestWater reports an empty water layer as an error. The source would fail indexing an empty
  candidate list.
- `intersect_with_natura` and `overlay_corine` are modelled only through the buffer guard (`PrepareForJoin`). The
  joins themselves are geometric library calls.
- RiskCombination.Worst: labels that are unhashable (lists) would make `order.get` raise in the source. The model ranks
  every non-category value as -1.
- The user interface, geocoding, data downloads and report generation in `app.py` and the helper modules are not part
  of this model.
