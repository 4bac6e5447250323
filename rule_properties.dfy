/**
 * What the rules engine guarantees: the first rule that fires decides, defaults
 * only fill an empty label, conditions that fail abort the pack, rows are
 * evaluated independently, and the output frame keeps the input's rows and
 * cells and adds one category column per dimension plus the audit stamps.
 */
module RuleProperties {
  import opened Results
  import opened Values
  import opened Frames
  import opened Conditions
  import opened Rules

  /** A rule the walk steps over: a default, or a conditional whose condition is false. */
  predicate PassesOver(rule: Rule, row: Row, params: map<string, Value>)
  {
    || rule.defaultLabel.Some?
    || (rule.whenCond.Some? && ConditionHolds(rule.whenCond.value, row, params) == Ok(false))
  }

  /** A label Python treats as assigned: present and non-empty. */
  predicate IsSet(c: Option<string>)
  {
    c.Some? && |c.value| > 0
  }

  /** The walk's label after stepping over `rule`. */
  function AfterPass(rule: Rule, current: Option<string>): Option<string>
  {
    if rule.defaultLabel.Some? then OrDefault(current, rule.defaultLabel.value) else current
  }

  lemma WalkStep(dim: string, rules: seq<Rule>, row: Row, params: map<string, Value>, current: Option<string>)
    requires rules != [] && PassesOver(rules[0], row, params)
    ensures Walk(dim, rules, row, params, current) == Walk(dim, rules[1..], row, params, AfterPass(rules[0], current))
  {
  }

  /**
   * The first conditional that holds decides the label and the audit entry,
   * whatever defaults came before it and whatever rules come after it.
   */
  lemma {:induction false} WalkFirstMatch(dim: string, before: seq<Rule>, rule: Rule, later: seq<Rule>,
      row: Row, params: map<string, Value>, current: Option<string>)
    requires forall j | 0 <= j < |before| :: PassesOver(before[j], row, params)
    requires IsConditional(rule) && ConditionHolds(rule.whenCond.value, row, params) == Ok(true)
    ensures Walk(dim, before + [rule] + later, row, params, current)
      == Ok(Verdict(rule.thenLabel, Some(AuditEntry(dim, rule.whenCond.value, rule.thenLabel.value))))
  {
    var rules := before + [rule] + later;
    if before == [] {
      assert rules[0] == rule;
    } else {
      assert rules[0] == before[0] && rules[1..] == before[1..] + [rule] + later;
      WalkStep(dim, rules, row, params, current);
      WalkFirstMatch(dim, before[1..], rule, later, row, params, AfterPass(before[0], current));
    }
  }

  /** A condition that cannot be checked aborts the walk when it is reached. */
  lemma {:induction false} WalkConditionError(dim: string, before: seq<Rule>, rule: Rule, later: seq<Rule>,
      row: Row, params: map<string, Value>, current: Option<string>, e: ConditionError)
    requires forall j | 0 <= j < |before| :: PassesOver(before[j], row, params)
    requires rule.defaultLabel.None? && rule.whenCond.Some?
    requires ConditionHolds(rule.whenCond.value, row, params) == Err(e)
    ensures Walk(dim, before + [rule] + later, row, params, current) == Err(ConditionFailed(e))
  {
    var rules := before + [rule] + later;
    if before == [] {
      assert rules[0] == rule;
    } else {
      assert rules[0] == before[0] && rules[1..] == before[1..] + [rule] + later;
      WalkStep(dim, rules, row, params, current);
      WalkConditionError(dim, before[1..], rule, later, row, params, AfterPass(before[0], current), e);
    }
  }

  /** Rules after the first one the walk does not step over are never looked at. */
  lemma {:induction false} WalkIgnoresLaterRules(dim: string, before: seq<Rule>, rule: Rule, later1: seq<Rule>,
      later2: seq<Rule>, row: Row, params: map<string, Value>, current: Option<string>)
    requires forall j | 0 <= j < |before| :: PassesOver(before[j], row, params)
    requires !PassesOver(rule, row, params)
    ensures Walk(dim, before + [rule] + later1, row, params, current)
         == Walk(dim, before + [rule] + later2, row, params, current)
  {
    var rules1 := before + [rule] + later1;
    var rules2 := before + [rule] + later2;
    if before == [] {
      assert rules1[0] == rule && rules2[0] == rule;
    } else {
      assert rules1[0] == before[0] && rules1[1..] == before[1..] + [rule] + later1;
      assert rules2[0] == before[0] && rules2[1..] == before[1..] + [rule] + later2;
      WalkStep(dim, rules1, row, params, current);
      WalkStep(dim, rules2, row, params, current);
      WalkIgnoresLaterRules(dim, before[1..], rule, later1, later2, row, params, AfterPass(before[0], current));
    }
  }

  /** With no default and no condition holding, the walk leaves the label as it found it (`None` at the start). */
  lemma {:induction false} WalkNoMatchNoDefault(dim: string, rules: seq<Rule>, row: Row,
      params: map<string, Value>, current: Option<string>)
    requires forall j | 0 <= j < |rules| :: rules[j].defaultLabel.None? && PassesOver(rules[j], row, params)
    ensures Walk(dim, rules, row, params, current) == Ok(Verdict(current, None))
  {
    if rules != [] {
      WalkStep(dim, rules, row, params, current);
      WalkNoMatchNoDefault(dim, rules[1..], row, params, current);
    }
  }

  /** Once a non-empty label is assigned, later defaults do not replace it. */
  lemma {:induction false} WalkKeepsSetLabel(dim: string, rules: seq<Rule>, row: Row,
      params: map<string, Value>, current: Option<string>)
    requires IsSet(current)
    requires forall j | 0 <= j < |rules| :: PassesOver(rules[j], row, params)
    ensures Walk(dim, rules, row, params, current) == Ok(Verdict(current, None))
  {
    if rules != [] {
      WalkStep(dim, rules, row, params, current);
      WalkKeepsSetLabel(dim, rules[1..], row, params, current);
    }
  }

  /**
   * When no conditional holds, the first default with a non-empty label wins;
   * earlier empty defaults do not block it.
   */
  lemma {:induction false} WalkFirstDefaultWins(dim: string, rules: seq<Rule>, row: Row,
      params: map<string, Value>, current: Option<string>, m: nat)
    requires !IsSet(current)
    requires forall j | 0 <= j < |rules| :: PassesOver(rules[j], row, params)
    requires m < |rules| && IsSet(rules[m].defaultLabel)
    requires forall j | 0 <= j < m :: !IsSet(rules[j].defaultLabel)
    ensures Walk(dim, rules, row, params, current) == Ok(Verdict(rules[m].defaultLabel, None))
  {
    WalkStep(dim, rules, row, params, current);
    if m == 0 {
      WalkKeepsSetLabel(dim, rules[1..], row, params, rules[0].defaultLabel);
    } else {
      WalkFirstDefaultWins(dim, rules[1..], row, params, AfterPass(rules[0], current), m - 1);
    }
  }

  /**
   * Where a verdict comes from: an audit entry always belongs to a conditional
   * rule whose condition holds and whose label is the verdict; a verdict
   * without an entry carries the starting label or some default's label.
   */
  lemma {:induction false} WalkVerdictSource(dim: string, rules: seq<Rule>, row: Row,
      params: map<string, Value>, current: Option<string>)
    ensures var w := Walk(dim, rules, row, params, current);
      w.Ok? && w.value.entry.Some? ==>
        exists j | 0 <= j < |rules| ::
          && IsConditional(rules[j])
          && ConditionHolds(rules[j].whenCond.value, row, params) == Ok(true)
          && w.value == Verdict(rules[j].thenLabel, Some(AuditEntry(dim, rules[j].whenCond.value, rules[j].thenLabel.value)))
    ensures var w := Walk(dim, rules, row, params, current);
      w.Ok? && w.value.entry.None? ==>
        w.value.category == current
        || exists j | 0 <= j < |rules| :: rules[j].defaultLabel.Some? && w.value.category == rules[j].defaultLabel
  {
    var w := Walk(dim, rules, row, params, current);
    if rules != [] && w.Ok? {
      var rule := rules[0];
      if PassesOver(rule, row, params) {
        var next := AfterPass(rule, current);
        WalkStep(dim, rules, row, params, current);
        WalkVerdictSource(dim, rules[1..], row, params, next);
        if w.value.entry.Some? {
          var j :| 0 <= j < |rules[1..]| && IsConditional(rules[1..][j])
            && ConditionHolds(rules[1..][j].whenCond.value, row, params) == Ok(true)
            && w.value == Verdict(rules[1..][j].thenLabel,
                 Some(AuditEntry(dim, rules[1..][j].whenCond.value, rules[1..][j].thenLabel.value)));
          assert rules[1..][j] == rules[j + 1];
        } else if w.value.category != next {
          var j :| 0 <= j < |rules[1..]| && rules[1..][j].defaultLabel.Some? && w.value.category == rules[1..][j].defaultLabel;
          assert rules[1..][j] == rules[j + 1];
        } else if w.value.category != current {
          assert w.value.category == rules[0].defaultLabel;
        }
      } else {
        assert IsConditional(rule) && ConditionHolds(rule.whenCond.value, row, params) == Ok(true);
      }
    }
  }

  /**
   * Rule `j` is the one the walk stops at with an audit entry: a conditional
   * rule whose condition holds on the row, with every rule before it stepped over.
   */
  predicate FiresAt(rules: seq<Rule>, row: Row, params: map<string, Value>, j: int)
  {
    && 0 <= j < |rules|
    && IsConditional(rules[j])
    && ConditionHolds(rules[j].whenCond.value, row, params) == Ok(true)
    && forall k | 0 <= k < j :: PassesOver(rules[k], row, params)
  }

  /** The audit entry a conditional rule of dimension `dim` writes when it fires. */
  function RuleEntry(dim: string, rule: Rule): string
    requires IsConditional(rule)
  {
    AuditEntry(dim, rule.whenCond.value, rule.thenLabel.value)
  }

  lemma FiresAtUnique(rules: seq<Rule>, row: Row, params: map<string, Value>, i: int, j: int)
    requires FiresAt(rules, row, params, i) && FiresAt(rules, row, params, j)
    ensures i == j
  {
  }

  /** What a dimension adds to a row's audit: the entry of the rule that fires, or nothing. */
  ghost function FiredEntry(d: Dimension, row: Row, params: map<string, Value>): seq<string>
  {
    if exists j :: FiresAt(d.rules, row, params, j) then
      var j :| FiresAt(d.rules, row, params, j);
      [RuleEntry(d.name, d.rules[j])]
    else []
  }

  /** A walk that ends with an audit entry stopped at a rule that fires. */
  lemma {:induction false} WalkFiresSource(dim: string, rules: seq<Rule>, row: Row,
      params: map<string, Value>, current: Option<string>)
    ensures var w := Walk(dim, rules, row, params, current);
      w.Ok? && w.value.entry.Some? ==> exists j :: FiresAt(rules, row, params, j)
    decreases |rules|
  {
    var w := Walk(dim, rules, row, params, current);
    if rules != [] && w.Ok? && w.value.entry.Some? {
      if PassesOver(rules[0], row, params) {
        WalkStep(dim, rules, row, params, current);
        WalkFiresSource(dim, rules[1..], row, params, AfterPass(rules[0], current));
        var j :| FiresAt(rules[1..], row, params, j);
        forall k | 0 <= k < j + 1
          ensures PassesOver(rules[k], row, params)
        {
          if k > 0 {
            assert rules[k] == rules[1..][k - 1];
          }
        }
        assert FiresAt(rules, row, params, j + 1);
      } else {
        assert FiresAt(rules, row, params, 0);
      }
    }
  }

  /** The walk stops at the rule that fires, whatever comes after it. */
  lemma WalkFires(dim: string, rules: seq<Rule>, row: Row, params: map<string, Value>, current: Option<string>, j: int)
    requires FiresAt(rules, row, params, j)
    ensures Walk(dim, rules, row, params, current) == Ok(Verdict(rules[j].thenLabel, Some(RuleEntry(dim, rules[j]))))
  {
    assert rules == rules[..j] + [rules[j]] + rules[j + 1..];
    assert forall k | 0 <= k < j :: rules[..j][k] == rules[k];
    WalkFirstMatch(dim, rules[..j], rules[j], rules[j + 1..], row, params, current);
  }

  lemma FiredEntryAt(d: Dimension, row: Row, params: map<string, Value>, j: int)
    requires FiresAt(d.rules, row, params, j)
    ensures FiredEntry(d, row, params) == [RuleEntry(d.name, d.rules[j])]
  {
    forall i | FiresAt(d.rules, row, params, i)
      ensures i == j
    {
      FiresAtUnique(d.rules, row, params, i, j);
    }
  }

  /**
   * The entry a successful walk reports is exactly the entry of the rule that
   * fires, and there is none when no rule fires.
   */
  lemma WalkEntry(d: Dimension, row: Row, params: map<string, Value>, current: Option<string>)
    ensures var w := Walk(d.name, d.rules, row, params, current);
      w.Ok? ==> EntryList(w.value.entry) == FiredEntry(d, row, params)
  {
    WalkFiresSource(d.name, d.rules, row, params, current);
    if exists j :: FiresAt(d.rules, row, params, j) {
      var j :| FiresAt(d.rules, row, params, j);
      WalkFires(d.name, d.rules, row, params, current, j);
      FiredEntryAt(d, row, params, j);
    }
  }

  /**
   * The audit one row collects over `dims`: for each dimension in order, the
   * entry of the rule that fires on the row as that dimension's conditions see
   * it (earlier dimensions' categories written, its own category reset to `None`).
   */
  ghost function FiredTrail(t: Trace, dims: seq<Dimension>, params: map<string, Value>): seq<string>
    decreases |dims|
  {
    if dims == [] then []
    else match RowPass(t, dims[0], params)
      case Err(_) => []
      case Ok(next) =>
        FiredEntry(dims[0], t.row[CategoryColumn(dims[0].name) := Null], params) + FiredTrail(next, dims[1..], params)
  }

  lemma FiredTrailStep(t: Trace, dims: seq<Dimension>, params: map<string, Value>)
    requires dims != [] && RowPass(t, dims[0], params).Ok?
    ensures FiredTrail(t, dims, params) == FiredEntry(dims[0], t.row[CategoryColumn(dims[0].name) := Null], params)
      + FiredTrail(RowPass(t, dims[0], params).value, dims[1..], params)
  {
  }

  /** A row's audit trail has at most one entry per dimension. */
  lemma {:induction false} FiredTrailBound(t: Trace, dims: seq<Dimension>, params: map<string, Value>)
    ensures |FiredTrail(t, dims, params)| <= |dims|
    decreases |dims|
  {
    if dims != [] && RowPass(t, dims[0], params).Ok? {
      FiredTrailBound(RowPass(t, dims[0], params).value, dims[1..], params);
    }
  }

  /** The category columns of a list of dimensions. */
  function CategoryColumns(dims: seq<Dimension>): (s: set<string>)
    ensures forall j | 0 <= j < |dims| :: CategoryColumn(dims[j].name) in s
  {
    set j | 0 <= j < |dims| :: CategoryColumn(dims[j].name)
  }

  lemma CategoryColumnsCons(dims: seq<Dimension>)
    requires dims != []
    ensures CategoryColumns(dims) == {CategoryColumn(dims[0].name)} + CategoryColumns(dims[1..])
  {
    forall c | c in CategoryColumns(dims)
      ensures c in {CategoryColumn(dims[0].name)} + CategoryColumns(dims[1..])
    {
      var j :| 0 <= j < |dims| && c == CategoryColumn(dims[j].name);
      if j > 0 {
        assert dims[1..][j - 1] == dims[j];
      }
    }
  }

  /**
   * One dimension on one row appends to the audit exactly the entry of the
   * rule that fires on the row its conditions see, and nothing when none fires.
   */
  lemma RowPassAudit(t: Trace, d: Dimension, params: map<string, Value>)
    ensures var r := RowPass(t, d, params);
      r.Ok? ==> r.value.audit == t.audit + FiredEntry(d, t.row[CategoryColumn(d.name) := Null], params)
  {
    WalkEntry(d, t.row[CategoryColumn(d.name) := Null], params, None);
  }

  /** When a rule fires on the row a dimension's conditions see, its `then` label is the cell written. */
  lemma RowPassFiredCategory(t: Trace, d: Dimension, params: map<string, Value>, j: int)
    requires FiresAt(d.rules, t.row[CategoryColumn(d.name) := Null], params, j)
    ensures RowPass(t, d, params).Ok?
    ensures RowPass(t, d, params).value.row[CategoryColumn(d.name)] == Str(d.rules[j].thenLabel.value)
  {
    WalkFires(d.name, d.rules, t.row[CategoryColumn(d.name) := Null], params, None, j);
  }

  /** One dimension on one row sets its category cell to a label or `None` and keeps every other cell. */
  lemma RowPassCells(t: Trace, d: Dimension, params: map<string, Value>)
    ensures var r := RowPass(t, d, params);
      r.Ok? ==>
        && r.value.row.Keys == t.row.Keys + {CategoryColumn(d.name)}
        && (r.value.row[CategoryColumn(d.name)].Null? || r.value.row[CategoryColumn(d.name)].Str?)
        && (forall c | c in t.row && c != CategoryColumn(d.name) :: r.value.row[c] == t.row[c])
  {
  }

  lemma RowEvaluateStep(t: Trace, dims: seq<Dimension>, params: map<string, Value>)
    requires dims != [] && RowEvaluate(t, dims, params).Ok?
    ensures RowPass(t, dims[0], params).Ok?
    ensures RowEvaluate(t, dims, params) == RowEvaluate(RowPass(t, dims[0], params).value, dims[1..], params)
  {
  }

  lemma ConcatAssociative(a: seq<string>, b: seq<string>, c: seq<string>)
    ensures (a + b) + c == a + (b + c)
  {
  }

  /** One row through all dimensions: the audit grows by exactly the fired entries, one per firing dimension, in order. */
  lemma {:induction false} RowEvaluateAudit(t: Trace, dims: seq<Dimension>, params: map<string, Value>)
    decreases |dims|
    ensures var r := RowEvaluate(t, dims, params);
      r.Ok? ==> r.value.audit == t.audit + FiredTrail(t, dims, params)
  {
    var r := RowEvaluate(t, dims, params);
    if dims == [] {
      assert t.audit + [] == t.audit;
    } else if r.Ok? {
      RowEvaluateStep(t, dims, params);
      var t1 := RowPass(t, dims[0], params).value;
      RowPassAudit(t, dims[0], params);
      RowEvaluateAudit(t1, dims[1..], params);
      var entry := FiredEntry(dims[0], t.row[CategoryColumn(dims[0].name) := Null], params);
      FiredTrailStep(t, dims, params);
      var rest := FiredTrail(t1, dims[1..], params);
      assert r.value.audit == t1.audit + rest;
      assert t1.audit == t.audit + entry;
      ConcatAssociative(t.audit, entry, rest);
    }
  }

  /** One row through all dimensions: every category cell is a label or `None`, every other cell is kept. */
  lemma {:induction false} RowEvaluateCells(t: Trace, dims: seq<Dimension>, params: map<string, Value>)
    decreases |dims|
    ensures var r := RowEvaluate(t, dims, params);
      r.Ok? ==>
        && r.value.row.Keys == t.row.Keys + CategoryColumns(dims)
        && (forall c | c in CategoryColumns(dims) :: r.value.row[c].Null? || r.value.row[c].Str?)
        && (forall c | c in t.row && c !in CategoryColumns(dims) :: r.value.row[c] == t.row[c])
  {
    var r := RowEvaluate(t, dims, params);
    if dims != [] && r.Ok? {
      RowEvaluateStep(t, dims, params);
      var t1 := RowPass(t, dims[0], params).value;
      RowPassCells(t, dims[0], params);
      RowEvaluateCells(t1, dims[1..], params);
      CategoryColumnsCons(dims);
    }
  }

  lemma {:induction false} DimensionPassByRow(ts: seq<Trace>, d: Dimension, params: map<string, Value>)
    ensures DimensionPass(ts, d, params).Ok? <==> forall i | 0 <= i < |ts| :: RowPass(ts[i], d, params).Ok?
    ensures DimensionPass(ts, d, params).Ok? ==>
      && |DimensionPass(ts, d, params).value| == |ts|
      && forall i | 0 <= i < |ts| :: DimensionPass(ts, d, params).value[i] == RowPass(ts[i], d, params).value
  {
    if ts != [] {
      DimensionPassByRow(ts[1..], d, params);
      assert forall i | 1 <= i < |ts| :: ts[1..][i - 1] == ts[i];
    }
  }

  /**
   * Evaluating dimension by dimension over all rows, as the engine does, is
   * the same as evaluating each row on its own: the pack fails exactly when
   * some row fails, and otherwise each row's result depends only on that row.
   */
  lemma {:induction false} LogicPassByRow(ts: seq<Trace>, dims: seq<Dimension>, params: map<string, Value>)
    ensures LogicPass(ts, dims, params).Ok? <==> forall i | 0 <= i < |ts| :: RowEvaluate(ts[i], dims, params).Ok?
    ensures LogicPass(ts, dims, params).Ok? ==>
      && |LogicPass(ts, dims, params).value| == |ts|
      && forall i | 0 <= i < |ts| :: LogicPass(ts, dims, params).value[i] == RowEvaluate(ts[i], dims, params).value
    decreases |dims|
  {
    if dims != [] {
      var d := dims[0];
      DimensionPassByRow(ts, d, params);
      var pass := DimensionPass(ts, d, params);
      if pass.Ok? {
        LogicPassByRow(pass.value, dims[1..], params);
        assert forall i | 0 <= i < |ts| :: RowEvaluate(ts[i], dims, params) == RowEvaluate(pass.value[i], dims[1..], params);
      } else {
        var i :| 0 <= i < |ts| && RowPass(ts[i], d, params).Err?;
        assert RowEvaluate(ts[i], dims, params).Err?;
      }
    }
  }

  /** `evaluate` row by row: it fails exactly when some row fails, and each output row is its own input row evaluated and stamped. */
  lemma EvaluateByRow(f: Frame, pack: RulePack)
    ensures EvaluateSpec(f, pack).Ok? <==>
      forall i | 0 <= i < |f.rows| :: RowEvaluate(Trace(f.rows[i], []), pack.logic, pack.parameters).Ok?
    ensures EvaluateSpec(f, pack).Ok? ==>
      && |EvaluateSpec(f, pack).value.rows| == |f.rows|
      && forall i | 0 <= i < |f.rows| ::
           EvaluateSpec(f, pack).value.rows[i] == Stamp(RowEvaluate(Trace(f.rows[i], []), pack.logic, pack.parameters).value, pack)
  {
    var ts := Start(f.rows);
    LogicPassByRow(ts, pack.logic, pack.parameters);
    assert forall i | 0 <= i < |f.rows| :: ts[i] == Trace(f.rows[i], []);
    var pass := LogicPass(ts, pack.logic, pack.parameters);
    if pass.Ok? {
      var out := EvaluateSpec(f, pack).value;
      assert out.rows == seq(|pass.value|, i requires 0 <= i < |pass.value| => Stamp(pass.value[i], pack));
    }
  }

  lemma {:induction false} DimensionColumnsEffect(columns: seq<string>, dims: seq<Dimension>)
    ensures columns <= DimensionColumns(columns, dims)
    ensures ColumnSet(DimensionColumns(columns, dims)) == ColumnSet(columns) + CategoryColumns(dims)
    ensures Distinct(columns) ==> Distinct(DimensionColumns(columns, dims))
    decreases |dims|
  {
    if dims != [] {
      var next := AddColumn(columns, CategoryColumn(dims[0].name));
      DimensionColumnsEffect(next, dims[1..]);
      CategoryColumnsCons(dims);
    }
  }

  const StampColumnSet: set<string> := {VersionColumn, NameColumn, AuditColumn}

  lemma StampEffect(t: Trace, pack: RulePack)
    ensures Stamp(t, pack).Keys == t.row.Keys + StampColumnSet
    ensures Stamp(t, pack)[VersionColumn] == Num(pack.version as real)
    ensures Stamp(t, pack)[NameColumn] == Str(pack.name)
    ensures Stamp(t, pack)[AuditColumn] == AuditValue(t.audit)
    ensures forall c | c in t.row && c !in StampColumnSet :: Stamp(t, pack)[c] == t.row[c]
  {
  }

  lemma StampColumnsEffect(columns: seq<string>)
    ensures columns <= StampColumns(columns)
    ensures ColumnSet(StampColumns(columns)) == ColumnSet(columns) + StampColumnSet
    ensures Distinct(columns) ==> Distinct(StampColumns(columns))
  {
  }

  /** `evaluate` keeps the number of rows. */
  lemma EvaluateRowCount(f: Frame, pack: RulePack)
    requires EvaluateSpec(f, pack).Ok?
    ensures |EvaluateSpec(f, pack).value.rows| == |f.rows|
  {
    LogicPassByRow(Start(f.rows), pack.logic, pack.parameters);
  }

  /** Each output row has its input row's columns, the dimensions' category columns and the stamp columns. */
  lemma EvaluateRowKeys(f: Frame, pack: RulePack, i: nat)
    requires EvaluateSpec(f, pack).Ok? && i < |f.rows| && i < |EvaluateSpec(f, pack).value.rows|
    ensures EvaluateSpec(f, pack).value.rows[i].Keys == f.rows[i].Keys + CategoryColumns(pack.logic) + StampColumnSet
  {
    EvaluateByRow(f, pack);
    var t := Trace(f.rows[i], []);
    RowEvaluateCells(t, pack.logic, pack.parameters);
    StampEffect(RowEvaluate(t, pack.logic, pack.parameters).value, pack);
  }

  /**
   * The output frame keeps the input's columns in place, adds each dimension's
   * category column and the three stamp columns, and stays well formed.
   */
  lemma EvaluateColumns(f: Frame, pack: RulePack)
    requires EvaluateSpec(f, pack).Ok?
    ensures var out := EvaluateSpec(f, pack).value;
      && f.columns <= out.columns
      && ColumnSet(out.columns) == ColumnSet(f.columns) + CategoryColumns(pack.logic) + StampColumnSet
      && (WellFormed(f) ==> WellFormed(out))
  {
    var out := EvaluateSpec(f, pack).value;
    DimensionColumnsEffect(f.columns, pack.logic);
    assert out.columns == StampColumns(DimensionColumns(f.columns, pack.logic));
    StampColumnsEffect(DimensionColumns(f.columns, pack.logic));
    EvaluateRowCount(f, pack);
    if WellFormed(f) {
      forall i | 0 <= i < |out.rows|
        ensures out.rows[i].Keys == ColumnSet(out.columns)
      {
        EvaluateRowKeys(f, pack, i);
      }
    }
  }

  /**
   * Every output row carries the pack's version and name and, as its audit,
   * the entries of the rules that fired on it, at most one per dimension.
   */
  lemma EvaluateStamps(f: Frame, pack: RulePack, i: nat)
    requires EvaluateSpec(f, pack).Ok? && i < |f.rows| && i < |EvaluateSpec(f, pack).value.rows|
    ensures var row := EvaluateSpec(f, pack).value.rows[i];
      && row[VersionColumn] == Num(pack.version as real)
      && row[NameColumn] == Str(pack.name)
      && row[AuditColumn] == AuditValue(FiredTrail(Trace(f.rows[i], []), pack.logic, pack.parameters))
    ensures |FiredTrail(Trace(f.rows[i], []), pack.logic, pack.parameters)| <= |pack.logic|
  {
    EvaluateByRow(f, pack);
    var t := Trace(f.rows[i], []);
    var evaluated := RowEvaluate(t, pack.logic, pack.parameters).value;
    RowEvaluateAudit(t, pack.logic, pack.parameters);
    StampEffect(evaluated, pack);
    var row := EvaluateSpec(f, pack).value.rows[i];
    assert row == Stamp(evaluated, pack);
    assert evaluated.audit == FiredTrail(t, pack.logic, pack.parameters);
    FiredTrailBound(t, pack.logic, pack.parameters);
  }

  /** In every output row each category cell is a label or `None` and every other input cell is unchanged. */
  lemma EvaluateCells(f: Frame, pack: RulePack, i: nat)
    requires EvaluateSpec(f, pack).Ok? && i < |f.rows| && i < |EvaluateSpec(f, pack).value.rows|
    ensures var row := EvaluateSpec(f, pack).value.rows[i];
      && (forall c | c in CategoryColumns(pack.logic) && c !in StampColumnSet :: c in row && (row[c].Null? || row[c].Str?))
      && (forall c | c in f.rows[i] && c !in CategoryColumns(pack.logic) && c !in StampColumnSet :: c in row && row[c] == f.rows[i][c])
  {
    EvaluateByRow(f, pack);
    var t := Trace(f.rows[i], []);
    RowEvaluateCells(t, pack.logic, pack.parameters);
    StampEffect(RowEvaluate(t, pack.logic, pack.parameters).value, pack);
  }
}
