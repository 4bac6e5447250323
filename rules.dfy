/**
 * The rule evaluation engine: loading a rule pack from its parsed document and
 * evaluating it over a frame, dimension by dimension and row by row, with an
 * audit trail of the conditional rules that fired.
 */
module Rules {
  import opened Results
  import opened Values
  import opened Frames
  import opened Conditions

  /**
   * One entry of a dimension's rule list, keyed as in the pack document:
   * `default: <label>`, or `when: <condition>` with `then: <label>`.
   */
  datatype Rule = Rule(defaultLabel: Option<string>, whenCond: Option<string>, thenLabel: Option<string>)

  /** A conditional rule with both of its keys present. */
  predicate IsConditional(r: Rule)
  {
    r.defaultLabel.None? && r.whenCond.Some? && r.thenLabel.Some?
  }

  datatype Dimension = Dimension(name: string, rules: seq<Rule>)

  datatype RulePack = RulePack(
    version: int,
    name: string,
    description: string,
    parameters: map<string, Value>,
    logic: seq<Dimension>)

  /** The parsed pack document; `None` marks an absent key. */
  datatype PackDocument = PackDocument(
    version: Option<int>,
    name: Option<string>,
    description: Option<string>,
    parameters: Option<map<string, Value>>,
    logic: Option<seq<Dimension>>)

  datatype EngineError =
    | MissingKey(key: string)                // Python's KeyError
    | ConditionFailed(cause: ConditionError) // raised while checking a condition

  /** `load_pack` after the document has been read and parsed. */
  function LoadPack(doc: PackDocument): (r: Result<RulePack, EngineError>)
    ensures r.Ok? <==> doc.version.Some? && doc.name.Some? && doc.logic.Some?
    ensures doc.version.None? ==> r == Err(MissingKey("version"))
    ensures doc.version.Some? && doc.name.None? ==> r == Err(MissingKey("name"))
    ensures doc.version.Some? && doc.name.Some? && doc.logic.None? ==> r == Err(MissingKey("logic"))
    ensures r.Ok? ==>
      && r.value.version == doc.version.value
      && r.value.name == doc.name.value
      && r.value.logic == doc.logic.value
      && r.value.description == (if doc.description.Some? then doc.description.value else "")
      && r.value.parameters == (if doc.parameters.Some? then doc.parameters.value else map[])
  {
    if doc.version.None? then Err(MissingKey("version"))
    else if doc.name.None? then Err(MissingKey("name"))
    else
      var description := if doc.description.Some? then doc.description.value else "";
      var parameters := if doc.parameters.Some? then doc.parameters.value else map[];
      if doc.logic.None? then Err(MissingKey("logic"))
      else Ok(RulePack(doc.version.value, doc.name.value, description, parameters, doc.logic.value))
  }

  /** `assigned or default`: an unset or empty label gives way to the default. */
  function OrDefault(current: Option<string>, category: string): Option<string>
  {
    if current.Some? && |current.value| > 0 then current else Some(category)
  }

  function AuditEntry(dimension: string, condition: string, category: string): string
  {
    dimension + ":" + condition + "=>" + category
  }

  /** What one walk over a rule list decides: the category and the audit entry, if a conditional fired. */
  datatype Verdict = Verdict(category: Option<string>, entry: Option<string>)

  /** The walk over a dimension's rules for one row, starting from `current`. */
  function Walk(dimension: string, rules: seq<Rule>, row: Row, params: map<string, Value>, current: Option<string>)
    : Result<Verdict, EngineError>
    decreases |rules|
  {
    if rules == [] then Ok(Verdict(current, None))
    else
      var rule := rules[0];
      if rule.defaultLabel.Some? then
        Walk(dimension, rules[1..], row, params, OrDefault(current, rule.defaultLabel.value))
      else if rule.whenCond.None? then Err(MissingKey("when"))
      else match ConditionHolds(rule.whenCond.value, row, params)
        case Err(e) => Err(ConditionFailed(e))
        case Ok(false) => Walk(dimension, rules[1..], row, params, current)
        case Ok(true) =>
          if rule.thenLabel.None? then Err(MissingKey("then"))
          else Ok(Verdict(rule.thenLabel, Some(AuditEntry(dimension, rule.whenCond.value, rule.thenLabel.value))))
  }

  function CategoryColumn(dimension: string): string { dimension + "_category" }

  const VersionColumn: string := "rulepack_version"
  const NameColumn: string := "rulepack_name"
  const AuditColumn: string := "rule_audit"

  /** The cell written for a category: the label, or `None`. */
  function CategoryValue(c: Option<string>): Value
  {
    if c.Some? then Str(c.value) else Null
  }

  function EntryList(entry: Option<string>): seq<string>
  {
    if entry.Some? then [entry.value] else []
  }

  /** A row under evaluation together with its audit list. */
  datatype Trace = Trace(row: Row, audit: seq<string>)

  /**
   * One dimension on one row. The row the conditions see has the dimension's
   * category column reset to `None`, as the whole column is before the rows are visited.
   */
  function RowPass(t: Trace, d: Dimension, params: map<string, Value>): Result<Trace, EngineError>
  {
    var column := CategoryColumn(d.name);
    var v :- Walk(d.name, d.rules, t.row[column := Null], params, None);
    Ok(Trace(t.row[column := CategoryValue(v.category)], t.audit + EntryList(v.entry)))
  }

  /** One dimension over all rows, in order; the first failing row aborts. */
  function DimensionPass(ts: seq<Trace>, d: Dimension, params: map<string, Value>): Result<seq<Trace>, EngineError>
  {
    if ts == [] then Ok([])
    else
      var t :- RowPass(ts[0], d, params);
      var rest :- DimensionPass(ts[1..], d, params);
      Ok([t] + rest)
  }

  /** All dimensions in declared order, each over all rows (the engine's loop order). */
  function LogicPass(ts: seq<Trace>, dims: seq<Dimension>, params: map<string, Value>): Result<seq<Trace>, EngineError>
    decreases |dims|
  {
    if dims == [] then Ok(ts)
    else
      var next :- DimensionPass(ts, dims[0], params);
      LogicPass(next, dims[1..], params)
  }

  /** All dimensions in declared order over a single row: the per-row reference semantics. */
  function RowEvaluate(t: Trace, dims: seq<Dimension>, params: map<string, Value>): Result<Trace, EngineError>
    decreases |dims|
  {
    if dims == [] then Ok(t)
    else
      var next :- RowPass(t, dims[0], params);
      RowEvaluate(next, dims[1..], params)
  }

  function DimensionColumns(columns: seq<string>, dims: seq<Dimension>): seq<string>
    decreases |dims|
  {
    if dims == [] then columns else DimensionColumns(AddColumn(columns, CategoryColumn(dims[0].name)), dims[1..])
  }

  function StampColumns(columns: seq<string>): seq<string>
  {
    AddColumn(AddColumn(AddColumn(columns, VersionColumn), NameColumn), AuditColumn)
  }

  function AuditValue(audit: seq<string>): Value
  {
    Seq(ListKind, seq(|audit|, i requires 0 <= i < |audit| => Str(audit[i])))
  }

  /** The pack's version and name and the row's audit list, written onto the row. */
  function Stamp(t: Trace, pack: RulePack): Row
  {
    t.row[VersionColumn := Num(pack.version as real)][NameColumn := Str(pack.name)][AuditColumn := AuditValue(t.audit)]
  }

  function Zip(rows: seq<Row>, audits: seq<seq<string>>): (ts: seq<Trace>)
    requires |rows| == |audits|
    ensures |ts| == |rows|
  {
    seq(|rows|, i requires 0 <= i < |rows| => Trace(rows[i], audits[i]))
  }

  function Start(rows: seq<Row>): (ts: seq<Trace>)
    ensures |ts| == |rows|
  {
    seq(|rows|, i requires 0 <= i < |rows| => Trace(rows[i], []))
  }

  /** The frame `evaluate` returns, or the error it raises. */
  function EvaluateSpec(f: Frame, pack: RulePack): Result<Frame, EngineError>
  {
    var ts :- LogicPass(Start(f.rows), pack.logic, pack.parameters);
    Ok(Frame(
      StampColumns(DimensionColumns(f.columns, pack.logic)),
      seq(|ts|, i requires 0 <= i < |ts| => Stamp(ts[i], pack))))
  }

  lemma {:induction false} DimensionPassAllOk(ts: seq<Trace>, d: Dimension, params: map<string, Value>, us: seq<Trace>)
    requires |us| == |ts|
    requires forall j | 0 <= j < |ts| :: RowPass(ts[j], d, params) == Ok(us[j])
    ensures DimensionPass(ts, d, params) == Ok(us)
  {
    if ts != [] {
      DimensionPassAllOk(ts[1..], d, params, us[1..]);
      assert us == [us[0]] + us[1..];
    }
  }

  lemma {:induction false} DimensionPassFailsAt(ts: seq<Trace>, d: Dimension, params: map<string, Value>, i: nat, e: EngineError)
    requires i < |ts|
    requires forall j | 0 <= j < i :: RowPass(ts[j], d, params).Ok?
    requires RowPass(ts[i], d, params) == Err(e)
    ensures DimensionPass(ts, d, params) == Err(e)
  {
    if i > 0 {
      DimensionPassFailsAt(ts[1..], d, params, i - 1, e);
    }
  }

  lemma EvaluateSpecOk(f: Frame, pack: RulePack, rows: seq<Row>, audits: seq<seq<string>>)
    requires |rows| == |audits|
    requires LogicPass(Start(f.rows), pack.logic, pack.parameters) == Ok(Zip(rows, audits))
    ensures EvaluateSpec(f, pack) == Ok(Frame(
      StampColumns(DimensionColumns(f.columns, pack.logic)),
      seq(|rows|, j requires 0 <= j < |rows| => Stamp(Trace(rows[j], audits[j]), pack))))
  {
    var ts := Zip(rows, audits);
    assert seq(|rows|, j requires 0 <= j < |rows| => Stamp(Trace(rows[j], audits[j]), pack))
        == seq(|ts|, j requires 0 <= j < |ts| => Stamp(ts[j], pack));
  }

  /**
   * The engine's innermost loop for one row: walk the dimension's rules in
   * order, letting defaults fill an empty label, until a conditional fires.
   */
  method WalkRules(d: Dimension, row: Row, params: map<string, Value>) returns (r: Result<Verdict, EngineError>)
    ensures r == Walk(d.name, d.rules, row, params, None)
  {
    var rules := d.rules;
    var current: Option<string> := None;
    var n := 0;
    while n < |rules|
      invariant 0 <= n <= |rules|
      invariant Walk(d.name, rules, row, params, None) == Walk(d.name, rules[n..], row, params, current)
    {
      var rule := rules[n];
      assert rules[n..][0] == rule && rules[n..][1..] == rules[n + 1..];
      if rule.defaultLabel.Some? {
        current := OrDefault(current, rule.defaultLabel.value);
      } else if rule.whenCond.None? {
        return Err(MissingKey("when"));
      } else {
        var holds := EvalCondition(rule.whenCond.value, row, params);
        if holds.Err? {
          return Err(ConditionFailed(holds.error));
        }
        if holds.value {
          if rule.thenLabel.None? {
            return Err(MissingKey("then"));
          }
          return Ok(Verdict(rule.thenLabel, Some(AuditEntry(d.name, rule.whenCond.value, rule.thenLabel.value))));
        }
      }
      n := n + 1;
    }
    return Ok(Verdict(current, None));
  }

  /**
   * The engine's row loop for one dimension: walk each row's rules, then write
   * the row's category and append the fired rule's entry to its audit list.
   */
  method EvaluateDimension(rows: seq<Row>, audits: seq<seq<string>>, d: Dimension, params: map<string, Value>)
    returns (r: Result<(seq<Row>, seq<seq<string>>), EngineError>)
    requires |rows| == |audits|
    ensures r.Ok? ==> |r.value.0| == |r.value.1| == |rows|
    ensures r.Ok? ==> DimensionPass(Zip(rows, audits), d, params) == Ok(Zip(r.value.0, r.value.1))
    ensures r.Err? ==> DimensionPass(Zip(rows, audits), d, params) == Err(r.error)
  {
    var resultColumn := CategoryColumn(d.name);
    ghost var before := Zip(rows, audits);
    var out := rows;
    var audit := audits;
    var i := 0;
    while i < |out|
      invariant 0 <= i <= |out| && |out| == |audit| == |before|
      invariant forall j | 0 <= j < i :: RowPass(before[j], d, params) == Ok(Trace(out[j], audit[j]))
      invariant forall j | i <= j < |out| :: out[j] == before[j].row && audit[j] == before[j].audit
    {
      var verdict := WalkRules(d, out[i][resultColumn := Null], params);
      if verdict.Err? {
        DimensionPassFailsAt(before, d, params, i, verdict.error);
        return Err(verdict.error);
      }
      out := out[i := out[i][resultColumn := CategoryValue(verdict.value.category)]];
      audit := audit[i := audit[i] + EntryList(verdict.value.entry)];
      i := i + 1;
    }
    DimensionPassAllOk(before, d, params, Zip(out, audit));
    return Ok((out, audit));
  }

  /**
   * `evaluate` as the engine runs it: copy the frame, then for each dimension
   * add its category column and visit every row, walking the rules until one
   * fires; finally stamp the pack's version, name and the audit lists.
   */
  method Evaluate(f: Frame, pack: RulePack) returns (r: Result<Frame, EngineError>)
    ensures r == EvaluateSpec(f, pack)
  {
    var params := pack.parameters;
    var columns := f.columns;
    var out := f.rows;
    var audit: seq<seq<string>> := seq(|out|, _ => []);
    assert Zip(out, audit) == Start(f.rows);
    var k := 0;
    while k < |pack.logic|
      invariant 0 <= k <= |pack.logic|
      invariant |out| == |audit| == |f.rows|
      invariant DimensionColumns(f.columns, pack.logic) == DimensionColumns(columns, pack.logic[k..])
      invariant LogicPass(Start(f.rows), pack.logic, params) == LogicPass(Zip(out, audit), pack.logic[k..], params)
    {
      var dimension := pack.logic[k];
      assert pack.logic[k..][0] == dimension && pack.logic[k..][1..] == pack.logic[k + 1..];
      columns := AddColumn(columns, CategoryColumn(dimension.name));
      var pass := EvaluateDimension(out, audit, dimension, params);
      if pass.Err? {
        assert EvaluateSpec(f, pack) == Err(pass.error);
        return Err(pass.error);
      }
      out, audit := pass.value.0, pass.value.1;
      k := k + 1;
    }
    EvaluateSpecOk(f, pack, out, audit);
    columns := AddColumn(columns, VersionColumn);
    columns := AddColumn(columns, NameColumn);
    columns := AddColumn(columns, AuditColumn);
    var stamped := seq(|out|, j requires 0 <= j < |out| => Stamp(Trace(out[j], audit[j]), pack));
    r := Ok(Frame(columns, stamped));
  }
}
