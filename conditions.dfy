/**
 * Checking one rule condition against one row: the textual `not null`
 * shortcut, the variable environment built from the row and the pack
 * parameters, the fail-closed name whitelist, and evaluation of the parsed
 * expression.
 */
module Conditions {
  import opened Results
  import opened Values
  import opened Syntax
  import opened Frames

  datatype ConditionError =
    | Syntax(reason: SyntaxError)
    | IllegalName(name: string)  // the engine's ValueError("Illegal name in expression: ...")
    | TypeError                  // an operator applied to operands Python refuses

  const NotNullShortcut: string := " not null"
  const NotNullReplacement: string := " != None"

  /** Python's `s.replace(pat, rep)`: every non-overlapping occurrence, left to right. */
  function ReplaceAll(s: string, pat: string, rep: string): string
    requires |pat| > 0
    decreases |s|
  {
    if |s| < |pat| then s
    else if s[..|pat|] == pat then rep + ReplaceAll(s[|pat|..], pat, rep)
    else [s[0]] + ReplaceAll(s[1..], pat, rep)
  }

  /** The friendly-shortcut rewrite applied to a condition before anything else. */
  function Rewrite(condition: string): string
  {
    ReplaceAll(condition, NotNullShortcut, NotNullReplacement)
  }

  predicate NoOccurrence(pat: string, s: string)
  {
    forall i | 0 <= i <= |s| - |pat| :: !OccursAt(pat, s, i)
  }

  /** Text without the pattern is left as it is. */
  lemma {:induction false} ReplaceAllWithoutOccurrence(s: string, pat: string, rep: string)
    requires |pat| > 0
    requires NoOccurrence(pat, s)
    ensures ReplaceAll(s, pat, rep) == s
    decreases |s|
  {
    if |s| >= |pat| {
      assert !OccursAt(pat, s, 0);
      assert s[..|pat|] != pat;
      forall i | 0 <= i <= |s[1..]| - |pat|
        ensures !OccursAt(pat, s[1..], i)
      {
        assert !OccursAt(pat, s, i + 1);
        assert s[1..][i..i + |pat|] == s[i + 1..i + 1 + |pat|];
      }
      ReplaceAllWithoutOccurrence(s[1..], pat, rep);
      assert s == [s[0]] + s[1..];
    }
  }

  /**
   * A text that does not start with a proper suffix of the shortcut does not
   * start with it after the rewrite either: the rewrite never manufactures such
   * a prefix.
   */
  lemma {:induction false} RewriteKeepsMismatch(t: string, k: nat)
    requires 1 <= k < |NotNullShortcut|
    requires !(NotNullShortcut[k..] <= t)
    ensures !(NotNullShortcut[k..] <= Rewrite(t))
    decreases |NotNullShortcut| - k
  {
    var u := NotNullShortcut[k..];
    var pat := NotNullShortcut;
    var r := Rewrite(t);
    if |t| < |pat| {
      assert r == t;
    } else if t[..|pat|] == pat {
      assert r == NotNullReplacement + Rewrite(t[|pat|..]);
      if k == 4 {
        assert r[1] == '!' && u[1] == 'n';
      } else {
        assert r[0] == ' ' && u[0] != ' ';
      }
    } else {
      assert r == [t[0]] + Rewrite(t[1..]);
      if t[0] == u[0] {
        assert !(u[1..] <= t[1..]);
        assert k + 1 < |pat|;
        assert u[1..] == pat[k + 1..];
        RewriteKeepsMismatch(t[1..], k + 1);
        assert r[1..] == Rewrite(t[1..]);
      }
    }
  }

  /** The replacement text does not start a new shortcut, whatever follows it. */
  lemma NoShortcutAfterReplacement(rest: string)
    requires NoOccurrence(NotNullShortcut, rest)
    ensures NoOccurrence(NotNullShortcut, NotNullReplacement + rest)
  {
    var pat, rep := NotNullShortcut, NotNullReplacement;
    var r := rep + rest;
    forall i | 0 <= i <= |r| - |pat|
      ensures !OccursAt(pat, r, i)
    {
      var w := r[i..i + |pat|];
      if i >= |rep| {
        assert w == rest[i - |rep|..i - |rep| + |pat|];
        assert !OccursAt(pat, rest, i - |rep|);
      } else {
        assert w[0] == rep[i] && w[1] == r[i + 1];
        assert r[i + 1] == if i + 1 < |rep| then rep[i + 1] else rest[0];
        assert pat[0] == ' ' && pat[1] == 'n';
        assert i == 0 || i == 1 || i == 2 || i == 3 || i == 4 || i == 5 || i == 6 || i == 7;
        assert rep[0] == ' ' && rep[1] == '!' && rep[2] == '=' && rep[3] == ' ';
        assert rep[4] == 'N' && rep[5] == 'o' && rep[6] == 'n' && rep[7] == 'e';
      }
    }
  }

  /** After the rewrite no `" not null"` is left: every occurrence was replaced. */
  lemma {:induction false} RewriteLeavesNoShortcut(s: string)
    ensures NoOccurrence(NotNullShortcut, Rewrite(s))
    decreases |s|
  {
    var pat, rep := NotNullShortcut, NotNullReplacement;
    var r := Rewrite(s);
    if |s| < |pat| {
      assert r == s;
    } else if s[..|pat|] == pat {
      var rest := Rewrite(s[|pat|..]);
      RewriteLeavesNoShortcut(s[|pat|..]);
      assert r == rep + rest;
      NoShortcutAfterReplacement(rest);
    } else {
      var rest := Rewrite(s[1..]);
      RewriteLeavesNoShortcut(s[1..]);
      assert r == [s[0]] + rest;
      forall i | 0 <= i <= |r| - |pat|
        ensures !OccursAt(pat, r, i)
      {
        if i >= 1 {
          assert r[i..i + |pat|] == rest[i - 1..i - 1 + |pat|];
          assert !OccursAt(pat, rest, i - 1);
        } else if s[0] == ' ' {
          assert !(pat[1..] <= s[1..]);
          RewriteKeepsMismatch(s[1..], 1);
          assert r[1..|pat|] != pat[1..] by {
            assert rest[..|pat| - 1] == r[1..|pat|];
          }
        } else {
          assert r[0] != pat[0];
        }
      }
    }
  }

  /** The names a condition may use: `None`, the row's columns, the pack parameters. */
  function Environment(row: Row, params: map<string, Value>): (env: map<string, Value>)
    ensures env.Keys == {"None"} + row.Keys + params.Keys
    ensures forall n | n in params :: env[n] == params[n]
    ensures forall n | n in row && n !in params :: env[n] == row[n]
  {
    map["None" := Null] + row + params
  }

  /** Every name the expression mentions, in textual order (the compiled code's names). */
  function Names(e: Expr): seq<string>
    decreases e, 1, 0
  {
    match e
    case Name(id) => [id]
    case Const(_) => []
    case Display(_, items) => ItemNames(e, 0)
    case Not(x) => Names(x)
    case And(l, r) => Names(l) + Names(r)
    case Or(l, r) => Names(l) + Names(r)
    case Compare(_, l, r) => Names(l) + Names(r)
  }

  function ItemNames(e: Expr, k: nat): seq<string>
    requires e.Display? && k <= |e.items|
    decreases e, 0, |e.items| - k
  {
    if k == |e.items| then [] else Names(e.items[k]) + ItemNames(e, k + 1)
  }

  /** Every name the expression mentions is a key of `env`. */
  predicate Bound(e: Expr, env: map<string, Value>)
  {
    match e
    case Name(id) => id in env
    case Const(_) => true
    case Display(_, items) => forall i | 0 <= i < |items| :: Bound(items[i], env)
    case Not(x) => Bound(x, env)
    case And(l, r) => Bound(l, env) && Bound(r, env)
    case Or(l, r) => Bound(l, env) && Bound(r, env)
    case Compare(_, l, r) => Bound(l, env) && Bound(r, env)
  }

  lemma {:induction false} ItemNamesInclude(e: Expr, k: nat, i: nat, n: string)
    requires e.Display? && k <= i < |e.items|
    requires n in Names(e.items[i])
    ensures n in ItemNames(e, k)
    decreases |e.items| - k
  {
    if k < i {
      ItemNamesInclude(e, k + 1, i, n);
    }
  }

  /** Checking every listed name is enough for evaluation never to meet an unknown one. */
  lemma {:induction false} NamesBound(e: Expr, env: map<string, Value>)
    requires forall n | n in Names(e) :: n in env
    ensures Bound(e, env)
    decreases e
  {
    match e
    case Name(_) =>
    case Const(_) =>
    case Display(_, items) =>
      forall i | 0 <= i < |items|
        ensures Bound(items[i], env)
      {
        forall n | n in Names(items[i])
          ensures n in env
        {
          ItemNamesInclude(e, 0, i, n);
        }
        NamesBound(items[i], env);
      }
    case Not(x) => NamesBound(x, env);
    case And(l, r) => NamesBound(l, env); NamesBound(r, env);
    case Or(l, r) => NamesBound(l, env); NamesBound(r, env);
    case Compare(_, l, r) => NamesBound(l, env); NamesBound(r, env);
  }

  /** The first name, in order, that `allowed` lacks: the one the engine reports. */
  function FirstIllegal(names: seq<string>, allowed: set<string>): (r: Option<string>)
    ensures r.None? <==> forall i | 0 <= i < |names| :: names[i] in allowed
    ensures r.Some? ==> exists k | 0 <= k < |names| ::
      names[k] == r.value && r.value !in allowed && forall j | 0 <= j < k :: names[j] in allowed
  {
    if names == [] then None
    else if names[0] !in allowed then Some(names[0])
    else
      var r := FirstIllegal(names[1..], allowed);
      if r.Some? then
        ghost var k :| 0 <= k < |names[1..]| && names[1..][k] == r.value && r.value !in allowed
          && forall j | 0 <= j < k :: names[1..][j] in allowed;
        assert names[k + 1] == r.value;
        r
      else
        assert forall i | 1 <= i < |names| :: names[i] == names[1..][i - 1];
        r
  }

  /** Python's comparison and membership operators. */
  function Apply(op: CmpOp, a: Value, b: Value): Result<bool, ConditionError>
  {
    match op
    case Eq => Ok(Equal(a, b))
    case NotEq => Ok(!Equal(a, b))
    case Lt => if Less(a, b).None? then Err(TypeError) else Ok(Less(a, b).value)
    case Gt => if Less(b, a).None? then Err(TypeError) else Ok(Less(b, a).value)
    case LtE => if Less(a, b).None? then Err(TypeError) else Ok(Less(a, b).value || Equal(a, b))
    case GtE => if Less(b, a).None? then Err(TypeError) else Ok(Less(b, a).value || Equal(a, b))
    case In => if Contains(b, a).None? then Err(TypeError) else Ok(Contains(b, a).value)
    case NotIn => if Contains(b, a).None? then Err(TypeError) else Ok(!Contains(b, a).value)
  }

  /**
   * The value of an expression whose names are all bound. `and`/`or` return
   * an operand and skip the right one when the left decides, as in Python.
   */
  function Eval(e: Expr, env: map<string, Value>): Result<Value, ConditionError>
    requires Bound(e, env)
    decreases e, 1, 0
  {
    match e
    case Name(id) => Ok(env[id])
    case Const(v) => Ok(v)
    case Display(kind, items) =>
      var vs :- EvalItems(e, 0, env);
      Ok(Seq(kind, vs))
    case Not(x) =>
      var v :- Eval(x, env);
      Ok(Bool(!Truthy(v)))
    case And(l, r) =>
      var v :- Eval(l, env);
      if !Truthy(v) then Ok(v) else Eval(r, env)
    case Or(l, r) =>
      var v :- Eval(l, env);
      if Truthy(v) then Ok(v) else Eval(r, env)
    case Compare(op, l, r) =>
      var a :- Eval(l, env);
      var b :- Eval(r, env);
      var t :- Apply(op, a, b);
      Ok(Bool(t))
  }

  function EvalItems(e: Expr, k: nat, env: map<string, Value>): Result<seq<Value>, ConditionError>
    requires e.Display? && k <= |e.items| && Bound(e, env)
    decreases e, 0, |e.items| - k
  {
    if k == |e.items| then Ok([])
    else
      var v :- Eval(e.items[k], env);
      var vs :- EvalItems(e, k + 1, env);
      Ok([v] + vs)
  }

  /** `_eval_condition`: rewrite, compile, check every name, then evaluate to a truth value. */
  function ConditionHolds(condition: string, row: Row, params: map<string, Value>): Result<bool, ConditionError>
  {
    var code := Compile(Rewrite(condition));
    if code.Err? then Err(Syntax(code.error))
    else
      var env := Environment(row, params);
      match FirstIllegal(Names(code.value), env.Keys)
      case Some(n) => Err(IllegalName(n))
      case None =>
        NamesBound(code.value, env);
        var v :- Eval(code.value, env);
        Ok(Truthy(v))
  }

  /**
   * The engine's condition check as it runs: the environment is built by
   * successive updates and the compiled names are checked one by one.
   */
  method EvalCondition(condition: string, row: Row, params: map<string, Value>)
    returns (r: Result<bool, ConditionError>)
    ensures r == ConditionHolds(condition, row, params)
  {
    var text := Rewrite(condition);
    var env: map<string, Value> := map["None" := Null];
    env := env + row;
    env := env + params;
    var allowed := env.Keys;
    var code := Compile(text);
    if code.Err? {
      return Err(Syntax(code.error));
    }
    var names := Names(code.value);
    var i := 0;
    while i < |names|
      invariant 0 <= i <= |names|
      invariant forall j | 0 <= j < i :: names[j] in allowed
    {
      if names[i] !in allowed {
        FirstIllegalAt(names, allowed, i);
        return Err(IllegalName(names[i]));
      }
      i := i + 1;
    }
    assert env == Environment(row, params);
    NamesBound(code.value, env);
    var v := Eval(code.value, env);
    if v.Err? {
      return Err(v.error);
    }
    r := Ok(Truthy(v.value));
  }

  lemma {:induction false} FirstIllegalAt(names: seq<string>, allowed: set<string>, i: nat)
    requires i < |names| && names[i] !in allowed
    requires forall j | 0 <= j < i :: names[j] in allowed
    ensures FirstIllegal(names, allowed) == Some(names[i])
  {
    if i > 0 {
      FirstIllegalAt(names[1..], allowed, i - 1);
    }
  }

  /** Evaluating an expression whose names are all bound can only fail with a type error. */
  lemma {:induction false} EvalFailsOnlyOnTypes(e: Expr, env: map<string, Value>)
    requires Bound(e, env)
    ensures Eval(e, env).Err? ==> Eval(e, env).error == TypeError
    decreases e, 1, 0
  {
    match e
    case Name(_) =>
    case Const(_) =>
    case Display(_, _) => EvalItemsFailOnlyOnTypes(e, 0, env);
    case Not(x) => EvalFailsOnlyOnTypes(x, env);
    case And(l, r) => EvalFailsOnlyOnTypes(l, env); EvalFailsOnlyOnTypes(r, env);
    case Or(l, r) => EvalFailsOnlyOnTypes(l, env); EvalFailsOnlyOnTypes(r, env);
    case Compare(_, l, r) => EvalFailsOnlyOnTypes(l, env); EvalFailsOnlyOnTypes(r, env);
  }

  lemma {:induction false} EvalItemsFailOnlyOnTypes(e: Expr, k: nat, env: map<string, Value>)
    requires e.Display? && k <= |e.items| && Bound(e, env)
    ensures EvalItems(e, k, env).Err? ==> EvalItems(e, k, env).error == TypeError
    decreases e, 0, |e.items| - k
  {
    if k < |e.items| {
      EvalFailsOnlyOnTypes(e.items[k], env);
      EvalItemsFailOnlyOnTypes(e, k + 1, env);
    }
  }

  /**
   * The whitelist fails closed, and only then: a condition that compiles is
   * rejected for an illegal name exactly when it mentions a name that is
   * neither `None`, a column of the row nor a pack parameter, and the name
   * reported is one of those.
   */
  lemma IllegalNameExactly(condition: string, row: Row, params: map<string, Value>, e: Expr)
    requires Compile(Rewrite(condition)) == Ok(e)
    ensures var r := ConditionHolds(condition, row, params);
      (r.Err? && r.error.IllegalName?) <==> exists n | n in Names(e) :: n != "None" && n !in row && n !in params
    ensures var r := ConditionHolds(condition, row, params);
      r.Err? && r.error.IllegalName? ==>
        r.error.name in Names(e) && r.error.name != "None" && r.error.name !in row && r.error.name !in params
  {
    var env := Environment(row, params);
    if FirstIllegal(Names(e), env.Keys).None? {
      NamesBound(e, env);
      EvalFailsOnlyOnTypes(e, env);
    }
  }

  /**
   * The first occurrence of the pattern is replaced by the replacement text,
   * the text before it is kept, and the scan resumes right after it.
   */
  lemma {:induction false} ReplaceAllAtFirst(a: string, pat: string, rep: string, b: string)
    requires |pat| > 0
    requires forall i | 0 <= i < |a| :: !OccursAt(pat, a + pat, i)
    ensures ReplaceAll(a + pat + b, pat, rep) == a + rep + ReplaceAll(b, pat, rep)
    decreases |a|
  {
    var s := a + pat + b;
    if a == [] {
      assert s[..|pat|] == pat && s[|pat|..] == b;
    } else {
      assert !OccursAt(pat, a + pat, 0);
      assert s[..|pat|] == (a + pat)[0..|pat|];
      assert s[1..] == a[1..] + pat + b;
      forall i | 0 <= i < |a[1..]|
        ensures !OccursAt(pat, a[1..] + pat, i)
      {
        assert !OccursAt(pat, a + pat, i + 1);
        assert (a[1..] + pat)[i..i + |pat|] == (a + pat)[i + 1..i + 1 + |pat|];
      }
      ReplaceAllAtFirst(a[1..], pat, rep, b);
      assert [a[0]] + (a[1..] + rep + ReplaceAll(b, pat, rep)) == a + rep + ReplaceAll(b, pat, rep);
    }
  }

  /** Every `" not null"` becomes `" != None"`: the rewrite at its first occurrence. */
  lemma RewriteAtFirst(a: string, b: string)
    requires forall i | 0 <= i < |a| :: !OccursAt(NotNullShortcut, a + NotNullShortcut, i)
    ensures Rewrite(a + NotNullShortcut + b) == a + NotNullReplacement + Rewrite(b)
  {
    ReplaceAllAtFirst(a, NotNullShortcut, NotNullReplacement, b);
  }

  /** The rewrite keeps a leading blank, so an indented condition stays indented. */
  lemma RewriteKeepsIndent(condition: string)
    requires Indented(condition)
    ensures Indented(Rewrite(condition)) && Rewrite(condition)[0] == condition[0]
  {
    var s := condition;
    if |s| >= |NotNullShortcut| && s[..|NotNullShortcut|] == NotNullShortcut {
      assert s[0] == s[..|NotNullShortcut|][0] == ' ';
      assert Rewrite(s) == NotNullReplacement + ReplaceAll(s[|NotNullShortcut|..], NotNullShortcut, NotNullReplacement);
      assert Rewrite(s)[0] == NotNullReplacement[0] == ' ';
    }
  }

  /** A condition that starts with a space or a tab fails to compile, whatever the row. */
  lemma IndentedConditionFails(condition: string, row: Row, params: map<string, Value>)
    requires Indented(condition)
    ensures ConditionHolds(condition, row, params).Err?
    ensures ConditionHolds(condition, row, params).error.Syntax?
  {
    RewriteKeepsIndent(condition);
  }

  /** Text without spaces followed by the shortcut is rewritten at the shortcut only. */
  lemma {:induction false} RewriteAfterWord(x: string)
    requires forall k | 0 <= k < |x| :: x[k] != ' '
    ensures Rewrite(x + NotNullShortcut) == x + NotNullReplacement
    decreases |x|
  {
    var s := x + NotNullShortcut;
    if x == [] {
      assert s[..|NotNullShortcut|] == NotNullShortcut && s[|NotNullShortcut|..] == [];
      assert ReplaceAll([], NotNullShortcut, NotNullReplacement) == [];
      assert NotNullReplacement + [] == x + NotNullReplacement;
    } else {
      assert s[..|NotNullShortcut|][0] == x[0];
      assert s[1..] == x[1..] + NotNullShortcut;
      RewriteAfterWord(x[1..]);
      assert [x[0]] + (x[1..] + NotNullReplacement) == x + NotNullReplacement;
    }
  }

  /**
   * The shortcut end to end: `<name> not null` holds exactly when the name is
   * bound to something other than `None`, and is rejected when it is unbound.
   */
  lemma NotNullShortcutMeaning(x: string, row: Row, params: map<string, Value>)
    requires IsIdentifier(x)
    ensures x in row || x in params ==>
      ConditionHolds(x + " not null", row, params) == Ok(Environment(row, params)[x] != Null)
    ensures x !in row && x !in params ==>
      ConditionHolds(x + " not null", row, params) == Err(IllegalName(x))
  {
    RewriteAfterWord(x);
    assert x + " not null" == x + NotNullShortcut;
    CompileNotNone(x);
    var cmp := Compare(NotEq, Name(x), Const(Null));
    var env := Environment(row, params);
    assert Names(cmp) == [x];
    assert Compile(Rewrite(x + " not null")) == Ok(cmp);
    if x in row || x in params {
      assert FirstIllegal([x], env.Keys) == None;
      NamesBound(cmp, env);
      assert Equal(env[x], Null) <==> env[x] == Null;
      assert Eval(cmp, env) == Ok(Bool(env[x] != Null));
    } else {
      assert x != "None";
      assert FirstIllegal([x], env.Keys) == Some(x);
    }
  }

  /**
   * Missing values in conditions: a cell pandas leaves as NaN is not `None`,
   * so `<name> not null` holds on it, and ordering it against a number is
   * false; ordering `None` against a number raises instead.
   */
  lemma MissingNumberInConditions(x: string, row: Row, params: map<string, Value>, t: real)
    requires IsIdentifier(x) && x in row && x !in params && row[x] == NaN
    ensures ConditionHolds(x + " not null", row, params) == Ok(true)
    ensures Apply(LtE, NaN, Num(t)) == Ok(false) && Apply(GtE, NaN, Num(t)) == Ok(false)
    ensures Apply(LtE, Null, Num(t)) == Err(TypeError)
  {
    NotNullShortcutMeaning(x, row, params);
  }
}
