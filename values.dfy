/**
 * The scalar and sequence values that flow through rows, rule-pack parameters
 * and condition expressions, with the parts of Python's semantics the rule
 * language relies on: truthiness, `==`, ordering and membership.
 */
module Values {
  import opened Results

  /** Python lists and tuples are both sequences, but never equal to each other. */
  datatype SeqKind = ListKind | TupleKind

  /**
   * Python ints and floats are both `Num`; `bool` stays apart but compares as 0/1.
   * `NaN` is the float not-a-number, which pandas uses for a missing numeric cell.
   */
  datatype Value =
    | Null
    | Bool(b: bool)
    | Num(n: real)
    | NaN
    | Str(s: string)
    | Seq(kind: SeqKind, items: seq<Value>)

  /** Python's `bool(v)`. */
  predicate Truthy(v: Value)
  {
    match v
    case Null => false
    case Bool(b) => b
    case Num(n) => n != 0.0
    case NaN => true
    case Str(s) => |s| > 0
    case Seq(_, items) => |items| > 0
  }

  /** The number a value stands for in arithmetic comparisons (`True` is 1). */
  function Numeric(v: Value): (r: Option<real>)
    ensures r.Some? <==> v.Num? || v.Bool?
  {
    match v
    case Num(n) => Some(n)
    case Bool(b) => Some(if b then 1.0 else 0.0)
    case _ => None
  }

  /** A value Python orders as a float: a number, a boolean or NaN. */
  predicate IsNumber(v: Value)
  {
    Numeric(v).Some? || v.NaN?
  }

  /** Python's `==` on these values; NaN equals nothing, itself included. */
  predicate Equal(a: Value, b: Value)
    decreases a
  {
    if a.NaN? || b.NaN? then false
    else if Numeric(a).Some? || Numeric(b).Some? then
      Numeric(a).Some? && Numeric(b).Some? && Numeric(a).value == Numeric(b).value
    else
      match a
      case Null => b.Null?
      case Str(s) => b.Str? && b.s == s
      case Seq(k, xs) =>
        && b.Seq? && b.kind == k && |b.items| == |xs|
        && forall i | 0 <= i < |xs| :: Equal(xs[i], b.items[i])
      case _ => false
  }

  /** Lexicographic order of strings by code point, as Python orders `str`. */
  predicate StrLess(a: string, b: string)
  {
    if |a| == 0 then |b| > 0
    else if |b| == 0 then false
    else if a[0] != b[0] then a[0] < b[0]
    else StrLess(a[1..], b[1..])
  }

  /**
   * Python's `a < b`; `None` when Python raises `TypeError` (unorderable operands).
   * Every ordering with NaN on either side is false.
   */
  function Less(a: Value, b: Value): (r: Option<bool>)
    ensures r.Some? <==> (IsNumber(a) && IsNumber(b)) || (a.Str? && b.Str?)
    ensures r.Some? && (a.NaN? || b.NaN?) ==> !r.value
  {
    if IsNumber(a) && IsNumber(b) then
      if a.NaN? || b.NaN? then Some(false) else Some(Numeric(a).value < Numeric(b).value)
    else if a.Str? && b.Str? then Some(StrLess(a.s, b.s))
    else None
  }

  /** `needle` occurs in `hay` starting at index `i`. */
  predicate OccursAt(needle: string, hay: string, i: int)
  {
    0 <= i && i + |needle| <= |hay| && hay[i..i + |needle|] == needle
  }

  /** Python's `needle in hay` on two strings. */
  predicate IsSubstring(needle: string, hay: string)
  {
    exists i | 0 <= i <= |hay| - |needle| :: OccursAt(needle, hay, i)
  }

  /** Python's `x in c`; `None` when Python raises `TypeError`. */
  function Contains(c: Value, x: Value): (r: Option<bool>)
    ensures c.Seq? ==> r == Some(exists i | 0 <= i < |c.items| :: Equal(x, c.items[i]))
    ensures r.Some? <==> c.Seq? || (c.Str? && x.Str?)
  {
    match c
    case Seq(_, items) => Some(exists i | 0 <= i < |items| :: Equal(x, items[i]))
    case Str(hay) => if x.Str? then Some(IsSubstring(x.s, hay)) else None
    case _ => None
  }
}
