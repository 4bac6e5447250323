/** The upload check that a table carries the columns a step needs. */
module Uploaders {
  import opened Results
  import opened Frames

  datatype ValidationError = MissingColumns(missing: seq<string>)  // ValueError listing the names

  /** `[c for c in required if c not in columns]`. */
  function Missing(required: seq<string>, columns: seq<string>): (m: seq<string>)
    ensures |m| <= |required|
    ensures forall c :: c in m <==> c in required && c !in columns
  {
    if required == [] then []
    else
      (if required[0] in columns then [] else [required[0]]) + Missing(required[1..], columns)
  }

  /** The missing list keeps the order of `required`: filtering distributes over concatenation. */
  lemma {:induction false} MissingConcat(a: seq<string>, b: seq<string>, columns: seq<string>)
    ensures Missing(a + b, columns) == Missing(a, columns) + Missing(b, columns)
  {
    if a != [] {
      var head: seq<string> := if a[0] in columns then [] else [a[0]];
      assert (a + b)[0] == a[0] && (a + b)[1..] == a[1..] + b;
      assert Missing(a + b, columns) == head + Missing(a[1..] + b, columns);
      MissingConcat(a[1..], b, columns);
      assert Missing(a, columns) == head + Missing(a[1..], columns);
      assert head + (Missing(a[1..], columns) + Missing(b, columns))
          == (head + Missing(a[1..], columns)) + Missing(b, columns);
    } else {
      assert a + b == b;
    }
  }

  /** Duplicates are kept: each absent name appears as often as it is required. */
  lemma {:induction false} MissingCounts(required: seq<string>, columns: seq<string>, c: string)
    ensures multiset(Missing(required, columns))[c] == if c in columns then 0 else multiset(required)[c]
  {
    if required != [] {
      MissingCounts(required[1..], columns, c);
      assert required == [required[0]] + required[1..];
    }
  }

  /** `validate_columns`: fails, listing what is missing, exactly when some required name is absent. */
  function ValidateColumns(f: Frame, required: seq<string>): (r: Result<(), ValidationError>)
    ensures r.Err? <==> exists i | 0 <= i < |required| :: required[i] !in f.columns
    ensures r.Err? ==> r.error.missing == Missing(required, f.columns)
  {
    var missing := Missing(required, f.columns);
    assert |missing| > 0 ==> missing[0] in missing;
    assert forall i | 0 <= i < |required| :: required[i] in required;
    if |missing| > 0 then Err(MissingColumns(missing)) else Ok(())
  }

  lemma NothingRequired(f: Frame)
    ensures ValidateColumns(f, []) == Ok(())
  {
  }
}
