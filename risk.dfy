/**
 * The combined risk the screening page adds after the rules engine has run:
 * the worse of the biodiversity and water categories, ranked
 * Low < Medium < High with `None` and any other value below all three.
 */
module RiskCombination {
  import opened Values
  import opened Frames

  const BiodiversityColumn: string := "biodiversity_category"
  const WaterColumn: string := "water_category"
  const OverallColumn: string := "overall_risk"

  /** `order.get(v, -1)` for the page's rank table. */
  function Rank(v: Value): (r: int)
    ensures -1 <= r <= 2
    ensures r == 0 <==> v == Str("Low")
    ensures r == 1 <==> v == Str("Medium")
    ensures r == 2 <==> v == Str("High")
  {
    if v == Str("Low") then 0
    else if v == Str("Medium") then 1
    else if v == Str("High") then 2
    else -1
  }

  function Max(x: int, y: int): int { if x >= y then x else y }

  /** `worst(a, b)`: the argument of higher rank, the first one on a tie. */
  function Worst(a: Value, b: Value): (r: Value)
    ensures r == a || r == b
    ensures Rank(r) == Max(Rank(a), Rank(b))
    ensures Rank(a) == Rank(b) ==> r == a
  {
    if Rank(a) >= Rank(b) then a else b
  }

  /** The worst of three is the same whichever pair is combined first. */
  lemma WorstAssociative(a: Value, b: Value, c: Value)
    ensures Worst(Worst(a, b), c) == Worst(a, Worst(b, c))
  {
  }

  /** A `High` on either side decides the result. */
  lemma WorstHigh(x: Value)
    ensures Worst(Str("High"), x) == Str("High")
    ensures Worst(x, Str("High")) == Str("High")
  {
  }

  lemma WorstExamples()
    ensures Worst(Str("High"), Str("Low")) == Str("High")
    ensures Worst(Str("Medium"), Null) == Str("Medium")
    ensures Worst(Null, Null) == Null
    ensures forall x :: Worst(x, x) == x
  {
  }

  /** The overall risk of one row: missing columns read as `None`. */
  function OverallRisk(row: Row): (r: Value)
    ensures r == Get(row, BiodiversityColumn) || r == Get(row, WaterColumn)
    ensures Rank(r) == Max(Rank(Get(row, BiodiversityColumn)), Rank(Get(row, WaterColumn)))
  {
    Worst(Get(row, BiodiversityColumn), Get(row, WaterColumn))
  }

  /** Only the biodiversity and water categories influence the overall risk. */
  lemma OverallRiskOnlyTwoColumns(r1: Row, r2: Row)
    requires Get(r1, BiodiversityColumn) == Get(r2, BiodiversityColumn)
    requires Get(r1, WaterColumn) == Get(r2, WaterColumn)
    ensures OverallRisk(r1) == OverallRisk(r2)
  {
  }

  /** `results["overall_risk"] = results.apply(...)`: one value per row, other cells untouched. */
  function AddOverallRisk(f: Frame): (g: Frame)
    ensures g.columns == AddColumn(f.columns, OverallColumn)
    ensures |g.rows| == |f.rows|
    ensures forall i | 0 <= i < |f.rows| ::
      && g.rows[i].Keys == f.rows[i].Keys + {OverallColumn}
      && g.rows[i][OverallColumn] == OverallRisk(f.rows[i])
      && forall c | c in f.rows[i] && c != OverallColumn :: g.rows[i][c] == f.rows[i][c]
    ensures WellFormed(f) ==> WellFormed(g)
  {
    Frame(AddColumn(f.columns, OverallColumn),
          seq(|f.rows|, i requires 0 <= i < |f.rows| => f.rows[i][OverallColumn := OverallRisk(f.rows[i])]))
  }
}
