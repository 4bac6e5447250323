/**
 * The small rules of the spatial screening steps: the configuration defaults,
 * when input points are buffered, the per-point nearest-water loop (with the
 * spatial index and the geometry library as oracles) and the inclusive
 * near-water flag.
 */
module Spatial {
  import opened Results
  import opened Values
  import opened Frames

  datatype SpatialJoinConfig = SpatialJoinConfig(
    joinHow: string,
    predicateIntersect: string,
    bufferMeters: Option<real>,
    distanceWaterThresholdM: real)

  /** The dataclass defaults. */
  function DefaultConfig(): (c: SpatialJoinConfig)
    ensures c.joinHow == "left" && c.predicateIntersect == "intersects"
    ensures c.bufferMeters == None && c.distanceWaterThresholdM == 1000.0
  {
    SpatialJoinConfig("left", "intersects", None, 1000.0)
  }

  /** `if cfg.buffer_meters:` -- a buffer is applied only when the setting is truthy. */
  predicate AppliesBuffer(cfg: SpatialJoinConfig)
  {
    cfg.bufferMeters.Some? && cfg.bufferMeters.value != 0.0
  }

  /**
   * The points handed to the Natura 2000 join: each buffered by the configured
   * distance when buffering applies, otherwise the points as they are.
   */
  function PrepareForJoin<G>(points: seq<G>, cfg: SpatialJoinConfig, buffer: (G, real) -> G): (r: seq<G>)
    ensures |r| == |points|
    ensures !AppliesBuffer(cfg) ==> r == points
    ensures AppliesBuffer(cfg) ==> forall i | 0 <= i < |points| :: r[i] == buffer(points[i], cfg.bufferMeters.value)
  {
    if AppliesBuffer(cfg) then seq(|points|, i requires 0 <= i < |points| => buffer(points[i], cfg.bufferMeters.value))
    else points
  }

  /** Neither the default configuration nor a zero buffer buffers anything; any other buffer does. */
  lemma BufferGuard(b: real)
    ensures !AppliesBuffer(DefaultConfig())
    ensures !AppliesBuffer(DefaultConfig().(bufferMeters := Some(0.0)))
    ensures b != 0.0 ==> AppliesBuffer(DefaultConfig().(bufferMeters := Some(b)))
  {
  }

  const DistanceColumn: string := "dist_water_m"
  const NearestIdColumn: string := "nearest_water_id"
  const NearWaterColumn: string := "near_water_bool"

  datatype SpatialError =
    | MissingColumn(name: string)  // KeyError on the frame
    | NoCandidate                  // IndexError: the spatial index returned nothing
    | TypeError                    // a cell the comparison refuses

  /** A water body: its index label in the water layer and its shape. */
  datatype WaterFeature<W> = WaterFeature(id: Value, shape: W)

  /**
   * `distance_to_nearest_water`: for each point, in order, ask the spatial
   * index for its nearest water body, measure the distance to it and record
   * the distance and the water body's id. `nearest` and `distance` stand for
   * the spatial index and the geometry library; `geometry` is the points'
   * geometry column, aligned with `f.rows`.
   */
  method DistanceToNearestWater<G, W>(f: Frame, geometry: seq<G>, water: seq<WaterFeature<W>>,
      nearest: G -> nat, distance: (G, W) -> real)
    returns (r: Result<Frame, SpatialError>)
    requires |geometry| == |f.rows|
    requires |water| > 0 ==> forall g :: nearest(g) < |water|
    ensures r.Err? <==> |geometry| > 0 && |water| == 0
    ensures r.Err? ==> r.error == NoCandidate
    ensures r.Ok? ==>
      && r.value.columns == AddColumn(AddColumn(f.columns, DistanceColumn), NearestIdColumn)
      && |r.value.rows| == |f.rows|
      && forall i | 0 <= i < |f.rows| ::
           && |water| > 0
           && r.value.rows[i] == f.rows[i]
                [DistanceColumn := Num(distance(geometry[i], water[nearest(geometry[i])].shape))]
                [NearestIdColumn := water[nearest(geometry[i])].id]
    ensures r.Ok? && |water| > 0 && (forall i | 0 <= i < |geometry| :: IndexIsExact(geometry[i], water, nearest, distance)) ==>
      forall i | 0 <= i < |f.rows| :: r.value.rows[i][DistanceColumn] == Num(MinDistance(geometry[i], water, distance))
  {
    var distances: seq<real> := [];
    var ids: seq<Value> := [];
    var i := 0;
    while i < |geometry|
      invariant 0 <= i <= |geometry|
      invariant i > 0 ==> |water| > 0
      invariant |distances| == |ids| == i
      invariant forall j | 0 <= j < i ::
        && distances[j] == distance(geometry[j], water[nearest(geometry[j])].shape)
        && ids[j] == water[nearest(geometry[j])].id
    {
      var g := geometry[i];
      if |water| == 0 {
        return Err(NoCandidate);
      }
      var k := nearest(g);
      distances := distances + [distance(g, water[k].shape)];
      ids := ids + [water[k].id];
      i := i + 1;
    }
    var rows := seq(|f.rows|, j requires 0 <= j < |f.rows| =>
      f.rows[j][DistanceColumn := Num(distances[j])][NearestIdColumn := ids[j]]);
    r := Ok(Frame(AddColumn(AddColumn(f.columns, DistanceColumn), NearestIdColumn), rows));
    if |water| > 0 && forall i | 0 <= i < |geometry| :: IndexIsExact(geometry[i], water, nearest, distance) {
      forall i | 0 <= i < |f.rows|
        ensures distances[i] == MinDistance(geometry[i], water, distance)
      {
        NearestIsMinimal(geometry[i], water, nearest, distance);
      }
    }
  }

  /** The smallest distance from `g` to any water body, found by trying every one of them. */
  function MinDistance<G, W>(g: G, water: seq<WaterFeature<W>>, distance: (G, W) -> real): (m: real)
    requires |water| > 0
    ensures forall k | 0 <= k < |water| :: m <= distance(g, water[k].shape)
    ensures exists k | 0 <= k < |water| :: m == distance(g, water[k].shape)
    decreases |water|
  {
    if |water| == 1 then distance(g, water[0].shape)
    else
      var rest := MinDistance(g, water[1..], distance);
      var first := distance(g, water[0].shape);
      assert forall k | 1 <= k < |water| :: water[k] == water[1..][k - 1];
      if first <= rest then first else rest
  }

  /** The spatial index answers `g` with a water body no farther than any other. */
  predicate IndexIsExact<G, W>(g: G, water: seq<WaterFeature<W>>, nearest: G -> nat, distance: (G, W) -> real)
  {
    && nearest(g) < |water|
    && forall k | 0 <= k < |water| :: distance(g, water[nearest(g)].shape) <= distance(g, water[k].shape)
  }

  /** With an exact index, the distance measured to the index's answer is the minimum over all water bodies. */
  lemma NearestIsMinimal<G, W>(g: G, water: seq<WaterFeature<W>>, nearest: G -> nat, distance: (G, W) -> real)
    requires IndexIsExact(g, water, nearest, distance)
    ensures distance(g, water[nearest(g)].shape) == MinDistance(g, water, distance)
  {
    var m := MinDistance(g, water, distance);
    var k :| 0 <= k < |water| && m == distance(g, water[k].shape);
    assert distance(g, water[nearest(g)].shape) <= distance(g, water[k].shape);
  }

  /**
   * `cell <= threshold` on the distance column, as pandas compares element-wise:
   * a missing distance, NaN or `None`, compares false.
   */
  function AtMost(cell: Value, threshold: real): (r: Result<bool, SpatialError>)
    ensures r.Ok? <==> IsNumber(cell) || cell.Null?
    ensures r.Ok? ==> (r.value <==> Numeric(cell).Some? && Numeric(cell).value <= threshold)
  {
    match Numeric(cell)
    case Some(d) => Ok(d <= threshold)
    case None => if cell.Null? || cell.NaN? then Ok(false) else Err(TypeError)
  }

  /**
   * `flag_within_water_threshold`: a copy of the frame with `near_water_bool`
   * set, per row, to whether the distance is within the threshold.
   */
  function FlagWithinWaterThreshold(f: Frame, threshold: real): (r: Result<Frame, SpatialError>)
    requires WellFormed(f)
    ensures DistanceColumn !in f.columns ==> r == Err(MissingColumn(DistanceColumn))
    ensures r.Ok? <==>
      DistanceColumn in f.columns && forall i | 0 <= i < |f.rows| :: AtMost(f.rows[i][DistanceColumn], threshold).Ok?
    ensures r.Ok? ==>
      && r.value.columns == AddColumn(f.columns, NearWaterColumn)
      && WellFormed(r.value)
      && |r.value.rows| == |f.rows|
      && forall i | 0 <= i < |f.rows| ::
           && r.value.rows[i][NearWaterColumn] == Bool(AtMost(f.rows[i][DistanceColumn], threshold).value)
           && forall c | c in f.rows[i] && c != NearWaterColumn :: r.value.rows[i][c] == f.rows[i][c]
  {
    if DistanceColumn !in f.columns then Err(MissingColumn(DistanceColumn))
    else if exists i | 0 <= i < |f.rows| :: AtMost(f.rows[i][DistanceColumn], threshold).Err? then Err(TypeError)
    else
      Ok(Frame(AddColumn(f.columns, NearWaterColumn),
        seq(|f.rows|, i requires 0 <= i < |f.rows| =>
          f.rows[i][NearWaterColumn := Bool(AtMost(f.rows[i][DistanceColumn], threshold).value)])))
  }

  /** The threshold is inclusive: a point exactly at the threshold is near water. */
  lemma ThresholdInclusive(f: Frame, threshold: real, i: nat)
    requires WellFormed(f) && FlagWithinWaterThreshold(f, threshold).Ok? && i < |f.rows|
    requires f.rows[i][DistanceColumn] == Num(threshold)
    ensures FlagWithinWaterThreshold(f, threshold).value.rows[i][NearWaterColumn] == Bool(true)
  {
  }

  /** Raising the threshold never clears a flag. */
  lemma ThresholdMonotone(f: Frame, t1: real, t2: real, i: nat)
    requires WellFormed(f) && t1 <= t2 && i < |f.rows|
    requires FlagWithinWaterThreshold(f, t1).Ok?
    requires FlagWithinWaterThreshold(f, t1).value.rows[i][NearWaterColumn] == Bool(true)
    ensures FlagWithinWaterThreshold(f, t2).Ok?
    ensures FlagWithinWaterThreshold(f, t2).value.rows[i][NearWaterColumn] == Bool(true)
  {
  }
}
