/**
 * The layout generator for a condition with several radii:
 * `number_of_circles` centres drawn at random, kept at least the largest
 * radius away from the window edges, each re-drawn while it repeats a
 * centre already placed, written out as the coordinates string.
 */
module SetupCondition {
  import opened Wrappers
  import opened Geometry
  import opened PyStr
  import opened CoordString
  import opened RandomDraws

  datatype GenError =
    | EmptyRadiusList             // `max` of an empty list
    | DrawFailed(cause: DrawError) // a draw raised, or the supplied draws ran out

  /** Python's `max` on a non-empty list. */
  function Max(xs: seq<int>): (m: int)
    requires |xs| > 0
    ensures m in xs
    ensures forall i :: 0 <= i < |xs| ==> xs[i] <= m
    decreases |xs|
  {
    if |xs| == 1 then xs[0]
    else
      var rest := Max(xs[1..]);
      if xs[0] >= rest then xs[0] else rest
  }

  /** The range `__create_new_random_coords(m)` draws from: m <= x <= 800 - m and m <= y <= 600 - m. */
  function DrawRange(m: int): Range
  {
    Range(m, WindowWidth - m, m, WindowHeight - m)
  }

  predicate PairwiseDistinct(cs: seq<Coord>)
  {
    forall i, j :: 0 <= i < j < |cs| ==> cs[i] != cs[j]
  }

  lemma DistinctStep(cs: seq<Coord>, c: Coord)
    requires PairwiseDistinct(cs) && c !in cs
    ensures PairwiseDistinct(cs + [c])
  {
    assert forall i :: 0 <= i < |cs| ==> (cs + [c])[i] == cs[i];
  }

  /**
   * Every draw between the one kept for entry `i - 1` and the one kept for
   * entry `i` was already one of the first `i` entries: each entry is the
   * first draw not yet placed.
   */
  ghost predicate SkippedWerePlaced(cs: seq<Coord>, picks: seq<nat>, draws: seq<Coord>)
    requires |picks| == |cs|
  {
    forall i, k :: 0 <= i < |picks| && FirstUnused(picks, i) <= k < picks[i] && k < |draws| ==> draws[k] in cs[..i]
  }

  lemma SkippedStep(cs: seq<Coord>, picks: seq<nat>, draws: seq<Coord>, c: Coord, pick: nat)
    requires |picks| == |cs| && SkippedWerePlaced(cs, picks, draws)
    requires forall k :: FirstUnused(picks, |picks|) <= k < pick && k < |draws| ==> draws[k] in cs
    ensures SkippedWerePlaced(cs + [c], picks + [pick], draws)
  {
    var cs', picks' := cs + [c], picks + [pick];
    forall i, k | 0 <= i < |picks'| && FirstUnused(picks', i) <= k < picks'[i] && k < |draws|
      ensures draws[k] in cs'[..i]
    {
      FirstUnusedSnoc(picks, pick, i);
      if i < |picks| {
        assert picks'[i] == picks[i] && cs'[..i] == cs[..i];
      } else {
        assert cs'[..i] == cs;
      }
    }
  }

  /** What the generator keeps true of the list built so far, `next` being the first draw not yet used. */
  ghost predicate Generated(cs: seq<Coord>, picks: seq<nat>, draws: seq<Coord>, next: nat)
  {
    && DrawnInOrder(cs, picks, draws, next)
    && |picks| == |cs|
    && next == FirstUnused(picks, |picks|)
    && SkippedWerePlaced(cs, picks, draws)
    && PairwiseDistinct(cs)
  }

  /** Appending the draw `DrawUnplaced` returns keeps `Generated`. */
  lemma GeneratedStep(cs: seq<Coord>, picks: seq<nat>, draws: seq<Coord>, next0: nat, next: nat, c: Coord, pick: nat)
    requires Generated(cs, picks, draws, next0)
    requires next0 <= pick == next - 1 && next <= |draws| && c == draws[pick] && c !in cs
    requires forall k :: next0 <= k < pick ==> draws[k] in cs
    ensures Generated(cs + [c], picks + [pick], draws, next)
  {
    assert forall i :: 0 <= i < |cs| ==> (cs + [c])[i] == cs[i] && (picks + [pick])[i] == picks[i];
    DistinctStep(cs, c);
    SkippedStep(cs, picks, draws, c, pick);
    FirstUnusedSnoc(picks, pick, |picks|);
  }

  /** The `while new_coord in coord_list` re-draw: on success the first draw from `next0` on that is not yet placed. */
  method DrawUnplaced(placed: seq<Coord>, b: Range, draws: seq<Coord>, next0: nat)
    returns (res: Result<Coord, DrawError>, next: nat, ghost pick: nat)
    requires ValidDraws(draws, b) && next0 <= |draws|
    ensures next0 <= next <= |draws|
    ensures res == Err(EmptyRange) <==> RangeEmpty(b)
    ensures res.Ok? ==> next0 <= pick < next && res.value == draws[pick] && res.value !in placed
    ensures res.Ok? ==> pick == next - 1 && forall k :: next0 <= k < pick ==> draws[k] in placed
    ensures res == Err(DrawsExhausted) <==>
      !RangeEmpty(b) && forall k :: next0 <= k < |draws| ==> draws[k] in placed
  {
    res := NewRandomCoords(b, draws, next0);
    next, pick := next0, next0;
    if res.Err? {
      return;
    }
    var newCoord := res.value;
    next := next + 1;
    while newCoord in placed
      invariant next0 <= pick < next <= |draws| && newCoord == draws[pick]
      invariant !RangeEmpty(b)
      invariant pick == next - 1 && forall k :: next0 <= k < pick ==> draws[k] in placed
      decreases |draws| - next
    {
      res := NewRandomCoords(b, draws, next);
      if res.Err? {
        return;
      }
      newCoord := res.value;
      pick := next;
      next := next + 1;
    }
    res := Ok(newCoord);
  }

  /**
   * `__create_circle_coordinates`. `coordList` is the list built so far
   * (complete on success) and `picks` the positions of its entries among
   * the draws. The largest radius is taken anew before every draw, so an
   * empty radius list fails at the first circle.
   */
  method CreateCircleCoordinates(numberOfCircles: int, circleRadiusList: seq<int>, draws: seq<Coord>)
    returns (coordList: seq<Coord>, result: Result<string, GenError>, ghost picks: seq<nat>)
    requires |circleRadiusList| > 0 ==> ValidDraws(draws, DrawRange(Max(circleRadiusList)))
    ensures DrawnInOrder(coordList, picks, draws, |draws|)
    ensures SkippedWerePlaced(coordList, picks, draws)
    ensures |circleRadiusList| > 0 ==> var m := Max(circleRadiusList);
      forall i :: 0 <= i < |coordList| ==> m <= coordList[i].x <= 800 - m && m <= coordList[i].y <= 600 - m
    ensures PairwiseDistinct(coordList)
    ensures result == Err(EmptyRadiusList) <==> numberOfCircles > 0 && |circleRadiusList| == 0
    ensures result == Err(DrawFailed(EmptyRange)) <==>
      numberOfCircles > 0 && |circleRadiusList| > 0 && Max(circleRadiusList) > 300
    ensures result.Ok? ==> |coordList| == (if numberOfCircles > 0 then numberOfCircles else 0)
    ensures result.Ok? ==> result.value == Serialise(coordList)
    ensures result.Ok? && numberOfCircles <= 0 ==> result.value == ""
    ensures result.Ok? && numberOfCircles > 0 ==> ParseCoordinates(result.value) == Ok(coordList)
    ensures result.Err? ==> |coordList| < numberOfCircles
    ensures result == Err(DrawFailed(DrawsExhausted)) ==>
      forall k :: FirstUnused(picks, |picks|) <= k < |draws| ==> draws[k] in coordList
  {
    coordList := [];
    var coordString := "";
    var next: nat := 0;
    picks := [];
    var count := if numberOfCircles > 0 then numberOfCircles else 0;
    for circle := 0 to count
      invariant |coordList| == circle
      invariant next <= |draws|
      invariant circle > 0 ==> |circleRadiusList| > 0
      invariant Generated(coordList, picks, draws, next)
      invariant circle > 0 ==> AllInRange(coordList, DrawRange(Max(circleRadiusList)))
      invariant circle > 0 ==> !RangeEmpty(DrawRange(Max(circleRadiusList)))
      invariant coordString == Accumulated(coordList)
    {
      if |circleRadiusList| == 0 {
        return coordList, Err(EmptyRadiusList), picks;
      }
      var b := DrawRange(Max(circleRadiusList));
      var drawn; ghost var pick;
      ghost var next0 := next;
      drawn, next, pick := DrawUnplaced(coordList, b, draws, next);
      if drawn.Err? {
        return coordList, Err(DrawFailed(drawn.error)), picks;
      }
      var newCoord := drawn.value;
      GeneratedStep(coordList, picks, draws, next0, next, newCoord, pick);
      PlacedStep(coordList, picks, draws, next, newCoord, pick, b);
      coordList := coordList + [newCoord];
      picks := picks + [pick];
      coordString := coordString + Entry(newCoord) + ";";
    }
    TrimmedAccumulation(coordList);
    if count > 0 {
      RoundTrip(coordList);
    }
    if count > 0 && |draws| > 0 {
      ValidDrawsNonEmpty(draws, DrawRange(Max(circleRadiusList)));
    }
    result := Ok(DropLast(coordString));
  }
}
