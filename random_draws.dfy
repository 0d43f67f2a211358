/**
 * What the two layout generators share: the window size, the random draw of
 * a candidate centre (two `random.randint` calls over inclusive ranges) and
 * the bookkeeping of which supplied draws ended up in the layout. The draws
 * are a parameter: the `(x, y)` pairs `random.randint` would return, each
 * already inside the range it is asked for.
 */
module RandomDraws {
  import opened Wrappers
  import opened Geometry
  import opened CoordString

  const WindowWidth := 800
  const WindowHeight := 600

  /** The inclusive bounds of the x and the y draw. */
  datatype Range = Range(xLo: int, xHi: int, yLo: int, yHi: int)

  predicate InRange(c: Coord, b: Range)
  {
    b.xLo <= c.x <= b.xHi && b.yLo <= c.y <= b.yHi
  }

  predicate AllInRange(cs: seq<Coord>, b: Range)
  {
    forall i :: 0 <= i < |cs| ==> InRange(cs[i], b)
  }

  /** `randint` raises when an upper bound lies below its lower bound. */
  predicate RangeEmpty(b: Range)
  {
    b.xHi < b.xLo || b.yHi < b.yLo
  }

  /** The draws a generator is given: each is a value `randint` could return. */
  predicate ValidDraws(draws: seq<Coord>, b: Range)
  {
    AllInRange(draws, b)
  }

  datatype DrawError =
    | EmptyRange      // `random.randint` refused an empty range
    | DrawsExhausted  // the supplied draws ran out before the layout was complete

  /** `__create_new_random_coords`: the `next`-th supplied draw. */
  function NewRandomCoords(b: Range, draws: seq<Coord>, next: nat): (res: Result<Coord, DrawError>)
    requires ValidDraws(draws, b) && next <= |draws|
    ensures res == Err(EmptyRange) <==> RangeEmpty(b)
    ensures res == Err(DrawsExhausted) <==> !RangeEmpty(b) && next == |draws|
    ensures res.Ok? ==> next < |draws| && res.value == draws[next] && InRange(res.value, b)
  {
    if RangeEmpty(b) then Err(EmptyRange)
    else if next == |draws| then Err(DrawsExhausted)
    else Ok(draws[next])
  }

  /** Any supplied draw shows the range is not empty. */
  lemma ValidDrawsNonEmpty(draws: seq<Coord>, b: Range)
    requires |draws| > 0 && ValidDraws(draws, b)
    ensures !RangeEmpty(b)
  {
    assert InRange(draws[0], b);
  }

  /** Positions `picks` are strictly increasing indices into `draws` below `bound`, and `cs[i]` is the draw at `picks[i]`. */
  ghost predicate DrawnInOrder(cs: seq<Coord>, picks: seq<nat>, draws: seq<Coord>, bound: nat)
  {
    && |picks| == |cs|
    && (forall i :: 0 <= i < |picks| ==> picks[i] < bound && picks[i] < |draws| && cs[i] == draws[picks[i]])
    && (forall i, j :: 0 <= i < j < |picks| ==> picks[i] < picks[j])
  }

  /** Where the draws for entry `i` start: just after the draw kept for entry `i - 1`. */
  function FirstUnused(picks: seq<nat>, i: nat): nat
    requires i <= |picks|
  {
    if i == 0 then 0 else picks[i - 1] + 1
  }

  lemma FirstUnusedSnoc(picks: seq<nat>, pick: nat, i: nat)
    requires i <= |picks|
    ensures FirstUnused(picks + [pick], i) == FirstUnused(picks, i)
    ensures FirstUnused(picks + [pick], |picks| + 1) == pick + 1
  {
  }

  /** Appending an accepted draw keeps what the generator loops know about the placed list and the string. */
  lemma PlacedStep(cs: seq<Coord>, picks: seq<nat>, draws: seq<Coord>, next: nat, c: Coord, pick: nat, b: Range)
    requires DrawnInOrder(cs, picks, draws, pick) && pick < next && pick < |draws| && c == draws[pick]
    requires AllInRange(cs, b) && InRange(c, b)
    ensures DrawnInOrder(cs + [c], picks + [pick], draws, next)
    ensures AllInRange(cs + [c], b)
    ensures Accumulated(cs + [c]) == Accumulated(cs) + Entry(c) + ";"
  {
    assert (cs + [c])[..|cs|] == cs;
  }
}
