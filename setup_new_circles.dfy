/**
 * The layout generator for circles of one radius: `number_of_circles`
 * centres drawn at random inside the 800 by 600 window, each re-drawn while
 * it touches a circle already placed, written out as the coordinates
 * string.
 */
module SetupNewCircles {
  import opened Wrappers
  import opened Geometry
  import opened PyStr
  import opened CoordString
  import opened RandomDraws

  /** The range `__create_new_random_coords(r)` draws from: 0 <= x <= 800 - r and 0 <= y <= 600 - r. */
  function DrawRange(r: int): Range
  {
    Range(0, WindowWidth - r, 0, WindowHeight - r)
  }

  /** Each circle keeps clear of the circle placed just before it. */
  predicate ClearOfPrevious(cs: seq<Coord>, r: int)
  {
    forall i :: 0 < i < |cs| ==> !CirclesTouch(cs[i].x, cs[i].y, cs[i - 1].x, cs[i - 1].y, r)
  }

  /** The candidate keeps clear of every placed circle. */
  predicate ClearOfAll(c: Coord, placed: seq<Coord>, r: int)
  {
    forall j :: 0 <= j < |placed| ==> !CirclesTouch(c.x, c.y, placed[j].x, placed[j].y, r)
  }

  /** Whenever the first draw for an entry is clear of every circle placed before it, that draw is the entry. */
  ghost predicate FirstClearKept(cs: seq<Coord>, picks: seq<nat>, draws: seq<Coord>, r: int)
    requires |picks| == |cs|
  {
    forall i :: 0 <= i < |picks| && FirstUnused(picks, i) < |draws| && ClearOfAll(draws[FirstUnused(picks, i)], cs[..i], r)
      ==> picks[i] == FirstUnused(picks, i)
  }

  /**
   * The draw the nested re-roll settles on, from placed circle `j` on with the
   * candidate at draw `pick`: while the candidate touches circle `j` take the
   * next draw, then go on to circle `j + 1`; circles before `j` are not looked
   * at again. None when the draws run out.
   */
  ghost function Settle(placed: seq<Coord>, r: int, draws: seq<Coord>, j: nat, pick: nat): Option<nat>
    requires j <= |placed| && pick < |draws|
    decreases |placed| - j, |draws| - pick
  {
    if j == |placed| then Some(pick)
    else if CirclesTouch(draws[pick].x, draws[pick].y, placed[j].x, placed[j].y, r) then
      if pick + 1 < |draws| then Settle(placed, r, draws, j, pick + 1) else None
    else Settle(placed, r, draws, j + 1, pick)
  }

  /** A candidate clear of every placed circle is never re-drawn. */
  lemma {:induction false} SettleFirstClear(placed: seq<Coord>, r: int, draws: seq<Coord>, j: nat, p: nat)
    requires j <= |placed| && p < |draws| && ClearOfAll(draws[p], placed, r)
    ensures Settle(placed, r, draws, j, p) == Some(p)
    decreases |placed| - j
  {
    if j < |placed| {
      SettleFirstClear(placed, r, draws, j + 1, p);
    }
  }

  /** Entry `i` is the draw the re-roll settles on against the entries before it. */
  ghost predicate SettledInOrder(cs: seq<Coord>, picks: seq<nat>, draws: seq<Coord>, r: int)
    requires |picks| == |cs|
  {
    forall i :: 0 <= i < |picks| ==>
      FirstUnused(picks, i) < |draws| && Settle(cs[..i], r, draws, 0, FirstUnused(picks, i)) == Some(picks[i])
  }

  lemma SettledStep(cs: seq<Coord>, picks: seq<nat>, draws: seq<Coord>, r: int, c: Coord, pick: nat)
    requires |picks| == |cs| && SettledInOrder(cs, picks, draws, r)
    requires FirstUnused(picks, |picks|) < |draws| && Settle(cs, r, draws, 0, FirstUnused(picks, |picks|)) == Some(pick)
    ensures SettledInOrder(cs + [c], picks + [pick], draws, r)
  {
    var cs', picks' := cs + [c], picks + [pick];
    forall i | 0 <= i < |picks'|
      ensures FirstUnused(picks', i) < |draws| && Settle(cs'[..i], r, draws, 0, FirstUnused(picks', i)) == Some(picks'[i])
    {
      FirstUnusedSnoc(picks, pick, i);
      if i < |picks| {
        assert picks'[i] == picks[i] && cs'[..i] == cs[..i];
      } else {
        assert cs'[..i] == cs;
      }
    }
  }

  /** Entries settled in order keep every first draw that is already clear. */
  lemma FirstClearFromSettled(cs: seq<Coord>, picks: seq<nat>, draws: seq<Coord>, r: int)
    requires |picks| == |cs| && SettledInOrder(cs, picks, draws, r)
    ensures FirstClearKept(cs, picks, draws, r)
  {
    forall i | 0 <= i < |picks| && FirstUnused(picks, i) < |draws| && ClearOfAll(draws[FirstUnused(picks, i)], cs[..i], r)
      ensures picks[i] == FirstUnused(picks, i)
    {
      SettleFirstClear(cs[..i], r, draws, 0, FirstUnused(picks, i));
    }
  }

  /**
   * Ten-pixel circles at (0,0) and (100,0), then the draws (5,0), (100,5),
   * (3,0): the candidate (5,0) touches (0,0) and is re-drawn as (100,5),
   * which touches (100,0) and is re-drawn as (3,0); (0,0) is not looked at
   * again, so a circle touching the first one is placed.
   */
  lemma EarlierCircleNotRechecked(cs: seq<Coord>, picks: seq<nat>)
    requires var draws := [Coord(0, 0), Coord(100, 0), Coord(5, 0), Coord(100, 5), Coord(3, 0)];
      |cs| == 3 && DrawnInOrder(cs, picks, draws, |draws|) && SettledInOrder(cs, picks, draws, 10)
    ensures cs == [Coord(0, 0), Coord(100, 0), Coord(3, 0)]
    ensures CirclesTouch(cs[2].x, cs[2].y, cs[0].x, cs[0].y, 10)
  {
    var draws := [Coord(0, 0), Coord(100, 0), Coord(5, 0), Coord(100, 5), Coord(3, 0)];
    assert Settle(cs[..0], 10, draws, 0, 0) == Some(picks[0]);
    assert cs[0] == Coord(0, 0);
    assert cs[..1] == [Coord(0, 0)];
    assert Settle([Coord(0, 0)], 10, draws, 1, 1) == Some(1);
    assert Settle(cs[..1], 10, draws, 0, 1) == Some(picks[1]);
    assert cs[1] == Coord(100, 0);
    assert cs[..2] == [Coord(0, 0), Coord(100, 0)];
    var placed := [Coord(0, 0), Coord(100, 0)];
    assert Settle(placed, 10, draws, 2, 4) == Some(4);
    assert Settle(placed, 10, draws, 1, 4) == Some(4);
    assert Settle(placed, 10, draws, 1, 3) == Some(4);
    assert Settle(placed, 10, draws, 0, 3) == Some(4);
    assert Settle(placed, 10, draws, 0, 2) == Some(4);
    assert Settle(cs[..2], 10, draws, 0, 2) == Some(picks[2]);
  }

  /**
   * On the draws of EarlierCircleNotRechecked, the re-roll settles for each
   * of the first three circles, so a three-circle run does not run out of
   * draws and returns the layout that lemma describes.
   */
  lemma EarlierDrawsSettle(cs: seq<Coord>, picks: seq<nat>)
    requires var draws := [Coord(0, 0), Coord(100, 0), Coord(5, 0), Coord(100, 5), Coord(3, 0)];
      |cs| < 3 && DrawnInOrder(cs, picks, draws, |draws|) && SettledInOrder(cs, picks, draws, 10)
    ensures var draws := [Coord(0, 0), Coord(100, 0), Coord(5, 0), Coord(100, 5), Coord(3, 0)];
      var s := FirstUnused(picks, |picks|);
      s < |draws| && Settle(cs, 10, draws, 0, s).Some?
  {
    var draws := [Coord(0, 0), Coord(100, 0), Coord(5, 0), Coord(100, 5), Coord(3, 0)];
    if |cs| == 0 {
      assert Settle(cs, 10, draws, 0, 0) == Some(0);
    } else {
      assert Settle(cs[..0], 10, draws, 0, 0) == Some(picks[0]);
      assert cs[0] == Coord(0, 0);
      assert Settle([Coord(0, 0)], 10, draws, 1, 1) == Some(1);
      if |cs| == 1 {
        assert cs == [Coord(0, 0)];
      } else {
        assert cs[..1] == [Coord(0, 0)];
        assert Settle(cs[..1], 10, draws, 0, 1) == Some(picks[1]);
        assert cs == [Coord(0, 0), Coord(100, 0)];
        assert Settle(cs, 10, draws, 1, 4) == Some(4);
        assert Settle(cs, 10, draws, 1, 3) == Some(4);
        assert Settle(cs, 10, draws, 0, 2) == Some(4);
      }
    }
  }

  lemma ClearStep(cs: seq<Coord>, c: Coord, r: int)
    requires ClearOfPrevious(cs, r)
    requires |cs| > 0 ==> !CirclesTouch(c.x, c.y, cs[|cs| - 1].x, cs[|cs| - 1].y, r)
    ensures ClearOfPrevious(cs + [c], r)
  {
    assert forall i :: 0 <= i < |cs| ==> (cs + [c])[i] == cs[i];
  }

  /** What the generator keeps true of the list built so far, `next` being the first draw not yet used. */
  ghost predicate Generated(cs: seq<Coord>, picks: seq<nat>, draws: seq<Coord>, next: nat, r: int)
  {
    && DrawnInOrder(cs, picks, draws, next)
    && |picks| == |cs|
    && next == FirstUnused(picks, |picks|)
    && SettledInOrder(cs, picks, draws, r)
    && ClearOfPrevious(cs, r)
  }

  lemma OrderStep(cs: seq<Coord>, picks: seq<nat>, draws: seq<Coord>, next0: nat, next: nat, c: Coord, pick: nat)
    requires DrawnInOrder(cs, picks, draws, next0) && next0 == FirstUnused(picks, |picks|)
    requires next0 <= pick == next - 1 && next <= |draws| && c == draws[pick]
    ensures DrawnInOrder(cs + [c], picks + [pick], draws, next)
    ensures next == FirstUnused(picks + [pick], |picks| + 1)
  {
    assert forall i :: 0 <= i < |cs| ==> (cs + [c])[i] == cs[i] && (picks + [pick])[i] == picks[i];
  }

  /** Appending the draw `DrawClearOfPlaced` returns keeps `Generated`. */
  lemma GeneratedStep(cs: seq<Coord>, picks: seq<nat>, draws: seq<Coord>, next0: nat, next: nat, r: int, c: Coord, pick: nat)
    requires Generated(cs, picks, draws, next0, r)
    requires next0 <= pick == next - 1 && next <= |draws| && c == draws[pick]
    requires |cs| > 0 ==> !CirclesTouch(c.x, c.y, cs[|cs| - 1].x, cs[|cs| - 1].y, r)
    requires Settle(cs, r, draws, 0, next0) == Some(pick)
    ensures Generated(cs + [c], picks + [pick], draws, next, r)
  {
    OrderStep(cs, picks, draws, next0, next, c, pick);
    ClearStep(cs, c, r);
    SettledStep(cs, picks, draws, r, c, pick);
  }

  /**
   * One pass of the `for circle` body before the append: a candidate, then
   * for each placed circle in turn the re-draws while the candidate touches
   * it. On success the candidate is the draw the re-roll settles on, the
   * last one drawn, clear of the last placed circle; a first draw clear of
   * every placed circle is kept as drawn. The draws run out exactly when the
   * re-roll does not settle.
   */
  method DrawClearOfPlaced(placed: seq<Coord>, r: int, draws: seq<Coord>, next0: nat)
    returns (res: Result<Coord, DrawError>, next: nat, ghost pick: nat)
    requires ValidDraws(draws, DrawRange(r)) && next0 <= |draws|
    ensures next0 <= next <= |draws|
    ensures res == Err(EmptyRange) <==> RangeEmpty(DrawRange(r))
    ensures res.Ok? ==> next0 <= pick < next && res.value == draws[pick]
    ensures res.Ok? && |placed| > 0 ==>
      !CirclesTouch(res.value.x, res.value.y, placed[|placed| - 1].x, placed[|placed| - 1].y, r)
    ensures res.Ok? ==> pick == next - 1
    ensures res.Ok? && ClearOfAll(draws[next0], placed, r) ==> pick == next0
    ensures res.Ok? ==> next0 < |draws| && Settle(placed, r, draws, 0, next0) == Some(pick)
    ensures res == Err(DrawsExhausted) <==>
      !RangeEmpty(DrawRange(r)) && (next0 == |draws| || Settle(placed, r, draws, 0, next0).None?)
  {
    res := NewRandomCoords(DrawRange(r), draws, next0);
    next, pick := next0, next0;
    if res.Err? {
      return;
    }
    var newCoord := res.value;
    next := next + 1;
    for j := 0 to |placed|
      invariant next0 <= pick < next <= |draws| && newCoord == draws[pick]
      invariant !RangeEmpty(DrawRange(r))
      invariant j > 0 ==> !CirclesTouch(newCoord.x, newCoord.y, placed[j - 1].x, placed[j - 1].y, r)
      invariant pick == next - 1
      invariant next0 < |draws| && Settle(placed, r, draws, j, pick) == Settle(placed, r, draws, 0, next0)
    {
      while CirclesTouch(newCoord.x, newCoord.y, placed[j].x, placed[j].y, r)
        invariant next0 <= pick < next <= |draws| && newCoord == draws[pick]
        invariant pick == next - 1
        invariant Settle(placed, r, draws, j, pick) == Settle(placed, r, draws, 0, next0)
        decreases |draws| - next
      {
        res := NewRandomCoords(DrawRange(r), draws, next);
        if res.Err? {
          return;
        }
        newCoord := res.value;
        pick := next;
        next := next + 1;
      }
    }
    res := Ok(newCoord);
    if ClearOfAll(draws[next0], placed, r) {
      SettleFirstClear(placed, r, draws, 0, next0);
    }
  }

  /**
   * `__create_circle_coordinates`. For each circle a candidate is drawn;
   * then, for each circle already placed in turn, the candidate is re-drawn
   * while it touches that circle. Circles checked earlier are not checked
   * again after a re-draw, so the guarantee is only against the circle
   * placed last. `coordList` is the list built so far (complete on success)
   * and `picks` the positions of its entries among the draws.
   */
  method CreateCircleCoordinates(numberOfCircles: int, circleRadius: int, draws: seq<Coord>)
    returns (coordList: seq<Coord>, result: Result<string, DrawError>, ghost picks: seq<nat>)
    requires ValidDraws(draws, DrawRange(circleRadius))
    ensures DrawnInOrder(coordList, picks, draws, |draws|)
    ensures FirstClearKept(coordList, picks, draws, circleRadius)
    ensures SettledInOrder(coordList, picks, draws, circleRadius)
    ensures forall i :: 0 <= i < |coordList| ==>
      0 <= coordList[i].x <= 800 - circleRadius && 0 <= coordList[i].y <= 600 - circleRadius
    ensures ClearOfPrevious(coordList, circleRadius)
    ensures result == Err(EmptyRange) <==> numberOfCircles > 0 && circleRadius > 600
    ensures result.Ok? ==> |coordList| == (if numberOfCircles > 0 then numberOfCircles else 0)
    ensures result.Ok? ==> result.value == Serialise(coordList)
    ensures result.Ok? && numberOfCircles <= 0 ==> result.value == ""
    ensures result.Ok? && numberOfCircles > 0 ==> ParseCoordinates(result.value) == Ok(coordList)
    ensures result.Err? ==> |coordList| < numberOfCircles
    ensures result == Err(DrawsExhausted) ==>
      var s := FirstUnused(picks, |picks|);
      s == |draws| || Settle(coordList, circleRadius, draws, 0, s).None?
  {
    coordList := [];
    var coordString := "";
    var next: nat := 0;
    picks := [];
    var count := if numberOfCircles > 0 then numberOfCircles else 0;
    for circle := 0 to count
      invariant |coordList| == circle
      invariant next <= |draws|
      invariant Generated(coordList, picks, draws, next, circleRadius)
      invariant AllInRange(coordList, DrawRange(circleRadius))
      invariant circle > 0 ==> !RangeEmpty(DrawRange(circleRadius))
      invariant coordString == Accumulated(coordList)
    {
      var drawn; ghost var pick;
      ghost var next0 := next;
      drawn, next, pick := DrawClearOfPlaced(coordList, circleRadius, draws, next);
      if drawn.Err? {
        FirstClearFromSettled(coordList, picks, draws, circleRadius);
        return coordList, Err(drawn.error), picks;
      }
      var newCoord := drawn.value;
      GeneratedStep(coordList, picks, draws, next0, next, circleRadius, newCoord, pick);
      PlacedStep(coordList, picks, draws, next, newCoord, pick, DrawRange(circleRadius));
      coordList := coordList + [newCoord];
      picks := picks + [pick];
      coordString := coordString + Entry(newCoord) + ";";
    }
    FirstClearFromSettled(coordList, picks, draws, circleRadius);
    TrimmedAccumulation(coordList);
    if count > 0 {
      RoundTrip(coordList);
    }
    if count > 0 && |draws| > 0 {
      ValidDrawsNonEmpty(draws, DrawRange(circleRadius));
    }
    result := Ok(DropLast(coordString));
  }
}
