/**
 * The experiment window's bookkeeping: turning the layout's coordinates
 * string into target labels, the hover and click hit tests, and advancing
 * the current target on a hit.
 */
module Experiment {
  import opened Wrappers
  import opened Geometry
  import opened CoordString
  import PyStr

  datatype MouseButton = LeftButton | RightButton | MiddleButton

  /** A target label: its top-left corner and its size. */
  datatype Label = Label(left: int, top: int, width: int, height: int)

  /** The record handed to the logger when the last target is hit. */
  datatype LogRecord = LogRecord(
    participantId: int, condition: int,
    pointerStartPosition: string, pointerEndPosition: string,
    startTime: int, endTime: int, missedClicks: int)

  /** The label for a target centred on `c`: a 2r by 2r square whose centre is `c`. */
  function PlaceLabel(c: Coord, r: int): (l: Label)
    ensures l.left + r == c.x && l.top + r == c.y
    ensures l.width == 2 * r && l.height == 2 * r
  {
    Label(c.x - r, c.y - r, r * 2, r * 2)
  }

  function Labels(cs: seq<Coord>, r: int): (ls: seq<Label>)
    ensures |ls| == |cs|
    ensures forall i :: 0 <= i < |cs| ==> ls[i] == PlaceLabel(cs[i], r)
  {
    seq(|cs|, i requires 0 <= i < |cs| => PlaceLabel(cs[i], r))
  }

  /** Appending one more label to the labels listed after `prefix`. */
  lemma LabelsSnoc(prefix: seq<Label>, cs: seq<Coord>, c: Coord, r: int)
    ensures prefix + Labels(cs + [c], r) == (prefix + Labels(cs, r)) + [PlaceLabel(c, r)]
  {
    assert Labels(cs + [c], r) == Labels(cs, r) + [PlaceLabel(c, r)];
  }

  /** The hit test of hover and click: the point lies in the circle of radius r centred at the label's top-left plus r. */
  predicate OverLabel(l: Label, r: int, x: int, y: int)
  {
    PointInsideCircle(x, y, l.left + r, l.top + r, r)
  }

  /** The hit test on a placed label is the point-in-circle test around the parsed coordinate. */
  lemma OverPlacedLabel(c: Coord, r: int, x: int, y: int)
    ensures OverLabel(PlaceLabel(c, r), r, x, y) == PointInsideCircle(x, y, c.x, c.y, r)
  {
  }

  /** The fixed record the window logs; only the two times vary. */
  function FinishedRecord(startTime: int, endTime: int): LogRecord
  {
    LogRecord(1, 1, "(20,20)", "(30,30)", startTime, endTime, 0)
  }

  /** The result of parsing all pieces, once `done` has been read and `rest` remains. */
  function Resumed(done: seq<Coord>, rest: seq<string>): Parsed
  {
    var p := ParseAll(rest);
    Parsed(done + p.coords, p.error)
  }

  lemma ResumedAfterEntry(done: seq<Coord>, pieces: seq<string>, i: nat, c: Coord)
    requires i < |pieces| && ParseEntry(pieces[i]) == Ok(c)
    ensures Resumed(done, pieces[i..]) == Resumed(done + [c], pieces[i + 1..])
  {
    ParseAllSuffix(pieces, i);
    var rest := ParseAll(pieces[i + 1..]);
    assert done + ([c] + rest.coords) == (done + [c]) + rest.coords;
  }

  lemma ResumedAtError(done: seq<Coord>, pieces: seq<string>, i: nat)
    requires i < |pieces| && ParseEntry(pieces[i]).Err?
    ensures Resumed(done, pieces[i..]) == Parsed(done, Some(ParseEntry(pieces[i]).error))
  {
    ParseAllSuffix(pieces, i);
    assert done + [] == done;
  }

  lemma ResumedAtEnd(done: seq<Coord>, pieces: seq<string>)
    ensures Resumed(done, pieces[|pieces|..]) == Parsed(done, None)
  {
    assert pieces[|pieces|..] == [];
    assert done + [] == done;
  }

  class PointingExperiment {
    const circleCount: int
    const circleRadius: int
    const coordinates: string

    var experimentStarted: bool
    var startTime: Option<int>
    var targetList: seq<Label>
    var currentTargetId: nat
    var log: seq<LogRecord>

    /** The current target exists once the experiment runs; before that the index is still 0. */
    ghost predicate Valid()
      reads this
    {
      && (experimentStarted ==> currentTargetId < |targetList| && startTime.Some?)
      && (!experimentStarted ==> currentTargetId == 0)
    }

    /** The setup values `numberOfCircles`, `circleRadius` and `coordinates`, as read from the setup file. */
    constructor (numberOfCircles: int, circleRadius: int, coordinates: string)
      ensures Valid()
      ensures circleCount == numberOfCircles && this.circleRadius == circleRadius && this.coordinates == coordinates
      ensures !experimentStarted && startTime.None? && targetList == [] && currentTargetId == 0 && log == []
    {
      circleCount := numberOfCircles;
      this.circleRadius := circleRadius;
      this.coordinates := coordinates;
      experimentStarted := false;
      startTime := None;
      targetList := [];
      currentTargetId := 0;
      log := [];
    }

    /**
     * `__start_experiment`, with the clock reading `now`. If an entry fails
     * to parse, the exception leaves the labels appended so far in place and
     * the experiment not started.
     */
    method StartExperiment(now: int) returns (err: Option<ParseError>)
      requires Valid()
      modifies this
      ensures Valid()
      ensures var p := ParseAll(PyStr.Split(coordinates, ';'));
        targetList == old(targetList) + Labels(p.coords, circleRadius) && err == p.error
      ensures err.None? ==> experimentStarted && startTime == Some(now)
      ensures err.Some? ==> experimentStarted == old(experimentStarted) && startTime == old(startTime)
      ensures currentTargetId == old(currentTargetId) && log == old(log)
    {
      err := SetupTargets();
      if err.Some? {
        return;
      }
      startTime := Some(now);
      experimentStarted := true;
    }

    /** `__setup_targets`: one label per `;`-separated entry, appended in order. */
    method SetupTargets() returns (err: Option<ParseError>)
      modifies this`targetList
      ensures var p := ParseAll(PyStr.Split(coordinates, ';'));
        targetList == old(targetList) + Labels(p.coords, circleRadius) && err == p.error
    {
      var positions := PyStr.Split(coordinates, ';');
      ghost var done: seq<Coord> := [];
      for i := 0 to |positions|
        invariant |done| == i
        invariant ParseAll(positions) == Resumed(done, positions[i..])
        invariant targetList == old(targetList) + Labels(done, circleRadius)
      {
        var entry := ParseEntry(positions[i]);
        if entry.Err? {
          ResumedAtError(done, positions, i);
          return Some(entry.error);
        }
        var c := entry.value;
        ResumedAfterEntry(done, positions, i, c);
        LabelsSnoc(old(targetList), done, c, circleRadius);
        targetList := targetList + [PlaceLabel(c, circleRadius)];
        done := done + [c];
      }
      ResumedAtEnd(done, positions);
      return None;
    }

    /** `mousePressEvent`: only a left click during the experiment counts. */
    method MousePressEvent(button: MouseButton, x: int, y: int, now: int)
      requires Valid()
      modifies this`currentTargetId, this`log
      ensures Valid()
      ensures !(experimentStarted && button == LeftButton) ==>
        currentTargetId == old(currentTargetId) && log == old(log)
      ensures experimentStarted && button == LeftButton ==>
        var hit := OverLabel(targetList[old(currentTargetId)], circleRadius, x, y);
        && (!hit ==> currentTargetId == old(currentTargetId) && log == old(log))
        && (hit && old(currentTargetId) < |targetList| - 1 ==>
              currentTargetId == old(currentTargetId) + 1 && log == old(log))
        && (hit && old(currentTargetId) == |targetList| - 1 ==>
              currentTargetId == old(currentTargetId) && log == old(log) + [FinishedRecord(startTime.value, now)])
    {
      if experimentStarted {
        if button == LeftButton {
          MouseClickedAt(x, y, now);
        }
      }
    }

    /** `__mouse_clicked_at`: a click counts when it lands in the current target's circle. */
    method MouseClickedAt(x: int, y: int, now: int)
      requires Valid() && experimentStarted
      modifies this`currentTargetId, this`log
      ensures Valid()
      ensures var hit := OverLabel(targetList[old(currentTargetId)], circleRadius, x, y);
        && (!hit ==> currentTargetId == old(currentTargetId) && log == old(log))
        && (hit && old(currentTargetId) < |targetList| - 1 ==>
              currentTargetId == old(currentTargetId) + 1 && log == old(log))
        && (hit && old(currentTargetId) == |targetList| - 1 ==>
              currentTargetId == old(currentTargetId) && log == old(log) + [FinishedRecord(startTime.value, now)])
    {
      var current := targetList[currentTargetId];
      if PointInsideCircle(x, y, current.left + circleRadius, current.top + circleRadius, circleRadius) {
        TargetClicked(now);
      }
    }

    /** `__target_clicked`: move on to the next target, or log once the last one is hit (every time it is hit). */
    method TargetClicked(now: int)
      requires Valid() && experimentStarted
      modifies this`currentTargetId, this`log
      ensures Valid()
      ensures old(currentTargetId) < |targetList| - 1 ==>
        currentTargetId == old(currentTargetId) + 1 && log == old(log)
      ensures old(currentTargetId) == |targetList| - 1 ==>
        currentTargetId == old(currentTargetId) && log == old(log) + [FinishedRecord(startTime.value, now)]
    {
      if currentTargetId < |targetList| - 1 {
        currentTargetId := currentTargetId + 1;
      } else {
        log := log + [FinishedRecord(startTime.value, now)];
      }
    }

    /** `mouseMoveEvent`: during the experiment, whether the pointer is over the current target (which decides its colour). */
    method MouseMoveEvent(x: int, y: int) returns (over: Option<bool>)
      requires Valid()
      ensures over.None? <==> !experimentStarted
      ensures over.Some? ==> over.value == OverLabel(targetList[currentTargetId], circleRadius, x, y)
    {
      if !experimentStarted {
        return None;
      }
      var current := targetList[currentTargetId];
      over := Some(PointInsideCircle(x, y, current.left + circleRadius, current.top + circleRadius, circleRadius));
    }
  }
}
