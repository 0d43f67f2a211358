# Bubble cursor pointing experiment — a verified model

This project models the core of a small pointing-study application.

- **The Bubble Cursor** (Grossman and Balakrishnan, CHI 2005). On every pointer move, `BubbleCursor` does four things:
  - it scans its target list once and finds the nearest and second-nearest target centre;
  - it sets the bubble radius to min(containment distance, intersecting distance);
  - it raises a highlight flag when the nearest target cannot be enclosed;
  - when painted, it hands a bubble circle and possibly a highlight ring to the painter.
- **The experiment window's bookkeeping**:
  - it parses the layout's coordinates string into square target labels;
  - it tests hover and click positions with the point-in-circle test;
  - it advances the current target on a hit and logs a record every time the last target is hit;
  - input is ignored until the experiment has started.
- **The two layout generators**. Each draws circle centres at random with a rejection loop and writes them out as the coordinates string that the window reads.
  - `setup_new_circles.py` re-draws a candidate that touches a placed circle.
  - `setup_condition.py` re-draws a candidate that repeats a placed centre.

Distances are kept exact, without square roots:

- A distance is `Fin(sq)`, standing for sqrt(sq), or `Inf`.
- A radius is `Finite(a, k)`, standing for sqrt(a) + k, or `PosInf`.
- The integer decision procedure `RootPlusLess` is proved to agree with the real comparison sqrt(a) + c < sqrt(b).

Random draws are a parameter: the sequence of `(x, y)` pairs that `random.randint` would return.

The model follows the code in three places where a reader might expect otherwise:

- The highlight flag is never lowered once raised. This holds even with one target, or when a later move no longer needs the highlight.
- The cursor's constructor accepts any radius. There is no configuration error.
- Coordinates are integers, as Qt mouse events deliver them.

Modules, one file each:

- `wrappers.dfy`: `Option` and `Result`.
- `py_str.dfy`: the Python string built-ins the layout code uses.
- `geometry.dfy`: the integer circle tests.
- `coord_string.dfy`: the coordinates string, both written and read.
- `pointing_technique.dfy`: the bubble cursor.
- `pointing_experiment.dfy`: the experiment window.
- `random_draws.dfy`: what the generators share (window size, the random draw, the record of which draws were kept).
- `setup_new_circles.dfy` and `setup_condition.dfy`: the generators.

## Model

| member | source | states |
|---|---|---|
| PyStr.Split | pointingExperiment.py:58 | `split` on one character yields at least one piece, and no piece contains the separator |
| PyStr.SplitThenJoin | pointingExperiment.py:58 | joining the pieces of a split with the separator gives back the string |
| PyStr.JoinThenSplit | pointingExperiment.py:58 | splitting a join of separator-free pieces gives back exactly those pieces |
| PyStr.Remove | pointingExperiment.py:61-62 | `replace(c, "")` removes every `c` and keeps every other character |
| PyStr.DropLast | setup_new_circles.py:38 | `s[:-1]` drops exactly the last character; the empty string stays empty |
| PyStr.FormatInt | setup_new_circles.py:35 | an int renders as digits with a leading minus exactly when it is negative |
| PyStr.ParseInt | pointingExperiment.py:68 | `int()` succeeds only on text that starts with a sign or a digit, and always on nonempty digit strings |
| PyStr.ParseFormatInt | pointingExperiment.py:68 | `int(f"{n}") == n` for every integer n |
| Geometry.PointInsideCircle | pointingExperiment.py:121-125 | the point test, squared distance at most r squared; its meaning is stated by InsideIffWithinRadius |
| Geometry.InsideIffWithinRadius | pointingExperiment.py:121-125 | for r >= 0 the point test holds iff the Euclidean distance is at most r, boundary included |
| Geometry.NegativeRadiusActsAsPositive | pointingExperiment.py:121-125 | the point test squares the radius, so r and -r give the same answer |
| Geometry.CirclesTouch | setup_new_circles.py:10-15 | the touch test of both the generator and the window (pointingExperiment.py:112-118), squared centre distance below (2r) squared; its meaning is stated by TouchIffCloserThanDiameter and TouchSymmetric |
| Geometry.TouchIffCloserThanDiameter | setup_new_circles.py:10-15 | for r >= 0 two circles touch iff their centres are closer than 2r; tangent circles do not touch (the window's copy at pointingExperiment.py:112-118 is the same test) |
| Geometry.TouchSymmetric | pointingExperiment.py:112-118 | the touch test does not depend on which circle is named first |
| CoordString.TrimmedAccumulation | setup_new_circles.py:35-38 | accumulating `(x,y);` per circle and dropping the last character gives the entries joined by `;` |
| CoordString.SerialiseShape | setup_condition.py:25-28 | the output is empty for no circles; otherwise it starts with `(`, ends with `)` (no trailing `;`) and splits into one piece per circle |
| CoordString.ParseAll | pointingExperiment.py:59-68 | the entries are converted in order up to the first failure: every piece is converted exactly when there is no error |
| CoordString.ParseAllSound | pointingExperiment.py:59-68 | each converted coordinate is its own piece's parse, and the error is the parse error of the first piece not converted |
| CoordString.ParseCoordinates | pointingExperiment.py:58-68 | on success there is one coordinate per `;`-separated piece, each the parse of its piece |
| CoordString.ParseEntry | pointingExperiment.py:60-68 | one `(x,y)` entry: parentheses removed, split at `,`, each field read by `int()`, a `ValueError` naming the bad literal and an `IndexError` when the comma is missing; its meaning is stated by ParseEntryRoundTrip and ParseAllSound |
| CoordString.ParseEntryRoundTrip | pointingExperiment.py:60-68 | an entry a generator writes reads back as the same coordinate |
| CoordString.RoundTrip | pointingExperiment.py:58-68 | a nonempty serialised layout parses back to exactly the coordinates written |
| CoordString.EmptyLayoutRejected | setup_new_circles.py:28-38 | zero circles give the empty string, and reading it fails with `int("")` |
| PointingTechnique.DistLessSound | pointing_technique.py:117-119 | comparing squared distances is comparing the Euclidean distances |
| PointingTechnique.RootPlusLessSound | pointing_technique.py:104-108 | the integer decision agrees with sqrt(a) + c < sqrt(b) over the reals |
| PointingTechnique.ExtLessSound | pointing_technique.py:108 | `<` on finite radii is the order of the reals they stand for |
| PointingTechnique.ExtMin | pointing_technique.py:106 | Python's `min` of two radii, the second only when strictly smaller; its meaning is stated by ExtMinSound |
| PointingTechnique.ExtMinSound | pointing_technique.py:106 | `min` picks the radius with the smaller real value, the first one on a tie |
| PointingTechnique.PlusSound | pointing_technique.py:104-105 | a distance plus an integer stands for the real sum sqrt(a) + k: two such radii compare as their real sums, and any finite one is below the sum on an infinite distance |
| PointingTechnique.ShiftSound | pointing_technique.py:169 | shifting a radius by k adds k to its real value on either side of a comparison; infinity stays infinite |
| PointingTechnique.FirstNearestUnique | pointing_technique.py:119 | the first nearest target (strict `<`, first seen wins) is unique |
| PointingTechnique.StepKeepsInv | pointing_technique.py:119-134 | one loop iteration, with demotion of the old best, keeps best and second best the first-nearest and first-nearest-of-the-rest |
| PointingTechnique.Step | pointing_technique.py:113-134 | one iteration of the scan: a strictly nearer target demotes the best to second, a target nearer than the second only replaces the second; StepKeepsInv states what it preserves |
| PointingTechnique.ScanFrom | pointing_technique.py:113-134 | the scan over the first n targets from a given start; its meaning is stated by ScanCorrect |
| PointingTechnique.ScanCorrect | pointing_technique.py:112-134 | after the reset and the scan: best is the first nearest target; second is the first nearest among the others; they differ; distBest <= distSecond; None/infinity exactly when too few targets |
| PointingTechnique.ScanIgnoresSize | pointing_technique.py:113-117 | the scan reads only target centres |
| PointingTechnique.Filtered | pointing_technique.py:89-110 | reset, scan, bubble radius min(containment, intersecting), highlight raised and never lowered; its meaning is stated by MovedSelectsNearest and MovedRadiusAndHighlight |
| PointingTechnique.Moved | pointing_technique.py:82-110 | a pointer move: record the position, then filter; its meaning is stated by MovedSelectsNearest, MovedRadiusAndHighlight and MovedForgetsPriorState |
| PointingTechnique.MovedSelectsNearest | pointing_technique.py:82-98 | after a move the pointer is recorded and the selection is the nearest target, first seen winning ties; the second best is the nearest of the rest |
| PointingTechnique.MovedRadiusAndHighlight | pointing_technique.py:101-110 | over the reals, the bubble radius is min(dBest + r, dSecond - r) and the flag is raised iff dBest + r > dSecond - r (or was already raised) |
| PointingTechnique.MovedSingleTarget | pointing_technique.py:75-108 | with one target, second best stays None at infinity, the radius is the containment distance and the flag is unchanged |
| PointingTechnique.MovedNoTargets | pointing_technique.py:89-106 | with no targets nothing is selected and the radius is infinite |
| PointingTechnique.MovedOntoCentre | pointing_technique.py:117-128 | a pointer on a target centre selects a target at that point at distance 0, that one or an earlier one |
| PointingTechnique.MovedForgetsPriorState | pointing_technique.py:90-95 | everything but the highlight flag is recomputed from the targets and the pointer alone |
| PointingTechnique.MovedIdempotent | pointing_technique.py:82-110 | repeating the same move leaves the state unchanged |
| PointingTechnique.HighlightSticky | pointing_technique.py:108-110 | once raised, the highlight flag stays raised |
| PointingTechnique.MovedIgnoresSize | pointing_technique.py:103-104 | the per-target size plays no part; only the uniform radius does |
| PointingTechnique.Paint | pointing_technique.py:144-190 | nothing before the first move; then the bubble at the pointer with radius bubble radius - 2, and the ring of radius r + border at the best target iff the flag is up and a best target exists |
| PointingTechnique.PaintAfterMove | pointing_technique.py:144-171 | after a move the bubble drawn is min(containment, intersecting) - 2 around the pointer |
| PointingTechnique.MidpointScenario | pointing_technique.py:89-134 | targets at (100,100) and (300,100), pointer at the midpoint: the first wins, radius min(120, 80), highlight raised |
| PointingTechnique.NearFirstScenario | pointing_technique.py:89-134 | same targets, fresh cursor, pointer at (110,100): radius min(30, 170), no highlight |
| PointingTechnique.SingleTargetScenario | pointing_technique.py:89-134 | one target at the origin with radius 15, pointer at (5,0): radius 20, no second best, no highlight |
| PointingTechnique.HighlightNeverCleared | pointing_technique.py:150-152 | after the midpoint move, a move to (110,100) no longer needs the highlight, but the ring is still drawn |
| PointingTechnique.CollinearScenario | pointing_technique.py:119-134 | the old best is demoted to second when a nearer target follows it |
| PointingTechnique.BubbleCursor.constructor | pointing_technique.py:65-76 | no position, no selection, distances infinite, no radius, flag down |
| PointingTechnique.BubbleCursor.SelectedTarget | pointing_technique.py:78-80 | the best target, or none |
| PointingTechnique.BubbleCursor.OnMouseMoved | pointing_technique.py:82-87 | the new state is `Moved` of the old one, and the stored indices stay valid |
| PointingTechnique.BubbleCursor.Filter | pointing_technique.py:89-110 | reset, scan, radius, flag: the new state is `Filtered` of the old one |
| PointingTechnique.BubbleCursor.FindNearestTargets | pointing_technique.py:112-134 | the loop leaves the scan fields equal to the scan of every target from their old values |
| PointingTechnique.BubbleCursor.OnPaintEvent | pointing_technique.py:144-152 | the circles handed to the painter are `Paint` of the state |
| PointingTechnique.BubbleCursor.DrawBubbleArea | pointing_technique.py:154-171 | no bubble without a radius; otherwise the bubble is at the pointer with radius minus 2 |
| PointingTechnique.BubbleCursor.DrawHighlight | pointing_technique.py:173-190 | no ring without a best target; otherwise a ring of radius r + border at its centre |
| Experiment.PlaceLabel | pointingExperiment.py:67-68 | a label is 2r by 2r and its centre is the parsed coordinate |
| Experiment.OverPlacedLabel | pointingExperiment.py:96-99 | the hit test on a placed label is the point-in-circle test around the parsed coordinate |
| Experiment.PointingExperiment.constructor | pointingExperiment.py:17-28 | not started, no start time, no labels, index 0 |
| Experiment.PointingExperiment.SetupTargets | pointingExperiment.py:53-73 | one label per parsed entry is appended, in order, up to the first failing entry, whose error is returned |
| Experiment.PointingExperiment.StartExperiment | pointingExperiment.py:43-47 | the labels are set up; on success the experiment is started with the given start time; on a parse error it is not started and its start time is unchanged, and the labels appended before the failing entry stay |
| Experiment.PointingExperiment.MousePressEvent | pointingExperiment.py:75-78 | only a left click during the experiment is acted on |
| Experiment.PointingExperiment.MouseClickedAt | pointingExperiment.py:96-100 | a click counts only when it lands in the current target's circle |
| Experiment.FinishedRecord | pointingExperiment.py:108-109 | the record logged when the last target is hit: user 1, condition 1, the fixed strings `(20,20)` and `(30,30)`, the start and end times and 0; PointingExperiment.TargetClicked states when it is logged |
| Experiment.PointingExperiment.TargetClicked | pointingExperiment.py:102-109 | below the last target, the index grows by exactly one; at the last target it stays and one record is logged; the index stays in range |
| Experiment.PointingExperiment.MouseMoveEvent | pointingExperiment.py:80-89 | nothing before the experiment starts; afterwards, whether the pointer is over the current target's circle |
| RandomDraws.NewRandomCoords | setup_new_circles.py:18-22 | a draw over an empty range fails; otherwise the candidate is the next supplied draw, inside the requested inclusive ranges (`setup_condition.py` lines 9-13 draw the same way over other ranges) |
| SetupNewCircles.Settle | setup_new_circles.py:30-33 | the draw the nested re-roll settles on: for each placed circle in turn, the next draws while the candidate touches that circle, earlier circles never looked at again; none when the draws run out |
| SetupNewCircles.SettleFirstClear | setup_new_circles.py:30-33 | a candidate clear of every placed circle is never re-drawn: the re-roll settles on it |
| SetupNewCircles.DrawClearOfPlaced | setup_new_circles.py:29-33 | the candidate accepted is exactly the draw `Settle` gives from the first unused draw, the last draw taken, clear of the circle placed last; a first draw clear of every placed circle is accepted as drawn; the draws run out exactly when the re-roll does not settle; an empty range fails |
| SetupNewCircles.EarlierCircleNotRechecked | setup_new_circles.py:29-33 | with radius 10 and draws (0,0), (100,0), (5,0), (100,5), (3,0), every three-circle run places (0,0), (100,0), (3,0), and the third circle touches the first |
| SetupNewCircles.EarlierDrawsSettle | setup_new_circles.py:25-35 | on those same draws the re-roll settles for each of the first three circles, so a three-circle run does not run out of draws and returns that overlapping layout |
| SetupNewCircles.FirstClearFromSettled | setup_new_circles.py:28-34 | in a layout settled entry by entry, an entry whose first draw is clear of every earlier circle is that draw |
| SetupNewCircles.CreateCircleCoordinates | setup_new_circles.py:25-39 | exactly n circles (none for n <= 0), taken from the draws in order, inside 0..800-r by 0..600-r, each clear of the one before it; each entry the draw `Settle` gives against the entries before it, so an entry whose first draw is clear of every earlier circle is that draw; the string is the entries joined by `;` and parses back to them; an empty range (r > 600) fails iff a circle is drawn; running out of draws happens only when the draws are used up or the re-roll for the next circle does not settle |
| SetupCondition.Max | setup_condition.py:21 | `max` of a nonempty list is an element and at least every element |
| SetupCondition.DrawUnplaced | setup_condition.py:21-23 | the candidate accepted is the first later draw not yet in the list: it is the last draw taken and every draw skipped before it is already placed; the draws run out exactly when the range is not empty and every remaining draw is already placed |
| SetupCondition.CreateCircleCoordinates | setup_condition.py:16-29 | exactly n pairwise distinct centres, taken from the draws in order, each the first draw not yet placed (every draw skipped is an earlier centre), inside m..800-m by m..600-m for m the largest radius; the string is the entries joined by `;` and parses back to them; an empty radius list, or an empty range (m > 300), fails iff a circle is drawn; running out of draws happens only when every remaining draw is already a centre |

## Left out

- Floating point and `sqrt`: distances are exact reals, encoded as integers under a square root, so rounding is not modelled.
- `math.inf` arithmetic only appears as `PosInf`. Painting an infinite bubble when there are no targets is kept as a value; what Qt does with it is not modelled.
- PyQt widgets and painting: `QPainter`, pens, brushes, colours, the label colour effects, stylesheets and `uic`. Only the centres and radii handed to the painter are modelled. Hover returns its hit-test result in place of the colour it sets.
- The logger: pandas, CSV reading and writing and `time.time()`. The clock is a parameter, and a log call is a record appended to a list.
- JSON setup files, `sys.argv` parsing and `print` output in every file.
- `_debug` (pointing_technique.py:136-142): it only prints.
- experiment_test.py is not part of this model: it is a start-up script with no logic of its own.
- `random.randint`: the draws are a sequence supplied by the caller, already in range. The real re-draw loops need not terminate; the model stops with `DrawsExhausted` when the supplied draws run out.
- `int()` accepts only an optional sign followed by ASCII digits. Surrounding whitespace, underscores and non-ASCII digits, which Python also accepts, are not modelled.
- Key mismatch: `setup_condition.py` writes the key `circleRadiusList`, but the window reads `circleRadius`. Reading setup files is not modelled, so this mismatch is not either.
- SetupNewCircles.CreateCircleCoordinates: guarantees only that each circle is clear of the one placed just before it. This is what the code does, because earlier circles are not re-checked after a re-draw; full pairwise non-overlap does not hold, as SetupNewCircles.EarlierCircleNotRechecked shows on concrete draws.
- PointingTechnique.BubbleCursor.constructor: `allTargets` is an immutable copy of the target list. The source keeps the caller's list by reference (pointing_technique.py:70), so later changes the caller makes to that list are not seen by the model.
- The clock `now` is an integer. `time.time()` returns a float, so sub-unit precision of the logged times is not modelled.
- Experiment.PointingExperiment.StartExperiment: a malformed coordinates string makes the source raise out of the start-button handler (pointingExperiment.py:37, 43-44). The model returns the parse error as a value. What PyQt then does with the uncaught exception is not modelled.
- Experiment.PointingExperiment.SetupTargets: targets are labels with a position and a size. The widget they are attached to and its stacked page are not modelled.
