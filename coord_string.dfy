/**
 * The layout's "coordinates" string: target centres written as `(x,y)`
 * entries separated by `;`. Both layout generators write it (each builds
 * `"(x,y);"` per circle with `+=` and then drops the final character); the
 * experiment window reads it back by splitting on `;`, removing the
 * parentheses, splitting on `,` and converting both halves with `int()`.
 */
module CoordString {
  import opened Wrappers
  import opened PyStr
  import opened Geometry

  /** One entry as the generators format it, `f"({x},{y})"`. */
  function Entry(c: Coord): string
  {
    "(" + FormatInt(c.x) + "," + FormatInt(c.y) + ")"
  }

  function Entries(cs: seq<Coord>): (es: seq<string>)
    ensures |es| == |cs|
    ensures forall i :: 0 <= i < |cs| ==> es[i] == Entry(cs[i])
  {
    seq(|cs|, i requires 0 <= i < |cs| => Entry(cs[i]))
  }

  /** The finished coordinates string: the entries joined by `;`. */
  function Serialise(cs: seq<Coord>): string
  {
    Join(Entries(cs), ';')
  }

  /** What the generator loops have accumulated after placing `cs`: each entry followed by `;`. */
  function Accumulated(cs: seq<Coord>): string
    decreases |cs|
  {
    if |cs| == 0 then "" else Accumulated(cs[..|cs| - 1]) + Entry(cs[|cs| - 1]) + ";"
  }

  lemma EntriesSnoc(cs: seq<Coord>)
    requires |cs| > 0
    ensures Entries(cs) == Entries(cs[..|cs| - 1]) + [Entry(cs[|cs| - 1])]
  {
  }

  /** The accumulated string of a non-empty layout is the joined form plus one `;`. */
  lemma {:induction false} AccumulatedJoin(cs: seq<Coord>)
    requires |cs| > 0
    ensures Accumulated(cs) == Serialise(cs) + ";"
    decreases |cs|
  {
    var init, e := cs[..|cs| - 1], Entry(cs[|cs| - 1]);
    assert Accumulated(cs) == Accumulated(init) + e + ";";
    EntriesSnoc(cs);
    if |cs| == 1 {
      assert Entries(cs) == [e];
    } else {
      AccumulatedJoin(init);
      JoinSnoc(Entries(init), e, ';');
    }
  }

  /** Dropping the last character of the accumulated string gives the joined form. */
  lemma TrimmedAccumulation(cs: seq<Coord>)
    ensures DropLast(Accumulated(cs)) == Serialise(cs)
  {
    if |cs| > 0 {
      AccumulatedJoin(cs);
      var s := Serialise(cs);
      assert (s + ";")[..|s|] == s;
    }
  }

  lemma FormatIntLacks(n: int, c: char)
    requires c != '-' && !IsDigit(c)
    ensures c !in FormatInt(n)
  {
  }

  lemma EntryLacksSemicolon(c: Coord)
    ensures ';' !in Entry(c)
  {
    FormatIntLacks(c.x, ';');
    FormatIntLacks(c.y, ';');
  }

  /** Shape of the finished string: empty for no circles, otherwise `(` first and `)` last, never a trailing `;`. */
  lemma SerialiseShape(cs: seq<Coord>)
    ensures |cs| == 0 ==> Serialise(cs) == ""
    ensures |cs| > 0 ==> var s := Serialise(cs); |s| > 0 && s[0] == '(' && s[|s| - 1] == ')'
    ensures |cs| > 0 ==> |Split(Serialise(cs), ';')| == |cs|
  {
    if |cs| > 0 {
      EntriesStartAndEnd(Entries(cs), cs);
      forall i | 0 <= i < |cs| ensures ';' !in Entries(cs)[i] {
        EntryLacksSemicolon(cs[i]);
      }
      JoinThenSplit(Entries(cs), ';');
    }
  }

  lemma {:induction false} EntriesStartAndEnd(es: seq<string>, cs: seq<Coord>)
    requires |es| > 0 && |es| == |cs|
    requires forall i :: 0 <= i < |es| ==> es[i] == Entry(cs[i])
    ensures var s := Join(es, ';'); |s| > 0 && s[0] == '(' && s[|s| - 1] == ')'
    decreases |es|
  {
    if |es| > 1 {
      EntriesStartAndEnd(es[1..], cs[1..]);
      var tail := Join(es[1..], ';');
      assert Join(es, ';') == es[0] + [';'] + tail;
    }
  }

  datatype ParseError =
    | ValueError(literal: string)  // int() refused the text
    | IndexError                   // an entry had no second field

  /**
   * One `;`-separated entry: `(` and `)` removed, split on `,`, the first two
   * fields converted in the order the source evaluates them. Fields after the
   * second are ignored.
   */
  function ParseEntry(piece: string): Result<Coord, ParseError>
  {
    var fields := Split(Remove(Remove(piece, '('), ')'), ',');
    match ParseInt(fields[0])
    case None => Err(ValueError(fields[0]))
    case Some(x) =>
      if |fields| < 2 then Err(IndexError)
      else
        match ParseInt(fields[1])
        case None => Err(ValueError(fields[1]))
        case Some(y) => Ok(Coord(x, y))
  }

  /** The entries converted before the first failure, and that failure if any. */
  datatype Parsed = Parsed(coords: seq<Coord>, error: Option<ParseError>)

  function ParseAll(pieces: seq<string>): (p: Parsed)
    ensures |p.coords| <= |pieces|
    ensures p.error.None? <==> |p.coords| == |pieces|
    decreases |pieces|
  {
    if |pieces| == 0 then Parsed([], None)
    else
      match ParseEntry(pieces[0])
      case Err(e) => Parsed([], Some(e))
      case Ok(c) =>
        var rest := ParseAll(pieces[1..]);
        Parsed([c] + rest.coords, rest.error)
  }

  /** Each converted coordinate is its own piece's parse, and the error is that of the first piece not converted. */
  lemma {:induction false} ParseAllSound(pieces: seq<string>)
    ensures var p := ParseAll(pieces);
      && (forall i :: 0 <= i < |p.coords| ==> ParseEntry(pieces[i]) == Ok(p.coords[i]))
      && (p.error.Some? ==> ParseEntry(pieces[|p.coords|]) == Err(p.error.value))
    decreases |pieces|
  {
    if |pieces| > 0 && ParseEntry(pieces[0]).Ok? {
      var p, rest := ParseAll(pieces), ParseAll(pieces[1..]);
      ParseAllSound(pieces[1..]);
      assert p.coords == [ParseEntry(pieces[0]).value] + rest.coords;
      forall i | 0 < i < |p.coords|
        ensures ParseEntry(pieces[i]) == Ok(p.coords[i])
      {
        assert pieces[i] == pieces[1..][i - 1];
      }
      if p.error.Some? {
        assert pieces[|p.coords|] == pieces[1..][|rest.coords|];
      }
    }
  }

  /** ParseAll on a suffix, one entry unfolded. */
  lemma ParseAllSuffix(pieces: seq<string>, i: nat)
    requires i < |pieces|
    ensures ParseEntry(pieces[i]).Err? ==> ParseAll(pieces[i..]) == Parsed([], Some(ParseEntry(pieces[i]).error))
    ensures ParseEntry(pieces[i]).Ok? ==>
      var rest := ParseAll(pieces[i + 1..]);
      ParseAll(pieces[i..]) == Parsed([ParseEntry(pieces[i]).value] + rest.coords, rest.error)
  {
    assert pieces[i..][0] == pieces[i];
    assert pieces[i..][1..] == pieces[i + 1..];
  }

  /** The whole coordinates string: one target per `;`-separated entry, or the first error. */
  function ParseCoordinates(s: string): (r: Result<seq<Coord>, ParseError>)
    ensures r.Ok? ==> |r.value| == |Split(s, ';')| && |r.value| >= 1
    ensures r.Ok? ==> forall i :: 0 <= i < |r.value| ==> ParseEntry(Split(s, ';')[i]) == Ok(r.value[i])
  {
    ParseAllSound(Split(s, ';'));
    var p := ParseAll(Split(s, ';'));
    if p.error.None? then Ok(p.coords) else Err(p.error.value)
  }

  /** Removing the surrounding parentheses of `(inner)` when `inner` has none. */
  lemma StripParens(inner: string)
    requires '(' !in inner && ')' !in inner
    ensures Remove(Remove("(" + inner + ")", '('), ')') == inner
  {
    RemoveAbsent(inner, '(');
    RemoveAbsent(inner, ')');
    RemoveConcat("(", inner, '(');
    RemoveConcat("(" + inner, ")", '(');
    assert Remove("(" + inner + ")", '(') == inner + ")";
    RemoveConcat(inner, ")", ')');
  }

  lemma SplitPair(a: string, b: string)
    requires ',' !in a && ',' !in b
    ensures Split(a + "," + b, ',') == [a, b]
  {
    assert Join([a, b], ',') == a + "," + b;
    JoinThenSplit([a, b], ',');
  }

  /** An entry written by a generator reads back as the same coordinate. */
  lemma ParseEntryRoundTrip(c: Coord)
    ensures ParseEntry(Entry(c)) == Ok(c)
  {
    var a, b := FormatInt(c.x), FormatInt(c.y);
    FormatIntLacks(c.x, '('); FormatIntLacks(c.y, '(');
    FormatIntLacks(c.x, ')'); FormatIntLacks(c.y, ')');
    FormatIntLacks(c.x, ','); FormatIntLacks(c.y, ',');
    var inner := a + "," + b;
    assert '(' !in inner && ')' !in inner;
    StripParens(inner);
    assert Entry(c) == "(" + inner + ")";
    SplitPair(a, b);
    ParseFormatInt(c.x);
    ParseFormatInt(c.y);
  }

  lemma {:induction false} ParseAllEntries(cs: seq<Coord>)
    ensures ParseAll(Entries(cs)) == Parsed(cs, None)
    decreases |cs|
  {
    if |cs| > 0 {
      var es := Entries(cs);
      assert es[0] == Entry(cs[0]);
      assert es[1..] == Entries(cs[1..]);
      ParseEntryRoundTrip(cs[0]);
      ParseAllEntries(cs[1..]);
      assert ParseAll(es) == Parsed([cs[0]] + cs[1..], None);
      assert [cs[0]] + cs[1..] == cs;
    }
  }

  /** Serialise then parse: a non-empty layout reads back as exactly the coordinates written. */
  lemma RoundTrip(cs: seq<Coord>)
    requires |cs| > 0
    ensures ParseCoordinates(Serialise(cs)) == Ok(cs)
  {
    forall i | 0 <= i < |cs| ensures ';' !in Entries(cs)[i] {
      EntryLacksSemicolon(cs[i]);
    }
    JoinThenSplit(Entries(cs), ';');
    ParseAllEntries(cs);
  }

  /** A layout of zero circles is the empty string, which the reader refuses (`int("")`). */
  lemma EmptyLayoutRejected()
    ensures Serialise([]) == ""
    ensures ParseCoordinates("") == Err(ValueError(""))
  {
    assert Split("", ';') == [""];
    assert Remove(Remove("", '('), ')') == "";
    assert Split("", ',') == [""];
  }
}
