/**
 * A reader for the documents the converter writes. It is the inverse of the
 * serialiser: the round-trip theorem ReadWrittenDocument says that reading
 * back `bitmap_to_svg`'s output recovers the canvas size from the start tag,
 * exactly the contours that pass the area filter (in input order, point for
 * point), and the placeholder's geometry exactly when no contour passes.
 */
module SvgReader {
  import opened Wrappers
  import opened Decimal
  import opened Geometry
  import opened Converter
  import opened Sequences

  /** What the placeholder says: the rectangle's size and twice the label's position. */
  datatype Fallback = Fallback(rectWidth: int, rectHeight: int, twiceTextX: int, twiceTextY: int)

  /** What a document says. */
  datatype Drawing = Drawing(
    width: int, height: int,
    viewBoxWidth: int, viewBoxHeight: int,
    paths: seq<Contour>,
    fallback: Option<Fallback>)

  // ---------------------------------------------------------------------------
  // Readers
  // ---------------------------------------------------------------------------

  function StripPrefix(p: string, s: string): (r: Option<string>)
    ensures r.Some? ==> |r.value| == |s| - |p|
  {
    if |p| <= |s| && s[..|p|] == p then Some(s[|p|..]) else None
  }

  /** A fixed piece of text followed by an integer. */
  function ReadIntAfter(p: string, s: string): (r: Option<(int, string)>)
    ensures r.Some? ==> |r.value.1| < |s|
  {
    match StripPrefix(p, s)
    case None => None
    case Some(rest) => ParseInt(rest)
  }

  /** A fixed piece of text followed by a halved integer; gives back the integer. */
  function ReadHalfAfter(p: string, s: string): (r: Option<(int, string)>)
    ensures r.Some? ==> |r.value.1| < |s|
  {
    match StripPrefix(p, s)
    case None => None
    case Some(rest) => ParseHalf(rest)
  }

  /** One path command: its letter, `x,y`, and a space. */
  function ReadCommand(letter: char, s: string): (r: Option<(Point, string)>)
    ensures r.Some? ==> |r.value.1| < |s|
  {
    match ReadIntAfter([letter], s)
    case None => None
    case Some((x, r1)) =>
      match ReadIntAfter(",", r1)
      case None => None
      case Some((y, r2)) =>
        match StripPrefix(" ", r2)
        case None => None
        case Some(r3) => Some((Point(x, y), r3))
  }

  /** As many line commands as there are. */
  function ReadLineTos(s: string): (r: Option<(seq<Point>, string)>)
    ensures r.Some? ==> |r.value.1| <= |s|
    decreases |s|
  {
    if s != [] && s[0] == 'L' then
      match ReadCommand('L', s)
      case None => None
      case Some((p, r1)) =>
        match ReadLineTos(r1)
        case None => None
        case Some((ps, r2)) => Some(([p] + ps, r2))
    else Some(([], s))
  }

  /** The value of a `d` attribute: `Z` alone, or a move, lines, and `Z`. */
  function ReadPathData(s: string): (r: Option<(Contour, string)>)
    ensures r.Some? ==> |r.value.1| < |s|
  {
    if s != [] && s[0] == 'Z' then Some(([], s[1..]))
    else
      match ReadCommand('M', s)
      case None => None
      case Some((p, r1)) =>
        match ReadLineTos(r1)
        case None => None
        case Some((ps, r2)) =>
          if r2 != [] && r2[0] == 'Z' then Some(([p] + ps, r2[1..])) else None
  }

  /** As many path elements as there are. */
  function ReadPathElements(s: string): (r: Option<(seq<Contour>, string)>)
    ensures r.Some? ==> |r.value.1| <= |s|
    decreases |s|
  {
    match StripPrefix(PathOpen, s)
    case None => Some(([], s))
    case Some(r1) =>
      match ReadPathData(r1)
      case None => None
      case Some((c, r2)) =>
        match StripPrefix(PathClose, r2)
        case None => None
        case Some(r3) =>
          match ReadPathElements(r3)
          case None => None
          case Some((cs, r4)) => Some(([c] + cs, r4))
  }

  /** The XML declaration and the start tag: width, height and the viewBox size. */
  function ReadHeader(s: string): Option<(int, int, int, int, string)> {
    match StripPrefix(XmlDeclaration, s)
    case None => None
    case Some(r0) =>
    match ReadIntAfter(SvgOpen, r0)
    case None => None
    case Some((w, r1)) =>
      match ReadIntAfter(SvgHeightAttr, r1)
      case None => None
      case Some((h, r2)) =>
        match ReadIntAfter(SvgViewBoxAttr, r2)
        case None => None
        case Some((vw, r3)) =>
          match ReadIntAfter(" ", r3)
          case None => None
          case Some((vh, r4)) =>
            match StripPrefix(SvgTagEnd, r4)
            case None => None
            case Some(r5) => Some((w, h, vw, vh, r5))
  }

  /** The placeholder: the rectangle, then the label. */
  function ReadFallback(s: string): Option<(Fallback, string)> {
    match ReadIntAfter(RectOpen, s)
    case None => None
    case Some((rw, r1)) =>
      match ReadIntAfter(RectHeightAttr, r1)
      case None => None
      case Some((rh, r2)) =>
        match StripPrefix(RectClose, r2)
        case None => None
        case Some(r3) =>
          match ReadHalfAfter(TextOpen, r3)
          case None => None
          case Some((tx, r4)) =>
            match ReadHalfAfter(TextYAttr, r4)
            case None => None
            case Some((ty, r5)) =>
              match StripPrefix(TextClose, r5)
              case None => None
              case Some(r6) => Some((Fallback(rw, rh, tx, ty), r6))
  }

  /** A whole document: header, paths, the placeholder if there is one, and `</svg>`. */
  function ReadDocument(s: string): Option<Drawing> {
    match ReadHeader(s)
    case None => None
    case Some((w, h, vw, vh, r1)) =>
      match ReadPathElements(r1)
      case None => None
      case Some((paths, r2)) =>
        if StripPrefix(RectOpen, r2).Some? then
          match ReadFallback(r2)
          case None => None
          case Some((f, r3)) =>
            if r3 == SvgClose then Some(Drawing(w, h, vw, vh, paths, Some(f))) else None
        else if r2 == SvgClose then Some(Drawing(w, h, vw, vh, paths, None))
        else None
  }

  // ---------------------------------------------------------------------------
  // Reading back what was written
  // ---------------------------------------------------------------------------

  lemma StripWritten(p: string, rest: string)
    ensures StripPrefix(p, p + rest) == Some(rest)
  {
    assert (p + rest)[..|p|] == p;
    assert (p + rest)[|p|..] == rest;
  }

  lemma StripMismatch(p: string, s: string, k: nat)
    requires k < |p| && k < |s| && p[k] != s[k]
    ensures StripPrefix(p, s) == None
  {
    if |p| <= |s| {
      assert s[..|p|][k] != p[k];
    }
  }

  lemma IntAfterWritten(p: string, n: int, rest: string)
    requires Delimits(rest)
    ensures ReadIntAfter(p, p + (IntToString(n) + rest)) == Some((n, rest))
  {
    StripWritten(p, IntToString(n) + rest);
    IntRoundTrip(n, rest);
  }

  lemma HalfAfterWritten(p: string, n: int, rest: string)
    ensures ReadHalfAfter(p, p + (HalfToString(n) + rest)) == Some((n, rest))
  {
    StripWritten(p, HalfToString(n) + rest);
    HalfRoundTrip(n, rest);
  }

  /** A command written for a point is read back as that point. */
  lemma CommandWritten(letter: char, p: Point, rest: string)
    ensures ReadCommand(letter, [letter] + (IntToString(p.x) + ("," + (IntToString(p.y) + (" " + rest)))))
         == Some((p, rest))
  {
    var afterX := "," + (IntToString(p.y) + (" " + rest));
    IntAfterWritten([letter], p.x, afterX);
    IntAfterWritten(",", p.y, " " + rest);
    StripWritten(" ", rest);
  }

  lemma LineToWritten(p: Point, rest: string)
    ensures var s := LineTo(p) + rest;
      s != [] && s[0] == 'L' && ReadCommand('L', s) == Some((p, rest))
  {
    Assoc6("L", IntToString(p.x), ",", IntToString(p.y), " ", rest);
    CommandWritten('L', p, rest);
  }

  lemma MoveToWritten(p: Point, rest: string)
    ensures var s := MoveTo(p) + rest;
      s != [] && s[0] == 'M' && ReadCommand('M', s) == Some((p, rest))
  {
    Assoc6("M", IntToString(p.x), ",", IntToString(p.y), " ", rest);
    CommandWritten('M', p, rest);
  }

  /** One step of ReadLineTos: a line command read off the front, then the rest of the lines. */
  lemma ReadLineTosStep(s: string, p: Point, r1: string, ps: seq<Point>, rest: string)
    requires s != [] && s[0] == 'L' && ReadCommand('L', s) == Some((p, r1))
    requires ReadLineTos(r1) == Some((ps, rest))
    ensures ReadLineTos(s) == Some(([p] + ps, rest))
  {
  }

  lemma {:induction false} LineTosWritten(ps: seq<Point>, rest: string)
    requires rest == [] || rest[0] != 'L'
    ensures ReadLineTos(LineTos(ps) + rest) == Some((ps, rest))
    decreases |ps|
  {
    if ps == [] {
      EmptyLeft(rest);
    } else {
      var tail := LineTos(ps[1..]) + rest;
      var s := LineTo(ps[0]) + tail;
      assert LineTos(ps) + rest == s by {
        Assoc(LineTo(ps[0]), LineTos(ps[1..]), rest);
      }
      assert s != [] && s[0] == 'L' && ReadCommand('L', s) == Some((ps[0], tail)) by {
        LineToWritten(ps[0], tail);
      }
      assert ReadLineTos(tail) == Some((ps[1..], rest)) by {
        LineTosWritten(ps[1..], rest);
      }
      ReadLineTosStep(s, ps[0], tail, ps[1..], rest);
      ConsSlice(ps);
    }
  }

  /** The `d` attribute written for a contour is read back as that contour. */
  lemma PathDataWritten(c: Contour, rest: string)
    ensures ReadPathData(PathData(c) + rest) == Some((c, rest))
  {
    if c == [] {
      assert ("Z" + rest)[1..] == rest;
    } else {
      OpenPathDataWritten(c, rest);
    }
  }

  /** ReadPathData on a move, the lines after it, and the closing `Z`. */
  lemma ReadOpenPathStep(s: string, p: Point, r1: string, ps: seq<Point>, r2: string)
    requires s != [] && s[0] == 'M' && ReadCommand('M', s) == Some((p, r1))
    requires ReadLineTos(r1) == Some((ps, r2)) && r2 != [] && r2[0] == 'Z'
    ensures ReadPathData(s) == Some(([p] + ps, r2[1..]))
  {
  }

  lemma OpenPathDataWritten(c: Contour, rest: string)
    requires c != []
    ensures ReadPathData(PathData(c) + rest) == Some((c, rest))
  {
    var zr := "Z" + rest;
    var lines := LineTos(c[1..]);
    var s := MoveTo(c[0]) + (lines + zr);
    assert PathData(c) + rest == s by {
      Assoc4(MoveTo(c[0]), lines, "Z", rest);
    }
    assert s != [] && s[0] == 'M' && ReadCommand('M', s) == Some((c[0], lines + zr)) by {
      MoveToWritten(c[0], lines + zr);
    }
    assert ReadLineTos(lines + zr) == Some((c[1..], zr)) by {
      LineTosWritten(c[1..], zr);
    }
    assert zr != [] && zr[0] == 'Z' && zr[1..] == rest;
    ReadOpenPathStep(s, c[0], lines + zr, c[1..], zr);
    ConsSlice(c);
  }

  lemma {:induction false} PathElementsWritten(cs: seq<Contour>, rest: string)
    requires StripPrefix(PathOpen, rest) == None
    ensures ReadPathElements(PathElements(cs) + rest) == Some((KeptContours(cs), rest))
    decreases |cs|
  {
    if cs == [] {
      EmptyLeft(rest);
    } else {
      var later := PathElements(cs[1..]) + rest;
      assert ReadPathElements(later) == Some((KeptContours(cs[1..]), rest)) by {
        PathElementsWritten(cs[1..], rest);
      }
      if IsKept(cs[0]) {
        var data := PathData(cs[0]);
        var s := PathOpen + (data + (PathClose + later));
        assert PathElements(cs) + rest == s by {
          Assoc(PathElement(cs[0]), PathElements(cs[1..]), rest);
          Assoc4(PathOpen, data, PathClose, later);
        }
        assert StripPrefix(PathOpen, s) == Some(data + (PathClose + later)) by {
          StripWritten(PathOpen, data + (PathClose + later));
        }
        assert ReadPathData(data + (PathClose + later)) == Some((cs[0], PathClose + later)) by {
          PathDataWritten(cs[0], PathClose + later);
        }
        assert StripPrefix(PathClose, PathClose + later) == Some(later) by {
          StripWritten(PathClose, later);
        }
        assert ReadPathElements(s) == Some(([cs[0]] + KeptContours(cs[1..]), rest));
      } else {
        assert PathElements(cs) + rest == later by {
          Assoc([], PathElements(cs[1..]), rest);
          EmptyLeft(later);
        }
        assert KeptContours(cs) == KeptContours(cs[1..]) by {
          EmptyLeft(KeptContours(cs[1..]));
        }
      }
    }
  }

  lemma HeaderWritten(width: int, height: int, rest: string)
    ensures ReadHeader(Header(width, height) + rest) == Some((width, height, width, height, rest))
  {
    var ws, hs := IntToString(width), IntToString(height);
    var r4 := SvgTagEnd + rest;
    var r3 := " " + (hs + r4);
    var r2 := SvgViewBoxAttr + (ws + r3);
    var r1 := SvgHeightAttr + (hs + r2);
    var r0 := SvgOpen + (ws + r1);
    assert Header(width, height) + rest == XmlDeclaration + r0 by {
      Assoc(XmlDeclaration, SvgStartTag(width, height), rest);
      Assoc10(SvgOpen, ws, SvgHeightAttr, hs, SvgViewBoxAttr, ws, " ", hs, SvgTagEnd, rest);
    }
    assert StripPrefix(XmlDeclaration, XmlDeclaration + r0) == Some(r0) by {
      StripWritten(XmlDeclaration, r0);
    }
    assert ReadIntAfter(SvgOpen, r0) == Some((width, r1)) by {
      assert r1[0] == '"';
      IntAfterWritten(SvgOpen, width, r1);
    }
    assert ReadIntAfter(SvgHeightAttr, r1) == Some((height, r2)) by {
      assert r2[0] == '"';
      IntAfterWritten(SvgHeightAttr, height, r2);
    }
    assert ReadIntAfter(SvgViewBoxAttr, r2) == Some((width, r3)) by {
      assert r3[0] == ' ';
      IntAfterWritten(SvgViewBoxAttr, width, r3);
    }
    assert ReadIntAfter(" ", r3) == Some((height, r4)) by {
      assert r4[0] == '"';
      IntAfterWritten(" ", height, r4);
    }
    assert StripPrefix(SvgTagEnd, r4) == Some(rest) by {
      StripWritten(SvgTagEnd, rest);
    }
  }

  /** The placeholder followed by `rest`, grouped the way the reader consumes it. */
  lemma PlaceholderShape(width: int, height: int, rest: string)
    ensures Placeholder(width, height) + rest
         == RectOpen + (IntToString(width - 20) + (RectHeightAttr + (IntToString(height - 20) + (RectClose
              + (TextOpen + (HalfToString(width) + (TextYAttr + (HalfToString(height) + (TextClose + rest)))))))))
  {
    var text := TextElement(width, height) + rest;
    Assoc(RectElement(width, height), TextElement(width, height), rest);
    Assoc6(TextOpen, HalfToString(width), TextYAttr, HalfToString(height), TextClose, rest);
    Assoc6(RectOpen, IntToString(width - 20), RectHeightAttr, IntToString(height - 20), RectClose, text);
  }

  lemma FallbackWritten(width: int, height: int, rest: string)
    ensures StripPrefix(RectOpen, Placeholder(width, height) + rest).Some?
    ensures ReadFallback(Placeholder(width, height) + rest)
         == Some((Fallback(width - 20, height - 20, width, height), rest))
  {
    var r5 := TextClose + rest;
    var r4 := TextYAttr + (HalfToString(height) + r5);
    var r3 := TextOpen + (HalfToString(width) + r4);
    var r2 := RectClose + r3;
    var r1 := RectHeightAttr + (IntToString(height - 20) + r2);
    assert Placeholder(width, height) + rest == RectOpen + (IntToString(width - 20) + r1) by {
      PlaceholderShape(width, height, rest);
    }
    assert ReadIntAfter(RectOpen, RectOpen + (IntToString(width - 20) + r1)) == Some((width - 20, r1)) by {
      assert r1[0] == '"';
      IntAfterWritten(RectOpen, width - 20, r1);
    }
    assert StripPrefix(RectOpen, RectOpen + (IntToString(width - 20) + r1)).Some? by {
      StripWritten(RectOpen, IntToString(width - 20) + r1);
    }
    assert ReadIntAfter(RectHeightAttr, r1) == Some((height - 20, r2)) by {
      assert r2[0] == '"';
      IntAfterWritten(RectHeightAttr, height - 20, r2);
    }
    assert StripPrefix(RectClose, r2) == Some(r3) by {
      StripWritten(RectClose, r3);
    }
    assert ReadHalfAfter(TextOpen, r3) == Some((width, r4)) by {
      HalfAfterWritten(TextOpen, width, r4);
    }
    assert ReadHalfAfter(TextYAttr, r4) == Some((height, r5)) by {
      HalfAfterWritten(TextYAttr, height, r5);
    }
    assert StripPrefix(TextClose, r5) == Some(rest) by {
      StripWritten(TextClose, rest);
    }
  }

  /** The path element and the placeholder's rectangle differ in their fourth character. */
  lemma PathIsNotRect()
    ensures |PathOpen| > 3 && |RectOpen| > 3 && PathOpen[3] == 'p' && RectOpen[3] == 'r'
  {
  }

  /** The path start never matches where the paths end: at the placeholder or at `</svg>`. */
  lemma NoPathAfterPaths(cs: seq<Contour>, width: int, height: int)
    ensures StripPrefix(PathOpen, (if NoneKept(cs) then Placeholder(width, height) else "") + SvgClose) == None
  {
    if NoneKept(cs) {
      var s := Placeholder(width, height) + SvgClose;
      PathIsNotRect();
      assert s[3] == 'r' by {
        PlaceholderShape(width, height, SvgClose);
        IndexInPrefix(RectOpen, s[|RectOpen|..], 3);
      }
      StripMismatch(PathOpen, s, 3);
    } else {
      EmptyLeft(SvgClose);
    }
  }

  /** The last step of ReadDocument when the paths are followed by the placeholder. */
  lemma ReadDocumentWithFallback(s: string, width: int, height: int, r1: string, paths: seq<Contour>)
    requires ReadHeader(s) == Some((width, height, width, height, r1))
    requires ReadPathElements(r1) == Some((paths, Placeholder(width, height) + SvgClose))
    ensures ReadDocument(s)
         == Some(Drawing(width, height, width, height, paths, Some(Fallback(width - 20, height - 20, width, height))))
  {
    FallbackWritten(width, height, SvgClose);
  }

  /** The last step of ReadDocument when the paths are followed directly by `</svg>`. */
  lemma ReadDocumentWithoutFallback(s: string, width: int, height: int, r1: string, paths: seq<Contour>)
    requires ReadHeader(s) == Some((width, height, width, height, r1))
    requires ReadPathElements(r1) == Some((paths, SvgClose))
    ensures ReadDocument(s) == Some(Drawing(width, height, width, height, paths, None))
  {
    assert StripPrefix(RectOpen, SvgClose) == None;
  }

  /**
   * Reading back `bitmap_to_svg`'s output: the start tag carries the canvas
   * size as width, height and viewBox; there is one path per contour whose
   * area is at least 10, in input order and point for point; and the
   * placeholder, with its rectangle inset by 10 and its label at the centre,
   * is there exactly when no path is.
   */
  lemma ReadWrittenDocument(cs: seq<Contour>, width: int, height: int)
    ensures ReadDocument(SvgDocument(cs, width, height))
         == Some(Drawing(width, height, width, height, KeptContours(cs),
                         if KeptContours(cs) == [] then Some(Fallback(width - 20, height - 20, width, height))
                         else None))
  {
    var placeholder := if NoneKept(cs) then Placeholder(width, height) else "";
    var tail := placeholder + SvgClose;
    var afterHeader := PathElements(cs) + tail;
    assert ReadHeader(SvgDocument(cs, width, height)) == Some((width, height, width, height, afterHeader)) by {
      Assoc4(Header(width, height), PathElements(cs), placeholder, SvgClose);
      HeaderWritten(width, height, afterHeader);
    }
    assert ReadPathElements(afterHeader) == Some((KeptContours(cs), tail)) by {
      NoPathAfterPaths(cs, width, height);
      PathElementsWritten(cs, tail);
    }
    FallbackIffNothingKept(cs);
    if NoneKept(cs) {
      ReadDocumentWithFallback(SvgDocument(cs, width, height), width, height, afterHeader, KeptContours(cs));
    } else {
      assert tail == SvgClose by {
        EmptyLeft(SvgClose);
      }
      ReadDocumentWithoutFallback(SvgDocument(cs, width, height), width, height, afterHeader, KeptContours(cs));
    }
  }

  /**
   * An image with no contour, or only contours below the area cutoff (a blank
   * canvas, say), yields no path and exactly the placeholder, sized from the canvas.
   */
  lemma PlaceholderWhenNothingKept(cs: seq<Contour>, width: int, height: int)
    requires NoneKept(cs)
    ensures ReadDocument(SvgDocument(cs, width, height))
         == Some(Drawing(width, height, width, height, [], Some(Fallback(width - 20, height - 20, width, height))))
  {
    FallbackIffNothingKept(cs);
    ReadWrittenDocument(cs, width, height);
  }
}
