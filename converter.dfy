/**
 * The PNG-to-SVG converter: the inverted fixed threshold that turns the
 * grayscale image into a mask, and the serialiser `bitmap_to_svg` that writes
 * one filled path per sufficiently large contour, or a placeholder when there
 * is none.
 *
 * The serialiser is specified by SvgDocument and its pieces; the methods
 * BitmapToSvg and PathDataOf build the same text the way the source does, by
 * appending to an accumulator in a loop.
 */
module Converter {
  import opened Decimal
  import opened Geometry
  import opened Sequences

  type Byte = x: int | 0 <= x < 256

  /** A grayscale image or a mask, row by row. */
  type Grid = seq<seq<Byte>>

  // ---------------------------------------------------------------------------
  // Binarisation: cv2.threshold(bitmap, 128, 255, THRESH_BINARY_INV)
  // ---------------------------------------------------------------------------

  const ThresholdLevel: Byte := 128
  const MaskValue: Byte := 255

  /** One pixel: light pixels (above the threshold) become 0, all others 255. */
  function ThresholdInv(p: Byte): (r: Byte)
    ensures r == 0 || r == MaskValue
    ensures r == MaskValue <==> p <= ThresholdLevel
  {
    if p > ThresholdLevel then 0 else MaskValue
  }

  /** The whole image, pixel by pixel. */
  function Binarize(g: Grid): (m: Grid)
    ensures |m| == |g|
    ensures forall i :: 0 <= i < |g| ==> |m[i]| == |g[i]|
    ensures forall i, j :: 0 <= i < |g| && 0 <= j < |g[i]| ==>
      (m[i][j] == MaskValue <==> g[i][j] <= ThresholdLevel) &&
      (m[i][j] == 0 <==> g[i][j] > ThresholdLevel)
  {
    seq(|g|, i requires 0 <= i < |g| =>
      seq(|g[i]|, j requires 0 <= j < |g[i]| => ThresholdInv(g[i][j])))
  }

  /** A darker image has at least the foreground of a lighter one of the same shape. */
  lemma DarkerKeepsForeground(light: Grid, dark: Grid, i: nat, j: nat)
    requires |dark| == |light| && i < |light|
    requires |dark[i]| == |light[i]| && j < |light[i]|
    requires dark[i][j] <= light[i][j]
    requires Binarize(light)[i][j] == MaskValue
    ensures Binarize(dark)[i][j] == MaskValue
  {
  }

  // ---------------------------------------------------------------------------
  // The SVG text, as pieces
  // ---------------------------------------------------------------------------

  const XmlDeclaration := "<?xml version=\"1.0\" encoding=\"UTF-8\" standalone=\"no\"?>\n"
  const SvgOpen := "<svg xmlns=\"http://www.w3.org/2000/svg\" width=\""
  const SvgHeightAttr := "\" height=\""
  const SvgViewBoxAttr := "\" viewBox=\"0 0 "
  const SvgTagEnd := "\">\n"
  const SvgClose := "</svg>"

  const PathOpen := "  <path d=\""
  const PathClose := "\" fill=\"black\" stroke=\"none\" />\n"

  const RectOpen := "  <rect x=\"10\" y=\"10\" width=\""
  const RectHeightAttr := "\" height=\""
  const RectClose := "\"" + " fill=\"none\" stroke=\"black\" stroke-width=\"2\" />\n"
  const TextOpen := "  <text x=\""
  const TextYAttr := "\" y=\""
  const TextClose := "\" text-anchor=\"middle\" font-size=\"20\">未检测到有效轮廓</text>\n"

  /** The `<svg>` start tag: width, height and a viewBox from the origin to the image size. */
  function SvgStartTag(width: int, height: int): string {
    SvgOpen + IntToString(width) + SvgHeightAttr + IntToString(height)
      + SvgViewBoxAttr + IntToString(width) + " " + IntToString(height) + SvgTagEnd
  }

  function Header(width: int, height: int): string {
    XmlDeclaration + SvgStartTag(width, height)
  }

  /** `Mx,y ` opens the path at a point. */
  function MoveTo(p: Point): string {
    "M" + IntToString(p.x) + "," + IntToString(p.y) + " "
  }

  /** `Lx,y ` draws a straight line to a point. */
  function LineTo(p: Point): string {
    "L" + IntToString(p.x) + "," + IntToString(p.y) + " "
  }

  /** One line command per point. */
  function LineTos(ps: seq<Point>): string {
    if ps == [] then "" else LineTo(ps[0]) + LineTos(ps[1..])
  }

  /** A move to the first point, a line to every later point, then `Z`. */
  function PathData(c: Contour): (d: string)
    ensures |d| >= 1 && d[|d| - 1] == 'Z'
    ensures d[0] == 'M' <==> c != []
  {
    if c == [] then "Z" else MoveTo(c[0]) + LineTos(c[1..]) + "Z"
  }

  function PathElement(c: Contour): string {
    PathOpen + PathData(c) + PathClose
  }

  /** The path elements of the contours that pass the area filter, in input order. */
  function PathElements(cs: seq<Contour>): string {
    if cs == [] then ""
    else (if IsKept(cs[0]) then PathElement(cs[0]) else "") + PathElements(cs[1..])
  }

  /** The source's fallback test: no contour at all, or every one below the area limit. */
  predicate NoneKept(cs: seq<Contour>) {
    |cs| == 0 || forall c <- cs :: !IsKept(c)
  }

  /** The rectangle inset by 10 on every side. */
  function RectElement(width: int, height: int): string {
    RectOpen + IntToString(width - 20) + RectHeightAttr + IntToString(height - 20) + RectClose
  }

  /** The label at the centre of the canvas. */
  function TextElement(width: int, height: int): string {
    TextOpen + HalfToString(width) + TextYAttr + HalfToString(height) + TextClose
  }

  /** The inset rectangle and the centred label written when nothing is drawn. */
  function Placeholder(width: int, height: int): string {
    RectElement(width, height) + TextElement(width, height)
  }

  /** The whole document that `bitmap_to_svg` returns for the given contours. */
  function SvgDocument(cs: seq<Contour>, width: int, height: int): string {
    Header(width, height) + PathElements(cs)
      + (if NoneKept(cs) then Placeholder(width, height) else "") + SvgClose
  }

  /** The contours that pass the area filter, in input order. */
  function KeptContours(cs: seq<Contour>): (r: seq<Contour>)
    ensures |r| <= |cs|
    ensures forall c <- r :: c in cs && IsKept(c)
    ensures forall c <- cs :: IsKept(c) ==> c in r
    ensures forall c :: multiset(r)[c] == if IsKept(c) then multiset(cs)[c] else 0
  {
    if cs == [] then []
    else
      var head := if IsKept(cs[0]) then [cs[0]] else [];
      assert cs == [cs[0]] + cs[1..];
      head + KeptContours(cs[1..])
  }

  /**
   * The filter works contour by contour: the kept contours of a concatenation
   * are those of the first part followed by those of the second, so the paths
   * keep the tracer's order.
   */
  lemma {:induction false} KeptContoursAppend(a: seq<Contour>, b: seq<Contour>)
    ensures KeptContours(a + b) == KeptContours(a) + KeptContours(b)
    decreases |a|
  {
    if a == [] {
      assert a + b == b;
      EmptyLeft(KeptContours(b));
    } else {
      assert (a + b)[1..] == a[1..] + b;
      KeptContoursAppend(a[1..], b);
      Assoc(if IsKept(a[0]) then [a[0]] else [], KeptContours(a[1..]), KeptContours(b));
    }
  }

  // ---------------------------------------------------------------------------
  // Properties of the document
  // ---------------------------------------------------------------------------

  /**
   * The loop's filter and the fallback test evaluate the area separately; they
   * agree: the placeholder is written exactly when no path is.
   */
  lemma {:induction false} FallbackIffNothingKept(cs: seq<Contour>)
    ensures NoneKept(cs) <==> KeptContours(cs) == []
    ensures NoneKept(cs) <==> PathElements(cs) == []
    decreases |cs|
  {
    if cs != [] {
      FallbackIffNothingKept(cs[1..]);
      if IsKept(cs[0]) {
        assert |PathElement(cs[0])| > 0;
      } else {
        assert forall c <- cs :: c == cs[0] || c in cs[1..];
      }
    }
  }

  /** The document opens with the XML declaration and the start tag, and ends with `</svg>`. */
  lemma DocumentFrame(cs: seq<Contour>, width: int, height: int)
    ensures var doc := SvgDocument(cs, width, height);
      |doc| >= |Header(width, height)| + |SvgClose|
      && doc[..|XmlDeclaration|] == XmlDeclaration
      && doc[|XmlDeclaration|..|Header(width, height)|] == SvgStartTag(width, height)
      && doc[|doc| - |SvgClose|..] == SvgClose
  {
    var header := Header(width, height);
    var body := PathElements(cs) + (if NoneKept(cs) then Placeholder(width, height) else "");
    var doc := SvgDocument(cs, width, height);
    Assoc(header, PathElements(cs), if NoneKept(cs) then Placeholder(width, height) else "");
    Assoc(header, body, SvgClose);
    assert doc == header + (body + SvgClose);
    assert doc[..|header|] == header;
    assert header[..|XmlDeclaration|] == XmlDeclaration;
    assert header[|XmlDeclaration|..] == SvgStartTag(width, height);
    assert doc == (header + body) + SvgClose;
  }

  lemma {:induction false} LineTosSnoc(ps: seq<Point>, p: Point)
    ensures LineTos(ps + [p]) == LineTos(ps) + LineTo(p)
    decreases |ps|
  {
    if ps != [] {
      assert (ps + [p])[1..] == ps[1..] + [p];
      LineTosSnoc(ps[1..], p);
      Assoc(LineTo(ps[0]), LineTos(ps[1..]), LineTo(p));
    }
  }

  lemma {:induction false} PathElementsSnoc(cs: seq<Contour>, c: Contour)
    ensures PathElements(cs + [c]) == PathElements(cs) + (if IsKept(c) then PathElement(c) else "")
    decreases |cs|
  {
    if cs != [] {
      assert (cs + [c])[1..] == cs[1..] + [c];
      PathElementsSnoc(cs[1..], c);
      Assoc(if IsKept(cs[0]) then PathElement(cs[0]) else "", PathElements(cs[1..]),
            if IsKept(c) then PathElement(c) else "");
    }
  }

  // ---------------------------------------------------------------------------
  // The converter as the source runs it
  // ---------------------------------------------------------------------------

  /** The inner loop of `bitmap_to_svg`: the path data of one contour. */
  method PathDataOf(contour: Contour) returns (pathData: string)
    ensures pathData == PathData(contour)
  {
    pathData := "";
    for j := 0 to |contour|
      invariant j == 0 ==> pathData == ""
      invariant j > 0 ==> pathData == MoveTo(contour[0]) + LineTos(contour[1..j])
    {
      var point := contour[j];
      if j == 0 {
        var move := "M" + IntToString(point.x) + "," + IntToString(point.y) + " ";
        assert pathData + move == MoveTo(contour[0]) + LineTos(contour[1..1]) by {
          assert contour[1..1] == [];
          EmptyLeft(move);
          EmptyRight(move);
        }
        pathData := pathData + move;
      } else {
        var line := "L" + IntToString(point.x) + "," + IntToString(point.y) + " ";
        assert pathData + line == MoveTo(contour[0]) + LineTos(contour[1..j + 1]) by {
          LineTosSnoc(contour[1..j], point);
          SliceSnoc(contour, 1, j);
          Assoc(MoveTo(contour[0]), LineTos(contour[1..j]), line);
        }
        pathData := pathData + line;
      }
    }
    assert pathData + "Z" == PathData(contour) by {
      if contour != [] {
        assert contour[1..|contour|] == contour[1..];
      }
    }
    pathData := pathData + "Z";
  }

  /** `bitmap_to_svg` on the contours the tracer found. */
  method BitmapToSvg(contours: seq<Contour>, width: int, height: int) returns (svg: string)
    ensures svg == SvgDocument(contours, width, height)
  {
    svg := XmlDeclaration + (SvgOpen + IntToString(width) + SvgHeightAttr + IntToString(height)
      + SvgViewBoxAttr + IntToString(width) + " " + IntToString(height) + SvgTagEnd);
    assert svg == Header(width, height) + PathElements(contours[..0]) by {
      EmptyRight(svg);
    }
    for i := 0 to |contours|
      invariant svg == Header(width, height) + PathElements(contours[..i])
    {
      assert PathElements(contours[..i + 1])
          == PathElements(contours[..i]) + (if IsKept(contours[i]) then PathElement(contours[i]) else "") by {
        PathElementsSnoc(contours[..i], contours[i]);
        SliceSnoc(contours, 0, i);
      }
      if !IsKept(contours[i]) {
        EmptyRight(PathElements(contours[..i]));
        continue;
      }
      var pathData := PathDataOf(contours[i]);
      var element := PathOpen + pathData + PathClose;
      assert svg + element == Header(width, height) + PathElements(contours[..i + 1]) by {
        Assoc(Header(width, height), PathElements(contours[..i]), element);
      }
      svg := svg + element;
    }
    assert contours[..|contours|] == contours;
    ghost var drawn := svg;
    if |contours| == 0 || forall c <- contours :: !IsKept(c) {
      var rect := RectOpen + IntToString(width - 20) + RectHeightAttr + IntToString(height - 20) + RectClose;
      svg := svg + rect;
      var text := TextOpen + HalfToString(width) + TextYAttr + HalfToString(height) + TextClose;
      svg := svg + text;
      assert svg == drawn + Placeholder(width, height) by {
        Assoc(drawn, rect, text);
      }
    } else {
      EmptyRight(svg);
    }
    assert svg + SvgClose == SvgDocument(contours, width, height) by {
      Assoc(Header(width, height), PathElements(contours),
            if NoneKept(contours) then Placeholder(width, height) else "");
    }
    svg := svg + SvgClose;
  }

  /** The two morphology passes `png_to_svg` asks OpenCV for, with a 3x3 kernel. */
  datatype MorphOp = Close | Open

  /**
   * `png_to_svg` after decoding: threshold, close, open, trace, serialise. The
   * library stages it calls are parameters: `morphology` for
   * `cv2.morphologyEx` and `findContours` for `cv2.findContours`.
   */
  method PngToSvg(gray: Grid, width: int, height: int,
                  morphology: (Grid, MorphOp) -> Grid, findContours: Grid -> seq<Contour>)
    returns (svg: string)
    requires |gray| == height && forall row <- gray :: |row| == width
    ensures svg == SvgDocument(findContours(morphology(morphology(Binarize(gray), Close), Open)), width, height)
  {
    var bitmap := gray;
    bitmap := Binarize(bitmap);
    bitmap := morphology(bitmap, Close);
    bitmap := morphology(bitmap, Open);
    svg := BitmapToSvg(findContours(bitmap), width, height);
  }
}
