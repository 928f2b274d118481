/**
 * The SVG fragment builders: the `svg` root, the `border` rectangle and
 * `rect`, which wraps the border in an opacity group and appends a debug
 * outline. Each is built on BuildXml, so each reads back through ReadXml.
 */
module Builders {
  import opened Wrappers
  import opened Xml
  import Elements

  const SVG_NAMESPACE: string := "http://www.w3.org/2000/svg"

  /** The names of a list of attributes, in order. */
  function Keys(attrs: seq<Attr>): (r: seq<string>)
    ensures |r| == |attrs| && forall k :: 0 <= k < |attrs| ==> r[k] == attrs[k].key
  {
    if |attrs| == 0 then [] else [attrs[0].key] + Keys(attrs[1..])
  }

  /** A value that needs no escaping. */
  predicate NoQuote(s: string) {
    forall k :: 0 <= k < |s| ==> s[k] != '"'
  }

  // ---------------------------------------------------------------------------
  // svg
  // ---------------------------------------------------------------------------

  function SvgAttrs(width: int, height: int): seq<Attr> {
    [Attr("xmlns", SVG_NAMESPACE),
     Attr("width", IntToString(width)),
     Attr("height", IntToString(height)),
     Attr("viewBox", "0 0 " + IntToString(width) + " " + IntToString(height))]
  }

  /** svg: the content inside an `svg` element sized `width` by `height`. */
  function Svg(width: int, height: int, content: string): (r: string)
    ensures ReadXml(r) == Some(Element("svg", SvgAttrs(width, height), Some(content)))
  {
    SvgPlain(width, height);
    BuildXmlRoundTrip("svg", SvgAttrs(width, height), Some(content));
    BuildXml("svg", SvgAttrs(width, height), Some(content))
  }

  lemma SvgPlain(width: int, height: int)
    ensures AllPlain(SvgAttrs(width, height))
  {
    var w, h := IntToString(width), IntToString(height);
    IntNoQuote(width);
    IntNoQuote(height);
    JoinNoQuote("0 0 ", w);
    JoinNoQuote("0 0 " + w, " ");
    JoinNoQuote("0 0 " + w + " ", h);
    PlainOf("xmlns", SVG_NAMESPACE);
    PlainOf("width", w);
    PlainOf("height", h);
    PlainOf("viewBox", "0 0 " + w + " " + h);
    FourPlain(Attr("xmlns", SVG_NAMESPACE), Attr("width", w), Attr("height", h), Attr("viewBox", "0 0 " + w + " " + h));
  }

  /** A rendered Int holds no double quote. */
  lemma IntNoQuote(n: int)
    ensures NoQuote(IntToString(n))
  {
  }

  lemma JoinNoQuote(a: string, b: string)
    requires NoQuote(a) && NoQuote(b)
    ensures NoQuote(a + b)
  {
  }

  lemma PlainOf(key: string, value: string)
    requires Name(key) && NoQuote(value)
    ensures Plain(Attr(key, value))
  {
  }

  lemma AppendPlain(a: seq<Attr>, b: seq<Attr>)
    requires AllPlain(a) && AllPlain(b)
    ensures AllPlain(a + b)
  {
  }

  lemma FourPlain(a0: Attr, a1: Attr, a2: Attr, a3: Attr)
    requires Plain(a0) && Plain(a1) && Plain(a2) && Plain(a3)
    ensures AllPlain([a0, a1, a2, a3])
  {
  }

  /**
   * What an svg element reads back as: the namespace, then the width and
   * height as integers, then a viewBox from the origin repeating the same
   * two numbers, and the content as the only child text.
   */
  lemma SvgReadsBack(width: int, height: int, content: string)
    ensures var e := ReadXml(Svg(width, height, content)).value;
            && e.tag == "svg"
            && Keys(e.attrs) == ["xmlns", "width", "height", "viewBox"]
            && e.attrs[0].value == SVG_NAMESPACE
            && ParseInt(e.attrs[1].value) == Some(width)
            && ParseInt(e.attrs[2].value) == Some(height)
            && e.attrs[3].value == "0 0 " + e.attrs[1].value + " " + e.attrs[2].value
            && e.children == Some(content)
  {
    var a := SvgAttrs(width, height);
    assert ReadXml(Svg(width, height, content)) == Some(Element("svg", a, Some(content)));
    IntToStringRoundTrip(width);
    IntToStringRoundTrip(height);
    assert Keys(a) == ["xmlns", "width", "height", "viewBox"];
  }

  // ---------------------------------------------------------------------------
  // border
  // ---------------------------------------------------------------------------

  /** The box attributes shared by the border and the debug outline. */
  function BoxAttrs(left: int, top: int, width: int, height: int): seq<Attr> {
    [Attr("x", IntToString(left)), Attr("y", IntToString(top)),
     Attr("width", IntToString(width)), Attr("height", IntToString(height))]
  }

  function BorderAttrs(node: Elements.Element, left: int, top: int, width: int, height: int): seq<Attr> {
    BoxAttrs(left, top, width, height)
      + [Attr("stroke", node.borderColor), Attr("stroke-width", IntToString(node.borderWidth))]
  }

  lemma BoxPlain(left: int, top: int, width: int, height: int)
    ensures AllPlain(BoxAttrs(left, top, width, height))
  {
    IntNoQuote(left);
    IntNoQuote(top);
    IntNoQuote(width);
    IntNoQuote(height);
    PlainOf("x", IntToString(left));
    PlainOf("y", IntToString(top));
    PlainOf("width", IntToString(width));
    PlainOf("height", IntToString(height));
    FourPlain(Attr("x", IntToString(left)), Attr("y", IntToString(top)),
              Attr("width", IntToString(width)), Attr("height", IntToString(height)));
  }

  /**
   * border: one self-closing `rect` element stroked with the node's border
   * colour and width. A colour holding a double quote breaks the element,
   * since nothing is escaped.
   */
  function Border(node: Elements.Element, left: int, top: int, width: int, height: int): (r: string)
    ensures NoQuote(node.borderColor) ==>
              ReadXml(r) == Some(Element("rect", BorderAttrs(node, left, top, width, height), None))
  {
    var attrs := BorderAttrs(node, left, top, width, height);
    if NoQuote(node.borderColor) then
      BorderPlain(node, left, top, width, height);
      BuildXmlRoundTrip("rect", attrs, None);
      BuildXml("rect", attrs, None)
    else BuildXml("rect", attrs, None)
  }

  lemma BorderPlain(node: Elements.Element, left: int, top: int, width: int, height: int)
    requires NoQuote(node.borderColor)
    ensures AllPlain(BorderAttrs(node, left, top, width, height))
  {
    BoxPlain(left, top, width, height);
    IntNoQuote(node.borderWidth);
    PlainOf("stroke", node.borderColor);
    PlainOf("stroke-width", IntToString(node.borderWidth));
    AppendPlain(BoxAttrs(left, top, width, height),
                [Attr("stroke", node.borderColor), Attr("stroke-width", IntToString(node.borderWidth))]);
  }

  /**
   * A border reads back as the box in decimal, then the stroke colour and
   * width, and nothing else: in particular no fill.
   */
  lemma BorderReadsBack(node: Elements.Element, left: int, top: int, width: int, height: int)
    requires NoQuote(node.borderColor)
    ensures var e := ReadXml(Border(node, left, top, width, height)).value;
            && e.tag == "rect" && e.children == None
            && Keys(e.attrs) == ["x", "y", "width", "height", "stroke", "stroke-width"]
            && "fill" !in Keys(e.attrs)
            && ParseInt(e.attrs[0].value) == Some(left) && ParseInt(e.attrs[1].value) == Some(top)
            && ParseInt(e.attrs[2].value) == Some(width) && ParseInt(e.attrs[3].value) == Some(height)
            && e.attrs[4].value == node.borderColor
            && ParseInt(e.attrs[5].value) == Some(node.borderWidth)
  {
    assert ReadXml(Border(node, left, top, width, height)).value
           == Element("rect", BorderAttrs(node, left, top, width, height), None);
    BorderAttrsRead(node, left, top, width, height);
  }

  lemma BorderAttrsRead(node: Elements.Element, left: int, top: int, width: int, height: int)
    ensures var b := BorderAttrs(node, left, top, width, height);
            && Keys(b) == ["x", "y", "width", "height", "stroke", "stroke-width"]
            && "fill" !in Keys(b)
            && ParseInt(b[0].value) == Some(left) && ParseInt(b[1].value) == Some(top)
            && ParseInt(b[2].value) == Some(width) && ParseInt(b[3].value) == Some(height)
            && b[4].value == node.borderColor
            && ParseInt(b[5].value) == Some(node.borderWidth)
  {
    var box := BoxAttrs(left, top, width, height);
    var stroke := [Attr("stroke", node.borderColor), Attr("stroke-width", IntToString(node.borderWidth))];
    var attrs := box + stroke;
    BoxReadsBack(left, top, width, height);
    KeysAppend(box, stroke);
    assert Keys(stroke) == ["stroke", "stroke-width"];
    var keys := Keys(attrs);
    assert keys == ["x", "y", "width", "height", "stroke", "stroke-width"];
    assert "fill" !in keys;
    assert attrs[0] == box[0] && attrs[1] == box[1] && attrs[2] == box[2] && attrs[3] == box[3];
    assert attrs[4] == stroke[0] && attrs[5] == stroke[1];
    IntToStringRoundTrip(node.borderWidth);
  }

  lemma BoxReadsBack(left: int, top: int, width: int, height: int)
    ensures var b := BoxAttrs(left, top, width, height);
            && Keys(b) == ["x", "y", "width", "height"]
            && ParseInt(b[0].value) == Some(left) && ParseInt(b[1].value) == Some(top)
            && ParseInt(b[2].value) == Some(width) && ParseInt(b[3].value) == Some(height)
  {
    IntToStringRoundTrip(left);
    IntToStringRoundTrip(top);
    IntToStringRoundTrip(width);
    IntToStringRoundTrip(height);
  }

  lemma KeysAppend(a: seq<Attr>, b: seq<Attr>)
    ensures Keys(a + b) == Keys(a) + Keys(b)
  {
  }

  // ---------------------------------------------------------------------------
  // rect
  // ---------------------------------------------------------------------------

  /** The debug outline: the same box, transparent fill, a one-unit #ff5757 stroke. */
  function DebugAttrs(left: int, top: int, width: int, height: int): seq<Attr> {
    BoxAttrs(left, top, width, height)
      + [Attr("fill", "transparent"), Attr("stroke", "#ff5757"), Attr("stroke-width", "1")]
  }

  lemma DebugPlain(left: int, top: int, width: int, height: int)
    ensures AllPlain(DebugAttrs(left, top, width, height))
  {
    BoxPlain(left, top, width, height);
    PlainOf("fill", "transparent");
    PlainOf("stroke", "#ff5757");
    PlainOf("stroke-width", "1");
    AppendPlain(BoxAttrs(left, top, width, height),
                [Attr("fill", "transparent"), Attr("stroke", "#ff5757"), Attr("stroke-width", "1")]);
  }

  /** The part `rect` appends after the shape: the debug outline when `debug` is set, nothing otherwise. */
  function Overlay(debug: bool, left: int, top: int, width: int, height: int): (r: string)
    ensures !debug <==> r == ""
    ensures debug ==> ReadXml(r) == Some(Element("rect", DebugAttrs(left, top, width, height), None))
  {
    if debug then
      var attrs := DebugAttrs(left, top, width, height);
      DebugPlain(left, top, width, height);
      BuildXmlRoundTrip("rect", attrs, None);
      BuildXml("rect", attrs, None)
    else ""
  }

  /**
   * The shape part of `rect`: the border, wrapped in a `g` carrying the
   * opacity when the element is not fully opaque. The float formatting of
   * the opacity is a parameter.
   */
  function Shape(node: Elements.Element, left: int, top: int, width: int, height: int, format: real -> string): (r: string)
    ensures node.opacity >= 1.0 ==> r == Border(node, left, top, width, height)
    ensures (node.opacity < 1.0 && NoQuote(format(node.opacity))) ==>
              ReadXml(r) == Some(Element("g", [Attr("opacity", format(node.opacity))],
                                         Some(Border(node, left, top, width, height))))
  {
    var shape := Border(node, left, top, width, height);
    if node.opacity < 1.0 then
      var opacity := format(node.opacity);
      if NoQuote(opacity) then
        GroupReadsBack(opacity, shape);
        BuildXml("g", [Attr("opacity", opacity)], Some(shape))
      else BuildXml("g", [Attr("opacity", opacity)], Some(shape))
    else shape
  }

  /** An opacity group reads back as its one attribute around the content. */
  lemma GroupReadsBack(opacity: string, content: string)
    requires NoQuote(opacity)
    ensures ReadXml(BuildXml("g", [Attr("opacity", opacity)], Some(content)))
              == Some(Element("g", [Attr("opacity", opacity)], Some(content)))
  {
    assert Name("opacity") && AllPlain([Attr("opacity", opacity)]);
    BuildXmlRoundTrip("g", [Attr("opacity", opacity)], Some(content));
  }

  /**
   * rect: the shape followed by the debug overlay. The `id` parameter takes
   * no part in the output.
   */
  function Rect(node: Elements.Element, id: string, left: int, top: int, width: int, height: int,
                debug: bool, format: real -> string): (r: string)
    ensures r == Shape(node, left, top, width, height, format) + Overlay(debug, left, top, width, height)
    ensures !debug ==> r == Shape(node, left, top, width, height, format)
  {
    var extra := Overlay(debug, left, top, width, height);
    Shape(node, left, top, width, height, format) + extra
  }

  /** The output of rect does not depend on the id. */
  lemma RectIgnoresId(node: Elements.Element, id1: string, id2: string, left: int, top: int, width: int, height: int,
                      debug: bool, format: real -> string)
    ensures Rect(node, id1, left, top, width, height, debug, format) == Rect(node, id2, left, top, width, height, debug, format)
  {
  }

  /** The shape is wrapped in an opacity group exactly when the opacity is below 1. */
  lemma WrappedIffTranslucent(node: Elements.Element, left: int, top: int, width: int, height: int, format: real -> string)
    requires NoQuote(node.borderColor) && NoQuote(format(node.opacity))
    ensures ReadXml(Shape(node, left, top, width, height, format)).Some?
    ensures ReadXml(Shape(node, left, top, width, height, format)).value.tag == "g" <==> node.opacity < 1.0
  {
  }

  /** The debug outline draws the same box as the border. */
  lemma OverlayMatchesBorder(node: Elements.Element, left: int, top: int, width: int, height: int)
    ensures DebugAttrs(left, top, width, height)[..4] == BorderAttrs(node, left, top, width, height)[..4]
    ensures Keys(DebugAttrs(left, top, width, height)) == ["x", "y", "width", "height", "fill", "stroke", "stroke-width"]
  {
  }
}
