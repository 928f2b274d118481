/**
 * buildXMLString and the decimal rendering of Kotlin `Int.toString()` that
 * the builders feed it. The attribute map is a `mapOf`, whose iteration
 * order is insertion order, so it is a sequence of key/value pairs here.
 *
 * Each renderer is paired with a reader: ReadXml recovers the tag, the
 * attributes and the children from what BuildXml wrote, as long as no name
 * contains a delimiter and no value a double quote, because nothing is
 * escaped; ParseInt recovers an integer from its decimal form.
 */
module Xml {
  import opened Wrappers

  datatype Attr = Attr(key: string, value: string)

  /** `key="value"`, verbatim. */
  function RenderAttr(a: Attr): string {
    a.key + "=\"" + a.value + "\""
  }

  /** `joinToString(" ")` over the rendered entries. */
  function JoinAttrs(attrs: seq<Attr>): string {
    if |attrs| == 0 then ""
    else if |attrs| == 1 then RenderAttr(attrs[0])
    else RenderAttr(attrs[0]) + " " + JoinAttrs(attrs[1..])
  }

  /**
   * buildXMLString: `<type attrs>children</type>` when there are children,
   * `<type attrs />` when there are none. The space after the tag name is
   * written even when there are no attributes.
   */
  function BuildXml(tag: string, attrs: seq<Attr>, children: Option<string>): (r: string)
    ensures |r| > |tag| + 2 && r[0] == '<' && r[1..|tag| + 1] == tag && r[|tag| + 1] == ' '
  {
    if children.Some? then "<" + tag + " " + JoinAttrs(attrs) + ">" + children.value + "</" + tag + ">"
    else "<" + tag + " " + JoinAttrs(attrs) + " />"
  }

  // ---------------------------------------------------------------------------
  // Reading an element back
  // ---------------------------------------------------------------------------

  /** What BuildXml was given. */
  datatype Element = Element(tag: string, attrs: seq<Attr>, children: Option<string>)

  /** A text and the input left over after it was read. */
  datatype Parsed<T> = Parsed(value: T, rest: string)

  /** A character that can appear in a tag or attribute name without being read as a delimiter. */
  predicate NameChar(c: char) {
    c != ' ' && c != '=' && c != '"' && c != '<' && c != '>' && c != '/'
  }

  predicate Name(s: string) {
    |s| > 0 && forall k :: 0 <= k < |s| ==> NameChar(s[k])
  }

  /** An attribute that needs no escaping: a proper name and a value without a double quote. */
  predicate Plain(a: Attr) {
    Name(a.key) && forall k :: 0 <= k < |a.value| ==> a.value[k] != '"'
  }

  predicate AllPlain(attrs: seq<Attr>) {
    forall k :: 0 <= k < |attrs| ==> Plain(attrs[k])
  }

  /** The length of the longest prefix of `s` without `c`. */
  function Upto(s: string, c: char): (n: nat)
    ensures n <= |s|
    ensures forall k :: 0 <= k < n ==> s[k] != c
    ensures n < |s| ==> s[n] == c
  {
    if |s| == 0 || s[0] == c then 0 else 1 + Upto(s[1..], c)
  }

  /** Reads `key="value"` from the front of `s`. */
  function ReadAttr(s: string): (r: Option<Parsed<Attr>>)
    ensures r.Some? ==> |r.value.rest| < |s|
  {
    var k := Upto(s, '=');
    if k == 0 || k + 1 >= |s| || s[k + 1] != '"' then None
    else
      var tail := s[k + 2..];
      var v := Upto(tail, '"');
      if v == |tail| then None
      else Some(Parsed(Attr(s[..k], tail[..v]), tail[v + 1..]))
  }

  /** Reads a space-separated, non-empty run of attributes; a space followed by `/` ends it. */
  function ReadAttrs(s: string): (r: Option<Parsed<seq<Attr>>>)
    decreases |s|
  {
    match ReadAttr(s)
    case None => None
    case Some(p) =>
      if |p.rest| >= 2 && p.rest[0] == ' ' && p.rest[1] != '/' then
        match ReadAttrs(p.rest[1..])
        case None => None
        case Some(more) => Some(Parsed([p.value] + more.value, more.rest))
      else Some(Parsed([p.value], p.rest))
  }

  /** The end of an element: ` />`, or `>` then the children then the closing tag. */
  function ReadEnd(tag: string, s: string): Option<Option<string>> {
    if s == " />" then Some(None)
    else if |s| >= |tag| + 4 && s[0] == '>' && s[|s| - |tag| - 3..] == "</" + tag + ">" then
      Some(Some(s[1..|s| - |tag| - 3]))
    else None
  }

  /** Reads an element as BuildXml writes it. */
  function ReadXml(s: string): Option<Element> {
    if |s| < 2 || s[0] != '<' then None
    else
      var t := Upto(s[1..], ' ');
      if t == 0 || t + 1 >= |s| then None
      else ReadBody(s[1..t + 1], s[t + 2..])
  }

  /** What follows `<tag `: the attributes, if any, then the end. */
  function ReadBody(tag: string, body: string): Option<Element> {
    var attrs := if |body| > 0 && (body[0] == '>' || body[0] == ' ') then Some(Parsed([], body)) else ReadAttrs(body);
    match attrs
    case None => None
    case Some(p) =>
      match ReadEnd(tag, p.rest)
      case None => None
      case Some(children) => Some(Element(tag, p.value, children))
  }

  // ---------------------------------------------------------------------------
  // The round trip
  // ---------------------------------------------------------------------------

  lemma {:induction false} UptoStops(a: string, c: char, b: string)
    requires forall k :: 0 <= k < |a| ==> a[k] != c
    ensures Upto(a + [c] + b, c) == |a|
  {
    var s := a + [c] + b;
    if |a| > 0 {
      assert s[1..] == a[1..] + [c] + b;
      UptoStops(a[1..], c, b);
    }
  }

  lemma ReadRenderedAttr(a: Attr, rest: string)
    requires Plain(a)
    ensures ReadAttr(RenderAttr(a) + rest) == Some(Parsed(a, rest))
  {
    var tail := a.value + ['"'] + rest;
    var after := ['"'] + tail;
    assert RenderAttr(a) + rest == a.key + ['='] + after;
    Parts(a.key, '=', after);
    UptoStops(a.key, '=', after);
    Parts(a.value, '"', rest);
    UptoStops(a.value, '"', rest);
    assert (a.key + ['='] + after)[|a.key| + 2..] == tail by {
      assert after[1..] == tail;
    }
  }

  /** The three parts of `a + [c] + b`. */
  lemma Parts(a: string, c: char, b: string)
    ensures (a + [c] + b)[..|a|] == a && (a + [c] + b)[|a|] == c && (a + [c] + b)[|a| + 1..] == b
  {
  }

  /** The first character a joined, non-empty attribute list starts with is a name character. */
  lemma JoinStartsWithName(attrs: seq<Attr>)
    requires |attrs| > 0 && AllPlain(attrs)
    ensures |JoinAttrs(attrs)| > 0 && JoinAttrs(attrs)[0] == attrs[0].key[0]
  {
    assert Plain(attrs[0]);
    var head := RenderAttr(attrs[0]);
    assert head[0] == attrs[0].key[0];
  }

  /** An end that ReadAttrs does not mistake for a further attribute. */
  predicate Closing(tail: string) {
    tail == " />" || (|tail| > 0 && tail[0] == '>')
  }

  lemma {:induction false} ReadJoinedAttrs(attrs: seq<Attr>, tail: string)
    requires |attrs| > 0 && AllPlain(attrs) && Closing(tail)
    ensures ReadAttrs(JoinAttrs(attrs) + tail) == Some(Parsed(attrs, tail))
  {
    if |attrs| == 1 {
      assert Plain(attrs[0]);
      assert JoinAttrs(attrs) + tail == RenderAttr(attrs[0]) + tail;
      ReadLastAttr(attrs[0], tail);
      assert attrs == [attrs[0]];
    } else {
      var more := attrs[1..];
      assert AllPlain(more) by {
        forall k | 0 <= k < |more| ensures Plain(more[k]) { assert more[k] == attrs[k + 1]; }
      }
      ReadJoinedAttrs(more, tail);
      ReadConsAttrs(attrs, tail);
    }
  }

  lemma Regroup(w: string, x: string, y: string, z: string)
    ensures w + x + y + z == w + (x + (y + z))
  {
  }

  /** The step of ReadJoinedAttrs: reading the first attribute and then the rest. */
  lemma ReadConsAttrs(attrs: seq<Attr>, tail: string)
    requires |attrs| > 1 && AllPlain(attrs)
    requires ReadAttrs(JoinAttrs(attrs[1..]) + tail) == Some(Parsed(attrs[1..], tail))
    ensures ReadAttrs(JoinAttrs(attrs) + tail) == Some(Parsed(attrs, tail))
  {
    var a, more := attrs[0], attrs[1..];
    RestPlain(attrs);
    var j := JoinAttrs(more);
    JoinThenTail(more, tail);
    JoinCons(attrs, tail);
    ReadNextAttr(a, j + tail, Parsed(more, tail));
    ConsBack(attrs);
  }

  /** A joined, non-empty plain list followed by anything starts with a name character. */
  lemma JoinThenTail(attrs: seq<Attr>, tail: string)
    requires |attrs| > 0 && AllPlain(attrs)
    ensures |JoinAttrs(attrs) + tail| > 0 && NameChar((JoinAttrs(attrs) + tail)[0])
  {
    JoinStartsWithName(attrs);
    assert Plain(attrs[0]);
  }

  lemma ConsBack(attrs: seq<Attr>)
    requires |attrs| > 0
    ensures [attrs[0]] + attrs[1..] == attrs
  {
  }

  /** The attributes after the first of a plain list are plain, and so is the first. */
  lemma RestPlain(attrs: seq<Attr>)
    requires |attrs| > 0 && AllPlain(attrs)
    ensures Plain(attrs[0]) && AllPlain(attrs[1..])
  {
    var more := attrs[1..];
    forall k | 0 <= k < |more| ensures Plain(more[k]) { assert more[k] == attrs[k + 1]; }
  }

  /** A joined list of two or more, then a tail: the first entry, a space, the rest joined, the tail. */
  lemma JoinCons(attrs: seq<Attr>, tail: string)
    requires |attrs| > 1
    ensures JoinAttrs(attrs) + tail == RenderAttr(attrs[0]) + (" " + (JoinAttrs(attrs[1..]) + tail))
  {
    Regroup(RenderAttr(attrs[0]), " ", JoinAttrs(attrs[1..]), tail);
  }

  /** One attribute followed by the end of the element. */
  lemma ReadLastAttr(a: Attr, tail: string)
    requires Plain(a) && Closing(tail)
    ensures ReadAttrs(RenderAttr(a) + tail) == Some(Parsed([a], tail))
  {
    ReadRenderedAttr(a, tail);
    assert !(|tail| >= 2 && tail[0] == ' ' && tail[1] != '/');
  }

  /** One attribute followed by a space and further attributes that read as `more`. */
  lemma ReadNextAttr(a: Attr, s: string, more: Parsed<seq<Attr>>)
    requires Plain(a) && |s| > 0 && NameChar(s[0])
    requires ReadAttrs(s) == Some(more)
    ensures ReadAttrs(RenderAttr(a) + (" " + s)) == Some(Parsed([a] + more.value, more.rest))
  {
    var rest := " " + s;
    ReadRenderedAttr(a, rest);
    assert rest[1..] == s;
  }

  /** Whatever the children, the closing part reads back. */
  lemma ReadEndOf(tag: string, children: Option<string>)
    requires Name(tag)
    ensures children.Some? ==> ReadEnd(tag, ">" + children.value + "</" + tag + ">") == Some(children)
    ensures children.None? ==> ReadEnd(tag, " />") == Some(children)
  {
    if children.Some? {
      var s := ">" + children.value + "</" + tag + ">";
      assert s[|s| - |tag| - 3..] == "</" + tag + ">";
      assert s[1..|s| - |tag| - 3] == children.value;
      assert s != " />" by { assert s[0] == '>'; }
    }
  }

  /**
   * BuildXml's output reads back to exactly the tag, the attributes in
   * order, and the children (or their absence), whenever the tag and keys
   * are names and no value holds a double quote.
   */
  lemma BuildXmlRoundTrip(tag: string, attrs: seq<Attr>, children: Option<string>)
    requires Name(tag) && AllPlain(attrs)
    ensures ReadXml(BuildXml(tag, attrs, children)) == Some(Element(tag, attrs, children))
  {
    var body := JoinAttrs(attrs) + EndOf(tag, children);
    assert BuildXml(tag, attrs, children) == "<" + tag + " " + body;
    ReadHead(tag, body);
    ReadBodyBack(tag, attrs, children);
  }

  /** What BuildXml writes after the attributes. */
  function EndOf(tag: string, children: Option<string>): string {
    if children.Some? then ">" + children.value + "</" + tag + ">" else " />"
  }

  /** The part after `<tag ` reads back as the attributes and the children. */
  lemma ReadBodyBack(tag: string, attrs: seq<Attr>, children: Option<string>)
    requires Name(tag) && AllPlain(attrs)
    ensures ReadBody(tag, JoinAttrs(attrs) + EndOf(tag, children)) == Some(Element(tag, attrs, children))
  {
    var tail := EndOf(tag, children);
    ReadEndOf(tag, children);
    EndOfCloses(tag, children);
    if |attrs| == 0 {
      assert JoinAttrs(attrs) + tail == tail;
      ReadBodyWith(tag, tail, Parsed([], tail), children);
    } else {
      JoinThenTail(attrs, tail);
      ReadJoinedAttrs(attrs, tail);
      ReadBodyWith(tag, JoinAttrs(attrs) + tail, Parsed(attrs, tail), children);
    }
  }

  lemma EndOfCloses(tag: string, children: Option<string>)
    ensures Closing(EndOf(tag, children))
    ensures EndOf(tag, children)[0] == '>' || EndOf(tag, children)[0] == ' '
  {
  }

  /** ReadBody once the attributes and the end have been read. */
  lemma ReadBodyWith(tag: string, body: string, p: Parsed<seq<Attr>>, children: Option<string>)
    requires |body| > 0
    requires (body[0] == '>' || body[0] == ' ') ==> p == Parsed([], body)
    requires !(body[0] == '>' || body[0] == ' ') ==> ReadAttrs(body) == Some(p)
    requires ReadEnd(tag, p.rest) == Some(children)
    ensures ReadBody(tag, body) == Some(Element(tag, p.value, children))
  {
  }

  /** The tag name is read up to the first space. */
  lemma ReadHead(tag: string, body: string)
    requires Name(tag)
    ensures ReadXml("<" + tag + " " + body) == ReadBody(tag, body)
  {
    var s := "<" + tag + " " + body;
    assert s[1..] == tag + [' '] + body;
    UptoStops(tag, ' ', body);
    assert s[1..|tag| + 1] == tag;
    assert s[|tag| + 2..] == body;
  }

  /** Without escaping, one attribute whose value holds quotes renders exactly like two attributes. */
  lemma UnescapedValuesCollide()
    ensures BuildXml("g", [Attr("a", "1\" b=\"2")], None) == BuildXml("g", [Attr("a", "1"), Attr("b", "2")], None)
    ensures BuildXml("g", [Attr("a", "1\" b=\"2")], None) == "<g a=\"1\" b=\"2\" />"
  {
    assert JoinAttrs([Attr("a", "1"), Attr("b", "2")]) == RenderAttr(Attr("a", "1")) + " " + JoinAttrs([Attr("b", "2")]);
  }

  /** An empty attribute map still leaves the space after the tag name. */
  lemma EmptyAttrsKeepSpace()
    ensures BuildXml("g", [], Some("c")) == "<g >c</g>"
    ensures BuildXml("g", [], None) == "<g  />"
  {
  }

  // ---------------------------------------------------------------------------
  // Int.toString
  // ---------------------------------------------------------------------------

  predicate IsDigit(c: char) {
    '0' <= c <= '9'
  }

  predicate AllDigits(s: string) {
    forall k :: 0 <= k < |s| ==> IsDigit(s[k])
  }

  function DigitChar(d: nat): (c: char)
    requires d < 10
    ensures IsDigit(c) && c as int - '0' as int == d
  {
    ('0' as int + d) as char
  }

  /** The decimal digits of `n`, most significant first, with no leading zero. */
  function NatToString(n: nat): (s: string)
    ensures |s| > 0 && AllDigits(s)
    ensures |s| > 1 ==> s[0] != '0'
  {
    if n < 10 then [DigitChar(n)] else NatToString(n / 10) + [DigitChar(n % 10)]
  }

  /** Kotlin `Int.toString()`: a minus sign before the digits of a negative number. */
  function IntToString(n: int): (s: string)
    ensures |s| > 0 && forall k :: 0 <= k < |s| ==> IsDigit(s[k]) || (k == 0 && s[k] == '-')
  {
    if n < 0 then "-" + NatToString(-n) else NatToString(n)
  }

  /** The value of a string of decimal digits. */
  function DigitsValue(s: string): nat
    requires AllDigits(s)
  {
    if |s| == 0 then 0 else DigitsValue(s[..|s| - 1]) * 10 + (s[|s| - 1] as int - '0' as int)
  }

  /** Reads an optional minus sign and at least one digit. */
  function ParseInt(s: string): Option<int> {
    if |s| > 1 && s[0] == '-' && AllDigits(s[1..]) then Some(0 - DigitsValue(s[1..]))
    else if |s| > 0 && AllDigits(s) then Some(DigitsValue(s))
    else None
  }

  lemma {:induction false} NatToStringRoundTrip(n: nat)
    ensures DigitsValue(NatToString(n)) == n
  {
    if n >= 10 {
      NatToStringRoundTrip(n / 10);
      var s := NatToString(n);
      assert s[..|s| - 1] == NatToString(n / 10);
    }
  }

  /** Every Int reads back from its decimal form. */
  lemma IntToStringRoundTrip(n: int)
    ensures ParseInt(IntToString(n)) == Some(n)
  {
    if n < 0 {
      var s := IntToString(n);
      assert s[1..] == NatToString(-n);
      NatToStringRoundTrip(-n);
    } else {
      NatToStringRoundTrip(n);
    }
  }

  /** A rendered Int never holds a double quote, so it is always a plain attribute value. */
  lemma IntToStringIsPlain(key: string, n: int)
    requires Name(key)
    ensures Plain(Attr(key, IntToString(n)))
  {
  }
}
