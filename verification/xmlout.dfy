/**
 * The XML writer of the example programs (examples/xmlout.c): character
 * data and attribute values are written with the five predefined entities
 * of section 4.6 of XML 1.0 for '&', '<', '"', '\'' and '>', and tags are
 * put together from an escaped name and escaped attribute pairs.  What is
 * printed is the function's result; a NULL string is `None`.
 */
module XmlOut {
  import opened Wrappers
  import CText

  // ---------------------------------------------------------------------
  // Escaping
  // ---------------------------------------------------------------------

  /** `XMLPRINTF`: one character as written. */
  function EscapeChar(c: char): (r: string)
    ensures |r| >= 1
    ensures c !in "&<\"'>" ==> r == [c]
  {
    match c
    case '&' => "&amp;"
    case '<' => "&lt;"
    case '"' => "&quot;"
    case '\'' => "&apos;"
    case '>' => "&gt;"
    case _ => [c]
  }

  /** Every character of `s` as written, in order. */
  function Escape(s: string): (r: string)
    ensures |r| >= |s|
  {
    if s == [] then [] else EscapeChar(s[0]) + Escape(s[1..])
  }

  lemma {:induction false} EscapeAppend(a: string, b: string)
    ensures Escape(a + b) == Escape(a) + Escape(b)
    decreases |a|
  {
    if a != [] {
      assert (a + b)[0] == a[0] && (a + b)[1..] == a[1..] + b;
      EscapeAppend(a[1..], b);
      calc {
        Escape(a + b);
        EscapeChar(a[0]) + Escape(a[1..] + b);
        EscapeChar(a[0]) + (Escape(a[1..]) + Escape(b));
        (EscapeChar(a[0]) + Escape(a[1..])) + Escape(b);
      }
    } else {
      assert a + b == b;
    }
  }

  /** `xmlnprint` and `xmlprintn`: exactly `length` characters, NULs included; nothing for NULL. */
  function PrintN(cdata: Option<string>, length: int): (r: string)
    requires cdata.Some? ==> length <= |cdata.value|
    ensures cdata.None? || length <= 0 ==> r == []
  {
    if cdata.None? || length <= 0 then [] else Escape(cdata.value[..length])
  }

  /** `xmlprint`: the characters before the first NUL; nothing for NULL. */
  function Print(cdata: Option<string>): (r: string)
    ensures cdata.None? ==> r == []
  {
    if cdata.None? then [] else Escape(CText.Str(cdata.value))
  }

  /** `xmlprint` stops at the first NUL where `xmlnprint` goes on to the given length. */
  lemma PrintStopsAtNul(s: string, k: nat)
    requires k <= |s| && CText.NulFree(s[..k]) && (k < |s| ==> s[k] == 0 as char)
    ensures Print(Some(s)) == PrintN(Some(s), k)
  {
    assert CText.Str(s) == s[..k];
  }

  // ---------------------------------------------------------------------
  // Reading the entities back
  // ---------------------------------------------------------------------

  /** The five entities, each read back as its character; any other character as it is. */
  function Unescape(s: string): (r: string)
    decreases |s|
  {
    if s == [] then []
    else if "&amp;" <= s then ['&'] + Unescape(s[5..])
    else if "&lt;" <= s then ['<'] + Unescape(s[4..])
    else if "&quot;" <= s then ['"'] + Unescape(s[6..])
    else if "&apos;" <= s then ['\''] + Unescape(s[6..])
    else if "&gt;" <= s then ['>'] + Unescape(s[4..])
    else [s[0]] + Unescape(s[1..])
  }

  /** Reading back one written character, followed by anything, gives the character first. */
  lemma UnescapeChar(c: char, rest: string)
    ensures Unescape(EscapeChar(c) + rest) == [c] + Unescape(rest)
  {
    if c == '&' {
      UnescapeEntity("&amp;", '&', rest);
    } else if c == '<' {
      UnescapeEntity("&lt;", '<', rest);
    } else if c == '"' {
      UnescapeEntity("&quot;", '"', rest);
    } else if c == '\'' {
      UnescapeEntity("&apos;", '\'', rest);
    } else if c == '>' {
      UnescapeEntity("&gt;", '>', rest);
    } else {
      var w := [c] + rest;
      assert w[0] == c && w[1..] == rest;
    }
  }

  /** One entity followed by anything: the entity is read as its character, and the rest after it. */
  lemma UnescapeEntity(e: string, c: char, rest: string)
    requires (e, c) in [("&amp;", '&'), ("&lt;", '<'), ("&quot;", '"'), ("&apos;", '\''), ("&gt;", '>')]
    ensures Unescape(e + rest) == [c] + Unescape(rest)
  {
    var w := e + rest;
    assert w[..|e|] == e && w[|e|..] == rest;
    assert w[0] == '&' && w[1] == e[1];
    if c != '&' {
      assert !("&amp;" <= w) by { assert e[1] != 'a' || e[2] != 'm'; }
    }
  }

  /** Reading the entities back undoes the escaping: `Escape` loses nothing. */
  lemma {:induction false} UnescapeEscape(s: string)
    ensures Unescape(Escape(s)) == s
    decreases |s|
  {
    if s != [] {
      UnescapeChar(s[0], Escape(s[1..]));
      UnescapeEscape(s[1..]);
      assert s == [s[0]] + s[1..];
    }
  }

  /** What `xmlnprint` writes reads back as exactly the `length` characters it was given, NULs included. */
  lemma PrintNReadsBack(s: string, length: nat)
    requires length <= |s|
    ensures Unescape(PrintN(Some(s), length)) == s[..length]
  {
    UnescapeEscape(s[..length]);
  }

  /** How many times `c` occurs in `s`. */
  function Count(s: string, c: char): (n: nat)
    ensures n <= |s|
    ensures n == 0 <==> c !in s
    decreases |s|
  {
    if s == [] then 0 else (if s[0] == c then 1 else 0) + Count(s[1..], c)
  }

  lemma {:induction false} CountAppend(a: string, b: string, c: char)
    ensures Count(a + b, c) == Count(a, c) + Count(b, c)
    decreases |a|
  {
    if a != [] {
      assert (a + b)[0] == a[0] && (a + b)[1..] == a[1..] + b;
      CountAppend(a[1..], b, c);
      assert Count(a + b, c) == (if a[0] == c then 1 else 0) + Count(a[1..] + b, c);
    } else {
      assert a + b == b;
    }
  }

  /** The characters that end a tag or a quoted value. */
  predicate NoMarkup(s: string) {
    '<' !in s && '>' !in s && '"' !in s && '\'' !in s
  }

  /** Escaped text holds no '<', '>', '"' or '\'': it cannot end a tag or a quoted value. */
  lemma {:induction false} EscapeHasNoMarkup(s: string)
    ensures NoMarkup(Escape(s))
    decreases |s|
  {
    if s != [] {
      EscapeHasNoMarkup(s[1..]);
      EscapeCharNoMarkup(s[0]);
      NoMarkupAppend(EscapeChar(s[0]), Escape(s[1..]));
    }
  }

  /** No single character escapes to markup. */
  lemma EscapeCharNoMarkup(c: char)
    ensures NoMarkup(EscapeChar(c))
  {
  }

  lemma NoMarkupAppend(a: string, b: string)
    requires NoMarkup(a) && NoMarkup(b)
    ensures NoMarkup(a + b)
  {
    forall x | x in a + b
      ensures x in a || x in b
    {
    }
  }

  /** Whatever `Print` writes is escaped text, so it holds no markup either. */
  lemma PrintHasNoMarkup(cdata: Option<string>)
    ensures NoMarkup(Print(cdata))
  {
    if cdata.Some? {
      EscapeHasNoMarkup(CText.Str(cdata.value));
    }
  }

  // ---------------------------------------------------------------------
  // Attributes and tags
  // ---------------------------------------------------------------------

  /** One pair written: ` key="value"`, or nothing when the value is NULL. */
  function Pair(key: string, value: Option<string>): (r: string)
    ensures value.None? <==> r == []
  {
    if value.None? then [] else " " + Print(Some(key)) + "=\"" + Print(value) + "\""
  }

  /**
   * `xmlattributes` and the attribute loop of the variadic writers: the
   * pairs in order, those with a NULL value left out.
   */
  function Attributes(pairs: seq<(string, Option<string>)>): (r: string)
    decreases |pairs|
  {
    if pairs == [] then [] else Pair(pairs[0].0, pairs[0].1) + Attributes(pairs[1..])
  }

  /** The pairs that are written: those with a value. */
  function Present(pairs: seq<(string, Option<string>)>): (r: seq<(string, Option<string>)>)
    ensures forall i :: 0 <= i < |r| ==> r[i].1.Some?
    ensures |r| <= |pairs|
    decreases |pairs|
  {
    if pairs == [] then []
    else (if pairs[0].1.Some? then [pairs[0]] else []) + Present(pairs[1..])
  }

  /** Each written pair holds exactly its two quotes and no angle bracket. */
  lemma PairMarks(key: string, value: Option<string>)
    ensures Count(Pair(key, value), '"') == (if value.Some? then 2 else 0)
    ensures '<' !in Pair(key, value) && '>' !in Pair(key, value)
  {
    if value.Some? {
      PrintHasNoMarkup(Some(key));
      PrintHasNoMarkup(value);
      Quoted(Print(Some(key)), Print(value));
    }
  }

  /** ` a="b"` for texts without markup: the two quotes are the only ones, and there is no angle bracket. */
  lemma Quoted(a: string, b: string)
    requires NoMarkup(a) && NoMarkup(b)
    ensures var w := " " + a + "=\"" + b + "\"";
      Count(w, '"') == 2 && '<' !in w && '>' !in w
  {
    var p1 := " " + a;
    var p2 := p1 + "=\"";
    var p3 := p2 + b;
    var w := p3 + "\"";
    assert Count(" ", '"') == 0 && Count(a, '"') == 0 && Count(b, '"') == 0;
    assert Count("=\"", '"') == 1 && Count("\"", '"') == 1;
    CountAppend(" ", a, '"');
    CountAppend(p1, "=\"", '"');
    CountAppend(p2, b, '"');
    CountAppend(p3, "\"", '"');
    QuotedNoAngles(a, b);
  }

  lemma QuotedNoAngles(a: string, b: string)
    requires NoMarkup(a) && NoMarkup(b)
    ensures var w := " " + a + "=\"" + b + "\"";
      '<' !in w && '>' !in w
  {
    var w := " " + a + "=\"" + b + "\"";
    assert forall x :: x in w ==> x in " =\"" || x in a || x in b;
  }

  /**
   * The attributes are well delimited: two quotes per pair with a value
   * and none for the others, and no angle bracket to end the tag early.
   */
  lemma {:induction false} AttributesQuoted(pairs: seq<(string, Option<string>)>)
    ensures Count(Attributes(pairs), '"') == 2 * |Present(pairs)|
    ensures '<' !in Attributes(pairs) && '>' !in Attributes(pairs)
    decreases |pairs|
  {
    if pairs != [] {
      var h, t := Pair(pairs[0].0, pairs[0].1), Attributes(pairs[1..]);
      PairMarks(pairs[0].0, pairs[0].1);
      AttributesQuoted(pairs[1..]);
      CountAppend(h, t, '"');
      assert forall x :: x in h + t ==> x in h || x in t;
    }
  }

  /**
   * A value read back from its pair: after the space comes the escaped
   * key, then `="`, then the escaped value up to the closing quote, and
   * unescaping either part gives the key or the value exactly.
   */
  lemma PairReadsBack(key: string, value: string)
    requires CText.NulFree(key) && CText.NulFree(value)
    ensures var w := Pair(key, Some(value));
      var a := Escape(key);
      && w[..1] == " " && Unescape(w[1..1 + |a|]) == key
      && w[1 + |a|..3 + |a|] == "=\"" && w[|w| - 1] == '"'
      && Unescape(w[3 + |a|..|w| - 1]) == value
  {
    var a, b := Escape(key), Escape(value);
    assert Print(Some(key)) == a by { assert CText.Str(key) == key; }
    assert Print(Some(value)) == b by { assert CText.Str(value) == value; }
    UnescapeEscape(key);
    UnescapeEscape(value);
    QuotedReadsBack(Pair(key, Some(value)), a, b, key, value);
  }

  /** ` a="b"` read back: the parts lie where they should, and unescape to what `a` and `b` were written from. */
  lemma QuotedReadsBack(w: string, a: string, b: string, key: string, value: string)
    requires w == " " + a + "=\"" + b + "\"" && Unescape(a) == key && Unescape(b) == value
    ensures && w[..1] == " " && Unescape(w[1..1 + |a|]) == key
      && w[1 + |a|..3 + |a|] == "=\"" && w[|w| - 1] == '"'
      && Unescape(w[3 + |a|..|w| - 1]) == value
  {
    QuotedParts(a, b);
  }

  /** Where the parts of ` a="b"` lie. */
  lemma QuotedParts(a: string, b: string)
    ensures var w := " " + a + "=\"" + b + "\"";
      && w[..1] == " " && w[1..1 + |a|] == a
      && w[1 + |a|..3 + |a|] == "=\"" && w[|w| - 1] == '"'
      && w[3 + |a|..|w| - 1] == b
  {
    var w := " " + a + "=\"" + b + "\"";
    var x := " " + a + "=\"";
    Parts(w, x, b, "\"");
    Parts(x, " ", a, "=\"");
    assert w[1..1 + |a|] == x[1..1 + |a|] == a;
    assert w[1 + |a|..3 + |a|] == x[1 + |a|..] == "=\"";
  }

  /** Where the three parts of a concatenation lie. */
  lemma Parts(w: string, x: string, y: string, z: string)
    requires w == x + y + z
    ensures w[..|x|] == x && w[|x|..|w| - |z|] == y && w[|w| - |z|..] == z
    ensures w[|x|..|x| + |y|] == y
  {
  }

  /** The optional attribute array: nothing is written for a NULL array. */
  function MaybeAttributes(attributes: Option<seq<(string, Option<string>)>>): (r: string)
    ensures '<' !in r && '>' !in r
  {
    if attributes.None? then []
    else
      AttributesQuoted(attributes.value);
      Attributes(attributes.value)
  }

  /** Printed data reads back exactly, up to its first NUL. */
  lemma PrintReadsBack(cdata: Option<string>)
    ensures cdata.Some? ==> Unescape(Print(cdata)) == CText.Str(cdata.value)
    ensures cdata.Some? && CText.NulFree(cdata.value) ==> Unescape(Print(cdata)) == cdata.value
  {
    if cdata.Some? {
      UnescapeEscape(CText.Str(cdata.value));
    }
  }

  lemma CountThree(x: string, y: string, z: string, c: char)
    ensures Count(x + y + z, c) == Count(x, c) + Count(y, c) + Count(z, c)
  {
    CountAppend(x + y, z, c);
    CountAppend(x, y, c);
  }

  /** The text between a tag's delimiters: the escaped code, then the attributes. */
  function TagBody(code: Option<string>, attributes: Option<seq<(string, Option<string>)>>): (r: string)
    ensures '<' !in r && '>' !in r
  {
    PrintHasNoMarkup(code);
    var r := Print(code) + MaybeAttributes(attributes);
    assert forall x :: x in r ==> x in Print(code) || x in MaybeAttributes(attributes);
    r
  }

  /**
   * A tag is delimited by its `open` and `close` when the body holds no
   * angle bracket: each delimiter occurs once, at the two ends.
   */
  lemma Delimited(open: string, body: string, close: string)
    requires Count(open, '<') == 1 && '>' !in open && '<' !in close && Count(close, '>') == 1
    requires '<' !in body && '>' !in body
    ensures Count(open + body + close, '<') == 1 && Count(open + body + close, '>') == 1
  {
    CountThree(open, body, close, '<');
    CountThree(open, body, close, '>');
  }

  /** `xmlstartelement`: `<code attributes>`, one '<' and one '>' at its two ends. */
  function StartElement(code: Option<string>, attributes: Option<seq<(string, Option<string>)>>): (r: string)
    ensures |r| >= 2 && r[0] == '<' && r[|r| - 1] == '>'
    ensures Count(r, '<') == 1 && Count(r, '>') == 1
  {
    var body := TagBody(code, attributes);
    Delimited("<", body, ">");
    "<" + body + ">"
  }

  /** `xmlendelement`: `</code>`, one '<' and one '>' at its two ends. */
  function EndElement(code: Option<string>): (r: string)
    ensures |r| >= 3 && r[..2] == "</" && r[|r| - 1] == '>'
    ensures Count(r, '<') == 1 && Count(r, '>') == 1
  {
    var body := TagBody(code, None);
    Delimited("</", body, ">");
    var r := "</" + body + ">";
    assert r[..2] == "</";
    r
  }

  /**
   * `xmlelement`: the start tag, the escaped character data, the end tag;
   * the data adds no angle bracket and reads back exactly.
   */
  function Element(code: Option<string>, attributes: Option<seq<(string, Option<string>)>>, cdata: Option<string>): (r: string)
    ensures Count(r, '<') == 2 && Count(r, '>') == 2
    ensures var s := StartElement(code, attributes);
      |r| >= |s| + |EndElement(code)| && r[..|s|] == s && r[|r| - |EndElement(code)|..] == EndElement(code)
  {
    PrintHasNoMarkup(cdata);
    var s, d, e := StartElement(code, attributes), Print(cdata), EndElement(code);
    Wrapped(s, d, e);
    s + d + e
  }

  /** Text without markup between two tags adds no angle bracket, and the tags stay at the two ends. */
  lemma Wrapped(s: string, d: string, e: string)
    requires Count(s, '<') == 1 && Count(s, '>') == 1 && Count(e, '<') == 1 && Count(e, '>') == 1
    requires NoMarkup(d)
    ensures var r := s + d + e;
      && Count(r, '<') == 2 && Count(r, '>') == 2
      && |r| >= |s| + |e| && r[..|s|] == s && r[|r| - |e|..] == e
  {
    assert Count(d, '<') == 0 && Count(d, '>') == 0;
    CountThree(s, d, e, '<');
    CountThree(s, d, e, '>');
    Parts(s + d + e, s, d, e);
  }

  /** The text between an element's two tags reads back as its character data, up to the first NUL. */
  lemma ElementReadsBack(code: Option<string>, attributes: Option<seq<(string, Option<string>)>>, cdata: string)
    ensures var r, s, e := Element(code, attributes, Some(cdata)), StartElement(code, attributes), EndElement(code);
      Unescape(r[|s|..|r| - |e|]) == CText.Str(cdata)
  {
    var r, s, e := Element(code, attributes, Some(cdata)), StartElement(code, attributes), EndElement(code);
    assert r[|s|..|r| - |e|] == Print(Some(cdata)) by {
      Parts(r, s, Print(Some(cdata)), e);
    }
    PrintReadsBack(Some(cdata));
  }

  /** `xmlvoidelement`: like a start tag, but closed by a newline and `/>`. */
  function VoidElement(code: Option<string>, attributes: Option<seq<(string, Option<string>)>>): (r: string)
    ensures |r| >= 4 && r[0] == '<' && r[|r| - 3..] == "\n/>"
    ensures Count(r, '<') == 1 && Count(r, '>') == 1
  {
    var body := TagBody(code, attributes);
    Delimited("<", body, "\n/>");
    var r := "<" + body + "\n/>";
    assert r[|r| - 3..] == "\n/>";
    r
  }

  /** `xmlprocessinginstruction`: `<?code attributes?>`. */
  function ProcessingInstruction(code: Option<string>, attributes: Option<seq<(string, Option<string>)>>): (r: string)
    ensures |r| >= 4 && r[..2] == "<?" && r[|r| - 2..] == "?>"
    ensures Count(r, '<') == 1 && Count(r, '>') == 1
  {
    var body := TagBody(code, attributes);
    Delimited("<?", body, "?>");
    var r := "<?" + body + "?>";
    assert r[..2] == "<?" && r[|r| - 2..] == "?>";
    r
  }

  /**
   * `VATTRIBUTES`: the variadic writers' common shape, the opening text,
   * the escaped code, the pairs, the closing text.  `vxmlvoidelement`
   * closes with `/>` and, unlike `xmlvoidelement`, no newline.
   */
  function Variadic(open: string, close: string, code: Option<string>, pairs: seq<(string, Option<string>)>): (r: string)
    ensures |r| >= |open| + |close| && r[..|open|] == open && r[|r| - |close|..] == close
    ensures Count(r, '<') == Count(open, '<') + Count(close, '<')
  {
    var body := TagBody(code, Some(pairs));
    var r := open + body + close;
    CountAppend(open + body, close, '<');
    CountAppend(open, body, '<');
    assert r[..|open|] == open && r[|r| - |close|..] == close;
    r
  }

  /** The variadic start and end tags and element write what the array ones do. */
  lemma VariadicAgrees(code: Option<string>, pairs: seq<(string, Option<string>)>, cdata: Option<string>)
    ensures Variadic("<", ">", code, pairs) == StartElement(code, Some(pairs))
    ensures Variadic("<?", "?>", code, pairs) == ProcessingInstruction(code, Some(pairs))
    ensures Variadic("<", ">", code, pairs) + Print(cdata) + EndElement(code) == Element(code, Some(pairs), cdata)
  {
  }

  /** The parts of a comment, each up to its first NUL. */
  function Concat(parts: seq<string>): string
    decreases |parts|
  {
    if parts == [] then [] else CText.Str(parts[0]) + Concat(parts[1..])
  }

  /** `vxmlcomment`: the parts as they are, unescaped, between `<!-- ` and ` -->`. */
  function Comment(first: string, rest: seq<string>): (r: string)
    ensures |r| >= 9 && r[..5] == "<!-- " && r[|r| - 4..] == " -->"
    ensures r[5..|r| - 4] == CText.Str(first) + Concat(rest)
  {
    var m := CText.Str(first) + Concat(rest);
    Between("<!-- ", m, " -->");
    "<!-- " + m + " -->"
  }

  /** The three pieces of a string put together can be cut apart again. */
  lemma Between(a: string, m: string, b: string)
    ensures var r := a + m + b;
      && r[..|a|] == a && r[|a|..|r| - |b|] == m && r[|r| - |b|..] == b
  {
  }
}
