/**
 * The PYX line parser of the Expyx library (examples/expyx.c): an
 * Expat-style parser for the line-oriented PYX form of XML.  Characters
 * arrive one at a time; the first character of a line says what the line
 * is, the rest of the line is collected in a buffer, and the line's
 * event goes to its handler when the newline arrives.  The start-element
 * event of a '(' line waits for the 'A' lines after it, which carry its
 * attributes.
 *
 * Two quirks of the character machine are kept: an empty line is read as
 * the start of an unknown line, so the line after it is ignored up to its
 * newline; and a backslash escape survives a newline.
 */
module Pyx {
  import CText

  /** `PYX_BUFFSIZE`: the line buffer holds at most one less character, plus its NUL. */
  const BuffSize: nat := 8192

  /** `PYX_ATTRSIZE`: attribute slots; the count stops one short of it. */
  const AttrSize: nat := 64

  /** `line_t`. */
  datatype LineKind =
    | NoLine | CommentLine | PiLine | DeclLine | DataLine | AttrLine | StartLine | EndLine | UnknownLine

  /** `state_t`: at the start of a line, before the first space, after it. */
  datatype Phase = Sol | Key | Val

  /** The client handlers a parser may hold. */
  datatype Handler = StartElementHandler | EndElementHandler | CharacterDataHandler | PiHandler | CommentHandler

  /** One call a client handler receives. */
  datatype Event =
    | StartElement(name: string, attributes: seq<(string, string)>)
    | EndElement(name: string)
    | CharacterData(data: string)
    | ProcessingInstruction(target: string, data: string)
    | Comment(data: string)

  /** `pyxparser_t`, with the calls the handlers have received as `log`. */
  datatype Parser = Parser(
    buffer: string,
    target: string,
    element: string,
    line: LineKind,
    state: Phase,
    escape: bool,
    nattrs: nat,
    keys: seq<string>,
    vals: seq<string>,
    handlers: set<Handler>,
    log: seq<Event>)

  predicate Valid(p: Parser) {
    && |p.buffer| < BuffSize
    && |p.keys| == AttrSize && |p.vals| == AttrSize
    && p.nattrs < AttrSize
  }

  /** `PYX_ParserCreate`: the zero-filled structure, with the handlers the client installs. */
  function Create(handlers: set<Handler>): (p: Parser)
    ensures Valid(p) && p.state == Sol && p.line == NoLine && p.log == []
  {
    Parser([], [], [], NoLine, Sol, false, 0, seq(AttrSize, _ => []), seq(AttrSize, _ => []), handlers, [])
  }

  // ---------------------------------------------------------------------
  // Events
  // ---------------------------------------------------------------------

  /** Logs an event when its handler is installed. */
  function Notify(p: Parser, h: Handler, e: Event): (r: Parser)
    ensures r == p.(log := p.log + (if h in p.handlers then [e] else []))
  {
    if h in p.handlers then p.(log := p.log + [e]) else p
  }

  /** The attribute pairs collected so far, in order; the array handed over ends after them. */
  function Attributes(p: Parser): (a: seq<(string, string)>)
    requires Valid(p)
    ensures |a| == p.nattrs
    ensures forall i :: 0 <= i < |a| ==> a[i] == (p.keys[i], p.vals[i])
  {
    Pairs(p.keys, p.vals, p.nattrs)
  }

  /** The first `n` keys paired with the first `n` values. */
  function Pairs(keys: seq<string>, vals: seq<string>, n: nat): (a: seq<(string, string)>)
    requires n <= |keys| && n <= |vals|
    ensures |a| == n
    ensures forall i :: 0 <= i < n ==> a[i] == (keys[i], vals[i])
  {
    if n == 0 then [] else Pairs(keys, vals, n - 1) + [(keys[n - 1], vals[n - 1])]
  }

  /** `pyx_handle_start_element`: the element's name with its attribute pairs. */
  function HandleStartElement(p: Parser): (r: Parser)
    requires Valid(p)
    ensures r == Notify(p, StartElementHandler, StartElement(p.element, Attributes(p)))
  {
    Notify(p, StartElementHandler, StartElement(p.element, Attributes(p)))
  }

  // ---------------------------------------------------------------------
  // The character machine
  // ---------------------------------------------------------------------

  /** The kind of line a first character announces. */
  function KindOf(c: char): LineKind {
    match c
    case '(' => StartLine
    case ')' => EndLine
    case 'A' => AttrLine
    case '-' => DataLine
    case 'C' => CommentLine
    case 'D' => DeclLine
    case '?' => PiLine
    case _ => UnknownLine
  }

  /** `APPEND_BUFFER`: a character joins the buffer while there is room for it and the NUL. */
  function Append(p: Parser, c: char): (r: Parser)
    requires Valid(p)
    ensures Valid(r)
    ensures r == p.(buffer := r.buffer)
    ensures |p.buffer| < BuffSize - 1 ==> r.buffer == p.buffer + [c]
    ensures |p.buffer| == BuffSize - 1 ==> r == p
  {
    if |p.buffer| < BuffSize - 1 then p.(buffer := p.buffer + [c]) else p
  }

  /**
   * A newline ending a line: a '(' line names the element, a ')' line
   * names it and ends it, an 'A' line stores its value and takes the next
   * attribute slot while one is left, a '-', '?' or 'C' line goes to its
   * handler; the buffer empties and the next line starts.
   */
  function EndOfLine(p: Parser): (r: Parser)
    requires Valid(p)
    ensures Valid(r) && r.buffer == [] && r.state == Sol
    ensures r.line == p.line && r.escape == p.escape && r.handlers == p.handlers
  {
    var text := CText.Str(p.buffer);
    var q := match p.line
      case StartLine => p.(element := text)
      case EndLine => Notify(p.(element := text), EndElementHandler, EndElement(text))
      case AttrLine =>
        p.(vals := p.vals[p.nattrs := text], nattrs := if p.nattrs < AttrSize - 1 then p.nattrs + 1 else p.nattrs)
      case DataLine => Notify(p, CharacterDataHandler, CharacterData(p.buffer))
      case PiLine => Notify(p, PiHandler, ProcessingInstruction(p.target, text))
      case CommentLine => Notify(p, CommentHandler, Comment(text))
      case _ => p;
    q.(buffer := [], state := Sol)
  }

  /**
   * The first character of a line: a pending start element is sent unless
   * the line is another attribute, the character sets the line's kind, a
   * '(' line forgets the element and its attributes, and the rest of the
   * line follows.
   */
  function StartOfLine(p: Parser, c: char): (r: Parser)
    requires Valid(p)
    ensures Valid(r) && r.buffer == [] && r.state == Key && r.line == KindOf(c)
    ensures r.escape == p.escape && r.handlers == p.handlers
  {
    var q := p.(buffer := []);
    var q1 := if (q.line == StartLine || q.line == AttrLine) && c != 'A' then HandleStartElement(q) else q;
    var q2 := if c == '(' then q1.(element := [], nattrs := 0) else q1;
    q2.(line := KindOf(c), state := Key)
  }

  /**
   * A character inside a line: in an 'A' or '?' line the first space ends
   * the key or target; the characters of '(', ')', '-', 'C', 'A' and '?'
   * lines are collected; those of other lines are dropped.
   */
  function Content(p: Parser, c: char): (r: Parser)
    requires Valid(p)
    ensures Valid(r) && r.line == p.line && r.escape == p.escape && r.log == p.log
    ensures r.handlers == p.handlers
  {
    match p.line
    case AttrLine =>
      if p.state == Key && c == ' ' then p.(keys := p.keys[p.nattrs := CText.Str(p.buffer)], buffer := [], state := Val)
      else Append(p, c)
    case PiLine =>
      if p.state == Key && c == ' ' then p.(target := CText.Str(p.buffer), buffer := [], state := Val)
      else Append(p, c)
    case CommentLine => Append(p, c)
    case EndLine => Append(p, c)
    case DataLine => Append(p, c)
    case StartLine => Append(p, c)
    case _ => p
  }

  /**
   * `pyx_char`: a newline ends a line that has begun; a line's first
   * character starts it; after a backslash the character is taken as it
   * is, except that 'n' is a newline; a backslash is not stored.
   */
  function Char(p: Parser, c: char): (r: Parser)
    requires Valid(p)
    ensures Valid(r) && r.handlers == p.handlers
    ensures c == '\n' && p.state != Sol ==> r.state == Sol && r.buffer == []
    ensures p.state == Sol ==> r.state == Key && r.line == KindOf(c) && r.buffer == []
    ensures p.state == Sol && c == '(' ==> r.nattrs == 0 && r.element == []
    ensures p.state == Sol ==>
      r.log == p.log + (if p.line in {StartLine, AttrLine} && c != 'A' && StartElementHandler in p.handlers
                        then [StartElement(p.element, Attributes(p))] else [])
    ensures p.log <= r.log && |r.log| <= |p.log| + 1
  {
    if c == '\n' && p.state != Sol then EndOfLine(p)
    else if p.state == Sol then StartOfLine(p, c)
    else if p.escape then Content(p.(escape := false), if c == 'n' then '\n' else c)
    else if c == '\\' then p.(escape := true)
    else Content(p, c)
  }

  /** The characters of `s` fed one after another. */
  function Feed(p: Parser, s: string): (r: Parser)
    requires Valid(p)
    ensures Valid(r) && r.handlers == p.handlers && p.log <= r.log
    decreases |s|
  {
    if s == [] then p else Feed(Char(p, s[0]), s[1..])
  }

  lemma {:induction false} FeedAppend(p: Parser, a: string, b: string)
    requires Valid(p)
    ensures Feed(p, a + b) == Feed(Feed(p, a), b)
    decreases |a|
  {
    if a == [] {
      assert a + b == b;
    } else {
      assert (a + b)[0] == a[0] && (a + b)[1..] == a[1..] + b;
      FeedAppend(Char(p, a[0]), a[1..], b);
    }
  }

  /** The last character fed is fed after the others. */
  lemma FeedSnoc(p: Parser, s: string, c: char)
    requires Valid(p)
    ensures Feed(p, s + [c]) == Char(Feed(p, s), c)
  {
    FeedAppend(p, s, [c]);
    assert [c][1..] == [];
  }

  /**
   * `pyx_parse_new`: the bytes are fed in order and the length returned;
   * when the document is done, a newline follows unless the byte after
   * the given ones, `past`, is a newline.
   */
  method ParseNew(p: Parser, buffer: string, done: bool, past: char) returns (r: Parser, n: nat)
    requires Valid(p)
    ensures n == |buffer|
    ensures r == (if done && past != '\n' then Char(Feed(p, buffer), '\n') else Feed(p, buffer))
  {
    r := p;
    n := 0;
    while n < |buffer|
      invariant 0 <= n <= |buffer| && Valid(r)
      invariant r == Feed(p, buffer[..n])
    {
      FeedSnoc(p, buffer[..n], buffer[n]);
      assert buffer[..n + 1] == buffer[..n] + [buffer[n]];
      r := Char(r, buffer[n]);
      n := n + 1;
    }
    assert buffer[..n] == buffer;
    if done && past != '\n' {
      r := Char(r, '\n');
    }
  }

  /** One character fed. */
  lemma FeedOne(p: Parser, c: char)
    requires Valid(p)
    ensures Feed(p, [c]) == Char(p, c)
  {
    assert [c][1..] == [];
  }

  /** A line: its first character, its body, its newline. */
  lemma FeedLine(p: Parser, c: char, body: string)
    requires Valid(p)
    ensures Feed(p, [c] + body + ['\n']) == Char(Feed(Char(p, c), body), '\n')
  {
    var a := [c];
    var b := a + body;
    FeedAppend(p, b, ['\n']);
    FeedOne(Feed(p, b), '\n');
    FeedAppend(p, a, body);
    FeedOne(p, c);
  }

  /** A line whose body is a key, a space and a value. */
  lemma FeedPairLine(p: Parser, c: char, key: string, value: string)
    requires Valid(p)
    ensures Feed(p, [c] + key + [' '] + value + ['\n']) == Char(Feed(Char(Feed(Char(p, c), key), ' '), value), '\n')
  {
    var a := [c];
    var b := a + key;
    var d := b + [' '];
    var e := d + value;
    FeedAppend(p, e, ['\n']);
    FeedOne(Feed(p, e), '\n');
    FeedAppend(p, d, value);
    FeedAppend(p, b, [' ']);
    FeedOne(Feed(p, b), ' ');
    FeedAppend(p, a, key);
    FeedOne(p, c);
  }

  // ---------------------------------------------------------------------
  // Whole lines
  // ---------------------------------------------------------------------

  /** Text without newlines, backslashes or NULs: PYX text read as it is. */
  predicate Plain(s: string) {
    forall i :: 0 <= i < |s| ==> s[i] != '\n' && s[i] != '\\' && s[i] != 0 as char
  }

  /** Plain text is its own C string. */
  lemma PlainStr(s: string)
    requires Plain(s)
    ensures CText.NulFree(s) && CText.Str(s) == s
  {
  }

  /** The kinds of line whose characters are all collected. */
  predicate Collecting(k: LineKind) {
    k in {CommentLine, EndLine, DataLine, StartLine}
  }

  /** Plain characters inside a collecting line join the buffer. */
  lemma {:induction false} FeedCollected(p: Parser, s: string)
    requires Valid(p) && p.state != Sol && !p.escape && Collecting(p.line)
    requires Plain(s) && |p.buffer| + |s| < BuffSize
    ensures Feed(p, s) == p.(buffer := p.buffer + s)
    decreases |s|
  {
    if s != [] {
      var q := Char(p, s[0]);
      assert q == p.(buffer := p.buffer + [s[0]]);
      FeedCollected(q, s[1..]);
      assert p.buffer + [s[0]] + s[1..] == p.buffer + s;
    }
  }

  /** Plain characters in the key of an 'A' or '?' line, before its first space, join the buffer. */
  lemma {:induction false} FeedKey(p: Parser, s: string)
    requires Valid(p) && p.state == Key && !p.escape && p.line in {AttrLine, PiLine}
    requires Plain(s) && ' ' !in s && |p.buffer| + |s| < BuffSize
    ensures Feed(p, s) == p.(buffer := p.buffer + s)
    decreases |s|
  {
    if s != [] {
      var q := Char(p, s[0]);
      assert q == p.(buffer := p.buffer + [s[0]]);
      FeedKey(q, s[1..]);
      assert p.buffer + [s[0]] + s[1..] == p.buffer + s;
    }
  }

  /** Plain characters in the value of an 'A' or '?' line, spaces included, join the buffer. */
  lemma {:induction false} FeedValue(p: Parser, s: string)
    requires Valid(p) && p.state == Val && !p.escape && p.line in {AttrLine, PiLine}
    requires Plain(s) && |p.buffer| + |s| < BuffSize
    ensures Feed(p, s) == p.(buffer := p.buffer + s)
    decreases |s|
  {
    if s != [] {
      var q := Char(p, s[0]);
      assert q == p.(buffer := p.buffer + [s[0]]);
      FeedValue(q, s[1..]);
      assert p.buffer + [s[0]] + s[1..] == p.buffer + s;
    }
  }

  /** Nothing is pending at the start of a line: the last line was not a '(' or 'A' line. */
  predicate Settled(p: Parser) {
    Valid(p) && p.state == Sol && !p.escape && p.line !in {StartLine, AttrLine}
  }

  /** A settled parser meets the first character of a '-', 'C', ')' or '?' line: nothing is sent and a key is collected. */
  lemma SettledOpens(p: Parser, c: char)
    requires Settled(p) && c in {'-', 'C', ')', '?'}
    ensures Char(p, c) == p.(buffer := [], line := KindOf(c), state := Key)
  {
  }

  /** A newline inside a line ends it. */
  lemma NewlineEnds(q: Parser)
    requires Valid(q) && q.state != Sol
    ensures Char(q, '\n') == EndOfLine(q)
  {
  }

  /** The newline of a '-' line sends its text as character data. */
  lemma DataEnds(q: Parser)
    requires Valid(q) && q.state != Sol && q.line == DataLine
    ensures Char(q, '\n') == Notify(q, CharacterDataHandler, CharacterData(q.buffer)).(buffer := [], state := Sol)
  {
  }

  /** The newline of a 'C' line sends its text as a comment. */
  lemma CommentEnds(q: Parser)
    requires Valid(q) && q.state != Sol && q.line == CommentLine
    ensures Char(q, '\n') == Notify(q, CommentHandler, Comment(CText.Str(q.buffer))).(buffer := [], state := Sol)
  {
  }

  /** The newline of a ')' line names the element and ends it. */
  lemma EndEnds(q: Parser)
    requires Valid(q) && q.state != Sol && q.line == EndLine
    ensures var name := CText.Str(q.buffer);
      Char(q, '\n') == Notify(q.(element := name), EndElementHandler, EndElement(name)).(buffer := [], state := Sol)
  {
  }

  /** The text of a '-', 'C' or ')' line, after its first character, is collected whole. */
  lemma LineCollects(p: Parser, c: char, s: string)
    requires Settled(p) && c in {'-', 'C', ')'} && Plain(s) && |s| < BuffSize
    ensures Feed(Char(p, c), s) == p.(buffer := s, line := KindOf(c), state := Key)
  {
    var q1 := p.(buffer := [], line := KindOf(c), state := Key);
    SettledOpens(p, c);
    FeedCollected(q1, s);
    assert q1.buffer + s == s;
  }

  /** A plain '-' line hands its text to the character-data handler, and nothing else happens. */
  lemma DataLineDelivers(p: Parser, s: string)
    requires Settled(p) && Plain(s) && |s| < BuffSize
    ensures var r := Feed(p, ['-'] + s + ['\n']);
      && Settled(r) && r.line == DataLine
      && r.log == p.log + (if CharacterDataHandler in p.handlers then [CharacterData(s)] else [])
      && r.element == p.element && r.nattrs == p.nattrs
  {
    FeedLine(p, '-', s);
    LineCollects(p, '-', s);
    var q2 := p.(buffer := s, line := DataLine, state := Key);
    DataEnds(q2);
    var r := Char(q2, '\n');
    assert r == Notify(q2, CharacterDataHandler, CharacterData(s)).(buffer := [], state := Sol);
    assert r.log == q2.log + (if CharacterDataHandler in p.handlers then [CharacterData(s)] else []);
  }

  /** A plain 'C' line hands its text to the comment handler. */
  lemma CommentLineDelivers(p: Parser, s: string)
    requires Settled(p) && Plain(s) && |s| < BuffSize
    ensures var r := Feed(p, ['C'] + s + ['\n']);
      && Settled(r) && r.log == p.log + (if CommentHandler in p.handlers then [Comment(s)] else [])
  {
    FeedLine(p, 'C', s);
    LineCollects(p, 'C', s);
    var q2 := p.(buffer := s, line := CommentLine, state := Key);
    PlainStr(s);
    CommentEnds(q2);
    var r := Char(q2, '\n');
    assert r == Notify(q2, CommentHandler, Comment(s)).(buffer := [], state := Sol);
    assert r.log == q2.log + (if CommentHandler in p.handlers then [Comment(s)] else []);
  }

  /** A plain ')' line names the element and ends it. */
  lemma EndLineDelivers(p: Parser, name: string)
    requires Settled(p) && Plain(name) && |name| < BuffSize
    ensures var r := Feed(p, [')'] + name + ['\n']);
      && Settled(r) && r.element == name
      && r.log == p.log + (if EndElementHandler in p.handlers then [EndElement(name)] else [])
  {
    FeedLine(p, ')', name);
    LineCollects(p, ')', name);
    var q2 := p.(buffer := name, line := EndLine, state := Key);
    PlainStr(name);
    EndEnds(q2);
    var r := Char(q2, '\n');
    assert r == Notify(q2.(element := name), EndElementHandler, EndElement(name)).(buffer := [], state := Sol);
    assert r.log == q2.log + (if EndElementHandler in p.handlers then [EndElement(name)] else []);
  }

  /** A plain '?' line whose target ends at its first space hands target and data to the processing-instruction handler. */
  lemma PiLineDelivers(p: Parser, target: string, data: string)
    requires Settled(p) && Plain(target) && ' ' !in target && Plain(data) && |target| < BuffSize && |data| < BuffSize
    ensures var r := Feed(p, ['?'] + target + [' '] + data + ['\n']);
      && Settled(r) && r.target == target
      && r.log == p.log + (if PiHandler in p.handlers then [ProcessingInstruction(target, data)] else [])
  {
    FeedPairLine(p, '?', target, data);
    var q3 := p.(target := target, buffer := [], line := PiLine, state := Val);
    PiTargetPhase(p, target);
    PiDataPhase(q3, data);
  }

  /** The '?', the target and the space of a processing-instruction line: the target is held. */
  lemma PiTargetPhase(p: Parser, target: string)
    requires Settled(p) && Plain(target) && ' ' !in target && |target| < BuffSize
    ensures Char(Feed(Char(p, '?'), target), ' ') == p.(target := target, buffer := [], line := PiLine, state := Val)
  {
    PlainStr(target);
    var q1 := p.(buffer := [], line := PiLine, state := Key);
    SettledOpens(p, '?');
    FeedKey(q1, target);
    assert q1.buffer + target == target;
    TargetEnds(q1.(buffer := target));
  }

  /** The space after a processing instruction's target holds the target and starts the data. */
  lemma TargetEnds(q: Parser)
    requires Valid(q) && q.state == Key && !q.escape && q.line == PiLine
    ensures Char(q, ' ') == q.(target := CText.Str(q.buffer), buffer := [], state := Val)
  {
  }

  /** The data and the newline of a processing-instruction line: target and data are sent. */
  lemma PiDataPhase(q: Parser, data: string)
    requires Valid(q) && q.state == Val && q.buffer == [] && !q.escape && q.line == PiLine
    requires Plain(data) && |data| < BuffSize
    ensures var r := Char(Feed(q, data), '\n');
      r == q.(log := r.log, state := Sol)
      && r.log == q.log + (if PiHandler in q.handlers then [ProcessingInstruction(q.target, data)] else [])
  {
    PlainStr(data);
    FeedValue(q, data);
    var q4 := q.(buffer := data);
    assert q.buffer + data == data;
    NewlineEnds(q4);
  }

  /**
   * A '(' line followed by 'A' lines: nothing is sent until a line that is
   * not an attribute begins; the start element then carries the name and
   * every pair, in order.
   */
  lemma StartLineWaits(p: Parser, name: string)
    requires Settled(p) && Plain(name) && |name| < BuffSize
    ensures var r := Feed(p, ['('] + name + ['\n']);
      && Valid(r) && r.state == Sol && !r.escape && r.line == StartLine
      && r.element == name && r.nattrs == 0 && r.log == p.log
  {
    FeedLine(p, '(', name);
    var q1 := Char(p, '(');
    assert q1 == p.(buffer := [], line := StartLine, state := Key, element := [], nattrs := 0);
    FeedCollected(q1, name);
    var q2 := q1.(buffer := name);
    assert q1.buffer + name == name;
    assert Feed(q1, name) == q2;
    PlainStr(name);
    assert Char(q2, '\n') == q2.(element := name, buffer := [], state := Sol);
  }

  /** An 'A' line after a '(' or 'A' line adds its key and value as the next pair and sends nothing. */
  lemma AttrLineCollects(p: Parser, key: string, value: string)
    requires Valid(p) && p.state == Sol && !p.escape && p.line in {StartLine, AttrLine}
    requires Plain(key) && ' ' !in key && Plain(value) && |key| < BuffSize && |value| < BuffSize
    requires p.nattrs < AttrSize - 1
    ensures var r := Feed(p, ['A'] + key + [' '] + value + ['\n']);
      && Valid(r) && r.state == Sol && !r.escape && r.line == AttrLine
      && r.nattrs == p.nattrs + 1 && r.element == p.element && r.log == p.log
      && Attributes(r) == Attributes(p) + [(key, value)]
  {
    FeedPairLine(p, 'A', key, value);
    var q3 := p.(keys := p.keys[p.nattrs := key], buffer := [], line := AttrLine, state := Val);
    AttrKeyPhase(p, key);
    AttrValuePhase(q3, value);
    var r := q3.(vals := p.vals[p.nattrs := value], nattrs := p.nattrs + 1, state := Sol);
    AttributesAdded(p, r, key, value);
  }

  /** The 'A', the key and the space of an attribute line: the key is held in the next slot. */
  lemma AttrKeyPhase(p: Parser, key: string)
    requires Valid(p) && p.state == Sol && !p.escape && p.line in {StartLine, AttrLine}
    requires Plain(key) && ' ' !in key && |key| < BuffSize
    ensures Char(Feed(Char(p, 'A'), key), ' ')
      == p.(keys := p.keys[p.nattrs := key], buffer := [], line := AttrLine, state := Val)
  {
    PlainStr(key);
    var q1 := p.(buffer := [], line := AttrLine, state := Key);
    AttrLineOpens(p);
    FeedKey(q1, key);
    assert q1.buffer + key == key;
    KeyEnds(q1.(buffer := key));
  }

  /** An 'A' after a '(' or 'A' line sends nothing and starts collecting a key. */
  lemma AttrLineOpens(p: Parser)
    requires Valid(p) && p.state == Sol && !p.escape && p.line in {StartLine, AttrLine}
    ensures Char(p, 'A') == p.(buffer := [], line := AttrLine, state := Key)
  {
  }

  /** The space after an attribute's key stores the key in the next slot and starts the value. */
  lemma KeyEnds(q: Parser)
    requires Valid(q) && q.state == Key && !q.escape && q.line == AttrLine
    ensures Char(q, ' ') == q.(keys := q.keys[q.nattrs := CText.Str(q.buffer)], buffer := [], state := Val)
  {
  }

  /** The value and the newline of an attribute line: the value is held and the count goes up. */
  lemma AttrValuePhase(q: Parser, value: string)
    requires Valid(q) && q.state == Val && q.buffer == [] && !q.escape && q.line == AttrLine
    requires Plain(value) && |value| < BuffSize && q.nattrs < AttrSize - 1
    ensures Char(Feed(q, value), '\n') == q.(vals := q.vals[q.nattrs := value], nattrs := q.nattrs + 1, state := Sol)
  {
    PlainStr(value);
    FeedValue(q, value);
    var q4 := q.(buffer := value);
    assert q.buffer + value == value;
    assert Feed(q, value) == q4;
  }

  /** Filling the next key and value slot and counting it adds that pair to the attributes. */
  lemma AttributesAdded(p: Parser, r: Parser, key: string, value: string)
    requires Valid(p) && Valid(r) && r.nattrs == p.nattrs + 1
    requires r.keys == p.keys[p.nattrs := key] && r.vals == p.vals[p.nattrs := value]
    ensures Attributes(r) == Attributes(p) + [(key, value)]
  {
  }

  /** Once 63 attributes are held, further 'A' lines overwrite the last slot and the count stays. */
  lemma AttributeCountSaturates(p: Parser)
    requires Valid(p) && p.state != Sol && p.line == AttrLine && p.nattrs == AttrSize - 1
    ensures var r := Char(p, '\n'); r.nattrs == AttrSize - 1 && Attributes(r) == Attributes(p)
  {
    var r := Char(p, '\n');
    assert forall i :: 0 <= i < r.nattrs ==> r.vals[i] == p.vals[i];
  }

  /** An empty line starts an unknown line: the plain line after it is dropped, whatever its first character. */
  lemma BlankLineHidesNext(p: Parser, s: string)
    requires Settled(p) && Plain(s)
    ensures var r := Feed(p, ['\n'] + s + ['\n']);
      && Settled(r) && r.line == UnknownLine && r.log == p.log
  {
    FeedLine(p, '\n', s);
    var q1 := Char(p, '\n');
    assert q1 == p.(buffer := [], line := UnknownLine, state := Key);
    FeedDropped(q1, s);
    assert Char(q1, '\n') == q1.(buffer := [], state := Sol);
  }

  /** Plain characters of an unknown line are dropped. */
  lemma {:induction false} FeedDropped(p: Parser, s: string)
    requires Valid(p) && p.state != Sol && !p.escape && p.line == UnknownLine && Plain(s)
    ensures Feed(p, s) == p
    decreases |s|
  {
    if s != [] {
      FeedDropped(Char(p, s[0]), s[1..]);
    }
  }

  /** An escaped 'n' is a newline in the text, and an escaped backslash a backslash. */
  lemma EscapesInData(p: Parser)
    requires Valid(p) && p.state != Sol && !p.escape && p.line == DataLine && |p.buffer| + 2 < BuffSize
    ensures Feed(p, ['\\', 'n']).buffer == p.buffer + ['\n']
    ensures Feed(p, ['\\', '\\']).buffer == p.buffer + ['\\']
  {
    var e := Char(p, '\\');
    assert e == p.(escape := true);
    assert ['\\', 'n'][1..] == ['n'] && ['n'][1..] == [];
    assert ['\\', '\\'][1..] == ['\\'] && ['\\'][1..] == [];
  }
}
