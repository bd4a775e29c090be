/**
 * The parser proper (src/parser.c): creating and resetting a parser,
 * folding the tokeniser's tokens into the current segment, handing a
 * finished segment to the syntax the tokeniser recognised, and turning a
 * token's characters into text and release-indicator events.
 *
 * The syntax union of `edi_parser_t` is `Syntax`: which syntax's segment
 * handler is installed, with that syntax's counters.
 */
module Parser {
  import opened Wrappers
  import opened Common
  import CText
  import Params
  import Segments
  import Tokens
  import Directory
  import PS = ParserState
  import Edifact
  import X12
  import Ungtdi
  import Imp

  /** The installed segment handler and its private state; `NoSyntax` until the interchange type is known. */
  datatype Syntax =
    | NoSyntax
    | EdifactSyntax(edifact: Edifact.State)
    | X12Syntax(x12: X12.State)
    | UngtdiSyntax(ungtdi: Ungtdi.State)
    | ImpSyntax

  /** `edi_parser_t`. */
  datatype Parser<S> = Parser(core: PS.Core<S>, syntax: Syntax)

  // ---------------------------------------------------------------------
  // Creating and resetting
  // ---------------------------------------------------------------------

  /**
   * The state `edi_parser_init_state`, `_tokeniser`, `_dynamic` and
   * `_syntax` set up, around the handlers, user data, pragma and calls
   * already made, which they leave alone.
   */
  function Fresh<S>(handlers: map<PS.HandlerKind, nat>, userData: Option<nat>, pragma: Pragma,
                    log: seq<PS.Callback>, fsa0: S): (p: Parser<S>)
    ensures PS.Valid(p.core)
  {
    Parser(PS.Core(UNKNOWN, [], Segments.NewSegment(), ENONE, pragma, 0, [], 0, 0, userData, handlers,
                   Tokens.NewTokeniser(fsa0), [], None, false, log),
           NoSyntax)
  }

  /**
   * `edi_parser_init`: no handler and no user data, the default pragma
   * (character set, unknown transaction and segment errors are warnings),
   * nothing parsed, an empty segment, no syntax yet.
   */
  function Init<S>(fsa0: S): (p: Parser<S>)
    ensures PS.Valid(p.core)
    ensures p.core.handlers == map[] && p.core.userData.None? && p.core.log == []
    ensures p.core.pragma == DefaultPragma
    ensures forall e :: Tolerates(p.core.pragma, e) <==> e in {ECHARSET, ETUNKNOWN, ESEGMENT}
    ensures p.core.itype == UNKNOWN && p.core.error == ENONE && !p.core.done
    ensures p.core.segmentCount == 0 && p.core.de == 0 && p.core.cde == 0 && p.core.buffer == []
    ensures p.core.stack == [] && p.core.queue == [] && p.core.message.None? && p.syntax == NoSyntax
    ensures p.core.segment.cells == map[] && p.core.segment.de == 0
    ensures p.core.tokeniser == Tokens.NewTokeniser(fsa0)
  {
    forall e ensures Tolerates(DefaultPragma, e) <==> e in {ECHARSET, ETUNKNOWN, ESEGMENT} {
      DefaultPragmaTolerates(e);
    }
    Fresh(map[], None, DefaultPragma, [], fsa0)
  }

  /**
   * `edi_parser_reset`: everything `Init` sets up is set up again, except
   * that the handlers, the user data and the pragma are kept.
   */
  function Reset<S>(p: Parser<S>, fsa0: S): (r: Parser<S>)
    ensures r.core.handlers == p.core.handlers && r.core.userData == p.core.userData
    ensures r.core.pragma == p.core.pragma && r.core.log == p.core.log
    ensures r == Init(fsa0).(core := Init(fsa0).core.(handlers := p.core.handlers, userData := p.core.userData,
                                                      pragma := p.core.pragma, log := p.core.log))
  {
    Fresh(p.core.handlers, p.core.userData, p.core.pragma, p.core.log, fsa0)
  }

  /** Resetting twice is resetting once, and resetting a new parser gives a new parser. */
  lemma ResetIdempotent<S>(p: Parser<S>, fsa0: S)
    ensures Reset(Reset(p, fsa0), fsa0) == Reset(p, fsa0)
    ensures Reset(Init(fsa0), fsa0) == Init(fsa0)
  {
  }

  // ---------------------------------------------------------------------
  // Building the segment
  // ---------------------------------------------------------------------

  /** Storing a C string in a clean segment keeps it clean. */
  lemma SetElementClean(s: Segments.Segment, x: nat, y: nat, v: string)
    requires PS.Clean(s) && CText.NulFree(v)
    ensures PS.Clean(Segments.SetElement(s, x, y, Some(v), |v|))
  {
    var r := Segments.SetElement(s, x, y, Some(v), |v|);
    if x < Segments.NElems && y < Segments.NElems {
      forall cell | cell in r.cells ensures CText.NulFree(r.cells[cell]) {
        if cell == (x, y) {
          assert v[..|v|] == v;
        }
      }
    }
  }

  /**
   * `edi_parser_end_tag`: the parse buffer becomes the segment's code; the
   * buffer is emptied and both indices go back to 0.
   */
  function EndTag<S>(c: PS.Core<S>): (r: PS.Core<S>)
    requires PS.Valid(c) && |c.buffer| < Segments.TagBuffer
    ensures PS.Valid(r)
    ensures r.segment.tag == c.buffer && r.segment.cells == c.segment.cells
    ensures r.buffer == [] && r.de == 0 && r.cde == 0
    ensures r == c.(segment := r.segment, buffer := [], de := 0, cde := 0)
  {
    var seg := Segments.SetCode(c.segment, c.buffer, |c.buffer|);
    assert c.buffer[..|c.buffer|] == c.buffer;
    c.(segment := seg, buffer := [], de := 0, cde := 0)
  }

  /**
   * `edi_parser_end_element`: the parse buffer is stored at (de, cde),
   * then the next element starts, at its first component; the buffer is
   * emptied.
   */
  function EndElement<S>(c: PS.Core<S>): (r: PS.Core<S>)
    requires PS.Valid(c)
    ensures PS.Valid(r)
    ensures c.de < Segments.NElems && c.cde < Segments.NElems ==>
      Segments.GetElement(r.segment, c.de, c.cde) == (if c.buffer == [] then None else Some(c.buffer))
    ensures r.segment.tag == c.segment.tag
    ensures r.buffer == [] && r.de == c.de + 1 && r.cde == 0
    ensures r == c.(segment := r.segment, buffer := [], de := c.de + 1, cde := 0)
  {
    SetElementClean(c.segment, c.de, c.cde, c.buffer);
    var seg := Segments.SetElement(c.segment, c.de, c.cde, Some(c.buffer), |c.buffer|);
    assert c.buffer[..|c.buffer|] == c.buffer;
    c.(segment := seg, buffer := [], de := c.de + 1, cde := 0)
  }

  /** `edi_parser_end_subelement`: the parse buffer is stored at (de, cde), then the next component starts. */
  function EndSubelement<S>(c: PS.Core<S>): (r: PS.Core<S>)
    requires PS.Valid(c)
    ensures PS.Valid(r)
    ensures c.de < Segments.NElems && c.cde < Segments.NElems ==>
      Segments.GetElement(r.segment, c.de, c.cde) == (if c.buffer == [] then None else Some(c.buffer))
    ensures r.segment.tag == c.segment.tag
    ensures r.buffer == [] && r.de == c.de && r.cde == c.cde + 1
    ensures r == c.(segment := r.segment, buffer := [], cde := c.cde + 1)
  {
    SetElementClean(c.segment, c.de, c.cde, c.buffer);
    var seg := Segments.SetElement(c.segment, c.de, c.cde, Some(c.buffer), |c.buffer|);
    assert c.buffer[..|c.buffer|] == c.buffer;
    c.(segment := seg, buffer := [], cde := c.cde + 1)
  }

  /** `edi_parser_new_segment`: the buffer emptied, the segment cleared (its tag kept), one more segment counted, indices 0. */
  function NewSegment<S>(c: PS.Core<S>): (r: PS.Core<S>)
    requires PS.Valid(c)
    ensures PS.Valid(r)
    ensures r.segment.cells == map[] && r.segment.tag == c.segment.tag
    ensures r.segmentCount == c.segmentCount + 1 && r.buffer == [] && r.de == 0 && r.cde == 0
    ensures r == c.(segment := r.segment, buffer := [], segmentCount := c.segmentCount + 1, de := 0, cde := 0)
  {
    c.(buffer := [], segment := Segments.Clear(c.segment), segmentCount := c.segmentCount + 1, de := 0, cde := 0)
  }

  // ---------------------------------------------------------------------
  // Handing a finished segment to the syntax
  // ---------------------------------------------------------------------

  /** What the installed syntax's handler needs of the finished segment and the directory the client supplies. */
  predicate Fits(syntax: Syntax, seg: Segments.Segment, supplied: Option<Directory.Dir>) {
    match syntax
    case EdifactSyntax(_) => Edifact.HeadFits(seg, supplied)
    case X12Syntax(_) => X12.HeadFits(seg, supplied)
    case UngtdiSyntax(_) => Ungtdi.HeadFits(seg, supplied)
    case _ => true
  }

  /**
   * `self->sgmnt_handler(self)` when one is installed, its result
   * discarded: the syntax's handler runs on the parser and keeps its new
   * counters.  Without a syntax nothing happens.
   */
  function Dispatch<S>(c: PS.Core<S>, syntax: Syntax, supplied: Option<Directory.Dir>): (r: (PS.Core<S>, Syntax))
    requires PS.Valid(c) && Directory.Valid(supplied) && Fits(syntax, c.segment, supplied)
    ensures PS.Valid(r.0) && PS.Keeps(c, r.0)
    ensures syntax.NoSyntax? <==> r.1.NoSyntax?
    ensures syntax.NoSyntax? ==> r.0 == c
    ensures syntax.ImpSyntax? <==> r.1.ImpSyntax?
    ensures syntax.EdifactSyntax? <==> r.1.EdifactSyntax?
    ensures syntax.X12Syntax? <==> r.1.X12Syntax?
  {
    match syntax
    case NoSyntax => (c, syntax)
    case EdifactSyntax(st) => EdifactDispatch(c, st, supplied)
    case X12Syntax(st) => X12Dispatch(c, st, supplied)
    case UngtdiSyntax(st) => UngtdiDispatch(c, st, supplied)
    case ImpSyntax => (Imp.Handle(c).0, ImpSyntax)
  }

  function EdifactDispatch<S>(c: PS.Core<S>, st: Edifact.State, supplied: Option<Directory.Dir>): (r: (PS.Core<S>, Syntax))
    requires PS.Valid(c) && Directory.Valid(supplied) && Edifact.HeadFits(c.segment, supplied)
    ensures PS.Valid(r.0) && PS.Keeps(c, r.0) && r.1.EdifactSyntax?
  {
    var (c', st', _) := Edifact.Handle(c, st, supplied);
    (c', EdifactSyntax(st'))
  }

  function X12Dispatch<S>(c: PS.Core<S>, st: X12.State, supplied: Option<Directory.Dir>): (r: (PS.Core<S>, Syntax))
    requires PS.Valid(c) && Directory.Valid(supplied) && X12.HeadFits(c.segment, supplied)
    ensures PS.Valid(r.0) && PS.Keeps(c, r.0) && r.1.X12Syntax?
  {
    var (c', st', _) := X12.Handle(c, st, supplied);
    (c', X12Syntax(st'))
  }

  function UngtdiDispatch<S>(c: PS.Core<S>, st: Ungtdi.State, supplied: Option<Directory.Dir>): (r: (PS.Core<S>, Syntax))
    requires PS.Valid(c) && Directory.Valid(supplied) && Ungtdi.HeadFits(c.segment, supplied)
    ensures PS.Valid(r.0) && PS.Keeps(c, r.0) && r.1.UngtdiSyntax?
  {
    var (c', st', _) := Ungtdi.Handle(c, st, supplied);
    (c', UngtdiSyntax(st'))
  }

  // ---------------------------------------------------------------------
  // The token handler
  // ---------------------------------------------------------------------

  /**
   * What `edi_parser_token_handler` needs: a valid parser whose strings
   * stay C strings, a tag short enough for the segment's code buffer, and
   * a finished segment the installed syntax can handle.
   */
  predicate Ready<S>(p: Parser<S>, t: Tokens.Token, supplied: Option<Directory.Dir>) {
    && PS.Valid(p.core) && Directory.Valid(supplied) && CText.NulFree(t.cdata)
    && (t.ttype == Tokens.TTS ==> |p.core.buffer| < Segments.TagBuffer)
    && (t.ttype == Tokens.TST ==> Fits(p.syntax, EndElement(p.core).segment, supplied))
  }

  /** Appending C strings gives a C string. */
  lemma NulFreeAppend(a: string, b: string)
    requires CText.NulFree(a) && CText.NulFree(b)
    ensures CText.NulFree(a + b)
  {
    assert forall i :: 0 <= i < |a + b| ==> (a + b)[i] == (if i < |a| then a[i] else b[i - |a|]);
  }

  /**
   * `edi_parser_token_handler`: the token joins the queue; a segment
   * terminator stores the last element, runs the syntax's handler once,
   * starts a new segment and drops whatever is still queued; a component
   * or element separator stores the buffer; a tag separator makes the
   * buffer the segment's code; tag and element data join the buffer.  The
   * result is the done flag.
   */
  function TokenHandler<S>(p: Parser<S>, t: Tokens.Token, supplied: Option<Directory.Dir>): (r: (Parser<S>, bool))
    requires Ready(p, t, supplied)
    ensures PS.Valid(r.0.core) && r.1 == r.0.core.done
    ensures r.0.core.handlers == p.core.handlers && r.0.core.pragma == p.core.pragma
    ensures t.ttype == Tokens.TST ==>
      && r.0.core.segmentCount == p.core.segmentCount + 1
      && r.0.core.segment.cells == map[] && r.0.core.segment.tag == p.core.segment.tag
      && r.0.core.buffer == [] && r.0.core.de == 0 && r.0.core.cde == 0 && r.0.core.queue == []
    ensures t.ttype != Tokens.TST ==>
      && r.0.syntax == p.syntax && r.0.core.queue == p.core.queue + [t]
      && r.0.core.stack == p.core.stack && r.0.core.log == p.core.log
      && r.0.core.error == p.core.error && r.0.core.done == p.core.done
      && r.0.core.segmentCount == p.core.segmentCount
    ensures t.ttype in {Tokens.TTG, Tokens.TEL} ==>
      r.0.core == p.core.(queue := p.core.queue + [t], buffer := p.core.buffer + t.cdata)
    ensures t.ttype == Tokens.TSA ==> r.0.core == p.core.(queue := p.core.queue + [t])
  {
    var c := p.core.(queue := p.core.queue + [t]);
    match t.ttype
    case TST =>
      var q := Terminate(EndElement(c), p.syntax, supplied);
      (q, q.core.done)
    case TSS =>
      var c1 := EndSubelement(c);
      (Parser(c1, p.syntax), c1.done)
    case TES =>
      var c1 := EndElement(c);
      (Parser(c1, p.syntax), c1.done)
    case TTS =>
      var c1 := EndTag(c);
      (Parser(c1, p.syntax), c1.done)
    case TTG =>
      NulFreeAppend(c.buffer, t.cdata);
      var c1 := c.(buffer := c.buffer + t.cdata);
      (Parser(c1, p.syntax), c1.done)
    case TEL =>
      NulFreeAppend(c.buffer, t.cdata);
      var c1 := c.(buffer := c.buffer + t.cdata);
      (Parser(c1, p.syntax), c1.done)
    case TSA =>
      (Parser(c, p.syntax), c.done)
  }

  /**
   * The segment terminator's work once the last element is stored: the
   * syntax's handler runs, then a new segment starts with nothing queued.
   */
  function Terminate<S>(c: PS.Core<S>, syntax: Syntax, supplied: Option<Directory.Dir>): (r: Parser<S>)
    requires PS.Valid(c) && Directory.Valid(supplied) && Fits(syntax, c.segment, supplied)
    ensures PS.Valid(r.core)
    ensures r.core.handlers == c.handlers && r.core.pragma == c.pragma
    ensures r.core.segmentCount == c.segmentCount + 1
    ensures r.core.segment.cells == map[] && r.core.segment.tag == c.segment.tag
    ensures r.core.buffer == [] && r.core.de == 0 && r.core.cde == 0 && r.core.queue == []
  {
    var (c2, next) := Dispatch(c, syntax, supplied);
    Parser(NewSegment(c2).(queue := []), next)
  }

  /** A token of the given type carrying `data` as both its raw and cooked text. */
  function DataToken(ttype: Tokens.TokenType, data: string): (t: Tokens.Token)
    ensures t.ttype == ttype && t.cdata == data
  {
    Tokens.Token(ttype, 0, data, data, seq(|data|, _ => false), true, true, false)
  }

  /**
   * The tokens of a two-component element, `a`, a component separator,
   * `b` and an element separator, land in cells (de, 0) and (de, 1) and
   * move on to the next element.
   */
  lemma {:induction false} CompositeElement<S>(p: Parser<S>, a: string, b: string, supplied: Option<Directory.Dir>)
    requires PS.Valid(p.core) && Directory.Valid(supplied) && CText.NulFree(a) && CText.NulFree(b)
    requires p.core.buffer == [] && p.core.cde == 0 && p.core.de < Segments.NElems
    ensures var p1 := TokenHandler(p, DataToken(Tokens.TEL, a), supplied).0;
      var p2 := TokenHandler(p1, DataToken(Tokens.TSS, []), supplied).0;
      var p3 := TokenHandler(p2, DataToken(Tokens.TEL, b), supplied).0;
      var p4 := TokenHandler(p3, DataToken(Tokens.TES, []), supplied).0;
      && Segments.GetElement(p4.core.segment, p.core.de, 0) == (if a == [] then None else Some(a))
      && Segments.GetElement(p4.core.segment, p.core.de, 1) == (if b == [] then None else Some(b))
      && p4.core.de == p.core.de + 1 && p4.core.cde == 0 && p4.core.buffer == []
      && p4.core.log == p.core.log && p4.syntax == p.syntax
  {
    var de := p.core.de;
    var p1 := TokenHandler(p, DataToken(Tokens.TEL, a), supplied).0;
    var p2 := TokenHandler(p1, DataToken(Tokens.TSS, []), supplied).0;
    DataThenSeparator(p, a, Tokens.TSS, supplied);
    Segments.GetAfterSet(p.core.segment, de, 0, a);
    var p3 := TokenHandler(p2, DataToken(Tokens.TEL, b), supplied).0;
    var p4 := TokenHandler(p3, DataToken(Tokens.TES, []), supplied).0;
    DataThenSeparator(p2, b, Tokens.TES, supplied);
    Segments.GetAfterSet(p2.core.segment, de, 1, b);
    Segments.GetOtherAfterSet(p2.core.segment, de, 1, Some(b), |b|, de, 0);
  }

  /** Element data then a component or element separator: the data is stored in the current cell. */
  lemma DataThenSeparator<S>(p: Parser<S>, a: string, sep: Tokens.TokenType, supplied: Option<Directory.Dir>)
    requires PS.Valid(p.core) && Directory.Valid(supplied) && CText.NulFree(a)
    requires p.core.buffer == [] && (sep == Tokens.TSS || sep == Tokens.TES)
    ensures var p1 := TokenHandler(p, DataToken(Tokens.TEL, a), supplied).0;
      var p2 := TokenHandler(p1, DataToken(sep, []), supplied).0;
      && PS.Valid(p2.core)
      && p2.core.segment == Segments.SetElement(p.core.segment, p.core.de, p.core.cde, Some(a), |a|)
      && p2.core.buffer == [] && p2.core.log == p.core.log && p2.syntax == p.syntax
      && (sep == Tokens.TSS ==> p2.core.de == p.core.de && p2.core.cde == p.core.cde + 1)
      && (sep == Tokens.TES ==> p2.core.de == p.core.de + 1 && p2.core.cde == 0)
  {
    var p1 := TokenHandler(p, DataToken(Tokens.TEL, a), supplied).0;
    assert p1.core == p.core.(queue := p.core.queue + [DataToken(Tokens.TEL, a)], buffer := a);
    assert a[..|a|] == a;
  }

  // ---------------------------------------------------------------------
  // Characters of a tag or element
  // ---------------------------------------------------------------------

  /** `edi_element_info_t`: where in which segment of which directory the characters stand. */
  datatype ElementInfo = ElementInfo(tag: string, d: Option<Directory.Dir>, e: nat, s: nat)

  /** The directory can place item `e`, component `s`, of the tag's segment. */
  predicate InfoDefined(info: ElementInfo) {
    && Directory.Valid(info.d)
    && Directory.SegmentItemDefined(info.d, Some(info.tag), info.e)
    && var it := Directory.SegmentItem(info.d, Some(info.tag), info.e);
       it.code.Some? && it.itemType != 0 ==> Directory.CompositeItemDefined(info.d, it.code, info.s)
  }

  /** The slots `handle_chars` may fill. */
  const ElementKeys: set<nat> := {Params.Element, Params.Subelement, Params.Code, Params.Name, Params.Desc, Params.Note, Params.List}

  /**
   * The parameters `handle_chars` starts an event with: nothing for a
   * continuation fragment or a tag; for the first fragment of an element,
   * its position in decimal and as numbers, the directory's code for that
   * position, the code's name, description and note, and the code-list
   * entry the cooked data names.
   */
  function CharsParameters(t: Tokens.Token, info: ElementInfo): (p: Params.Parameters)
    requires InfoDefined(info)
    ensures Params.ValidParameters(p)
    ensures !t.first || t.ttype == Tokens.TTG ==>
      p == Params.EmptyParameters()
    ensures t.first && t.ttype != Tokens.TTG ==>
      var code := Directory.FindElement(info.d, Some(info.tag), info.e, info.s);
      && p.element == info.e && p.subelement == info.s
      && p.values[Params.Element] == Some(CText.FormatInt(info.e))
      && p.values[Params.Subelement] == Some(CText.FormatInt(info.s))
      && p.values[Params.Code] == code
      && p.values[Params.Name] == Directory.Describe(info.d, Directory.ElementEntity, Directory.NameField, code)
      && p.values[Params.Desc] == Directory.Describe(info.d, Directory.ElementEntity, Directory.DescField, code)
      && p.values[Params.Note] == Directory.Describe(info.d, Directory.ElementEntity, Directory.NoteField, code)
      && p.values[Params.List] == Directory.CodelistValue(info.d, code, Some(t.cdata))
      && forall k :: 0 <= k < Params.MaxParameter && k !in ElementKeys ==> p.values[k].None?
  {
    var p0 := Params.EmptyParameters();
    if !t.first || t.ttype == Tokens.TTG then p0
    else
      var d := info.d;
      var code := Directory.FindElement(d, Some(info.tag), info.e, info.s);
      var p1 := p0.(element := info.e, subelement := info.s);
      var p2 := Params.SetOne(p1, Params.Element, Some(CText.FormatInt(info.e)));
      var p3 := Params.SetOne(p2, Params.Subelement, Some(CText.FormatInt(info.s)));
      var p4 := Params.SetOne(p3, Params.Code, code);
      var p5 := Params.SetOne(p4, Params.Name, Directory.Describe(d, Directory.ElementEntity, Directory.NameField, code));
      var p6 := Params.SetOne(p5, Params.Desc, Directory.Describe(d, Directory.ElementEntity, Directory.DescField, code));
      var p7 := Params.SetOne(p6, Params.Note, Directory.Describe(d, Directory.ElementEntity, Directory.NoteField, code));
      Params.SetOne(p7, Params.List, Directory.CodelistValue(d, code, Some(t.cdata)))
  }

  /** The position parameters read back, through `atoi`, as the element and component numbers. */
  lemma PositionReadsBack(t: Tokens.Token, info: ElementInfo)
    requires InfoDefined(info) && t.first && t.ttype != Tokens.TTG
    ensures var p := CharsParameters(t, info);
      && CText.Atoi(p.values[Params.Element].value) == p.element == info.e
      && CText.Atoi(p.values[Params.Subelement].value) == p.subelement == info.s
  {
    CText.AtoiFormatInt(info.e);
    CText.AtoiFormatInt(info.s);
  }

  /** One event of the characters: a run of raw text, or a release indicator. */
  datatype Piece = TextRun(text: string) | RiSep(ch: char)

  /**
   * The loop over the raw data when release indicators were removed: from
   * byte `n` on, with the pending run starting at `x`, each flagged byte
   * closes the run before it (when non-empty) and becomes a separator; the
   * run left at the end follows.
   */
  function Runs(raw: string, ri: seq<bool>, n: nat, x: nat): (r: seq<Piece>)
    requires |ri| == |raw| && x <= n <= |raw|
    ensures forall i :: 0 <= i < |r| && r[i].TextRun? ==> r[i].text != []
    decreases |raw| - n
  {
    var pending := if n > x then [TextRun(raw[x..n])] else [];
    if n == |raw| then pending
    else if ri[n] then pending + [RiSep(raw[n])] + Runs(raw, ri, n + 1, n + 1)
    else Runs(raw, ri, n + 1, x)
  }

  /** The characters the pieces carry, separators included. */
  function Flatten(pieces: seq<Piece>): string {
    if pieces == [] then []
    else PieceChars(pieces[0]) + Flatten(pieces[1..])
  }

  /** The characters of the text runs only. */
  function Texts(pieces: seq<Piece>): string {
    if pieces == [] then []
    else PieceText(pieces[0]) + Texts(pieces[1..])
  }

  /** The separators, in order. */
  function Separators(pieces: seq<Piece>): string {
    if pieces == [] then []
    else PieceSeparator(pieces[0]) + Separators(pieces[1..])
  }

  function PieceChars(piece: Piece): string {
    match piece case TextRun(t) => t case RiSep(ch) => [ch]
  }

  function PieceText(piece: Piece): string {
    match piece case TextRun(t) => t case RiSep(_) => []
  }

  function PieceSeparator(piece: Piece): string {
    match piece case TextRun(_) => [] case RiSep(ch) => [ch]
  }

  /** The flagged bytes of `raw` from `n` on, in order. */
  function Flagged(raw: string, ri: seq<bool>, n: nat): string
    requires |ri| == |raw| && n <= |raw|
    decreases |raw| - n
  {
    if n == |raw| then [] else (if ri[n] then [raw[n]] else []) + Flagged(raw, ri, n + 1)
  }

  lemma FlattenAppend(a: seq<Piece>, b: seq<Piece>)
    ensures Flatten(a + b) == Flatten(a) + Flatten(b)
    ensures Texts(a + b) == Texts(a) + Texts(b)
    ensures Separators(a + b) == Separators(a) + Separators(b)
  {
    FlattenOnly(a, b);
    TextsOnly(a, b);
    SeparatorsOnly(a, b);
  }

  lemma {:induction false} FlattenOnly(a: seq<Piece>, b: seq<Piece>)
    ensures Flatten(a + b) == Flatten(a) + Flatten(b)
    decreases |a|
  {
    if a == [] {
      assert a + b == b;
    } else {
      assert (a + b)[0] == a[0] && (a + b)[1..] == a[1..] + b;
      FlattenOnly(a[1..], b);
    }
  }

  lemma {:induction false} TextsOnly(a: seq<Piece>, b: seq<Piece>)
    ensures Texts(a + b) == Texts(a) + Texts(b)
    decreases |a|
  {
    if a == [] {
      assert a + b == b;
    } else {
      assert (a + b)[0] == a[0] && (a + b)[1..] == a[1..] + b;
      TextsOnly(a[1..], b);
    }
  }

  lemma {:induction false} SeparatorsOnly(a: seq<Piece>, b: seq<Piece>)
    ensures Separators(a + b) == Separators(a) + Separators(b)
    decreases |a|
  {
    if a == [] {
      assert a + b == b;
    } else {
      assert (a + b)[0] == a[0] && (a + b)[1..] == a[1..] + b;
      SeparatorsOnly(a[1..], b);
    }
  }

  /** A lone release indicator carries its character, as a separator and not as text. */
  lemma SeparatorPiece(ch: char)
    ensures Flatten([RiSep(ch)]) == [ch] && Texts([RiSep(ch)]) == [] && Separators([RiSep(ch)]) == [ch]
  {
    var sep := [RiSep(ch)];
    assert sep[0] == RiSep(ch) && sep[1..] == [];
  }

  lemma JoinFlatten(a: seq<Piece>, b: seq<Piece>, c: seq<Piece>)
    ensures Flatten(a + b + c) == Flatten(a) + Flatten(b) + Flatten(c)
  {
    FlattenOnly(a + b, c);
    FlattenOnly(a, b);
  }

  lemma JoinTexts(a: seq<Piece>, b: seq<Piece>, c: seq<Piece>)
    ensures Texts(a + b + c) == Texts(a) + Texts(b) + Texts(c)
  {
    TextsOnly(a + b, c);
    TextsOnly(a, b);
  }

  lemma JoinSeparators(a: seq<Piece>, b: seq<Piece>, c: seq<Piece>)
    ensures Separators(a + b + c) == Separators(a) + Separators(b) + Separators(c)
  {
    SeparatorsOnly(a + b, c);
    SeparatorsOnly(a, b);
  }

  /** What a pending run carries: its text, and no separator. */
  lemma PendingRun(raw: string, x: nat, n: nat)
    requires x <= n <= |raw|
    ensures var pending := if n > x then [TextRun(raw[x..n])] else [];
      && Flatten(pending) == raw[x..n] && Texts(pending) == raw[x..n] && Separators(pending) == []
  {
    if n > x {
      assert [TextRun(raw[x..n])][1..] == [];
    }
  }

  /** The pieces put back together are the raw data from the pending run on. */
  lemma {:induction false} RunsFlatten(raw: string, ri: seq<bool>, n: nat, x: nat)
    requires |ri| == |raw| && x <= n <= |raw|
    ensures Flatten(Runs(raw, ri, n, x)) == raw[x..]
    decreases |raw| - n
  {
    if n == |raw| {
      PendingRun(raw, x, n);
      assert raw[x..] == raw[x..n];
    } else if ri[n] {
      RunsFlatten(raw, ri, n + 1, n + 1);
      FlattenAtFlag(raw, ri, n, x);
    } else {
      assert Runs(raw, ri, n, x) == Runs(raw, ri, n + 1, x);
      RunsFlatten(raw, ri, n + 1, x);
    }
  }

  /** One step of `RunsFlatten` at a flagged byte, given the pieces after it. */
  lemma FlattenAtFlag(raw: string, ri: seq<bool>, n: nat, x: nat)
    requires |ri| == |raw| && x <= n < |raw| && ri[n]
    requires Flatten(Runs(raw, ri, n + 1, n + 1)) == raw[n + 1..]
    ensures Flatten(Runs(raw, ri, n, x)) == raw[x..]
  {
    var pending := if n > x then [TextRun(raw[x..n])] else [];
    var rest := Runs(raw, ri, n + 1, n + 1);
    PendingRun(raw, x, n);
    assert Runs(raw, ri, n, x) == pending + [RiSep(raw[n])] + rest;
    SeparatorPiece(raw[n]);
    JoinFlatten(pending, [RiSep(raw[n])], rest);
    SliceAround(raw, x, n);
  }

  lemma SliceAround(raw: string, x: nat, n: nat)
    requires x <= n < |raw|
    ensures raw[x..] == raw[x..n] + [raw[n]] + raw[n + 1..]
  {
  }

  /** Raw bytes none of which is flagged come through unchanged. */
  lemma {:induction false} UnflaggedUnreleased(raw: string, ri: seq<bool>)
    requires |ri| == |raw| && forall i :: 0 <= i < |ri| ==> !ri[i]
    ensures Tokens.Unreleased(raw, ri) == raw
  {
    Tokens.UnreleasedWhole(raw, ri);
  }

  /** The separators are exactly the flagged bytes from `n` on. */
  lemma {:induction false} RunsSeparators(raw: string, ri: seq<bool>, n: nat, x: nat)
    requires |ri| == |raw| && x <= n <= |raw|
    ensures Separators(Runs(raw, ri, n, x)) == Flagged(raw, ri, n)
    decreases |raw| - n
  {
    if n == |raw| {
      PendingRun(raw, x, n);
    } else if ri[n] {
      RunsSeparators(raw, ri, n + 1, n + 1);
      SeparatorsAtFlag(raw, ri, n, x);
    } else {
      assert Runs(raw, ri, n, x) == Runs(raw, ri, n + 1, x);
      RunsSeparators(raw, ri, n + 1, x);
    }
  }

  /** One step of `RunsSeparators` at a flagged byte, given the separators after it. */
  lemma SeparatorsAtFlag(raw: string, ri: seq<bool>, n: nat, x: nat)
    requires |ri| == |raw| && x <= n < |raw| && ri[n]
    requires Separators(Runs(raw, ri, n + 1, n + 1)) == Flagged(raw, ri, n + 1)
    ensures Separators(Runs(raw, ri, n, x)) == Flagged(raw, ri, n)
  {
    var pending := if n > x then [TextRun(raw[x..n])] else [];
    var rest := Runs(raw, ri, n + 1, n + 1);
    PendingRun(raw, x, n);
    assert Runs(raw, ri, n, x) == pending + [RiSep(raw[n])] + rest;
    SeparatorPiece(raw[n]);
    JoinSeparators(pending, [RiSep(raw[n])], rest);
  }

  /** Cooking raw data whose first flag is at `n`: the bytes before it, then the cooked rest after it. */
  lemma CookAtFlag(raw: string, ri: seq<bool>, n: nat, x: nat)
    requires |ri| == |raw| && x <= n < |raw| && ri[n]
    requires forall i :: x <= i < n ==> !ri[i]
    ensures Tokens.Unreleased(raw[x..], ri[x..]) == raw[x..n] + Tokens.Unreleased(raw[n + 1..], ri[n + 1..])
  {
    UnflaggedUnreleased(raw[x..n], ri[x..n]);
    assert raw[x..] == raw[x..n] + [raw[n]] + raw[n + 1..];
    assert ri[x..] == ri[x..n] + [true] + ri[n + 1..];
    Tokens.UnreleasedAround(raw[x..n], ri[x..n], raw[n], raw[n + 1..], ri[n + 1..]);
  }

  /** Cooking raw data with no flag from `x` on changes nothing. */
  lemma CookUnflagged(raw: string, ri: seq<bool>, x: nat)
    requires |ri| == |raw| && x <= |raw|
    requires forall i :: x <= i < |raw| ==> !ri[i]
    ensures Tokens.Unreleased(raw[x..], ri[x..]) == raw[x..]
  {
    UnflaggedUnreleased(raw[x..], ri[x..]);
  }

  /**
   * The text runs alone are the raw data from the pending run on with the
   * release indicators removed, given no flag in the pending run.
   */
  lemma {:induction false} RunsTexts(raw: string, ri: seq<bool>, n: nat, x: nat)
    requires |ri| == |raw| && x <= n <= |raw|
    requires forall i :: x <= i < n ==> !ri[i]
    ensures Texts(Runs(raw, ri, n, x)) == Tokens.Unreleased(raw[x..], ri[x..])
    decreases |raw| - n
  {
    if n == |raw| {
      TextsAtEnd(raw, ri, x);
    } else if ri[n] {
      RunsTexts(raw, ri, n + 1, n + 1);
      TextsAtFlag(raw, ri, n, x);
    } else {
      RunsTexts(raw, ri, n + 1, x);
      assert Runs(raw, ri, n, x) == Runs(raw, ri, n + 1, x);
    }
  }

  /** The last step of `RunsTexts`: only the pending run is left, and it holds no flag. */
  lemma TextsAtEnd(raw: string, ri: seq<bool>, x: nat)
    requires |ri| == |raw| && x <= |raw|
    requires forall i :: x <= i < |raw| ==> !ri[i]
    ensures Texts(Runs(raw, ri, |raw|, x)) == Tokens.Unreleased(raw[x..], ri[x..])
  {
    PendingRun(raw, x, |raw|);
    CookUnflagged(raw, ri, x);
    assert raw[x..] == raw[x..|raw|];
  }

  /** One step of `RunsTexts` at a flagged byte, given the text runs after it. */
  lemma TextsAtFlag(raw: string, ri: seq<bool>, n: nat, x: nat)
    requires |ri| == |raw| && x <= n < |raw| && ri[n]
    requires forall i :: x <= i < n ==> !ri[i]
    requires Texts(Runs(raw, ri, n + 1, n + 1)) == Tokens.Unreleased(raw[n + 1..], ri[n + 1..])
    ensures Texts(Runs(raw, ri, n, x)) == Tokens.Unreleased(raw[x..], ri[x..])
  {
    var pending := if n > x then [TextRun(raw[x..n])] else [];
    var rest := Runs(raw, ri, n + 1, n + 1);
    PendingRun(raw, x, n);
    assert Runs(raw, ri, n, x) == pending + [RiSep(raw[n])] + rest;
    SeparatorPiece(raw[n]);
    JoinTexts(pending, [RiSep(raw[n])], rest);
    CookAtFlag(raw, ri, n, x);
  }

  /** The event of one piece: a text run goes to the text handler, a release indicator to the separator handler. */
  function EmitOne<S>(c: PS.Core<S>, piece: Piece): (r: PS.Core<S>)
    ensures r == c.(log := r.log) && c.log <= r.log
  {
    match piece
    case TextRun(t) => PS.HandleText(c, t)
    case RiSep(ch) => PS.HandleSeparator(c, RI, ch)
  }

  /** The text and release-indicator events of the pieces, in order. */
  function Emit<S>(c: PS.Core<S>, pieces: seq<Piece>): (r: PS.Core<S>)
    ensures r == c.(log := r.log) && c.log <= r.log
    decreases |pieces|
  {
    if pieces == [] then c else Emit(EmitOne(c, pieces[0]), pieces[1..])
  }

  /** The characters a run of calls carries: text, default text and separators. */
  function Said(calls: seq<PS.Callback>): string {
    if calls == [] then [] else CharsOf(calls[0]) + Said(calls[1..])
  }

  /** The characters one call carries. */
  function CharsOf(call: PS.Callback): string {
    match call
    case TextCall(t) => t
    case DefaultCall(t) => t
    case SeparatorCall(_, ch) => [ch]
    case _ => []
  }

  lemma {:induction false} SaidAppend(a: seq<PS.Callback>, b: seq<PS.Callback>)
    ensures Said(a + b) == Said(a) + Said(b)
    decreases |a|
  {
    if a == [] {
      assert a + b == b;
    } else {
      assert (a + b)[0] == a[0] && (a + b)[1..] == a[1..] + b;
      SaidAppend(a[1..], b);
    }
  }

  /** Text reaches a client when a text or a default handler is installed, and a separator when a separator or a default handler is. */
  predicate Hears<S>(c: PS.Core<S>) {
    && (PS.TextHandler in c.handlers || PS.DefaultHandler in c.handlers)
    && (PS.SeparatorHandler in c.handlers || PS.DefaultHandler in c.handlers)
  }

  /** A client that hears text and separators receives the characters of one piece. */
  lemma EmitOneSays<S>(c: PS.Core<S>, piece: Piece)
    requires Hears(c)
    ensures Said(EmitOne(c, piece).log[|c.log|..]) == Flatten([piece])
  {
    var r := EmitOne(c, piece);
    var call := r.log[|c.log|..];
    assert [piece][1..] == [];
    match piece
    case TextRun(t) =>
      assert call == [PS.TextCall(t)] || call == [PS.DefaultCall(t)];
      assert call[1..] == [];
    case RiSep(ch) =>
      assert call == [PS.SeparatorCall(RI, ch)] || call == [PS.DefaultCall([ch])];
      assert call[1..] == [];
  }

  /** A client that hears text and separators receives every character of the pieces, in order. */
  lemma {:induction false} EmitSays<S>(c: PS.Core<S>, pieces: seq<Piece>)
    requires Hears(c)
    ensures Said(Emit(c, pieces).log[|c.log|..]) == Flatten(pieces)
    decreases |pieces|
  {
    if pieces == [] {
      assert Emit(c, pieces).log[|c.log|..] == [];
    } else {
      EmitSays(EmitOne(c, pieces[0]), pieces[1..]);
      EmitStep(c, pieces);
    }
  }

  /** One step of `EmitSays`: the first piece's characters, then what the rest says. */
  lemma EmitStep<S>(c: PS.Core<S>, pieces: seq<Piece>)
    requires Hears(c) && pieces != []
    requires var c1 := EmitOne(c, pieces[0]);
      Said(Emit(c1, pieces[1..]).log[|c1.log|..]) == Flatten(pieces[1..])
    ensures Said(Emit(c, pieces).log[|c.log|..]) == Flatten(pieces)
  {
    var c1 := EmitOne(c, pieces[0]);
    var r := Emit(c, pieces);
    assert r == Emit(c1, pieces[1..]);
    EmitOneSays(c, pieces[0]);
    SaidSplit(c.log, c1.log, r.log);
    FlattenOnly([pieces[0]], pieces[1..]);
    assert pieces == [pieces[0]] + pieces[1..];
  }

  /** The characters of two successive stretches of calls, together. */
  lemma SaidSplit(l0: seq<PS.Callback>, l1: seq<PS.Callback>, l2: seq<PS.Callback>)
    requires l0 <= l1 <= l2
    ensures Said(l2[|l0|..]) == Said(l1[|l0|..]) + Said(l2[|l1|..])
  {
    assert l2[|l0|..] == l1[|l0|..] + l2[|l1|..];
    SaidAppend(l1[|l0|..], l2[|l1|..]);
  }

  /**
   * The characters of a fragment: when release indicators were removed,
   * the raw data as text runs and release-indicator separators; otherwise
   * the cooked data as one text, if there is any.
   */
  function CharsBody<S>(c: PS.Core<S>, t: Tokens.Token): (r: PS.Core<S>)
    requires |t.ri| == |t.rdata|
    ensures r == c.(log := r.log) && c.log <= r.log
    ensures |t.rdata| == |t.cdata| && |t.cdata| == 0 ==> r == c
  {
    if |t.rdata| != |t.cdata| then Emit(c, Runs(t.rdata, t.ri, 0, 0))
    else if |t.cdata| > 0 then PS.HandleText(c, t.cdata)
    else c
  }

  /** A client that hears text and separators receives exactly the raw characters of a fragment. */
  lemma CharsBodySays<S>(c: PS.Core<S>, t: Tokens.Token)
    requires Tokens.ValidToken(t) && Hears(c)
    ensures Said(CharsBody(c, t).log[|c.log|..]) == t.rdata
  {
    var r := CharsBody(c, t);
    if |t.rdata| != |t.cdata| {
      EmitSays(c, Runs(t.rdata, t.ri, 0, 0));
      RunsFlatten(t.rdata, t.ri, 0, 0);
      assert t.rdata[0..] == t.rdata;
    } else {
      Tokens.UnreleasedWhole(t.rdata, t.ri);
      var body := r.log[|c.log|..];
      if |t.cdata| > 0 {
        assert body == [PS.TextCall(t.cdata)] || body == [PS.DefaultCall(t.cdata)];
        assert body[1..] == [];
      } else {
        assert body == [];
      }
    }
  }

  /** Start and end calls carry no characters. */
  lemma SaidFrame(calls: seq<PS.Callback>, event: EventKind, p: Params.Parameters)
    requires calls == [] || calls == [PS.StartCall(event, p)] || calls == [PS.EndCall(event)]
    ensures Said(calls) == []
  {
    if calls != [] {
      assert calls[1..] == [];
    }
  }

  /** The calls for a fragment: start with `p` if first, the characters, end if last. */
  function Framed<S>(c: PS.Core<S>, event: EventKind, t: Tokens.Token, p: Params.Parameters): (r: PS.Core<S>)
    requires |t.ri| == |t.rdata|
    ensures r == c.(log := r.log) && c.log <= r.log
    ensures t.first && PS.StartHandler in c.handlers ==>
      |r.log| > |c.log| && r.log[|c.log|] == PS.StartCall(event, p)
    ensures t.last && PS.EndHandler in c.handlers ==>
      |r.log| > |c.log| && r.log[|r.log| - 1] == PS.EndCall(event)
    ensures |t.rdata| == |t.cdata| && |t.cdata| == 0 ==>
      r.log == c.log + (if t.first && PS.StartHandler in c.handlers then [PS.StartCall(event, p)] else [])
                     + (if t.last && PS.EndHandler in c.handlers then [PS.EndCall(event)] else [])
  {
    var c1 := if t.first then PS.HandleStart(c, event, p) else c;
    var c2 := CharsBody(c1, t);
    if t.last then PS.HandleEnd(c2, event) else c2
  }

  /** Between the start and the end, a client that hears text and separators receives exactly the raw characters. */
  lemma FramedSays<S>(c: PS.Core<S>, event: EventKind, t: Tokens.Token, p: Params.Parameters)
    requires Tokens.ValidToken(t) && Hears(c)
    ensures Said(Framed(c, event, t, p).log[|c.log|..]) == t.rdata
  {
    var r := Framed(c, event, t, p);
    var c1 := if t.first then PS.HandleStart(c, event, p) else c;
    var c2 := CharsBody(c1, t);
    assert r == if t.last then PS.HandleEnd(c2, event) else c2;
    StartSaysNothing(c, event, p, t.first);
    assert Hears(c1);
    CharsBodySays(c1, t);
    EndSaysNothing(c2, event, t.last);
    SaidOnlyMiddle(c.log, c1.log, c2.log, r.log, t.rdata);
  }

  /** Starting an event, if it happens, adds calls that carry no characters. */
  lemma StartSaysNothing<S>(c: PS.Core<S>, event: EventKind, p: Params.Parameters, first: bool)
    ensures var c1 := if first then PS.HandleStart(c, event, p) else c;
      c1 == c.(log := c1.log) && c.log <= c1.log && Said(c1.log[|c.log|..]) == []
  {
    var c1 := if first then PS.HandleStart(c, event, p) else c;
    SaidFrame(c1.log[|c.log|..], event, p);
  }

  /** Ending an event, if it happens, adds calls that carry no characters. */
  lemma EndSaysNothing<S>(c: PS.Core<S>, event: EventKind, last: bool)
    ensures var c1 := if last then PS.HandleEnd(c, event) else c;
      c1 == c.(log := c1.log) && c.log <= c1.log && Said(c1.log[|c.log|..]) == []
  {
    var c1 := if last then PS.HandleEnd(c, event) else c;
    SaidFrame(c1.log[|c.log|..], event, Params.EmptyParameters());
  }

  /** Three successive stretches of calls of which only the middle one carries characters. */
  lemma SaidOnlyMiddle(l0: seq<PS.Callback>, l1: seq<PS.Callback>, l2: seq<PS.Callback>, l3: seq<PS.Callback>, x: string)
    requires l0 <= l1 <= l2 <= l3
    requires Said(l1[|l0|..]) == [] && Said(l2[|l1|..]) == x && Said(l3[|l2|..]) == []
    ensures Said(l3[|l0|..]) == x
  {
    SaidSteps(l0, l1, l2, l3);
    assert [] + x + [] == x;
  }

  /** The characters of three successive stretches of calls, together. */
  lemma SaidSteps(l0: seq<PS.Callback>, l1: seq<PS.Callback>, l2: seq<PS.Callback>, l3: seq<PS.Callback>)
    requires l0 <= l1 <= l2 <= l3
    ensures Said(l3[|l0|..]) == Said(l1[|l0|..]) + Said(l2[|l1|..]) + Said(l3[|l2|..])
  {
    assert l3[|l0|..] == l1[|l0|..] + l2[|l1|..] + l3[|l2|..];
    SaidAppend(l1[|l0|..] + l2[|l1|..], l3[|l2|..]);
    SaidAppend(l1[|l0|..], l2[|l1|..]);
  }

  /**
   * `handle_chars`: the first fragment starts the event with its
   * parameters, the characters follow, and the last fragment ends the
   * event.  Only the calls received change.
   */
  function HandleChars<S>(c: PS.Core<S>, event: EventKind, t: Tokens.Token, info: ElementInfo): (r: PS.Core<S>)
    requires |t.ri| == |t.rdata| && InfoDefined(info)
    ensures r == c.(log := r.log) && c.log <= r.log
    ensures t.first && PS.StartHandler in c.handlers ==>
      |r.log| > |c.log| && r.log[|c.log|] == PS.StartCall(event, CharsParameters(t, info))
    ensures t.last && PS.EndHandler in c.handlers ==>
      |r.log| > |c.log| && r.log[|r.log| - 1] == PS.EndCall(event)
    ensures |t.rdata| == |t.cdata| && |t.cdata| == 0 ==>
      r.log == c.log + (if t.first && PS.StartHandler in c.handlers then [PS.StartCall(event, CharsParameters(t, info))] else [])
                     + (if t.last && PS.EndHandler in c.handlers then [PS.EndCall(event)] else [])
  {
    Framed(c, event, t, CharsParameters(t, info))
  }

  /**
   * A client that hears text and separators receives, between the start
   * and the end, exactly the raw characters of the token: the release
   * indicators as separators when they were removed from the cooked data.
   */
  lemma HandleCharsSays<S>(c: PS.Core<S>, event: EventKind, t: Tokens.Token, info: ElementInfo)
    requires Tokens.ValidToken(t) && InfoDefined(info) && Hears(c)
    ensures Said(HandleChars(c, event, t, info).log[|c.log|..]) == t.rdata
  {
    FramedSays(c, event, t, CharsParameters(t, info));
  }

  /**
   * With the release indicators removed, a client with text and separator
   * handlers receives the cooked data as text and the release indicators
   * as separators, and no text call is empty.
   */
  lemma ReleasedPieces(t: Tokens.Token)
    requires Tokens.ValidToken(t)
    ensures var pieces := Runs(t.rdata, t.ri, 0, 0);
      && Texts(pieces) == t.cdata
      && Separators(pieces) == Flagged(t.rdata, t.ri, 0)
      && Flatten(pieces) == t.rdata
  {
    RunsTexts(t.rdata, t.ri, 0, 0);
    RunsSeparators(t.rdata, t.ri, 0, 0);
    RunsFlatten(t.rdata, t.ri, 0, 0);
    assert t.rdata[0..] == t.rdata && t.ri[0..] == t.ri;
  }

  // ---------------------------------------------------------------------
  // Recognising the syntax, and completion
  // ---------------------------------------------------------------------

  /** The interchange type a syntax handles. */
  function Kind(syntax: Syntax): InterchangeType {
    match syntax
    case NoSyntax => UNKNOWN
    case EdifactSyntax(_) => EDIFACT
    case X12Syntax(_) => X12
    case UngtdiSyntax(_) => UNGTDI
    case ImpSyntax => IMP
  }

  /**
   * `edi_parser_itype_handler`: the interchange type is recorded; a known
   * type installs its syntax afresh, with no message directory; an unknown
   * one leaves the installed syntax as it was.
   */
  function ItypeHandler<S>(p: Parser<S>, t: InterchangeType): (r: Parser<S>)
    ensures r.core.itype == t
    ensures t == UNKNOWN ==> r == p.(core := p.core.(itype := t))
    ensures t != UNKNOWN ==> Kind(r.syntax) == t && r.core == p.core.(itype := t, message := None)
    ensures r.syntax.EdifactSyntax? ==> t == UNKNOWN || r.syntax.edifact == Edifact.Init()
    ensures r.syntax.X12Syntax? ==> t == UNKNOWN || r.syntax.x12 == X12.Init()
    ensures r.syntax.UngtdiSyntax? ==> t == UNKNOWN || r.syntax.ungtdi == Ungtdi.Init()
  {
    var c := p.core.(itype := t);
    match t
    case EDIFACT => Parser(c.(message := None), EdifactSyntax(Edifact.Init()))
    case UNGTDI => Parser(c.(message := None), UngtdiSyntax(Ungtdi.Init()))
    case X12 => Parser(c.(message := None), X12Syntax(X12.Init()))
    case IMP => Parser(c.(message := None), ImpSyntax)
    case UNKNOWN => Parser(c, p.syntax)
  }

  /** `edi_parser_cmplt_handler`: the completion handler, if any, is called. */
  function CompleteHandler<S>(p: Parser<S>): (r: Parser<S>)
    ensures r.syntax == p.syntax
    ensures PS.CompleteHandler in p.core.handlers ==> r.core == p.core.(log := p.core.log + [PS.CompleteCall])
    ensures PS.CompleteHandler !in p.core.handlers ==> r == p
  {
    p.(core := PS.Notify(p.core, PS.CompleteHandler, PS.CompleteCall))
  }

  /**
   * `edi_parser_parse`: the parser's tokeniser runs its loop on the input.
   * The tokeniser's error hook is `edi_parser_raise_error` and its
   * completion hook `edi_parser_cmplt_handler`, so a syntax error is raised
   * through the parser, under its pragma and handlers, and a completed
   * stream reaches the completion handler.  What the automaton does to the
   * parser token by token is in `step`.  The result is the parser and the
   * count returned.
   */
  function Parse<S>(p: Parser<S>, input: string, length: nat,
                    step: (S, Advice, char, Tokens.ByteClass) -> Tokens.StepResult<S>): (r: (Parser<S>, nat))
    requires length <= |input|
    ensures r.0.syntax == p.syntax && r.1 <= length
    ensures p.core.tokeniser.error != ENONE ==> r == (p, 0)
    ensures var run := Tokens.RunFrom(p.core.tokeniser, input, 0, length, step);
      && (run.ending == Tokens.Exhausted ==>
            r == (p.(core := p.core.(tokeniser := run.tokeniser)), run.returned))
      && (run.ending == Tokens.Completed ==>
            && r.1 == run.returned && r.1 > 0
            && r.0.core == p.core.(tokeniser := run.tokeniser, log := r.0.core.log)
            && r.0.core.log == p.core.log + (if PS.CompleteHandler in p.core.handlers then [PS.CompleteCall] else []))
      && (run.ending == Tokens.SyntaxError ==>
            && r.1 == 0
            && r.0.core.error == ESYNTAX && r.0.core.tokeniser.error == ESYNTAX
            && r.0.core == p.core.(tokeniser := r.0.core.tokeniser, error := ESYNTAX, log := r.0.core.log)
            && r.0.core.tokeniser == run.tokeniser
            && r.0.core.log == p.core.log + SyntaxCalls(p.core))
  {
    Tokens.RunFromCounts(p.core.tokeniser, input, 0, length, step);
    var run := Tokens.RunFrom(p.core.tokeniser, input, 0, length, step);
    var c := p.core.(tokeniser := run.tokeniser);
    match run.ending
    case Exhausted => (p.(core := c), run.returned)
    case Completed => (CompleteHandler(p.(core := c)), run.returned)
    case SyntaxError => (p.(core := SyntaxRaised(c)), 0)
  }

  /** The call a raised syntax error makes: a warning when the pragma tolerates it, else an error. */
  function SyntaxCalls<S>(c: PS.Core<S>): seq<PS.Callback> {
    if Tolerates(c.pragma, ESYNTAX)
    then (if PS.WarningHandler in c.handlers then [PS.WarningCall(ESYNTAX)] else [])
    else (if PS.ErrorHandler in c.handlers then [PS.ErrorCall(ESYNTAX)] else [])
  }

  /** `edi_tokeniser_handle_error` on a syntax error, which the tokeniser has already latched. */
  function SyntaxRaised<S>(c: PS.Core<S>): (r: PS.Core<S>)
    requires c.tokeniser.error == ESYNTAX
    ensures r == c.(error := ESYNTAX, log := c.log + SyntaxCalls(c))
  {
    PS.RaiseError(c, ESYNTAX).0
  }
}
