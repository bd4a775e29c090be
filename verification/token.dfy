/**
 * The tokeniser's bookkeeping (src/token.h, src/token.c): the token under
 * construction with its raw and cooked buffers, the hand-off of a finished
 * token, byte classification against the live delimiter advice, and the
 * byte loop of `edi_tokeniser_parse`.  The lexical automaton that decides
 * what each byte means is not part of this model: it is a step function
 * passed in as a parameter.
 */
module Tokens {
  import opened Common

  /** `EDI_TOKEN_MAX`: the size of a token's buffers, terminator included. */
  const TokenMax: nat := 64

  /** Token types, in C enumerator order. */
  datatype TokenType = TEL | TSA | TTS | TES | TSS | TST | TTG

  /**
   * `edi_token_t`: `rdata` is the raw text, `ri[i]` flags a raw character
   * that was a release indicator, and `cdata` is the cooked text.
   */
  datatype Token = Token(
    ttype: TokenType, offset: nat, rdata: string, cdata: string, ri: seq<bool>,
    first: bool, last: bool, isSe: bool)

  /** The raw characters not flagged as release indicators, in order. */
  function Unreleased(raw: string, ri: seq<bool>): string
    requires |ri| == |raw|
  {
    if |raw| == 0 then []
    else Unreleased(raw[..|raw| - 1], ri[..|ri| - 1]) + (if ri[|ri| - 1] then [] else [raw[|raw| - 1]])
  }

  /** The cooked data is the raw data with the release indicators removed; both fit the buffers. */
  predicate ValidToken(t: Token) {
    |t.ri| == |t.rdata| && |t.rdata| < TokenMax && t.cdata == Unreleased(t.rdata, t.ri)
  }

  /** `edi_token_init`: an element token with empty data, first and not last. */
  function NewToken(): (t: Token)
    ensures ValidToken(t)
    ensures t.ttype == TEL && t.offset == 0 && t.rdata == [] && t.cdata == []
    ensures t.first && !t.last
  {
    Token(TEL, 0, [], [], [], true, false, false)
  }

  /**
   * `edi_token_append(t, c, d)`: `c` always joins the raw data, flagged as a
   * release indicator when `d` is false, and joins the cooked data only when
   * `d` is true.  The result says whether the raw data has reached
   * `EDI_TOKEN_MAX - 1` characters, i.e. the token must be handed on.  A
   * call on a full token writes the terminator past the buffer, so it is
   * excluded.
   */
  function TokenAppend(t: Token, c: char, d: bool): (r: (Token, bool))
    requires ValidToken(t) && |t.rdata| < TokenMax - 1
    ensures ValidToken(r.0)
    ensures r.0.rdata == t.rdata + [c] && r.0.ri == t.ri + [!d]
    ensures r.0.cdata == if d then t.cdata + [c] else t.cdata
    ensures |r.0.cdata| <= |r.0.rdata|
    ensures r.1 <==> |r.0.rdata| == TokenMax - 1
    ensures r.0.ttype == t.ttype && r.0.offset == t.offset && r.0.first == t.first
  {
    var raw, ri := t.rdata + [c], t.ri + [!d];
    assert raw[..|raw| - 1] == t.rdata && ri[..|ri| - 1] == t.ri;
    UnreleasedShorter(raw, ri);
    var r := t.(rdata := raw, ri := ri, cdata := if d then t.cdata + [c] else t.cdata);
    (r, |raw| == TokenMax - 1)
  }

  lemma {:induction false} UnreleasedShorter(raw: string, ri: seq<bool>)
    requires |ri| == |raw|
    ensures |Unreleased(raw, ri)| <= |raw|
    decreases |raw|
  {
    if |raw| > 0 {
      UnreleasedShorter(raw[..|raw| - 1], ri[..|ri| - 1]);
    }
  }

  /** Removing release indicators from two pieces separately removes them from the whole. */
  lemma {:induction false} UnreleasedAppend(a: string, ra: seq<bool>, b: string, rb: seq<bool>)
    requires |ra| == |a| && |rb| == |b|
    ensures Unreleased(a + b, ra + rb) == Unreleased(a, ra) + Unreleased(b, rb)
    decreases |b|
  {
    if |b| == 0 {
      assert a + b == a && ra + rb == ra;
    } else {
      var b', rb' := b[..|b| - 1], rb[..|rb| - 1];
      assert (a + b)[..|a + b| - 1] == a + b' && (ra + rb)[..|ra + rb| - 1] == ra + rb';
      UnreleasedAppend(a, ra, b', rb');
    }
  }

  /** A flagged byte between two pieces is dropped, and the pieces are cooked separately. */
  lemma UnreleasedAround(a: string, ra: seq<bool>, ch: char, b: string, rb: seq<bool>)
    requires |ra| == |a| && |rb| == |b|
    ensures Unreleased(a + [ch] + b, ra + [true] + rb) == Unreleased(a, ra) + Unreleased(b, rb)
  {
    var a', ra' := a + [ch], ra + [true];
    assert a'[..|a'| - 1] == a && ra'[..|ra'| - 1] == ra && ra'[|ra'| - 1];
    assert Unreleased(a', ra') == Unreleased(a, ra);
    UnreleasedAppend(a', ra', b, rb);
  }

  /** The cooked data is as long as the raw data exactly when no byte is flagged, and is then the raw data. */
  lemma {:induction false} UnreleasedWhole(raw: string, ri: seq<bool>)
    requires |ri| == |raw|
    ensures |Unreleased(raw, ri)| == |raw| <==> forall i :: 0 <= i < |ri| ==> !ri[i]
    ensures |Unreleased(raw, ri)| == |raw| ==> Unreleased(raw, ri) == raw
    decreases |raw|
  {
    if |raw| > 0 {
      var raw', ri' := raw[..|raw| - 1], ri[..|ri| - 1];
      UnreleasedWhole(raw', ri');
      UnreleasedShorter(raw', ri');
      assert raw == raw' + [raw[|raw| - 1]];
      if forall i :: 0 <= i < |ri| ==> !ri[i] {
        assert forall i :: 0 <= i < |ri'| ==> !ri'[i] by {
          forall i | 0 <= i < |ri'| ensures !ri'[i] { assert ri'[i] == ri[i]; }
        }
      }
      if |Unreleased(raw, ri)| == |raw| {
        forall i | 0 <= i < |ri| ensures !ri[i] {
          if i < |ri'| { assert ri'[i] == ri[i]; }
        }
      }
    }
  }

  /**
   * `edi_tokeniser_handle_token(last)`: the token is handed on with its
   * `last` flag set (first component), then the next token starts where
   * this one ended, empty, first exactly when this one was last, and reset
   * to an element token after a last fragment (second component).
   */
  function HandleToken(t: Token, last: bool): (r: (Token, Token))
    requires ValidToken(t)
    ensures r.0 == t.(last := last)
    ensures ValidToken(r.1)
    ensures r.1.offset == t.offset + |t.rdata|
    ensures r.1.rdata == [] && r.1.cdata == [] && r.1.ri == []
    ensures r.1.ttype == (if last then TEL else t.ttype)
    ensures r.1.first == last && !r.1.last && !r.1.isSe
  {
    var handed := t.(last := last);
    var next := Token(if last then TEL else t.ttype, t.offset + |t.rdata|, [], [], [], last, false, false);
    (handed, next)
  }

  /** Each raw character appended before a hand-off moves the next token's offset on by one. */
  lemma HandOffAdvancesOffset(t: Token, c: char, d: bool, last: bool)
    requires ValidToken(t) && |t.rdata| < TokenMax - 1
    ensures HandleToken(TokenAppend(t, c, d).0, last).1.offset == t.offset + |t.rdata| + 1
  {
  }

  // ---------------------------------------------------------------------
  // Byte classification
  // ---------------------------------------------------------------------

  /** The lexical class of a byte (`SYNTAX_*`). */
  datatype ByteClass =
    | ReleaseClass | SubelementClass | ElementClass | TagClass | TerminatorClass
    | Letter(ch: char) | CarriageReturn | LineFeed | GroupSeparator | Other

  /** The letters the automaton sees individually. */
  const ClassLetters: set<char> := {'A', 'B', 'F', 'H', 'I', 'L', 'N', 'S', 'T', 'U', 'X'}

  /**
   * The classification at the top of `edi_tokeniser_parse`: the active
   * delimiters are tried in the order release, subelement, element, tag,
   * terminator; then the letters, CR, LF and GS (IS3) have classes of
   * their own; anything else is the default class.
   */
  function Classify(a: Advice, c: char): (k: ByteClass)
    ensures k == ReleaseClass <==> IsDelimiter(a, ReleaseInd, c)
    ensures k == SubelementClass <==> !IsDelimiter(a, ReleaseInd, c) && IsDelimiter(a, SubelementSep, c)
    ensures k == ElementClass <==>
      !IsDelimiter(a, ReleaseInd, c) && !IsDelimiter(a, SubelementSep, c) && IsDelimiter(a, ElementSep, c)
    ensures k == TagClass <==>
      !IsDelimiter(a, ReleaseInd, c) && !IsDelimiter(a, SubelementSep, c) && !IsDelimiter(a, ElementSep, c)
      && IsDelimiter(a, TagSep, c)
    ensures k == TerminatorClass <==>
      !IsDelimiter(a, ReleaseInd, c) && !IsDelimiter(a, SubelementSep, c) && !IsDelimiter(a, ElementSep, c)
      && !IsDelimiter(a, TagSep, c) && IsDelimiter(a, SegmentTerm, c)
    ensures k.Letter? ==> k.ch == c && c in ClassLetters
  {
    if IsDelimiter(a, ReleaseInd, c) then ReleaseClass
    else if IsDelimiter(a, SubelementSep, c) then SubelementClass
    else if IsDelimiter(a, ElementSep, c) then ElementClass
    else if IsDelimiter(a, TagSep, c) then TagClass
    else if IsDelimiter(a, SegmentTerm, c) then TerminatorClass
    else if c in ClassLetters then Letter(c)
    else if c == '\r' then CarriageReturn
    else if c == '\n' then LineFeed
    else if c == 29 as char then GroupSeparator
    else Other
  }

  /** Before any advice is read, a byte's class depends on the byte alone. */
  lemma ClassifyWithoutAdvice(c: char)
    ensures Classify(InitAdvice(), c) ==
      if c in ClassLetters then Letter(c)
      else if c == '\r' then CarriageReturn
      else if c == '\n' then LineFeed
      else if c == 29 as char then GroupSeparator
      else Other
  {
    InitAdviceRecognisesNothing(ReleaseInd, c);
    InitAdviceRecognisesNothing(SubelementSep, c);
    InitAdviceRecognisesNothing(ElementSep, c);
    InitAdviceRecognisesNothing(TagSep, c);
    InitAdviceRecognisesNothing(SegmentTerm, c);
  }

  /** A character that is both an active element separator and an active terminator is classed as a separator. */
  lemma SeparatorBeatsTerminator(a: Advice, c: char)
    requires IsDelimiter(a, ElementSep, c) && IsDelimiter(a, SegmentTerm, c)
    requires !IsDelimiter(a, ReleaseInd, c) && !IsDelimiter(a, SubelementSep, c)
    ensures Classify(a, c) == ElementClass
  {
  }

  // ---------------------------------------------------------------------
  // The tokeniser and its byte loop
  // ---------------------------------------------------------------------

  /**
   * `edi_tokeniser_t`: the fields the byte loop reads and writes, plus the
   * automaton's own state `fsa` (everything else the automaton touches,
   * including the token under construction, lives there).
   */
  datatype Tokeniser<S> = Tokeniser(
    fsa: S, advice: Advice, error: Error, release: bool, byteCount: nat, state: int)

  /** `edi_tokeniser_init`: no delimiter active, no error, release on, nothing counted. */
  function NewTokeniser<S>(fsa0: S): (t: Tokeniser<S>)
    ensures t.advice == InitAdvice() && t.error == ENONE && t.release && t.byteCount == 0
    ensures t.fsa == fsa0 && t.state == 0
  {
    Tokeniser(fsa0, InitAdvice(), ENONE, true, 0, 0)
  }

  /**
   * What one automaton step leaves behind: its state, the advice (a
   * service string advice may redefine the delimiters), the error latched
   * while it ran (through the token handler), and its status: 0 to go on,
   * -1 for a syntax error, anything else for a complete interchange.
   */
  datatype StepResult<S> = StepResult(fsa: S, advice: Advice, latched: Error, status: int)

  /** How the byte loop ended. */
  datatype Ending = Exhausted | SyntaxError | Completed

  /** The loop's result: the tokeniser, the count `edi_tokeniser_parse` returns, and how it ended. */
  datatype ParseResult<S> = ParseResult(tokeniser: Tokeniser<S>, returned: nat, ending: Ending)

  /** One iteration of the loop body on byte `c`. */
  function Examine<S>(t: Tokeniser<S>, c: char, step: (S, Advice, char, ByteClass) -> StepResult<S>): (r: (Tokeniser<S>, int))
    ensures r.0.byteCount == t.byteCount + 1
  {
    var s := step(t.fsa, t.advice, c, Classify(t.advice, c));
    var error := if s.status == -1 then ESYNTAX else if s.latched != ENONE then s.latched else t.error;
    (t.(fsa := s.fsa, advice := s.advice, error := error, byteCount := t.byteCount + 1), s.status)
  }

  /** Reference semantics of the loop from byte `n` on. */
  function RunFrom<S>(t: Tokeniser<S>, input: string, n: nat, length: nat,
                      step: (S, Advice, char, ByteClass) -> StepResult<S>): (r: ParseResult<S>)
    requires n <= length <= |input|
    decreases length - n
  {
    if n == length || t.error != ENONE then ParseResult(t, n, Exhausted)
    else
      var (t', status) := Examine(t, input[n], step);
      if status == -1 then ParseResult(t', 0, SyntaxError)
      else if status != 0 then ParseResult(t', n + 1, Completed)
      else RunFrom(t', input, n + 1, length, step)
  }

  /** The byte count grows by exactly one per byte examined, and the loop never returns more than it was given. */
  lemma {:induction false} RunFromCounts<S>(t: Tokeniser<S>, input: string, n: nat, length: nat,
                                            step: (S, Advice, char, ByteClass) -> StepResult<S>)
    requires n <= length <= |input|
    ensures var r := RunFrom(t, input, n, length, step);
      r.returned <= length
      && (r.ending == Exhausted ==> r.tokeniser.byteCount == t.byteCount + r.returned - n
                                    && (r.returned == length || r.tokeniser.error != ENONE))
      && (r.ending == Completed ==> r.tokeniser.byteCount == t.byteCount + r.returned - n && r.returned > n)
      && (r.ending == SyntaxError ==> r.returned == 0 && r.tokeniser.error == ESYNTAX)
    decreases length - n
  {
    if n < length && t.error == ENONE {
      var (t', status) := Examine(t, input[n], step);
      if status == 0 {
        RunFromCounts(t', input, n + 1, length, step);
      }
    }
  }

  /**
   * `edi_tokeniser_parse(t, input, length, done)`: examines bytes in order
   * while none is left and no error is latched, counting each, classifying
   * it and running the automaton on it.  A -1 status latches a syntax error
   * and returns 0; another non-zero status reports completion and returns
   * the bytes examined; otherwise the bytes examined are returned.  The
   * `done` argument is never read, so it is not a parameter here.
   */
  method Parse<S>(t: Tokeniser<S>, input: string, length: nat,
                  step: (S, Advice, char, ByteClass) -> StepResult<S>) returns (r: ParseResult<S>)
    requires length <= |input|
    ensures r == RunFrom(t, input, 0, length, step)
    ensures r.returned <= length
    ensures t.error != ENONE ==> r == ParseResult(t, 0, Exhausted)
    ensures r.ending == SyntaxError ==> r.returned == 0 && r.tokeniser.error == ESYNTAX
    ensures r.ending != SyntaxError ==> r.tokeniser.byteCount == t.byteCount + r.returned
  {
    var cur := t;
    var n := 0;
    while n < length && cur.error == ENONE
      invariant n <= length
      invariant cur.byteCount == t.byteCount + n
      invariant RunFrom(cur, input, n, length, step) == RunFrom(t, input, 0, length, step)
      decreases length - n
    {
      var next, status := Examine(cur, input[n], step).0, Examine(cur, input[n], step).1;
      if status == -1 {
        RunFromCounts(t, input, 0, length, step);
        return ParseResult(next, 0, SyntaxError);
      }
      if status != 0 {
        RunFromCounts(t, input, 0, length, step);
        return ParseResult(next, n + 1, Completed);
      }
      cur := next;
      n := n + 1;
    }
    RunFromCounts(t, input, 0, length, step);
    return ParseResult(cur, n, Exhausted);
  }
}
