/**
 * The parser's shared machinery (src/parser.h, src/parser.c): the state a
 * parse run keeps, error raising under the pragma, the wrappers that hand
 * events to the client's handlers, the stack of header segments, the
 * hand-off of segments to the message directory, and the interpreter of
 * the actions an interchange syntax decides on.
 *
 * Client handlers are not called.  A handler is an opaque identity in a
 * map; each call a handler would receive is appended to a log, and only
 * when that handler is installed.  Strings are C strings: free of NUL.
 */
module ParserState {
  import opened Wrappers
  import opened Common
  import CText
  import Params
  import Segments
  import Tokens
  import Giovanni
  import Francesco
  import Directory

  /** The client handlers a parser holds. */
  datatype HandlerKind =
    | ErrorHandler | WarningHandler | TokenHandler | TextHandler | DefaultHandler
    | StartHandler | EndHandler | CompleteHandler | SeparatorHandler
    | SegmentHandler | DirectoryHandler

  /** Which directory a finished segment is handed on with. */
  datatype Role = ServiceRole | MessageRole

  /** One call a client handler receives. */
  datatype Callback =
    | ErrorCall(error: Error)
    | WarningCall(error: Error)
    | StartCall(event: EventKind, params: Params.Parameters)
    | EndCall(event: EventKind)
    | DirectoryCall(params: Params.Parameters)
    | TokenCall(token: Tokens.Token)
    | TextCall(text: string)
    | DefaultCall(text: string)
    | SeparatorCall(event: EventKind, c: char)
    | CompleteCall
      // `edi_parser_handle_segment`: the segment, with the queued tokens it
      // was built from, expanded into element-level events against a directory
    | SegmentEvents(role: Role, tokens: seq<Tokens.Token>)

  /**
   * `edi_parser_t` without its syntax union: `S` is the lexical
   * automaton's state inside the tokeniser, `message` the message
   * directory, `log` the calls the handlers have received.
   */
  datatype Core<S> = Core(
    itype: InterchangeType,
    stack: seq<Segments.Segment>,
    segment: Segments.Segment,
    error: Error,
    pragma: Pragma,
    segmentCount: nat,
    buffer: string,
    de: nat,
    cde: nat,
    userData: Option<nat>,
    handlers: map<HandlerKind, nat>,
    tokeniser: Tokens.Tokeniser<S>,
    queue: seq<Tokens.Token>,
    message: Option<Directory.Dir>,
    done: bool,
    log: seq<Callback>)

  /** A well-formed segment whose tag and cells are C strings. */
  predicate Clean(s: Segments.Segment) {
    && Segments.Valid(s) && CText.NulFree(s.tag)
    && forall c :: c in s.cells ==> CText.NulFree(s.cells[c])
  }

  predicate Valid<S>(c: Core<S>) {
    && Clean(c.segment)
    && (forall i :: 0 <= i < |c.stack| ==> Clean(c.stack[i]))
    && CText.NulFree(c.buffer)
    && Directory.Valid(c.message)
  }

  // ---------------------------------------------------------------------
  // Handlers
  // ---------------------------------------------------------------------

  /** The installed handler of a kind, NULL when none. */
  function Handler<S>(c: Core<S>, k: HandlerKind): Option<nat> {
    if k in c.handlers then Some(c.handlers[k]) else None
  }

  /** Logs a call when its handler is installed. */
  function Notify<S>(c: Core<S>, k: HandlerKind, call: Callback): (r: Core<S>)
    ensures r == c.(log := c.log + (if k in c.handlers then [call] else []))
  {
    if k in c.handlers then c.(log := c.log + [call]) else c
  }

  /**
   * `edi_parser_set_*_handler(self, h)`: installs `h` (NULL uninstalls)
   * and returns the handler it replaces; no other handler changes.
   */
  function SetHandler<S>(c: Core<S>, k: HandlerKind, h: Option<nat>): (r: (Core<S>, Option<nat>))
    ensures r.1 == Handler(c, k)
    ensures Handler(r.0, k) == h
    ensures forall j :: j != k ==> Handler(r.0, j) == Handler(c, j)
    ensures r.0 == c.(handlers := r.0.handlers)
  {
    var handlers := if h.Some? then c.handlers[k := h.value] else c.handlers - {k};
    (c.(handlers := handlers), Handler(c, k))
  }

  /** Putting back the handler a setter returned restores the parser. */
  lemma SetHandlerUndo<S>(c: Core<S>, k: HandlerKind, h: Option<nat>)
    ensures var (c', prior) := SetHandler(c, k, h); SetHandler(c', k, prior).0 == c
  {
    var (c', prior) := SetHandler(c, k, h);
    var r := SetHandler(c', k, prior).0;
    assert forall j :: Handler(r, j) == Handler(c, j);
    assert forall j :: j in r.handlers <==> j in c.handlers by {
      forall j ensures j in r.handlers <==> j in c.handlers {
        assert Handler(r, j) == Handler(c, j);
      }
    }
    assert r.handlers == c.handlers;
  }

  /** `edi_parser_set_user_data`: stores the pointer and returns the previous one. */
  function SetUserData<S>(c: Core<S>, data: Option<nat>): (r: (Core<S>, Option<nat>))
    ensures r.1 == c.userData && r.0.userData == data
    ensures r.0 == c.(userData := data)
  {
    (c.(userData := data), c.userData)
  }

  /** `edi_set_pragma_t`: stores the pragma and returns the previous one. */
  function SetPragma<S>(c: Core<S>, p: Pragma): (r: (Core<S>, Pragma))
    ensures r.1 == c.pragma && r.0.pragma == p
    ensures r.0 == c.(pragma := p)
  {
    (c.(pragma := p), c.pragma)
  }

  // ---------------------------------------------------------------------
  // Reporting functions: each has a fixed answer for a NULL parser
  // ---------------------------------------------------------------------

  /** `edi_parser_get_byte_index`: the tokeniser's byte count, 0 for NULL. */
  function ByteIndex<S>(c: Option<Core<S>>): (n: nat)
    ensures c.None? ==> n == 0
    ensures c.Some? ==> n == c.value.tokeniser.byteCount
  {
    if c.None? then 0 else c.value.tokeniser.byteCount
  }

  /** `edi_parser_get_segment_index`: segments finished so far, 0 for NULL. */
  function SegmentIndex<S>(c: Option<Core<S>>): (n: nat)
    ensures c.None? ==> n == 0
    ensures c.Some? ==> n == c.value.segmentCount
  {
    if c.None? then 0 else c.value.segmentCount
  }

  /** `edi_parser_get_error_code`: the latched error, ENONE for NULL. */
  function ErrorCode<S>(c: Option<Core<S>>): (e: Error)
    ensures c.None? ==> e == ENONE
    ensures c.Some? ==> e == c.value.error
  {
    if c.None? then ENONE else c.value.error
  }

  /** `edi_parser_interchange_type`: the sniffed syntax, UNKNOWN for NULL. */
  function Itype<S>(c: Option<Core<S>>): (t: InterchangeType)
    ensures c.None? ==> t == UNKNOWN
    ensures c.Some? ==> t == c.value.itype
  {
    if c.None? then UNKNOWN else c.value.itype
  }

  // ---------------------------------------------------------------------
  // Raising errors
  // ---------------------------------------------------------------------

  /**
   * `edi_parser_raise_error`: ENONE does nothing.  Any other error is a
   * warning exactly when the pragma tolerates it.  A warning goes to the
   * warning handler only and yields ENONE; an error goes to the error
   * handler only, is latched in the parser and its tokeniser, and is
   * returned.  A syntax error is latched even as a warning.
   */
  function RaiseError<S>(c: Core<S>, e: Error): (r: (Core<S>, Error))
    ensures e == ENONE ==> r == (c, ENONE)
    ensures e != ENONE ==>
      && (r.1 == ENONE <==> Tolerates(c.pragma, e))
      && (r.1 != ENONE ==> r.1 == e)
      && r.0.log == c.log + (if Tolerates(c.pragma, e) then (if WarningHandler in c.handlers then [WarningCall(e)] else [])
                             else (if ErrorHandler in c.handlers then [ErrorCall(e)] else []))
      && (e == ESYNTAX || !Tolerates(c.pragma, e) ==> r.0.error == e && r.0.tokeniser.error == e)
      && (e != ESYNTAX && Tolerates(c.pragma, e) ==> r.0.error == c.error && r.0.tokeniser == c.tokeniser)
      && r.0 == c.(log := r.0.log, error := r.0.error, tokeniser := r.0.tokeniser)
  {
    if e == ENONE then (c, ENONE)
    else
      var warning := Tolerates(c.pragma, e);
      var c1 := if warning then Notify(c, WarningHandler, WarningCall(e)) else Notify(c, ErrorHandler, ErrorCall(e));
      var c2 := if e == ESYNTAX || !warning then c1.(error := e, tokeniser := c1.tokeniser.(error := e)) else c1;
      (c2, if warning then ENONE else e)
  }

  /**
   * Under the pragma a fresh parser starts with, exactly the
   * character-set, segment and unknown-transaction errors come back as
   * ENONE (besides ENONE itself); every other error is latched.
   */
  lemma DefaultPragmaRaise<S>(c: Core<S>, e: Error)
    requires c.pragma == DefaultPragma
    ensures RaiseError(c, e).1 == ENONE <==> e in {ENONE, ECHARSET, ESEGMENT, ETUNKNOWN}
    ensures e !in {ENONE, ECHARSET, ESEGMENT, ETUNKNOWN} ==> RaiseError(c, e).0.error == e
  {
    DefaultPragmaTolerates(e);
  }

  /** Raising a tolerated error twice is the same as once, apart from the second warning call. */
  lemma WarningsDoNotLatch<S>(c: Core<S>, e: Error, f: Error)
    requires e != ESYNTAX && f != ESYNTAX && Tolerates(c.pragma, e) && Tolerates(c.pragma, f)
    ensures RaiseError(RaiseError(c, e).0, f).0.error == c.error
    ensures RaiseError(RaiseError(c, e).0, f).0.tokeniser == c.tokeniser
  {
  }

  /** The latched error is the last one raised that was not tolerated (or a syntax error). */
  function Latched(error: Error, p: Pragma, raised: seq<Error>): (r: Error)
    decreases |raised|
  {
    if |raised| == 0 then error
    else
      var e := raised[|raised| - 1];
      if e != ENONE && (e == ESYNTAX || !Tolerates(p, e)) then e else Latched(error, p, raised[..|raised| - 1])
  }

  /** Errors the pragma tolerates, syntax errors aside, leave the latched error alone. */
  lemma {:induction false} LatchedTolerated(error: Error, p: Pragma, raised: seq<Error>)
    requires forall e :: e in raised ==> e != ESYNTAX && Tolerates(p, e)
    ensures Latched(error, p, raised) == error
    decreases |raised|
  {
    if |raised| > 0 {
      var init := raised[..|raised| - 1];
      assert raised[|raised| - 1] in raised;
      assert raised == init + [raised[|raised| - 1]];
      assert forall e :: e in init ==> e in raised;
      LatchedTolerated(error, p, init);
    }
  }

  // ---------------------------------------------------------------------
  // Event wrappers
  // ---------------------------------------------------------------------

  /** `edi_parser_handle_start`: the start handler, if any, gets the event and parameters. */
  function HandleStart<S>(c: Core<S>, event: EventKind, p: Params.Parameters): (r: Core<S>)
    ensures StartHandler in c.handlers ==> r == c.(log := c.log + [StartCall(event, p)])
    ensures StartHandler !in c.handlers ==> r == c
  {
    Notify(c, StartHandler, StartCall(event, p))
  }

  /** `edi_parser_handle_end`: the end handler, if any, gets the event only. */
  function HandleEnd<S>(c: Core<S>, event: EventKind): (r: Core<S>)
    ensures EndHandler in c.handlers ==> r == c.(log := c.log + [EndCall(event)])
    ensures EndHandler !in c.handlers ==> r == c
  {
    Notify(c, EndHandler, EndCall(event))
  }

  /** `edi_parser_handle_token`. */
  function HandleToken<S>(c: Core<S>, t: Tokens.Token): (r: Core<S>)
    ensures TokenHandler in c.handlers ==> r == c.(log := c.log + [TokenCall(t)])
    ensures TokenHandler !in c.handlers ==> r == c
  {
    Notify(c, TokenHandler, TokenCall(t))
  }

  /** `edi_parser_handle_default`. */
  function HandleDefault<S>(c: Core<S>, text: string): (r: Core<S>)
    ensures DefaultHandler in c.handlers ==> r == c.(log := c.log + [DefaultCall(text)])
    ensures DefaultHandler !in c.handlers ==> r == c
  {
    Notify(c, DefaultHandler, DefaultCall(text))
  }

  /** `edi_parser_handle_text`: the text handler, or failing that the default handler. */
  function HandleText<S>(c: Core<S>, text: string): (r: Core<S>)
    ensures TextHandler in c.handlers ==> r == c.(log := c.log + [TextCall(text)])
    ensures TextHandler !in c.handlers ==> r == HandleDefault(c, text)
  {
    if TextHandler in c.handlers then c.(log := c.log + [TextCall(text)]) else HandleDefault(c, text)
  }

  /** `edi_parser_handle_separator`: the separator handler, or failing that the character as default text. */
  function HandleSeparator<S>(c: Core<S>, event: EventKind, ch: char): (r: Core<S>)
    ensures SeparatorHandler in c.handlers ==> r == c.(log := c.log + [SeparatorCall(event, ch)])
    ensures SeparatorHandler !in c.handlers ==> r == HandleDefault(c, [ch])
  {
    if SeparatorHandler in c.handlers then c.(log := c.log + [SeparatorCall(event, ch)]) else HandleDefault(c, [ch])
  }

  /**
   * `edi_parser_handle_directory`: the directory handler's answer, here
   * the directory `supplied` by the client, or NULL without a handler.
   */
  function HandleDirectory<S>(c: Core<S>, p: Params.Parameters, supplied: Option<Directory.Dir>): (r: (Core<S>, Option<Directory.Dir>))
    ensures DirectoryHandler in c.handlers ==> r == (c.(log := c.log + [DirectoryCall(p)]), supplied)
    ensures DirectoryHandler !in c.handlers ==> r == (c, None)
  {
    if DirectoryHandler in c.handlers then (c.(log := c.log + [DirectoryCall(p)]), supplied) else (c, None)
  }

  /**
   * `edi_parser_handle_segment`: the parameters are ignored; the segment
   * and the tokens queued for it are expanded into element-level events,
   * which empties the token queue.
   */
  function HandleSegment<S>(c: Core<S>, role: Role): (r: Core<S>)
    ensures r == c.(log := c.log + [SegmentEvents(role, c.queue)], queue := [])
  {
    c.(log := c.log + [SegmentEvents(role, c.queue)], queue := [])
  }

  // ---------------------------------------------------------------------
  // The stack of header segments
  // ---------------------------------------------------------------------

  /** `edi_parser_push_segment`: a deep copy of the segment goes on top of the stack. */
  function Push<S>(c: Core<S>, s: Segments.Segment): (r: Core<S>)
    requires Valid(c) && Clean(s)
    ensures Valid(r)
    ensures r.stack == c.stack + [Segments.Copy(s)]
    ensures r == c.(stack := r.stack)
  {
    Segments.CopyIsFaithful(s);
    c.(stack := c.stack + [Segments.Copy(s)])
  }

  /** `edi_parser_pop_segment`: the top segment is removed; an empty stack stays empty. */
  function Pop<S>(c: Core<S>): (r: Core<S>)
    requires Valid(c)
    ensures Valid(r)
    ensures |c.stack| == 0 ==> r == c
    ensures |c.stack| > 0 ==> r == c.(stack := c.stack[..|c.stack| - 1])
  {
    if |c.stack| == 0 then c else c.(stack := c.stack[..|c.stack| - 1])
  }

  /** `edi_parser_peek_segment`: the top segment, NULL for an empty stack. */
  function Peek<S>(c: Core<S>): (r: Option<Segments.Segment>)
    ensures r.None? <==> |c.stack| == 0
    ensures r.Some? ==> r.value == c.stack[|c.stack| - 1]
  {
    if |c.stack| == 0 then None else Some(c.stack[|c.stack| - 1])
  }

  /**
   * The pushed copy is the segment as it was: peeking gives it back
   * however the live segment changes afterwards, and popping restores
   * the stack.
   */
  lemma PushPeekPop<S>(c: Core<S>, later: Segments.Segment)
    requires Valid(c)
    ensures Peek(Push(c, c.segment).(segment := later)) == Some(c.segment)
    ensures Pop(Push(c, c.segment)) == c
  {
    Segments.CopyIsFaithful(c.segment);
    assert (c.stack + [c.segment])[..|c.stack|] == c.stack;
  }

  // ---------------------------------------------------------------------
  // Handing segments to the message directory
  // ---------------------------------------------------------------------

  /**
   * A transaction name a table directory knows fits its buffer, as the
   * `strcpy` there needs; an unknown name is turned away before the copy.
   */
  predicate HeadDefined(d: Option<Directory.Dir>, transaction: Option<string>) {
    (d.Some? && d.value.TableDir? && transaction.Some?
       && Francesco.FirstRule(d.value.tables.tables.rules, transaction, None).Some?)
      ==> |transaction.value| <= Francesco.TransactionCapacity
  }

  /** A directory event that ends up as a segment hand-off. */
  predicate IsSegmentEvent(e: Directory.DEvent) {
    e.Unparsed? || e.e.Verdict?
  }

  function SegmentEventCount(events: seq<Directory.DEvent>): nat {
    if |events| == 0 then 0
    else SegmentEventCount(events[..|events| - 1]) + (if IsSegmentEvent(events[|events| - 1]) then 1 else 0)
  }

  function HandOffs(log: seq<Callback>): nat {
    if |log| == 0 then 0
    else HandOffs(log[..|log| - 1]) + (if log[|log| - 1].SegmentEvents? then 1 else 0)
  }

  lemma HandOffsAppend(a: seq<Callback>, b: seq<Callback>)
    ensures HandOffs(a + b) == HandOffs(a) + HandOffs(b)
    decreases |b|
  {
    if |b| == 0 {
      assert a + b == a;
    } else {
      assert (a + b)[..|a + b| - 1] == a + b[..|b| - 1];
      HandOffsAppend(a, b[..|b| - 1]);
    }
  }

  /**
   * The callbacks `edi_directory_parse` makes on the parser: a loop start
   * and end go to the start and end handlers as EDI_LOOP, and every
   * segment verdict, or the segment itself when the directory cannot
   * parse, is handed on with the message directory.
   */
  function Deliver<S>(c: Core<S>, events: seq<Directory.DEvent>): (r: Core<S>)
    decreases |events|
  {
    if |events| == 0 then c
    else DeliverOne(Deliver(c, events[..|events| - 1]), events[|events| - 1])
  }

  /** The call one directory event makes on the parser. */
  function DeliverOne<S>(c: Core<S>, ev: Directory.DEvent): (r: Core<S>)
  {
    if IsSegmentEvent(ev) then HandleSegment(c, MessageRole)
    else if ev.e.StartLoop? then HandleStart(c, LOOP, ev.e.params)
    else HandleEnd(c, LOOP)
  }

  /** One event appends at most one call, a hand-off exactly when it is a verdict or an unparsed segment. */
  lemma DeliverOneHandsOn<S>(c: Core<S>, ev: Directory.DEvent)
    ensures var r := DeliverOne(c, ev);
      && r == c.(log := r.log, queue := r.queue)
      && c.log <= r.log
      && HandOffs(r.log) == HandOffs(c.log) + (if IsSegmentEvent(ev) then 1 else 0)
  {
    if IsSegmentEvent(ev) {
      HandOffsAppend(c.log, [SegmentEvents(MessageRole, c.queue)]);
    } else if ev.e.StartLoop? {
      HandOffsAppend(c.log, if StartHandler in c.handlers then [StartCall(LOOP, ev.e.params)] else []);
    } else {
      HandOffsAppend(c.log, if EndHandler in c.handlers then [EndCall(LOOP)] else []);
    }
  }

  /**
   * Delivery only appends calls (and drains the token queue); there is one
   * segment hand-off per verdict or unparsed segment.
   */
  lemma {:induction false} DeliverHandsOn<S>(c: Core<S>, events: seq<Directory.DEvent>)
    ensures var r := Deliver(c, events);
      && r == c.(log := r.log, queue := r.queue)
      && c.log <= r.log
      && HandOffs(r.log) == HandOffs(c.log) + SegmentEventCount(events)
    decreases |events|
  {
    if |events| > 0 {
      DeliverHandsOn(c, events[..|events| - 1]);
      DeliverOneHandsOn(Deliver(c, events[..|events| - 1]), events[|events| - 1]);
    }
  }

  /**
   * `edi_parser_transaction_head`: the message directory starts the named
   * transaction, then parses the segment's code; what the directory
   * reports is delivered to the client and its return codes are dropped.
   */
  function TransactionHead<S>(c: Core<S>, transaction: Option<string>): (r: Core<S>)
    requires Valid(c) && HeadDefined(c.message, transaction)
    ensures Valid(r)
    ensures var (d1, _) := Directory.Start(c.message, transaction);
      var (d2, events, _) := Directory.Parse(d1, Some(c.segment.tag), false);
      r == Deliver(c.(message := d2), events)
  {
    var (d1, _) := Directory.Start(c.message, transaction);
    var (d2, events, _) := Directory.Parse(d1, Some(c.segment.tag), false);
    DeliverHandsOn(c.(message := d2), events);
    Deliver(c.(message := d2), events)
  }

  /** `edi_parser_transaction_body`: the message directory parses the segment's code. */
  function TransactionBody<S>(c: Core<S>): (r: Core<S>)
    requires Valid(c)
    ensures Valid(r)
    ensures var (d, events, _) := Directory.Parse(c.message, Some(c.segment.tag), false);
      r == Deliver(c.(message := d), events)
  {
    var (d, events, _) := Directory.Parse(c.message, Some(c.segment.tag), false);
    DeliverHandsOn(c.(message := d), events);
    Deliver(c.(message := d), events)
  }

  /** `edi_parser_transaction_tail`: as the body, with the directory told the transaction is done. */
  function TransactionTail<S>(c: Core<S>): (r: Core<S>)
    requires Valid(c)
    ensures Valid(r)
    ensures var (d, events, _) := Directory.Parse(c.message, Some(c.segment.tag), true);
      r == Deliver(c.(message := d), events)
  {
    var (d, events, _) := Directory.Parse(c.message, Some(c.segment.tag), true);
    DeliverHandsOn(c.(message := d), events);
    Deliver(c.(message := d), events)
  }

  /** Without a message directory every segment is handed on exactly once, unparsed. */
  lemma NoDirectoryHandsOn<S>(c: Core<S>, done: bool)
    requires Valid(c) && c.message.None?
    ensures TransactionBody(c).log == c.log + [SegmentEvents(MessageRole, c.queue)]
    ensures TransactionTail(c).log == c.log + [SegmentEvents(MessageRole, c.queue)]
  {
    assert [Directory.Unparsed][..0] == [];
  }

  // ---------------------------------------------------------------------
  // What an interchange syntax asks of the parser
  // ---------------------------------------------------------------------

  /** One step of a syntax's segment handler, in the order it takes them. */
  datatype Action =
    | Raise(error: Error)                                      // edi_parser_raise_error
    | PushSegment                                              // push a copy of the current segment
    | PopSegment
    | Start(event: EventKind, params: Params.Parameters)       // edi_parser_handle_start
    | End(event: EventKind)                                    // edi_parser_handle_end
    | HandOn                                                   // handle_segment with the service directory
    | Head(params: Params.Parameters, transaction: Option<string>) // message := handle_directory; transaction_head
    | Body                                                     // transaction_body
    | Tail                                                     // transaction_tail
    | Release                                                  // message := NULL
    | Finish                                                   // done := 1

  /** A raise only when the condition holds. */
  function RaiseIf(cond: bool, e: Error): (r: seq<Action>)
    ensures forall a :: a in r ==> a == Raise(e)
    ensures Raise(e) in r <==> cond
    ensures |r| <= 1
  {
    if cond then [Raise(e)] else []
  }

  /** A handler's checks in order: a raise for each test that fails, nothing for the others. */
  function Checks(tests: seq<(bool, Error)>): (r: seq<Action>)
    ensures forall a :: a in r ==> a.Raise?
    ensures |r| <= |tests|
  {
    if tests == [] then [] else RaiseIf(tests[0].0, tests[0].1) + Checks(tests[1..])
  }

  /** Actions that neither push nor pop. */
  predicate StackQuiet(actions: seq<Action>) {
    forall a :: a in actions ==> !a.PushSegment? && !a.PopSegment?
  }

  /** Actions that neither push nor pop leave the stack as it was. */
  lemma {:induction false} StackAfterQuiet(stack: seq<Segments.Segment>, s: Segments.Segment, actions: seq<Action>)
    requires StackQuiet(actions)
    ensures StackAfter(stack, s, actions) == stack
    decreases |actions|
  {
    if |actions| > 0 {
      assert actions[|actions| - 1] in actions;
      assert forall a :: a in actions[..|actions| - 1] ==> a in actions;
      StackAfterQuiet(stack, s, actions[..|actions| - 1]);
    }
  }

  /** Around a single push or pop, actions that move nothing leave the stack to that one action. */
  lemma StackAfterAround(stack: seq<Segments.Segment>, s: Segments.Segment, before: seq<Action>, a: Action, after: seq<Action>)
    requires StackQuiet(before) && StackQuiet(after)
    ensures StackAfter(stack, s, before + [a] + after) == StackAfter(stack, s, [a])
  {
    StackAfterAppend(stack, s, before + [a], after);
    StackAfterAppend(stack, s, before, [a]);
    StackAfterQuiet(stack, s, before);
    StackAfterQuiet(StackAfter(stack, s, before + [a]), s, after);
  }

  /** Checks followed by actions none of which is a head hold no head. */
  lemma ChecksThenNoHead(tests: seq<(bool, Error)>, tail: seq<Action>)
    requires forall a :: a in tail ==> !a.Head?
    ensures forall a :: a in Checks(tests) + tail ==> !a.Head?
  {
    var c := Checks(tests);
    assert forall a :: a in c + tail ==> a in c || a in tail;
  }

  /** The only head among actions that end with one, after none, is that last one. */
  lemma HeadLast(pre: seq<Action>, mid: seq<Action>, h: Action)
    requires forall a :: a in pre ==> !a.Head?
    requires forall a :: a in mid ==> !a.Head?
    ensures forall a :: a in pre + (mid + [h]) && a.Head? ==> a == h
  {
    assert forall a :: a in pre + (mid + [h]) ==> a in pre || a in mid || a == h;
  }

  lemma ChecksThenQuiet(tests: seq<(bool, Error)>, tail: seq<Action>)
    requires StackQuiet(tail)
    ensures StackQuiet(Checks(tests) + tail)
  {
    var c := Checks(tests);
    assert forall a :: a in c + tail ==> a in c || a in tail;
  }

  /** A pop followed by actions that move nothing drops the top of the stack, if any. */
  lemma PopThenQuiet(stack: seq<Segments.Segment>, s: Segments.Segment, after: seq<Action>)
    requires StackQuiet(after)
    ensures StackAfter(stack, s, [PopSegment] + after) == (if stack == [] then [] else stack[..|stack| - 1])
  {
    assert [PopSegment] + after == [] + [PopSegment] + after;
    StackAfterAround(stack, s, [], PopSegment, after);
    assert [PopSegment][..0] == [];
  }

  /** An error is raised exactly when a raise of it is among the actions. */
  lemma {:induction false} RaisedMembers(actions: seq<Action>)
    ensures forall e :: e in Raised(actions) <==> Raise(e) in actions
    decreases |actions|
  {
    if |actions| > 0 {
      var init := actions[..|actions| - 1];
      assert actions == init + [actions[|actions| - 1]];
      RaisedMembers(init);
    }
  }

  /** No raise among the actions is the same as no error raised. */
  lemma NothingRaised(actions: seq<Action>)
    ensures Raised(actions) == [] <==> forall a :: a in actions ==> !a.Raise?
  {
    RaisedMembers(actions);
    if Raised(actions) != [] {
      assert Raised(actions)[0] in Raised(actions);
    }
  }

  /** The errors of the tests that fail, in order. */
  function Failing(tests: seq<(bool, Error)>): seq<Error> {
    if tests == [] then [] else (if tests[0].0 then [tests[0].1] else []) + Failing(tests[1..])
  }

  /** Checks followed by actions that raise nothing raise exactly the errors of the failing tests, in order. */
  lemma {:induction false} RaisedChecks(tests: seq<(bool, Error)>, rest: seq<Action>)
    requires forall a :: a in rest ==> !a.Raise?
    ensures Raised(Checks(tests) + rest) == Failing(tests)
    decreases |tests|
  {
    NothingRaised(rest);
    RaisedAppend(Checks(tests), rest);
    if tests != [] {
      RaisedChecks(tests[1..], []);
      assert Checks(tests[1..]) + [] == Checks(tests[1..]);
      var head := RaiseIf(tests[0].0, tests[0].1);
      RaisedAppend(head, Checks(tests[1..]));
      if tests[0].0 {
        assert Raised(head) == [tests[0].1] by {
          assert head[..0] == [];
        }
      }
    }
  }

  /** One check: its error is raised exactly when its test fails, and no other is. */
  lemma OneCheck(c0: bool, e0: Error, rest: seq<Action>)
    requires forall a :: a in rest ==> !a.Raise?
    ensures forall e :: e in Raised(Checks([(c0, e0)]) + rest) <==> c0 && e == e0
  {
    var t := [(c0, e0)];
    RaisedChecks(t, rest);
    assert t[1..] == [];
  }

  /** Three tests with distinct errors: each error fails exactly when its test does, and no other error does. */
  lemma FailingThree(c0: bool, c1: bool, c2: bool, e0: Error, e1: Error, e2: Error)
    requires e0 != e1 && e0 != e2 && e1 != e2
    ensures var r := Failing([(c0, e0), (c1, e1), (c2, e2)]);
      && (e0 in r <==> c0) && (e1 in r <==> c1) && (e2 in r <==> c2)
      && (forall e :: e in r ==> e == e0 || e == e1 || e == e2)
  {
    FailingUnfolds(c0, c1, c2, e0, e1, e2);
    InThree(c0, c1, c2, e0, e1, e2);
  }

  /** `Failing` over three tests, unfolded. */
  lemma FailingUnfolds(c0: bool, c1: bool, c2: bool, e0: Error, e1: Error, e2: Error)
    ensures Failing([(c0, e0), (c1, e1), (c2, e2)])
      == (if c0 then [e0] else []) + ((if c1 then [e1] else []) + ((if c2 then [e2] else []) + []))
  {
    var t := [(c0, e0), (c1, e1), (c2, e2)];
    assert t[1..] == [(c1, e1), (c2, e2)] && t[1..][1..] == [(c2, e2)] && t[1..][1..][1..] == [];
    assert Failing(t[1..][1..]) == (if c2 then [e2] else []) + [];
    assert Failing(t[1..]) == (if c1 then [e1] else []) + ((if c2 then [e2] else []) + []);
  }

  /** Membership in three optional singletons with distinct elements. */
  lemma InThree(c0: bool, c1: bool, c2: bool, e0: Error, e1: Error, e2: Error)
    requires e0 != e1 && e0 != e2 && e1 != e2
    ensures var r := (if c0 then [e0] else []) + ((if c1 then [e1] else []) + ((if c2 then [e2] else []) + []));
      && (e0 in r <==> c0) && (e1 in r <==> c1) && (e2 in r <==> c2)
      && (forall e :: e in r ==> e == e0 || e == e1 || e == e2)
  {
    var f0, f1, f2 := (if c0 then [e0] else []), (if c1 then [e1] else []), (if c2 then [e2] else []);
    var r := f0 + (f1 + (f2 + []));
    forall e | e in r
      ensures e == e0 || e == e1 || e == e2
    {
      assert e in f0 || e in f1 || e in f2;
    }
  }

  /** Three checks with distinct errors: each error is raised exactly when its test fails, and no other is. */
  lemma ThreeChecks(c0: bool, c1: bool, c2: bool, e0: Error, e1: Error, e2: Error, rest: seq<Action>)
    requires forall a :: a in rest ==> !a.Raise?
    requires e0 != e1 && e0 != e2 && e1 != e2
    ensures var r := Raised(Checks([(c0, e0), (c1, e1), (c2, e2)]) + rest);
      && (e0 in r <==> c0) && (e1 in r <==> c1) && (e2 in r <==> c2)
      && (forall e :: e in r ==> e == e0 || e == e1 || e == e2)
  {
    RaisedChecks([(c0, e0), (c1, e1), (c2, e2)], rest);
    FailingThree(c0, c1, c2, e0, e1, e2);
  }

  /** Three checks, other actions, then a fourth check, all with distinct errors: each error is raised exactly when its test fails. */
  lemma ThreeThenOne(c0: bool, c1: bool, c2: bool, c3: bool, e0: Error, e1: Error, e2: Error, e3: Error,
                     x: seq<Action>, w: seq<Action>, y: seq<Action>)
    requires forall a :: a in x ==> !a.Raise?
    requires forall a :: a in w ==> !a.Raise?
    requires forall a :: a in y ==> !a.Raise?
    requires e0 != e1 && e0 != e2 && e0 != e3 && e1 != e2 && e1 != e3 && e2 != e3
    ensures var r := Raised(Checks([(c0, e0), (c1, e1), (c2, e2)]) + x + (w + Checks([(c3, e3)]) + y));
      && (e0 in r <==> c0) && (e1 in r <==> c1) && (e2 in r <==> c2) && (e3 in r <==> c3)
      && (forall e :: e in r ==> e == e0 || e == e1 || e == e2 || e == e3)
  {
    var first := Checks([(c0, e0), (c1, e1), (c2, e2)]) + x;
    var last := Checks([(c3, e3)]);
    RaisedAppend(first, w + last + y);
    QuietPrefix(w, last, y);
    ThreeChecks(c0, c1, c2, e0, e1, e2, x);
    OneCheck(c3, e3, y);
  }

  /** Actions that raise nothing add nothing to what the actions after them raise. */
  lemma QuietPrefix(w: seq<Action>, a: seq<Action>, b: seq<Action>)
    requires forall x :: x in w ==> !x.Raise?
    ensures Raised(w + a + b) == Raised(a + b)
  {
    assert w + a + b == w + (a + b);
    RaisedAppend(w, a + b);
    NothingRaised(w);
  }

  /** Four checks with distinct errors: each error is raised exactly when its test fails, and no other is. */
  lemma FourChecks(c0: bool, c1: bool, c2: bool, c3: bool, e0: Error, e1: Error, e2: Error, e3: Error, rest: seq<Action>)
    requires forall a :: a in rest ==> !a.Raise?
    requires e0 != e1 && e0 != e2 && e0 != e3 && e1 != e2 && e1 != e3 && e2 != e3
    ensures var r := Raised(Checks([(c0, e0), (c1, e1), (c2, e2), (c3, e3)]) + rest);
      && (e0 in r <==> c0) && (e1 in r <==> c1) && (e2 in r <==> c2) && (e3 in r <==> c3)
      && (forall e :: e in r ==> e == e0 || e == e1 || e == e2 || e == e3)
  {
    var t := [(c0, e0), (c1, e1), (c2, e2), (c3, e3)];
    RaisedChecks(t, rest);
    assert t[1..] == [(c1, e1), (c2, e2), (c3, e3)];
    FailingThree(c1, c2, c3, e1, e2, e3);
    assert Failing(t) == (if c0 then [e0] else []) + Failing(t[1..]);
  }

  /** What a segment handler returns: a fixed code, or what its last raise returned. */
  datatype Reply = Plain(code: Error) | RaiseResult

  function ReplyOf(reply: Reply, last: Error): Error {
    if reply.RaiseResult? then last else reply.code
  }

  /** Every transaction the actions open fits a table directory the client may supply. */
  predicate HeadsDefined(actions: seq<Action>, supplied: Option<Directory.Dir>) {
    forall a :: a in actions && a.Head? ==> HeadDefined(supplied, a.transaction)
  }

  /** The stack the actions leave: pushes copy the current segment, pops drop the top. */
  function StackAfter(stack: seq<Segments.Segment>, s: Segments.Segment, actions: seq<Action>): seq<Segments.Segment>
    decreases |actions|
  {
    if |actions| == 0 then stack
    else
      var before := StackAfter(stack, s, actions[..|actions| - 1]);
      match actions[|actions| - 1]
      case PushSegment => before + [s]
      case PopSegment => if |before| == 0 then before else before[..|before| - 1]
      case _ => before
  }

  /** The errors the actions raise, in order. */
  function Raised(actions: seq<Action>): seq<Error>
    decreases |actions|
  {
    if |actions| == 0 then []
    else Raised(actions[..|actions| - 1]) + (if actions[|actions| - 1].Raise? then [actions[|actions| - 1].error] else [])
  }

  lemma {:induction false} RaisedAppend(a: seq<Action>, b: seq<Action>)
    ensures Raised(a + b) == Raised(a) + Raised(b)
    decreases |b|
  {
    if |b| == 0 {
      assert a + b == a;
    } else {
      assert (a + b)[..|a + b| - 1] == a + b[..|b| - 1];
      RaisedAppend(a, b[..|b| - 1]);
    }
  }

  lemma {:induction false} StackAfterAppend(stack: seq<Segments.Segment>, s: Segments.Segment, a: seq<Action>, b: seq<Action>)
    ensures StackAfter(stack, s, a + b) == StackAfter(StackAfter(stack, s, a), s, b)
    decreases |b|
  {
    if |b| == 0 {
      assert a + b == a;
    } else {
      assert (a + b)[..|a + b| - 1] == a + b[..|b| - 1];
      StackAfterAppend(stack, s, a, b[..|b| - 1]);
    }
  }

  /** One action, given what the last raise returned so far. */
  function Apply<S>(c: Core<S>, last: Error, a: Action, supplied: Option<Directory.Dir>): (r: (Core<S>, Error))
    requires Valid(c) && Directory.Valid(supplied) && (a.Head? ==> HeadDefined(supplied, a.transaction))
    ensures Valid(r.0)
  {
    match a
    case Raise(e) => RaiseError(c, e)
    case PushSegment => (Push(c, c.segment), last)
    case PopSegment => (Pop(c), last)
    case Start(ev, p) => (HandleStart(c, ev, p), last)
    case End(ev) => (HandleEnd(c, ev), last)
    case HandOn => (HandleSegment(c, ServiceRole), last)
    case Head(p, t) => (HeadAction(c, p, t, supplied), last)
    case Body => (TransactionBody(c), last)
    case Tail => (TransactionTail(c), last)
    case Release => (c.(message := None), last)
    case Finish => (c.(done := true), last)
  }

  /**
   * A `Head` action: the directory handler, when installed, is told the
   * parameters and the supplied directory becomes the message's; then the
   * transaction's head is delivered.  Only the log, the token queue and
   * the message directory change.
   */
  function HeadAction<S>(c: Core<S>, p: Params.Parameters, t: Option<string>, supplied: Option<Directory.Dir>): (r: Core<S>)
    requires Valid(c) && Directory.Valid(supplied) && HeadDefined(supplied, t)
    ensures Valid(r)
    ensures r == c.(log := r.log, queue := r.queue, message := r.message) && c.log <= r.log
  {
    var (c1, d) := HandleDirectory(c, p, supplied);
    DeliverFacts(c1.(message := d), t);
    TransactionHead(c1.(message := d), t)
  }

  /** The actions in order; the error is what the last raise returned, ENONE before any. */
  function Perform<S>(c: Core<S>, actions: seq<Action>, supplied: Option<Directory.Dir>): (r: (Core<S>, Error))
    requires Valid(c) && Directory.Valid(supplied) && HeadsDefined(actions, supplied)
    ensures Valid(r.0)
    decreases |actions|
  {
    if |actions| == 0 then (c, ENONE)
    else
      var (c', last) := Perform(c, actions[..|actions| - 1], supplied);
      Apply(c', last, actions[|actions| - 1], supplied)
  }

  /** The parts of the parser no action touches, and a log that only grows. */
  predicate Keeps<S>(c: Core<S>, r: Core<S>) {
    && r.segment == c.segment && r.segmentCount == c.segmentCount
    && r.handlers == c.handlers && r.pragma == c.pragma
    && r.buffer == c.buffer && r.de == c.de && r.cde == c.cde
    && c.log <= r.log
  }

  /** What one action changes: never the segment, counters, handlers or pragma. */
  lemma ApplyEffects<S>(c: Core<S>, last: Error, a: Action, supplied: Option<Directory.Dir>)
    requires Valid(c) && Directory.Valid(supplied) && (a.Head? ==> HeadDefined(supplied, a.transaction))
    ensures var r := Apply(c, last, a, supplied).0;
      && Keeps(c, r)
      && r.stack == StackAfter(c.stack, c.segment, [a])
      && r.error == Latched(c.error, c.pragma, Raised([a]))
      && (r.done <==> c.done || a == Finish)
  {
    assert [a][..0] == [];
    if a.Raise? {
      RaiseEffects(c, a.error);
    } else if a.Body? || a.Tail? {
      ApplyBody(c, last, a, supplied);
    } else {
      ApplyPlain(c, last, a, supplied);
    }
  }

  lemma RaiseEffects<S>(c: Core<S>, e: Error)
    ensures var r := RaiseError(c, e).0;
      && r == c.(log := r.log, error := r.error, tokeniser := r.tokeniser)
      && r.error == Latched(c.error, c.pragma, [e])
      && c.log <= r.log
  {
    assert [e][..0] == [];
  }

  lemma ApplyBody<S>(c: Core<S>, last: Error, a: Action, supplied: Option<Directory.Dir>)
    requires Valid(c) && Directory.Valid(supplied) && (a.Body? || a.Tail?)
    ensures var r := Apply(c, last, a, supplied).0;
      Keeps(c, r) && r.stack == c.stack && r.error == c.error && r.done == c.done
  {
    DeliverBodyFacts(c, a.Tail?);
  }

  lemma ApplyPlain<S>(c: Core<S>, last: Error, a: Action, supplied: Option<Directory.Dir>)
    requires Valid(c) && Directory.Valid(supplied) && (a.Head? ==> HeadDefined(supplied, a.transaction))
    requires !a.Raise? && !a.Body? && !a.Tail?
    ensures var r := Apply(c, last, a, supplied).0;
      && Keeps(c, r) && r.error == c.error && (r.done <==> c.done || a == Finish)
      && r.stack == StackAfter(c.stack, c.segment, [a])
  {
    assert [a][..0] == [];
    Segments.CopyIsFaithful(c.segment);
  }

  lemma StackAfterSnoc(stack: seq<Segments.Segment>, s: Segments.Segment, init: seq<Action>, a: Action)
    ensures StackAfter(stack, s, init + [a]) == StackAfter(StackAfter(stack, s, init), s, [a])
  {
    assert (init + [a])[..|init|] == init;
    assert [a][..0] == [];
  }

  lemma LatchedSnoc(error: Error, p: Pragma, init: seq<Action>, a: Action)
    ensures Latched(error, p, Raised(init + [a])) == Latched(Latched(error, p, Raised(init)), p, Raised([a]))
  {
    assert (init + [a])[..|init|] == init;
    assert [a][..0] == [];
    if a.Raise? {
      assert (Raised(init) + [a.error])[..|Raised(init)|] == Raised(init);
    } else {
      assert Raised(init + [a]) == Raised(init);
    }
  }

  /**
   * Performing actions keeps the current segment, counters and handlers;
   * the stack is the one the pushes and pops describe, the latched error
   * is the last untolerated raise, the parser is done exactly when it was
   * or an action finished it, and calls are only ever appended.
   */
  lemma {:induction false} PerformEffects<S>(c: Core<S>, actions: seq<Action>, supplied: Option<Directory.Dir>)
    requires Valid(c) && Directory.Valid(supplied) && HeadsDefined(actions, supplied)
    ensures var r := Perform(c, actions, supplied).0;
      && Keeps(c, r)
      && r.stack == StackAfter(c.stack, c.segment, actions)
      && r.error == Latched(c.error, c.pragma, Raised(actions))
      && (r.done <==> c.done || Finish in actions)
    decreases |actions|
  {
    if |actions| > 0 {
      var init := actions[..|actions| - 1];
      var a := actions[|actions| - 1];
      assert actions == init + [a];
      PerformEffects(c, init, supplied);
      var (c', last) := Perform(c, init, supplied);
      ApplyEffects(c', last, a, supplied);
      StackAfterSnoc(c.stack, c.segment, init, a);
      LatchedSnoc(c.error, c.pragma, init, a);
    }
  }
  /** What `edi_parser_raise_error` returns for the last error raised, ENONE before any: the error unless the pragma tolerates it. */
  function LastReturned(p: Pragma, raised: seq<Error>): (r: Error)
    ensures r != ENONE ==> |raised| > 0 && r == raised[|raised| - 1] && !Tolerates(p, r)
  {
    if |raised| == 0 then ENONE
    else
      var e := raised[|raised| - 1];
      if e == ENONE || Tolerates(p, e) then ENONE else e
  }

  /** The error `Perform` reports is what the last raise among the actions returned. */
  lemma {:induction false} PerformReturns<S>(c: Core<S>, actions: seq<Action>, supplied: Option<Directory.Dir>)
    requires Valid(c) && Directory.Valid(supplied) && HeadsDefined(actions, supplied)
    ensures Perform(c, actions, supplied).1 == LastReturned(c.pragma, Raised(actions))
    decreases |actions|
  {
    if |actions| > 0 {
      var init := actions[..|actions| - 1];
      var a := actions[|actions| - 1];
      assert actions == init + [a];
      PerformReturns(c, init, supplied);
      PerformEffects(c, init, supplied);
      var (c', last) := Perform(c, init, supplied);
      assert Perform(c, actions, supplied) == Apply(c', last, a, supplied);
      ApplyReturns(c', last, a, supplied);
      ReturnsSnoc(c.pragma, init, a, last, Perform(c, actions, supplied).1);
    }
  }

  /** The return after one more action, from the return before it. */
  lemma ReturnsSnoc(p: Pragma, init: seq<Action>, a: Action, before: Error, after: Error)
    requires before == LastReturned(p, Raised(init))
    requires after == if a.Raise? then (if a.error == ENONE || Tolerates(p, a.error) then ENONE else a.error) else before
    ensures after == LastReturned(p, Raised(init + [a]))
  {
    var actions := init + [a];
    assert actions[..|actions| - 1] == init && actions[|actions| - 1] == a;
    assert Raised(actions) == Raised(init) + (if a.Raise? then [a.error] else []);
  }

  /** One action's return: a raise returns what `edi_parser_raise_error` does, anything else passes the last return on. */
  lemma ApplyReturns<S>(c: Core<S>, last: Error, a: Action, supplied: Option<Directory.Dir>)
    requires Valid(c) && Directory.Valid(supplied) && (a.Head? ==> HeadDefined(supplied, a.transaction))
    ensures Apply(c, last, a, supplied).1
      == if a.Raise? then (if a.error == ENONE || Tolerates(c.pragma, a.error) then ENONE else a.error) else last
  {
    if a.Raise? {
      var r := RaiseError(c, a.error);
      assert Apply(c, last, a, supplied) == r;
    }
  }

  lemma DeliverFacts<S>(c: Core<S>, t: Option<string>)
    requires Valid(c) && HeadDefined(c.message, t)
    ensures var r := TransactionHead(c, t);
      r == c.(log := r.log, queue := r.queue, message := r.message) && c.log <= r.log
  {
    var (d1, _) := Directory.Start(c.message, t);
    var (d2, events, _) := Directory.Parse(d1, Some(c.segment.tag), false);
    DeliverHandsOn(c.(message := d2), events);
  }

  lemma DeliverBodyFacts<S>(c: Core<S>, done: bool)
    requires Valid(c)
    ensures var r := if done then TransactionTail(c) else TransactionBody(c);
      r == c.(log := r.log, queue := r.queue, message := r.message) && c.log <= r.log
  {
    var (d, events, _) := Directory.Parse(c.message, Some(c.segment.tag), done);
    DeliverHandsOn(c.(message := d), events);
  }
}
