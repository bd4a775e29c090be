/**
 * The UN/GTDI syntax, Tradacoms (src/ungtdi.c): transmission (STX/END),
 * batch (BAT/EOB) and message (MHD/MTR) envelopes.  A segment out of
 * place is mostly refused silently: the handler returns EENVELOPE without
 * raising it, so no handler is called and nothing is latched.  A failed
 * control count is raised and ends the segment's handling at once.
 */
module Ungtdi {
  import opened Wrappers
  import opened Common
  import Params
  import Segments
  import Directory
  import Envelope
  import PS = ParserState

  /** `ungtdi_code_t`; its NONE is `NoCode` here. */
  datatype Code = NoCode | STX | BAT | MHD | MTR | EOB | END

  /** The tag `code_table` gives a code. */
  function Name(c: Code): string {
    match c
    case NoCode => ""
    case STX => "STX"
    case BAT => "BAT"
    case MHD => "MHD"
    case MTR => "MTR"
    case EOB => "EOB"
    case END => "END"
  }

  /**
   * `ungtdi_get_segment_code`: NoCode for a missing segment, else the code
   * of the first table entry, in the order STX BAT MHD MTR EOB END, that
   * prefixes the tag.
   */
  function CodeOf(s: Option<Segments.Segment>): (c: Code)
    ensures c != NoCode ==> s.Some? && Name(c) <= s.value.tag
  {
    if s.None? then NoCode
    else
      var tag := s.value.tag;
      if "STX" <= tag then STX
      else if "BAT" <= tag then BAT
      else if "MHD" <= tag then MHD
      else if "MTR" <= tag then MTR
      else if "EOB" <= tag then EOB
      else if "END" <= tag then END
      else NoCode
  }

  /** No two codes prefix the same tag, so a segment has a code exactly when that code's tag prefixes its own. */
  lemma CodeIsPrefix(s: Segments.Segment, c: Code)
    requires c != NoCode
    ensures CodeOf(Some(s)) == c <==> Name(c) <= s.tag
  {
    if Name(c) <= s.tag {
      var t := s.tag[..3];
      assert forall d: Code :: d != NoCode ==> (Name(d) <= s.tag <==> Name(d) == t);
    }
  }

  // ---------------------------------------------------------------------
  // Character set
  // ---------------------------------------------------------------------

  /**
   * `ungtdi_is_in_charset`: space, ':', '=', '?', '^', '%' to '/', the
   * digits and the ASCII letters.
   */
  predicate InCharset(c: char) {
    (c == ' ' || c == ':' || c == '=' || c == '?' || c == '^')
    || ('%' <= c <= '/') || ('0' <= c <= '9') || ('a' <= c <= 'z') || ('A' <= c <= 'Z')
  }

  // ---------------------------------------------------------------------
  // Parameters
  // ---------------------------------------------------------------------

  /**
   * Where `ungtdi_set_parameters` reads each key, as positions in the
   * service segments: STX's rows are STDS FROM UNTO TRDT (composites of
   * two) then SNRF RCRF APRF PRCD; MHD's are MSRF and TYPE (a composite of
   * two); MTR's NOSG; END's NMST.
   */
  const StxSlots: seq<Envelope.Slot> := [
    Envelope.Slot(Params.SyntaxIdentifier, "STX", 0, 0),
    Envelope.Slot(Params.SyntaxVersionNumber, "STX", 0, 1),
    Envelope.Slot(Params.SendersId, "STX", 1, 0),
    Envelope.Slot(Params.SendersName, "STX", 1, 1),
    Envelope.Slot(Params.RecipientsId, "STX", 2, 0),
    Envelope.Slot(Params.RecipientsName, "STX", 2, 1),
    Envelope.Slot(Params.Date, "STX", 3, 0),
    Envelope.Slot(Params.Time, "STX", 3, 1),
    Envelope.Slot(Params.InterchangeControlReference, "STX", 4, 0),
    Envelope.Slot(Params.SendersReference, "STX", 4, 0),
    Envelope.Slot(Params.RecipientsReference, "STX", 5, 0),
    Envelope.Slot(Params.ApplicationReference, "STX", 6, 0),
    Envelope.Slot(Params.ProcessingPriorityCode, "STX", 7, 0)]

  const MhdSlots: seq<Envelope.Slot> := [
    Envelope.Slot(Params.MessageReferenceNumber, "MHD", 0, 0),
    Envelope.Slot(Params.MessageType, "MHD", 1, 0),
    Envelope.Slot(Params.MessageVersionNumber, "MHD", 1, 1)]

  const MtrSlots: seq<Envelope.Slot> := [Envelope.Slot(Params.NumberOfSegmentsInTheMessage, "MTR", 0, 0)]

  const EndSlots: seq<Envelope.Slot> := [Envelope.Slot(Params.NumberOfMessages, "END", 0, 0)]

  function Slots(c: Code): (slots: seq<Envelope.Slot>)
    ensures Envelope.SlotsInRange(slots) && Envelope.DistinctKeys(slots)
    ensures forall i :: 0 <= i < |slots| ==> slots[i].key != Params.Standard
  {
    match c
    case STX => StxSlots
    case MHD => MhdSlots
    case MTR => MtrSlots
    case END => EndSlots
    case _ => []
  }

  /** The one key BAT and EOB set straight from cell (0,0), with no directory lookup. */
  function DirectKey(c: Code): (k: nat)
    requires c == BAT || c == EOB
    ensures Params.MinParameter <= k < Params.MaxParameter
  {
    if c == BAT then Params.FunctionalGroupReferenceNumber else Params.NumberOfMessages
  }

  /**
   * `ungtdi_set_parameters`: STX, MHD, MTR and END fill their service
   * elements, STX adding Standard "UNGTDI"; BAT and EOB store cell (0,0)
   * under one key, even when it is NULL; every other segment leaves every
   * key unset.
   */
  function Parameters(seg: Segments.Segment): (p: Params.Parameters)
    ensures Params.ValidParameters(p)
    ensures forall i :: 0 <= i < |Slots(CodeOf(Some(seg)))| ==>
      var slot := Slots(CodeOf(Some(seg)))[i];
      p.values[slot.key] == Envelope.Lookup(seg, slot)
    ensures CodeOf(Some(seg)) == STX ==> p.values[Params.Standard] == Some("UNGTDI")
    ensures CodeOf(Some(seg)) in {BAT, EOB} ==>
      var k := DirectKey(CodeOf(Some(seg)));
      && p.values[k] == Segments.GetElement(seg, 0, 0)
      && forall j :: 0 <= j < Params.MaxParameter && j != k ==> p.values[j].None?
    ensures CodeOf(Some(seg)) == NoCode ==> forall k :: 0 <= k < Params.MaxParameter ==> p.values[k].None?
  {
    var code := CodeOf(Some(seg));
    if code == BAT || code == EOB then Params.Single(DirectKey(code), Segments.GetElement(seg, 0, 0))
    else
      var p := Envelope.Fill(seg, Slots(code));
      if code == STX then Params.SetOne(p, Params.Standard, Some("UNGTDI")) else p
  }

  // ---------------------------------------------------------------------
  // The envelope state machine
  // ---------------------------------------------------------------------

  /** `edi_ungtdi_t`'s counters. */
  datatype State = State(segments: nat, transactions: nat, groups: nat)

  /** `edi_ungtdi_init` zeroes the whole structure. */
  function Init(): (st: State)
    ensures st.segments == 0 && st.transactions == 0 && st.groups == 0
  {
    State(0, 0, 0)
  }

  /** What the handler decides for one segment: the parser actions in order, what it returns, and the new counters. */
  datatype Outcome = Outcome(actions: seq<PS.Action>, reply: PS.Reply, state: State)

  /** A refusal: nothing done, EENVELOPE returned without being raised. */
  function Refused(st: State): (r: Outcome)
    ensures r.actions == [] && r.reply == PS.Plain(EENVELOPE) && r.state == st
  {
    Outcome([], PS.Plain(EENVELOPE), st)
  }

  /** The header each segment needs on top of the stack; STX instead needs none, which it raises. */
  predicate InPlace(code: Code, ctx: Code) {
    match code
    case STX => ctx == NoCode
    case BAT => ctx == STX
    case MHD => ctx == STX || ctx == BAT
    case MTR => ctx == MHD
    case EOB => ctx == BAT
    case END => ctx == BAT || ctx == STX
    case NoCode => ctx == MHD
  }

  /** A trailer's control count, cell (0,0), is missing or not `n`. */
  predicate Miscounted(seg: Segments.Segment, n: nat) {
    !Envelope.CountIs(Segments.GetElement(seg, 0, 0), n)
  }

  /** STX: pushed; the transmission starts; counters afresh. */
  function OpenTransmission(st: State, p: Params.Parameters): (r: Outcome)
    ensures forall a :: a in r.actions ==> !a.Head?
  {
    Outcome([PS.PushSegment, PS.Start(INTERCHANGE, p), PS.HandOn], PS.Plain(ENONE),
            st.(transactions := 0, groups := 0))
  }

  /** BAT: pushed; the batch starts; one more batch, the messages counted on across batches. */
  function OpenBatch(st: State, p: Params.Parameters): (r: Outcome)
    ensures forall a :: a in r.actions ==> !a.Head?
  {
    Outcome([PS.PushSegment, PS.Start(GROUP, p), PS.HandOn], PS.Plain(ENONE), st.(groups := st.groups + 1))
  }

  /** MHD: pushed; the message named by cell (1,0) starts; one more message, counted from this segment. */
  function OpenMessage(st: State, seg: Segments.Segment, p: Params.Parameters): (r: Outcome)
    ensures forall a :: a in r.actions && a.Head? ==> a.transaction == Segments.GetElement(seg, 1, 0)
  {
    Outcome([PS.PushSegment, PS.Start(TRANSACTION, p), PS.Head(p, Segments.GetElement(seg, 1, 0))], PS.Plain(ENONE),
            st.(transactions := st.transactions + 1, segments := 1))
  }

  /**
   * MTR: popped first; counted unless its count is missing; on a wrong
   * count ETTC is raised and returned, and the message is neither told
   * the transaction is over nor closed.
   */
  function CloseMessage(st: State, seg: Segments.Segment): (r: Outcome)
    ensures forall a :: a in r.actions ==> !a.Head?
  {
    var count := Segments.GetElement(seg, 0, 0);
    MessageClosed(st.(segments := if count.Some? then st.segments + 1 else st.segments), Miscounted(seg, st.segments + 1))
  }

  /** The end of CloseMessage, given the counters after MTR and whether its count was wrong. */
  function MessageClosed(next: State, bad: bool): (r: Outcome)
    ensures forall a :: a in r.actions ==> !a.Head?
  {
    if bad then Outcome([PS.PopSegment, PS.Raise(ETTC)], PS.RaiseResult, next)
    else Outcome([PS.PopSegment, PS.Tail, PS.End(TRANSACTION), PS.Release], PS.Plain(ENONE), next)
  }

  /** EOB: on a count other than the messages so far, EGTC is raised and returned, before the pop; else popped, the batch ends. */
  function CloseBatch(st: State, seg: Segments.Segment): (r: Outcome)
    ensures forall a :: a in r.actions ==> !a.Head?
  {
    if Miscounted(seg, st.transactions) then Outcome([PS.Raise(EGTC)], PS.RaiseResult, st)
    else Outcome([PS.PopSegment, PS.HandOn, PS.End(GROUP)], PS.Plain(ENONE), st)
  }

  /** END: on a count other than the messages so far, EITC is raised and returned; else popped once, the transmission ends, done. */
  function CloseTransmission(st: State, seg: Segments.Segment): (r: Outcome)
    ensures forall a :: a in r.actions ==> !a.Head?
  {
    if Miscounted(seg, st.transactions) then Outcome([PS.Raise(EITC)], PS.RaiseResult, st)
    else Outcome([PS.PopSegment, PS.HandOn, PS.End(INTERCHANGE), PS.Finish], PS.Plain(ENONE), st)
  }

  /** `edi_ungtdi_segment`, given the top of the header stack as `context`. */
  function Plan(st: State, context: Option<Segments.Segment>, seg: Segments.Segment): (r: Outcome)
  {
    var code := CodeOf(Some(seg));
    var ctx := CodeOf(context);
    if code == STX && ctx != NoCode then Outcome([PS.Raise(EENVELOPE)], PS.RaiseResult, st)
    else if !InPlace(code, ctx) then Refused(st)
    else
      match code
      case STX => OpenTransmission(st, Parameters(seg))
      case BAT => OpenBatch(st, Parameters(seg))
      case MHD => OpenMessage(st, seg, Parameters(seg))
      case MTR => CloseMessage(st, seg)
      case EOB => CloseBatch(st, seg)
      case END => CloseTransmission(st, seg)
      case NoCode => Outcome([PS.Body], PS.Plain(ENONE), st.(segments := st.segments + 1))
  }

  /** Only MHD opens a transaction, and it names the transaction by its cell (1,0). */
  lemma OnlyHeaderOpens(st: State, context: Option<Segments.Segment>, seg: Segments.Segment)
    ensures forall a :: a in Plan(st, context, seg).actions && a.Head? ==>
      CodeOf(Some(seg)) == MHD && a.transaction == Segments.GetElement(seg, 1, 0)
  {
  }

  /** The transaction an MHD would open fits the client's directory. */
  predicate HeadFits(seg: Segments.Segment, supplied: Option<Directory.Dir>) {
    CodeOf(Some(seg)) == MHD ==> PS.HeadDefined(supplied, Segments.GetElement(seg, 1, 0))
  }

  /**
   * `edi_ungtdi_segment` on the parser: the plan for the current segment
   * against the top of the stack, performed; the result is the plan's
   * fixed code, or what its raise returned.
   */
  function Handle<S>(c: PS.Core<S>, st: State, supplied: Option<Directory.Dir>): (r: (PS.Core<S>, State, Error))
    requires PS.Valid(c) && Directory.Valid(supplied) && HeadFits(c.segment, supplied)
    ensures PS.Valid(r.0)
    ensures var o := Plan(st, PS.Peek(c), c.segment);
      && r.1 == o.state
      && r.2 == PS.ReplyOf(o.reply, PS.LastReturned(c.pragma, PS.Raised(o.actions)))
      && r.0.stack == PS.StackAfter(c.stack, c.segment, o.actions)
      && r.0.error == PS.Latched(c.error, c.pragma, PS.Raised(o.actions))
      && (r.0.done <==> c.done || PS.Finish in o.actions)
      && PS.Keeps(c, r.0)
  {
    var o := Plan(st, PS.Peek(c), c.segment);
    OnlyHeaderOpens(st, PS.Peek(c), c.segment);
    PS.PerformEffects(c, o.actions, supplied);
    PS.PerformReturns(c, o.actions, supplied);
    var (c', last) := PS.Perform(c, o.actions, supplied);
    (c', o.state, PS.ReplyOf(o.reply, last))
  }

  // ---------------------------------------------------------------------
  // Segments out of place
  // ---------------------------------------------------------------------

  /**
   * Any segment but STX out of place is refused: nothing is done, no
   * handler hears of it, nothing is latched, and EENVELOPE is returned.
   */
  lemma {:induction false} MisplacedRefused<S>(c: PS.Core<S>, st: State, supplied: Option<Directory.Dir>)
    requires PS.Valid(c) && Directory.Valid(supplied) && HeadFits(c.segment, supplied)
    requires CodeOf(Some(c.segment)) != STX && !InPlace(CodeOf(Some(c.segment)), CodeOf(PS.Peek(c)))
    ensures Handle(c, st, supplied) == (c, st, EENVELOPE)
  {
    assert Plan(st, PS.Peek(c), c.segment) == Refused(st);
  }

  /**
   * STX inside an open transmission raises EENVELOPE, returns what the
   * raise returned, and pushes nothing.
   */
  lemma {:induction false} NestedTransmission<S>(c: PS.Core<S>, st: State, supplied: Option<Directory.Dir>)
    requires PS.Valid(c) && Directory.Valid(supplied)
    requires CodeOf(Some(c.segment)) == STX && CodeOf(PS.Peek(c)) != NoCode
    ensures var r := Handle(c, st, supplied);
      && r.0.stack == c.stack && r.1 == st
      && r.0.error == PS.Latched(c.error, c.pragma, [EENVELOPE])
      && r.2 == (if Tolerates(c.pragma, EENVELOPE) then ENONE else EENVELOPE)
  {
    var actions := [PS.Raise(EENVELOPE)];
    assert Plan(st, PS.Peek(c), c.segment).actions == actions;
    assert actions[..0] == [];
    assert PS.Raised(actions) == [EENVELOPE];
    PS.StackAfterQuiet(c.stack, c.segment, actions);
  }

  // ---------------------------------------------------------------------
  // What each service segment does in place
  // ---------------------------------------------------------------------

  /** STX with no header open: pushed, the transmission starts with Standard "UNGTDI", counters afresh, nothing raised. */
  lemma {:induction false} TransmissionHeader(st: State, context: Option<Segments.Segment>, seg: Segments.Segment, stack: seq<Segments.Segment>)
    requires CodeOf(Some(seg)) == STX && CodeOf(context) == NoCode
    ensures var o := Plan(st, context, seg);
      && PS.StackAfter(stack, seg, o.actions) == stack + [seg]
      && PS.Raised(o.actions) == [] && o.reply == PS.Plain(ENONE)
      && o.state == st.(transactions := 0, groups := 0)
      && PS.Start(INTERCHANGE, Parameters(seg)) in o.actions
      && Parameters(seg).values[Params.Standard] == Some("UNGTDI")
  {
    var o := Plan(st, context, seg);
    assert o.actions == [] + [PS.PushSegment] + [PS.Start(INTERCHANGE, Parameters(seg)), PS.HandOn];
    PS.StackAfterAround(stack, seg, [], PS.PushSegment, [PS.Start(INTERCHANGE, Parameters(seg)), PS.HandOn]);
    PS.NothingRaised(o.actions);
  }

  /** BAT in a transmission: pushed, the batch starts, one more batch, and the message count carries on. */
  lemma {:induction false} BatchHeader(st: State, context: Option<Segments.Segment>, seg: Segments.Segment, stack: seq<Segments.Segment>)
    requires CodeOf(Some(seg)) == BAT && CodeOf(context) == STX
    ensures var o := Plan(st, context, seg);
      && PS.StackAfter(stack, seg, o.actions) == stack + [seg]
      && PS.Raised(o.actions) == [] && o.reply == PS.Plain(ENONE)
      && o.state == st.(groups := st.groups + 1)
      && PS.Start(GROUP, Parameters(seg)) in o.actions
  {
    var o := Plan(st, context, seg);
    assert o.actions == [] + [PS.PushSegment] + [PS.Start(GROUP, Parameters(seg)), PS.HandOn];
    PS.StackAfterAround(stack, seg, [], PS.PushSegment, [PS.Start(GROUP, Parameters(seg)), PS.HandOn]);
    PS.NothingRaised(o.actions);
  }

  /** MHD in a transmission or batch: pushed, the message named by (1,0) starts, one more message, counted from MHD. */
  lemma {:induction false} MessageHeader(st: State, context: Option<Segments.Segment>, seg: Segments.Segment, stack: seq<Segments.Segment>)
    requires CodeOf(Some(seg)) == MHD && CodeOf(context) in {STX, BAT}
    ensures var o := Plan(st, context, seg);
      && PS.StackAfter(stack, seg, o.actions) == stack + [seg]
      && PS.Raised(o.actions) == [] && o.reply == PS.Plain(ENONE)
      && o.state == st.(transactions := st.transactions + 1, segments := 1)
      && PS.Start(TRANSACTION, Parameters(seg)) in o.actions
      && PS.Head(Parameters(seg), Segments.GetElement(seg, 1, 0)) in o.actions
  {
    var o := Plan(st, context, seg);
    var p := Parameters(seg);
    assert o.actions == [] + [PS.PushSegment] + [PS.Start(TRANSACTION, p), PS.Head(p, Segments.GetElement(seg, 1, 0))];
    PS.StackAfterAround(stack, seg, [], PS.PushSegment, [PS.Start(TRANSACTION, p), PS.Head(p, Segments.GetElement(seg, 1, 0))]);
    PS.NothingRaised(o.actions);
  }

  /**
   * MTR in a message pops the header whatever its count.  A count other
   * than the segments from MHD to MTR inclusive raises ETTC, returns what
   * the raise returned, and skips the transaction's tail and end; a right
   * one closes the message and returns ENONE.
   */
  lemma {:induction false} MessageTrailer(st: State, context: Option<Segments.Segment>, seg: Segments.Segment, stack: seq<Segments.Segment>)
    requires CodeOf(Some(seg)) == MTR && CodeOf(context) == MHD
    ensures var o := Plan(st, context, seg);
      var bad := Miscounted(seg, st.segments + 1);
      && PS.StackAfter(stack, seg, o.actions) == (if stack == [] then [] else stack[..|stack| - 1])
      && (bad ==> o.actions == [PS.PopSegment, PS.Raise(ETTC)] && o.reply == PS.RaiseResult)
      && (!bad ==> PS.Raised(o.actions) == [] && o.reply == PS.Plain(ENONE)
                   && PS.Tail in o.actions && PS.End(TRANSACTION) in o.actions)
      && PS.Finish !in o.actions
  {
    assert Plan(st, context, seg) == CloseMessage(st, seg);
    CloseMessageEffects(st, seg, stack);
  }

  /** What CloseMessage's actions do to the stack and what they raise. */
  lemma {:induction false} CloseMessageEffects(st: State, seg: Segments.Segment, stack: seq<Segments.Segment>)
    ensures var o := CloseMessage(st, seg);
      var bad := Miscounted(seg, st.segments + 1);
      && PS.StackAfter(stack, seg, o.actions) == (if stack == [] then [] else stack[..|stack| - 1])
      && (bad ==> o.actions == [PS.PopSegment, PS.Raise(ETTC)] && o.reply == PS.RaiseResult)
      && (!bad ==> PS.Raised(o.actions) == [] && o.reply == PS.Plain(ENONE)
                   && PS.Tail in o.actions && PS.End(TRANSACTION) in o.actions)
      && PS.Finish !in o.actions
  {
    var count := Segments.GetElement(seg, 0, 0);
    var next := st.(segments := if count.Some? then st.segments + 1 else st.segments);
    MessageClosedEffects(next, Miscounted(seg, st.segments + 1), seg, stack);
  }

  /** The same, once the verdict on the count is taken. */
  lemma {:induction false} MessageClosedEffects(next: State, bad: bool, seg: Segments.Segment, stack: seq<Segments.Segment>)
    ensures var o := MessageClosed(next, bad);
      && PS.StackAfter(stack, seg, o.actions) == (if stack == [] then [] else stack[..|stack| - 1])
      && (bad ==> o.actions == [PS.PopSegment, PS.Raise(ETTC)] && o.reply == PS.RaiseResult)
      && (!bad ==> PS.Raised(o.actions) == [] && o.reply == PS.Plain(ENONE)
                   && PS.Tail in o.actions && PS.End(TRANSACTION) in o.actions)
      && PS.Finish !in o.actions
  {
    var o := MessageClosed(next, bad);
    if bad {
      assert o.actions == [PS.PopSegment] + [PS.Raise(ETTC)];
      PS.PopThenQuiet(stack, seg, [PS.Raise(ETTC)]);
    } else {
      assert o.actions == [PS.PopSegment] + [PS.Tail, PS.End(TRANSACTION), PS.Release];
      PS.PopThenQuiet(stack, seg, [PS.Tail, PS.End(TRANSACTION), PS.Release]);
      PS.NothingRaised(o.actions);
    }
  }

  /**
   * EOB in a batch: a count other than the messages of the whole
   * transmission so far raises EGTC and leaves the batch open; a right
   * one pops it and ends the batch.
   */
  lemma {:induction false} BatchTrailer(st: State, context: Option<Segments.Segment>, seg: Segments.Segment, stack: seq<Segments.Segment>)
    requires CodeOf(Some(seg)) == EOB && CodeOf(context) == BAT
    ensures var o := Plan(st, context, seg);
      var bad := Miscounted(seg, st.transactions);
      && (bad ==> o.actions == [PS.Raise(EGTC)] && o.reply == PS.RaiseResult && PS.StackAfter(stack, seg, o.actions) == stack)
      && (!bad ==> PS.Raised(o.actions) == [] && o.reply == PS.Plain(ENONE) && PS.End(GROUP) in o.actions
                   && PS.StackAfter(stack, seg, o.actions) == (if stack == [] then [] else stack[..|stack| - 1]))
      && o.state == st && PS.Finish !in o.actions
  {
    assert Plan(st, context, seg) == CloseBatch(st, seg);
    CloseBatchEffects(st, seg, stack);
  }

  /** What CloseBatch's actions do to the stack and what they raise. */
  lemma {:induction false} CloseBatchEffects(st: State, seg: Segments.Segment, stack: seq<Segments.Segment>)
    ensures var o := CloseBatch(st, seg);
      var bad := Miscounted(seg, st.transactions);
      && (bad ==> o.actions == [PS.Raise(EGTC)] && o.reply == PS.RaiseResult && PS.StackAfter(stack, seg, o.actions) == stack)
      && (!bad ==> PS.Raised(o.actions) == [] && o.reply == PS.Plain(ENONE) && PS.End(GROUP) in o.actions
                   && PS.StackAfter(stack, seg, o.actions) == (if stack == [] then [] else stack[..|stack| - 1]))
      && o.state == st && PS.Finish !in o.actions
  {
    var o := CloseBatch(st, seg);
    if Miscounted(seg, st.transactions) {
      PS.StackAfterQuiet(stack, seg, o.actions);
    } else {
      assert o.actions == [PS.PopSegment] + [PS.HandOn, PS.End(GROUP)];
      PS.PopThenQuiet(stack, seg, [PS.HandOn, PS.End(GROUP)]);
      PS.NothingRaised(o.actions);
    }
  }

  /**
   * END in a transmission or batch: a count other than the messages so
   * far raises EITC and changes nothing else; a right one pops exactly one
   * header, ends the transmission and finishes the parser.
   */
  lemma {:induction false} TransmissionTrailer(st: State, context: Option<Segments.Segment>, seg: Segments.Segment, stack: seq<Segments.Segment>)
    requires CodeOf(Some(seg)) == END && CodeOf(context) in {BAT, STX}
    ensures var o := Plan(st, context, seg);
      var bad := Miscounted(seg, st.transactions);
      && (bad ==> o.actions == [PS.Raise(EITC)] && o.reply == PS.RaiseResult && PS.StackAfter(stack, seg, o.actions) == stack)
      && (!bad ==> PS.Raised(o.actions) == [] && o.reply == PS.Plain(ENONE)
                   && PS.End(INTERCHANGE) in o.actions && PS.Finish in o.actions
                   && PS.StackAfter(stack, seg, o.actions) == (if stack == [] then [] else stack[..|stack| - 1]))
      && o.state == st
  {
    assert Plan(st, context, seg) == CloseTransmission(st, seg);
    CloseTransmissionEffects(st, seg, stack);
  }

  /** What CloseTransmission's actions do to the stack and what they raise. */
  lemma {:induction false} CloseTransmissionEffects(st: State, seg: Segments.Segment, stack: seq<Segments.Segment>)
    ensures var o := CloseTransmission(st, seg);
      var bad := Miscounted(seg, st.transactions);
      && (bad ==> o.actions == [PS.Raise(EITC)] && o.reply == PS.RaiseResult && PS.StackAfter(stack, seg, o.actions) == stack)
      && (!bad ==> PS.Raised(o.actions) == [] && o.reply == PS.Plain(ENONE)
                   && PS.End(INTERCHANGE) in o.actions && PS.Finish in o.actions
                   && PS.StackAfter(stack, seg, o.actions) == (if stack == [] then [] else stack[..|stack| - 1]))
      && o.state == st
  {
    var o := CloseTransmission(st, seg);
    if Miscounted(seg, st.transactions) {
      assert o.actions == [PS.Raise(EITC)];
      PS.StackAfterQuiet(stack, seg, [PS.Raise(EITC)]);
    } else {
      assert o.actions == [PS.PopSegment, PS.HandOn, PS.End(INTERCHANGE), PS.Finish];
      TransmissionClosed(stack, seg);
    }
  }

  /** The actions of a well-counted END: the header popped, nothing raised. */
  lemma TransmissionClosed(stack: seq<Segments.Segment>, seg: Segments.Segment)
    ensures var acts := [PS.PopSegment, PS.HandOn, PS.End(INTERCHANGE), PS.Finish];
      && PS.StackAfter(stack, seg, acts) == (if stack == [] then [] else stack[..|stack| - 1])
      && PS.Raised(acts) == []
  {
    var rest := [PS.HandOn, PS.End(INTERCHANGE), PS.Finish];
    var acts := [PS.PopSegment] + rest;
    assert acts == [PS.PopSegment, PS.HandOn, PS.End(INTERCHANGE), PS.Finish];
    PS.PopThenQuiet(stack, seg, rest);
    PS.NothingRaised(acts);
  }

  /** Any other segment in a message goes to the message directory, moves nothing, raises nothing and is counted. */
  lemma {:induction false} MessageBody(st: State, context: Option<Segments.Segment>, seg: Segments.Segment, stack: seq<Segments.Segment>)
    requires CodeOf(Some(seg)) == NoCode && CodeOf(context) == MHD
    ensures var o := Plan(st, context, seg);
      && o.actions == [PS.Body] && o.reply == PS.Plain(ENONE)
      && PS.StackAfter(stack, seg, o.actions) == stack && PS.Raised(o.actions) == []
      && o.state == st.(segments := st.segments + 1)
  {
    var o := Plan(st, context, seg);
    PS.StackAfterQuiet(stack, seg, o.actions);
    PS.NothingRaised(o.actions);
  }

  // ---------------------------------------------------------------------
  // Counting inside a message
  // ---------------------------------------------------------------------

  /** The counters after a run of segments, each read against the same open header, as inside a message. */
  function Counters(st: State, context: Option<Segments.Segment>, segs: seq<Segments.Segment>): State
    decreases |segs|
  {
    if segs == [] then st else Counters(Plan(st, context, segs[0]).state, context, segs[1..])
  }

  /** Each body segment inside a message adds one to the segment count and leaves the other counters. */
  lemma {:induction false} BodyCounts(st: State, mhd: Segments.Segment, body: seq<Segments.Segment>)
    requires CodeOf(Some(mhd)) == MHD
    requires forall i :: 0 <= i < |body| ==> CodeOf(Some(body[i])) == NoCode
    ensures Counters(st, Some(mhd), body) == st.(segments := st.segments + |body|)
    decreases |body|
  {
    if body != [] {
      MessageBody(st, Some(mhd), body[0], []);
      assert forall i :: 0 <= i < |body[1..]| ==> body[1..][i] == body[i + 1];
      BodyCounts(Plan(st, Some(mhd), body[0]).state, mhd, body[1..]);
    }
  }

  /** MHD, a body and MTR: the trailer raises ETTC exactly when its count is not the number of segments from MHD to MTR inclusive. */
  lemma {:induction false} MessageSegmentCount(st: State, context: Option<Segments.Segment>, mhd: Segments.Segment, body: seq<Segments.Segment>, mtr: Segments.Segment)
    requires CodeOf(Some(mhd)) == MHD && CodeOf(context) in {STX, BAT} && CodeOf(Some(mtr)) == MTR
    requires forall i :: 0 <= i < |body| ==> CodeOf(Some(body[i])) == NoCode
    ensures var inside := Counters(Plan(st, context, mhd).state, Some(mhd), body);
      var o := Plan(inside, Some(mhd), mtr);
      (PS.Raised(o.actions) == [ETTC]) <==> !Envelope.CountIs(Segments.GetElement(mtr, 0, 0), |body| + 2)
  {
    MessageHeader(st, context, mhd, []);
    BodyCounts(Plan(st, context, mhd).state, mhd, body);
    var inside := Counters(Plan(st, context, mhd).state, Some(mhd), body);
    var o := Plan(inside, Some(mhd), mtr);
    MessageTrailer(inside, Some(mhd), mtr, []);
    if Miscounted(mtr, inside.segments + 1) {
      assert [PS.PopSegment, PS.Raise(ETTC)][..1] == [PS.PopSegment];
      assert [PS.PopSegment][..0] == [];
    }
  }
}
