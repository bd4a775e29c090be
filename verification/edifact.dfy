/**
 * The UN/EDIFACT syntax (src/edifact.c): the interchange, functional
 * group and message envelopes of ISO 9735, checked as each service
 * segment arrives.  The handler looks at the current segment and at the
 * header on top of the parser's stack, and decides a list of parser
 * actions; an error is raised and the handler carries on, and it always
 * returns ENONE.
 */
module Edifact {
  import opened Wrappers
  import opened Common
  import Params
  import Segments
  import Directory
  import Envelope
  import PS = ParserState

  /** `edifact_code_t`; its NONE is `NoCode` here. */
  datatype Code = NoCode | UNB | UNG | UNH | UNT | UNE | UNZ | UNS | TXT

  /** The tag `code_table` gives a code. */
  function Name(c: Code): string {
    match c
    case NoCode => ""
    case UNB => "UNB"
    case UNG => "UNG"
    case UNH => "UNH"
    case UNT => "UNT"
    case UNE => "UNE"
    case UNZ => "UNZ"
    case UNS => "UNS"
    case TXT => "TXT"
  }

  /**
   * `edifact_get_segment_code`: NoCode for a missing segment, else the code
   * of the first table entry, in the order UNB UNG UNH UNT UNE UNZ UNS
   * TXT, that prefixes the tag.
   */
  function CodeOf(s: Option<Segments.Segment>): (c: Code)
    ensures c != NoCode ==> s.Some? && Name(c) <= s.value.tag
  {
    if s.None? then NoCode
    else
      var tag := s.value.tag;
      if "UNB" <= tag then UNB
      else if "UNG" <= tag then UNG
      else if "UNH" <= tag then UNH
      else if "UNT" <= tag then UNT
      else if "UNE" <= tag then UNE
      else if "UNZ" <= tag then UNZ
      else if "UNS" <= tag then UNS
      else if "TXT" <= tag then TXT
      else NoCode
  }

  /** No two codes prefix the same tag, so a segment has a code exactly when that code's tag prefixes its own. */
  lemma CodeIsPrefix(s: Segments.Segment, c: Code)
    requires c != NoCode
    ensures CodeOf(Some(s)) == c <==> Name(c) <= s.tag
  {
    if Name(c) <= s.tag {
      var t := s.tag[..3];
      assert forall d: Code :: d != NoCode ==> (Name(d) <= s.tag <==> Name(d) == t);
    }
  }

  // ---------------------------------------------------------------------
  // Character sets
  // ---------------------------------------------------------------------

  /** IS4, IS3 and IS1 of ISO 9735: FS, GS and US. */
  const Separators: string := [28 as char, 29 as char, 31 as char]

  /**
   * `edifact_is_in_charset` for the syntax level the interchange header
   * named: level A allows space to '"', '%' to '?' and 'A' to 'Z'; level
   * B also the three information separators and 'a' to 'z'; every other
   * level allows every byte.
   */
  function InCharset(level: char, c: char): bool {
    if level == 'A' then
      (' ' <= c <= '"') || ('%' <= c <= '?') || ('A' <= c <= 'Z')
    else if level == 'B' then
      (c == 28 as char || c == 29 as char || c == 31 as char)
      || (' ' <= c <= '"') || ('%' <= c <= '?') || ('A' <= c <= 'Z') || ('a' <= c <= 'z')
    else true
  }

  /** Level B is level A plus the three information separators and the lower-case letters. */
  lemma LevelBExtendsA(c: char)
    ensures InCharset('B', c) <==> InCharset('A', c) || c in Separators || 'a' <= c <= 'z'
  {
  }

  // ---------------------------------------------------------------------
  // Parameters
  // ---------------------------------------------------------------------

  /** Where `edifact_set_parameters` reads each key, as positions in the service segments (UNB UNG UNH UNE UNT UNZ UNS). */
  const UnbSlots: seq<Envelope.Slot> := [
    Envelope.Slot(Params.SyntaxIdentifier, "UNB", 0, 0),
    Envelope.Slot(Params.SyntaxVersionNumber, "UNB", 0, 1),
    Envelope.Slot(Params.SendersId, "UNB", 1, 0),
    Envelope.Slot(Params.SendersIdCodeQualifier, "UNB", 1, 1),
    Envelope.Slot(Params.AddressForReverseRouting, "UNB", 1, 2),
    Envelope.Slot(Params.RecipientsId, "UNB", 2, 0),
    Envelope.Slot(Params.RecipientsIdCodeQualifier, "UNB", 2, 1),
    Envelope.Slot(Params.RoutingAddress, "UNB", 2, 2),
    Envelope.Slot(Params.Date, "UNB", 3, 0),
    Envelope.Slot(Params.Time, "UNB", 3, 1),
    Envelope.Slot(Params.InterchangeControlReference, "UNB", 4, 0),
    Envelope.Slot(Params.RecipientsReferencePassword, "UNB", 5, 0),
    Envelope.Slot(Params.RecipientsReferencePasswordQualifier, "UNB", 5, 1),
    Envelope.Slot(Params.ApplicationReference, "UNB", 6, 0),
    Envelope.Slot(Params.ProcessingPriorityCode, "UNB", 7, 0),
    Envelope.Slot(Params.AcknowledgementRequest, "UNB", 8, 0),
    Envelope.Slot(Params.CommunicationsAgreementID, "UNB", 9, 0),
    Envelope.Slot(Params.TestIndicator, "UNB", 10, 0)]

  const UngSlots: seq<Envelope.Slot> := [
    Envelope.Slot(Params.FunctionalGroupId, "UNG", 0, 0),
    Envelope.Slot(Params.SendersId, "UNG", 1, 0),
    Envelope.Slot(Params.PartnerIdCodeQualifier, "UNG", 1, 1),
    Envelope.Slot(Params.RecipientsId, "UNG", 2, 0),
    Envelope.Slot(Params.RecipientsIdCodeQualifier, "UNG", 2, 1),
    Envelope.Slot(Params.Date, "UNG", 3, 0),
    Envelope.Slot(Params.Time, "UNG", 3, 1),
    Envelope.Slot(Params.FunctionalGroupReferenceNumber, "UNG", 4, 0),
    Envelope.Slot(Params.ControllingAgency, "UNG", 5, 0),
    Envelope.Slot(Params.MessageVersionNumber, "UNG", 6, 0),
    Envelope.Slot(Params.MessageReleaseNumber, "UNG", 6, 1),
    Envelope.Slot(Params.AssociationAssignedCode, "UNG", 6, 2),
    Envelope.Slot(Params.ApplicationPassword, "UNG", 7, 0)]

  const UnhSlots: seq<Envelope.Slot> := [
    Envelope.Slot(Params.MessageReferenceNumber, "UNH", 0, 0),
    Envelope.Slot(Params.MessageType, "UNH", 1, 0),
    Envelope.Slot(Params.MessageVersionNumber, "UNH", 1, 1),
    Envelope.Slot(Params.MessageReleaseNumber, "UNH", 1, 2),
    Envelope.Slot(Params.ControllingAgency, "UNH", 1, 3),
    Envelope.Slot(Params.AssociationAssignedCode, "UNH", 1, 4),
    Envelope.Slot(Params.CommonAccessReference, "UNH", 2, 0),
    Envelope.Slot(Params.SequenceOfTransfers, "UNH", 3, 0),
    Envelope.Slot(Params.FirstAndLastTransfer, "UNH", 3, 1)]

  const UneSlots: seq<Envelope.Slot> := [
    Envelope.Slot(Params.NumberOfMessages, "UNE", 0, 0),
    Envelope.Slot(Params.FunctionalGroupReferenceNumber, "UNE", 1, 0)]

  const UntSlots: seq<Envelope.Slot> := [
    Envelope.Slot(Params.NumberOfSegmentsInTheMessage, "UNT", 0, 0),
    Envelope.Slot(Params.MessageReferenceNumber, "UNT", 1, 0)]

  const UnzSlots: seq<Envelope.Slot> := [
    Envelope.Slot(Params.InterchangeControlCount, "UNZ", 0, 0),
    Envelope.Slot(Params.InterchangeControlReference, "UNZ", 1, 0)]

  const UnsSlots: seq<Envelope.Slot> := [Envelope.Slot(Params.SectionId, "UNS", 0, 0)]

  /** Each UNB key is read from one position only. */
  lemma UnbSlotsDistinct()
    ensures Envelope.DistinctKeys(UnbSlots)
  {
    var s := UnbSlots;
    forall i, j | 0 <= i < j < |s| ensures s[i].key != s[j].key {
      assert s[i].key in {48, 49, 42, 43, 12, 34, 35, 40, 19, 54, 25, 38, 39, 14, 33, 11, 17, 50};
    }
  }

  /** Every UNB position lies inside a segment. */
  lemma UnbSlotsInRange()
    ensures Envelope.SlotsInRange(UnbSlots)
  {
  }

  /** Each UNG key is read from one position only. */
  lemma UngSlotsDistinct()
    ensures Envelope.SlotsInRange(UngSlots) && Envelope.DistinctKeys(UngSlots)
  {
    var s := UngSlots;
    forall i, j | 0 <= i < j < |s| ensures s[i].key != s[j].key {
      assert s[i].key in {22, 42, 32, 34, 35, 19, 54, 23, 18, 29, 27, 15, 13};
    }
  }

  /** Each UNH key is read from one position only. */
  lemma UnhSlotsDistinct()
    ensures Envelope.SlotsInRange(UnhSlots) && Envelope.DistinctKeys(UnhSlots)
  {
    var s := UnhSlots;
    forall i, j | 0 <= i < j < |s| ensures s[i].key != s[j].key {
      assert s[i].key in {26, 28, 29, 27, 18, 15, 16, 46, 20};
    }
  }

  function Slots(c: Code): (slots: seq<Envelope.Slot>)
    ensures Envelope.SlotsInRange(slots) && Envelope.DistinctKeys(slots)
  {
    UnbSlotsDistinct();
    UnbSlotsInRange();
    UngSlotsDistinct();
    UnhSlotsDistinct();
    match c
    case UNB => UnbSlots
    case UNG => UngSlots
    case UNH => UnhSlots
    case UNE => UneSlots
    case UNT => UntSlots
    case UNZ => UnzSlots
    case UNS => UnsSlots
    case _ => []
  }

  /**
   * `edifact_set_parameters`: the service elements of the segment under
   * their parameter keys, and for UNB also Standard "EDIFACT"; any other
   * segment leaves every key unset.
   */
  function Parameters(seg: Segments.Segment): (p: Params.Parameters)
    ensures Params.ValidParameters(p)
    ensures forall i :: 0 <= i < |Slots(CodeOf(Some(seg)))| ==>
      var slot := Slots(CodeOf(Some(seg)))[i];
      p.values[slot.key] == Envelope.Lookup(seg, slot)
    ensures CodeOf(Some(seg)) == UNB ==> p.values[Params.Standard] == Some("EDIFACT")
    ensures CodeOf(Some(seg)) !in {UNB, UNG, UNH, UNE, UNT, UNZ, UNS} ==>
      forall k :: 0 <= k < Params.MaxParameter ==> p.values[k].None?
  {
    var code := CodeOf(Some(seg));
    var p := Envelope.Fill(seg, Slots(code));
    if code == UNB then Params.SetOne(p, Params.Standard, Some("EDIFACT")) else p
  }

  // ---------------------------------------------------------------------
  // The envelope state machine
  // ---------------------------------------------------------------------

  /** `edi_edifact_t`'s counters and the syntax level and version read from UNB. */
  datatype State = State(messageCount: nat, segmentCount: nat, groupCount: nat, syntaxLevel: char, syntaxVersion: char)

  /** `edi_edifact_init`: counters zero, level 'A', version '2'. */
  function Init(): (st: State)
    ensures st.messageCount == 0 && st.segmentCount == 0 && st.groupCount == 0
    ensures st.syntaxLevel == 'A' && st.syntaxVersion == '2'
  {
    State(0, 0, 0, 'A', '2')
  }

  /** In a functional group the message type (UNG 0038 against UNH S009/0065) must not change. */
  predicate MixedTypes(ung: Segments.Segment, unh: Segments.Segment) {
    Envelope.Differ(Envelope.ByName(ung, "UNG", 0, 0), Envelope.ByName(unh, "UNH", 1, 0))
  }

  /** In a functional group the message version (UNG S008/0052 against UNH S009/0052) must not change. */
  predicate MixedVersions(ung: Segments.Segment, unh: Segments.Segment) {
    Envelope.Differ(Envelope.ByName(ung, "UNG", 6, 0), Envelope.ByName(unh, "UNH", 1, 1))
  }

  /**
   * A trailer's reference, cell (1,0), differs from its header's, cell
   * (x,0).  With no header open there is no reference to differ from.
   */
  predicate ReferenceDiffers(seg: Segments.Segment, context: Option<Segments.Segment>, x: nat)
    requires x < Segments.NElems
  {
    context.Some? && Envelope.Differ(Segments.GetElement(seg, 1, 0), Segments.GetElement(context.value, x, 0))
  }

  /**
   * The reference check as written: the header's cell is read whenever the
   * trailer has a reference, even with no header open, which dereferences
   * NULL.  None stands for that dereference.  Wherever the source is
   * defined, it agrees with `ReferenceDiffers`.
   */
  function ReferenceDiffersAsWritten(seg: Segments.Segment, context: Option<Segments.Segment>, x: nat): (r: Option<bool>)
    requires x < Segments.NElems
    ensures r.None? <==> context.None? && Segments.GetElement(seg, 1, 0).Some?
    ensures r.Some? ==> r.value == ReferenceDiffers(seg, context, x)
  {
    var reference := Segments.GetElement(seg, 1, 0);
    if reference.None? then Some(false)
    else if context.None? then None
    else Some(Envelope.Differ(reference, Segments.GetElement(context.value, x, 0)))
  }

  /** What the handler decides for one segment: the parser actions in order, and the new counters. */
  datatype Outcome = Outcome(actions: seq<PS.Action>, state: State)

  /** A segment the message directory parses: UNS, TXT and every segment without a service code. */
  predicate IsBody(c: Code) {
    c == UNS || c == TXT || c == NoCode
  }

  /** UNB: raised if any header is open; pushed; counters zeroed; level and version read from S001. */
  function OpenInterchange(st: State, ctx: Code, seg: Segments.Segment, p: Params.Parameters): (r: Outcome)
    ensures forall a :: a in r.actions ==> !a.Head?
  {
    var level := Segments.GetElement(seg, 0, 0);
    var version := Segments.GetElement(seg, 0, 1);
    var levelOk := level.Some? && |level.value| > 3;
    var versionOk := version.Some? && |version.value| > 0;
    Outcome(
      PS.RaiseIf(ctx != NoCode, EENVELOPE) + [PS.PushSegment]
      + (PS.RaiseIf(!levelOk, EENVELOPE) + PS.RaiseIf(!versionOk, EENVELOPE) + [PS.Start(INTERCHANGE, p), PS.HandOn]),
      State(0, 0, 0,
            if levelOk then level.value[3] else st.syntaxLevel,
            if versionOk then version.value[0] else st.syntaxVersion))
  }

  /** UNG: raised outside an interchange; pushed; one more group, no message in it yet. */
  function OpenGroup(st: State, ctx: Code, p: Params.Parameters): (r: Outcome)
    ensures forall a :: a in r.actions ==> !a.Head?
  {
    Outcome(
      PS.Checks([(ctx != UNB, EENVELOPE)]) + [PS.PushSegment] + [PS.Start(GROUP, p), PS.HandOn],
      st.(groupCount := st.groupCount + 1, messageCount := 0))
  }

  /** The checks a message header passes before it is pushed. */
  function UnhTests(context: Option<Segments.Segment>, seg: Segments.Segment): seq<(bool, Error)> {
    var ctx := CodeOf(context);
    [(ctx != UNB && ctx != UNG, EENVELOPE),
     (ctx == UNG && MixedTypes(context.value, seg), EGMT),
     (ctx == UNG && MixedVersions(context.value, seg), EGMV)]
  }

  /**
   * UNH: raised outside an interchange or group, and on a type or version
   * other than the group's; pushed; one more message, counted from this
   * segment; the transaction named by cell (1,0) started in the client's
   * directory.
   */
  function OpenMessage(st: State, context: Option<Segments.Segment>, seg: Segments.Segment, p: Params.Parameters): (r: Outcome)
    requires Params.ValidParameters(p)
    ensures forall a :: a in r.actions && a.Head? ==> a.transaction == Segments.GetElement(seg, 1, 0)
  {
    var q := Params.SetOne(p, Params.Standard, Some("EDIFACT"));
    var name := Segments.GetElement(seg, 1, 0);
    var pre := PS.Checks(UnhTests(context, seg)) + [PS.PushSegment];
    var mid := [PS.Start(TRANSACTION, q)] + PS.Checks([(name.None?, ENOTTTH)]);
    PS.HeadLast(pre, mid, PS.Head(q, name));
    Outcome(pre + (mid + [PS.Head(q, name)]), st.(messageCount := st.messageCount + 1, segmentCount := 1))
  }

  /** The checks of a message trailer, given the count it should hold. */
  function UntTests(context: Option<Segments.Segment>, seg: Segments.Segment, n: nat): seq<(bool, Error)> {
    [(CodeOf(context) != UNH, EENVELOPE),
     (!Envelope.CountIs(Segments.GetElement(seg, 0, 0), n), ETTC),
     (ReferenceDiffers(seg, context, 0), ETTR)]
  }

  /** UNT: counted; checked against the message header; popped; the transaction closed. */
  function CloseMessage(st: State, context: Option<Segments.Segment>, seg: Segments.Segment): (r: Outcome)
    ensures forall a :: a in r.actions ==> !a.Head?
  {
    var n := st.segmentCount + 1;
    var tail := [PS.PopSegment, PS.Tail, PS.Release, PS.End(TRANSACTION)];
    PS.ChecksThenNoHead(UntTests(context, seg, n), tail);
    Outcome(PS.Checks(UntTests(context, seg, n)) + tail, st.(segmentCount := n + 1))
  }

  /** The checks of a group trailer. */
  function UneTests(st: State, context: Option<Segments.Segment>, seg: Segments.Segment): seq<(bool, Error)> {
    [(CodeOf(context) != UNG, EENVELOPE),
     (st.messageCount == 0, EGEMPTY),
     (!Envelope.CountIs(Segments.GetElement(seg, 0, 0), st.messageCount), EGTC),
     (ReferenceDiffers(seg, context, 4), EGTR)]
  }

  /** UNE: checked against the group header and the messages in the group; popped. */
  function CloseGroup(st: State, context: Option<Segments.Segment>, seg: Segments.Segment): (r: Outcome)
    ensures forall a :: a in r.actions ==> !a.Head?
  {
    var tail := [PS.PopSegment, PS.HandOn, PS.End(GROUP)];
    PS.ChecksThenNoHead(UneTests(st, context, seg), tail);
    Outcome(PS.Checks(UneTests(st, context, seg)) + tail, st)
  }

  /** The checks of an interchange trailer: groups are counted, or messages when there are none. */
  function UnzTests(st: State, context: Option<Segments.Segment>, seg: Segments.Segment): seq<(bool, Error)> {
    var expected := if st.groupCount != 0 then st.groupCount else st.messageCount;
    [(CodeOf(context) != UNB, EENVELOPE),
     (st.groupCount == 0 && st.messageCount == 0, EIEMPTY),
     (!Envelope.CountIs(Segments.GetElement(seg, 0, 0), expected), EITC),
     (ReferenceDiffers(seg, context, 4), EITR)]
  }

  /** UNZ: checked against the interchange header; popped; done. */
  function CloseInterchange(st: State, context: Option<Segments.Segment>, seg: Segments.Segment): (r: Outcome)
    ensures forall a :: a in r.actions ==> !a.Head?
  {
    var tail := [PS.PopSegment, PS.HandOn, PS.End(INTERCHANGE), PS.Finish];
    PS.ChecksThenNoHead(UnzTests(st, context, seg), tail);
    Outcome(PS.Checks(UnzTests(st, context, seg)) + tail, st)
  }

  /** UNS and every other segment: counted; raised outside a message; given to the message directory. */
  function BodySegment(st: State, ctx: Code): (r: Outcome)
    ensures forall a :: a in r.actions ==> !a.Head?
  {
    Outcome(PS.Checks([(ctx != UNH, EENVELOPE)]) + [PS.Body], st.(segmentCount := st.segmentCount + 1))
  }

  /** `edifact_segment`, given the top of the header stack as `context`. */
  function Plan(st: State, context: Option<Segments.Segment>, seg: Segments.Segment): (r: Outcome)
  {
    match CodeOf(Some(seg))
    case UNB => OpenInterchange(st, CodeOf(context), seg, Parameters(seg))
    case UNG => OpenGroup(st, CodeOf(context), Parameters(seg))
    case UNH => OpenMessage(st, context, seg, Parameters(seg))
    case UNT => CloseMessage(st, context, seg)
    case UNE => CloseGroup(st, context, seg)
    case UNZ => CloseInterchange(st, context, seg)
    case _ => BodySegment(st, CodeOf(context))
  }

  /** Only a message header opens a transaction, and it names the transaction by its cell (1,0). */
  lemma OnlyHeaderOpens(st: State, context: Option<Segments.Segment>, seg: Segments.Segment)
    ensures forall a :: a in Plan(st, context, seg).actions && a.Head? ==>
      CodeOf(Some(seg)) == UNH && a.transaction == Segments.GetElement(seg, 1, 0)
  {
  }

  /** The transaction a message header would open fits the client's directory. */
  predicate HeadFits(seg: Segments.Segment, supplied: Option<Directory.Dir>) {
    CodeOf(Some(seg)) == UNH ==> PS.HeadDefined(supplied, Segments.GetElement(seg, 1, 0))
  }

  /**
   * `edifact_segment` on the parser: the plan for the current segment
   * against the top of the stack, performed; the result is always ENONE.
   */
  function Handle<S>(c: PS.Core<S>, st: State, supplied: Option<Directory.Dir>): (r: (PS.Core<S>, State, Error))
    requires PS.Valid(c) && Directory.Valid(supplied) && HeadFits(c.segment, supplied)
    ensures PS.Valid(r.0) && r.2 == ENONE
    ensures var o := Plan(st, PS.Peek(c), c.segment);
      && r.1 == o.state
      && r.0.stack == PS.StackAfter(c.stack, c.segment, o.actions)
      && r.0.error == PS.Latched(c.error, c.pragma, PS.Raised(o.actions))
      && (r.0.done <==> c.done || PS.Finish in o.actions)
      && PS.Keeps(c, r.0)
  {
    var o := Plan(st, PS.Peek(c), c.segment);
    OnlyHeaderOpens(st, PS.Peek(c), c.segment);
    PS.PerformEffects(c, o.actions, supplied);
    (PS.Perform(c, o.actions, supplied).0, o.state, ENONE)
  }

  // ---------------------------------------------------------------------
  // What each service segment does
  // ---------------------------------------------------------------------

  /** UNB opens an interchange: the header is pushed, every counter starts again, and the interchange starts with EDIFACT as its standard. */
  lemma {:induction false} InterchangeHeader(st: State, context: Option<Segments.Segment>, seg: Segments.Segment, stack: seq<Segments.Segment>)
    requires CodeOf(Some(seg)) == UNB
    ensures var o := Plan(st, context, seg);
      var level := Segments.GetElement(seg, 0, 0);
      && PS.StackAfter(stack, seg, o.actions) == stack + [seg]
      && o.state.messageCount == 0 && o.state.groupCount == 0 && o.state.segmentCount == 0
      && (level.Some? && |level.value| > 3 ==> o.state.syntaxLevel == level.value[3])
      && PS.Start(INTERCHANGE, Parameters(seg)) in o.actions
      && Parameters(seg).values[Params.Standard] == Some("EDIFACT")
      && PS.Finish !in o.actions
  {
    var o := Plan(st, context, seg);
    var level := Segments.GetElement(seg, 0, 0);
    var version := Segments.GetElement(seg, 0, 1);
    var a := PS.RaiseIf(CodeOf(context) != NoCode, EENVELOPE);
    var m := PS.RaiseIf(!(level.Some? && |level.value| > 3), EENVELOPE)
      + PS.RaiseIf(!(version.Some? && |version.value| > 0), EENVELOPE);
    assert o.actions == a + [PS.PushSegment] + (m + [PS.Start(INTERCHANGE, Parameters(seg)), PS.HandOn]);
    InterchangeOpens(stack, seg, a, m, Parameters(seg));
  }

  /** Raises, a push, more raises, the start of an interchange and the hand-on: one push, the start present, no finish. */
  lemma InterchangeOpens(stack: seq<Segments.Segment>, seg: Segments.Segment, a: seq<PS.Action>, m: seq<PS.Action>, p: Params.Parameters)
    requires forall x :: x in a ==> x.Raise?
    requires forall x :: x in m ==> x.Raise?
    ensures var acts := a + [PS.PushSegment] + (m + [PS.Start(INTERCHANGE, p), PS.HandOn]);
      && PS.StackAfter(stack, seg, acts) == stack + [seg]
      && PS.Start(INTERCHANGE, p) in acts && PS.Finish !in acts
  {
    var b := m + [PS.Start(INTERCHANGE, p), PS.HandOn];
    var acts := a + [PS.PushSegment] + b;
    assert forall x :: x in b ==> x in m || x == PS.Start(INTERCHANGE, p) || x == PS.HandOn;
    PS.StackAfterAround(stack, seg, a, PS.PushSegment, b);
    assert acts[|acts| - 2] == PS.Start(INTERCHANGE, p);
    assert forall x :: x in acts ==> x in a || x == PS.PushSegment || x in b;
  }

  /**
   * UNB's only error is EENVELOPE, raised exactly when a header is already
   * open or S001 lacks a usable level or version.
   */
  lemma {:induction false} InterchangeChecks(st: State, context: Option<Segments.Segment>, seg: Segments.Segment)
    requires CodeOf(Some(seg)) == UNB
    ensures var o := Plan(st, context, seg);
      var level := Segments.GetElement(seg, 0, 0);
      var version := Segments.GetElement(seg, 0, 1);
      && (forall e :: e in PS.Raised(o.actions) ==> e == EENVELOPE)
      && (PS.Raised(o.actions) == [] <==>
            CodeOf(context) == NoCode && level.Some? && |level.value| > 3 && version.Some? && version.value != [])
  {
    var o := Plan(st, context, seg);
    var level := Segments.GetElement(seg, 0, 0);
    var version := Segments.GetElement(seg, 0, 1);
    var a := PS.RaiseIf(CodeOf(context) != NoCode, EENVELOPE);
    var b1 := PS.RaiseIf(!(level.Some? && |level.value| > 3), EENVELOPE);
    var b2 := PS.RaiseIf(!(version.Some? && |version.value| > 0), EENVELOPE);
    var rest := [PS.Start(INTERCHANGE, Parameters(seg)), PS.HandOn];
    assert o == OpenInterchange(st, CodeOf(context), seg, Parameters(seg));
    assert o.actions == a + [PS.PushSegment] + ((b1 + b2) + rest);
    assert forall x :: x in b1 + b2 ==> x in b1 || x in b2;
    RaisesOnly(a, b1 + b2, rest, EENVELOPE);
    assert b1 + b2 == [] <==> b1 == [] && b2 == [];
  }

  /** Raises of one error, a push, more of them and actions that raise nothing: only that error, and none exactly when there is no raise. */
  lemma RaisesOnly(a: seq<PS.Action>, m: seq<PS.Action>, rest: seq<PS.Action>, e: Error)
    requires forall x :: x in a ==> x == PS.Raise(e)
    requires forall x :: x in m ==> x == PS.Raise(e)
    requires forall x :: x in rest ==> !x.Raise?
    ensures var acts := a + [PS.PushSegment] + (m + rest);
      && (forall x :: x in PS.Raised(acts) ==> x == e)
      && (PS.Raised(acts) == [] <==> a == [] && m == [])
  {
    var acts := a + [PS.PushSegment] + (m + rest);
    PS.RaisedMembers(acts);
    PS.NothingRaised(acts);
    assert forall x :: x in acts ==> x in a || x == PS.PushSegment || x in m || x in rest;
    forall x | x in PS.Raised(acts)
      ensures x == e
    {
      assert PS.Raise(x) in acts;
    }
    if a != [] {
      assert a[0] in a;
      assert acts[0] == a[0] == PS.Raise(e);
      assert PS.Raise(e) in acts;
    } else if m != [] {
      assert m[0] in m;
      assert acts[1] == m[0] == PS.Raise(e);
      assert PS.Raise(e) in acts;
    }
  }

  /** UNG opens a group inside the interchange: the header is pushed, one more group is counted and it holds no message yet. */
  lemma {:induction false} GroupHeader(st: State, context: Option<Segments.Segment>, seg: Segments.Segment, stack: seq<Segments.Segment>)
    requires CodeOf(Some(seg)) == UNG
    ensures var o := Plan(st, context, seg);
      && PS.StackAfter(stack, seg, o.actions) == stack + [seg]
      && o.state == st.(groupCount := st.groupCount + 1, messageCount := 0)
      && (forall e :: e in PS.Raised(o.actions) <==> e == EENVELOPE && CodeOf(context) != UNB)
      && PS.Start(GROUP, Parameters(seg)) in o.actions
      && PS.Finish !in o.actions
  {
    var o := Plan(st, context, seg);
    assert o == OpenGroup(st, CodeOf(context), Parameters(seg));
    var rest := [PS.Start(GROUP, Parameters(seg)), PS.HandOn];
    GroupOpens(stack, seg, CodeOf(context) != UNB, rest);
    assert rest[0] in rest;
  }

  /** One check, a push and actions that neither push, pop, raise nor finish. */
  lemma GroupOpens(stack: seq<Segments.Segment>, seg: Segments.Segment, c: bool, rest: seq<PS.Action>)
    requires forall x :: x in rest ==> !x.Raise? && !x.PushSegment? && !x.PopSegment? && !x.Finish?
    ensures var acts := PS.Checks([(c, EENVELOPE)]) + [PS.PushSegment] + rest;
      && PS.StackAfter(stack, seg, acts) == stack + [seg]
      && (forall e :: e in PS.Raised(acts) <==> e == EENVELOPE && c)
      && (forall x :: x in rest ==> x in acts)
      && PS.Finish !in acts
  {
    var a := PS.Checks([(c, EENVELOPE)]);
    var acts := a + [PS.PushSegment] + rest;
    PS.StackAfterAround(stack, seg, a, PS.PushSegment, rest);
    assert acts == a + ([PS.PushSegment] + rest);
    PS.OneCheck(c, EENVELOPE, [PS.PushSegment] + rest);
    assert forall x :: x in acts ==> x in a || x == PS.PushSegment || x in rest;
  }

  /**
   * UNH opens a message: the header is pushed, one more message is
   * counted, its segment count starts at one for the header itself, and
   * the transaction named by S009/0065 is started with EDIFACT as its
   * standard.
   */
  lemma {:induction false} MessageHeader(st: State, context: Option<Segments.Segment>, seg: Segments.Segment, stack: seq<Segments.Segment>)
    requires CodeOf(Some(seg)) == UNH
    ensures var o := Plan(st, context, seg);
      && PS.StackAfter(stack, seg, o.actions) == stack + [seg]
      && o.state == st.(messageCount := st.messageCount + 1, segmentCount := 1)
      && (exists q :: PS.Start(TRANSACTION, q) in o.actions && PS.Head(q, Segments.GetElement(seg, 1, 0)) in o.actions
            && q.values[Params.Standard] == Some("EDIFACT"))
      && PS.Finish !in o.actions
  {
    assert Plan(st, context, seg) == OpenMessage(st, context, seg, Parameters(seg));
    OpenMessageEffects(st, context, seg, Parameters(seg), stack);
  }

  lemma {:induction false} OpenMessageEffects(st: State, context: Option<Segments.Segment>, seg: Segments.Segment, p: Params.Parameters, stack: seq<Segments.Segment>)
    requires Params.ValidParameters(p)
    ensures var o := OpenMessage(st, context, seg, p);
      && PS.StackAfter(stack, seg, o.actions) == stack + [seg]
      && o.state == st.(messageCount := st.messageCount + 1, segmentCount := 1)
      && (exists q :: PS.Start(TRANSACTION, q) in o.actions && PS.Head(q, Segments.GetElement(seg, 1, 0)) in o.actions
            && q.values[Params.Standard] == Some("EDIFACT"))
      && PS.Finish !in o.actions
  {
    var o := OpenMessage(st, context, seg, p);
    var q := Params.SetOne(p, Params.Standard, Some("EDIFACT"));
    var name := Segments.GetElement(seg, 1, 0);
    var a := PS.Checks(UnhTests(context, seg));
    var m := PS.Checks([(name.None?, ENOTTTH)]);
    HeaderOpens(stack, seg, a, q, name, m);
    assert PS.Start(TRANSACTION, q) in o.actions && PS.Head(q, name) in o.actions;
  }

  /** Checks, a push, the start of a transaction, more checks and its head: one push, the start and head present, no finish. */
  lemma HeaderOpens(stack: seq<Segments.Segment>, seg: Segments.Segment, a: seq<PS.Action>, q: Params.Parameters,
                    name: Option<string>, m: seq<PS.Action>)
    requires forall x :: x in a ==> x.Raise?
    requires forall x :: x in m ==> x.Raise?
    ensures var acts := a + [PS.PushSegment] + ([PS.Start(TRANSACTION, q)] + m + [PS.Head(q, name)]);
      && PS.StackAfter(stack, seg, acts) == stack + [seg]
      && PS.Start(TRANSACTION, q) in acts && PS.Head(q, name) in acts && PS.Finish !in acts
  {
    var b := [PS.Start(TRANSACTION, q)] + m + [PS.Head(q, name)];
    var acts := a + [PS.PushSegment] + b;
    assert forall x :: x in b ==> x in m || x == PS.Start(TRANSACTION, q) || x == PS.Head(q, name);
    PS.StackAfterAround(stack, seg, a, PS.PushSegment, b);
    assert acts[|a| + 1] == PS.Start(TRANSACTION, q);
    assert acts[|acts| - 1] == PS.Head(q, name);
    assert forall x :: x in acts ==> x in a || x == PS.PushSegment || x in b;
  }

  /**
   * A message header raises EENVELOPE outside an interchange or group,
   * EGMT and EGMV inside a group whose message type or version it does
   * not share, and ENOTTTH when it names no message type; nothing else.
   */
  lemma {:induction false} MessageHeaderChecks(st: State, context: Option<Segments.Segment>, seg: Segments.Segment)
    requires CodeOf(Some(seg)) == UNH
    ensures var r := PS.Raised(Plan(st, context, seg).actions);
      var ctx := CodeOf(context);
      && (EENVELOPE in r <==> ctx != UNB && ctx != UNG)
      && (EGMT in r <==> ctx == UNG && MixedTypes(context.value, seg))
      && (EGMV in r <==> ctx == UNG && MixedVersions(context.value, seg))
      && (ENOTTTH in r <==> Segments.GetElement(seg, 1, 0).None?)
      && (forall e :: e in r ==> e == EENVELOPE || e == EGMT || e == EGMV || e == ENOTTTH)
  {
    assert Plan(st, context, seg) == OpenMessage(st, context, seg, Parameters(seg));
    OpenMessageChecks(st, context, seg, Parameters(seg));
  }

  lemma {:induction false} OpenMessageChecks(st: State, context: Option<Segments.Segment>, seg: Segments.Segment, p: Params.Parameters)
    requires Params.ValidParameters(p)
    ensures var r := PS.Raised(OpenMessage(st, context, seg, p).actions);
      var ctx := CodeOf(context);
      && (EENVELOPE in r <==> ctx != UNB && ctx != UNG)
      && (EGMT in r <==> ctx == UNG && MixedTypes(context.value, seg))
      && (EGMV in r <==> ctx == UNG && MixedVersions(context.value, seg))
      && (ENOTTTH in r <==> Segments.GetElement(seg, 1, 0).None?)
      && (forall e :: e in r ==> e == EENVELOPE || e == EGMT || e == EGMV || e == ENOTTTH)
  {
    var o := OpenMessage(st, context, seg, p);
    var q := Params.SetOne(p, Params.Standard, Some("EDIFACT"));
    var name := Segments.GetElement(seg, 1, 0);
    var ctx := CodeOf(context);
    PS.ThreeThenOne(ctx != UNB && ctx != UNG, ctx == UNG && MixedTypes(context.value, seg),
                    ctx == UNG && MixedVersions(context.value, seg), name.None?, EENVELOPE, EGMT, EGMV, ENOTTTH,
                    [PS.PushSegment], [PS.Start(TRANSACTION, q)], [PS.Head(q, name)]);
  }

  /**
   * UNT closes the message: the header is popped, the transaction ends and
   * the count moves past the trailer, which is counted too.
   */
  lemma {:induction false} MessageTrailer(st: State, context: Option<Segments.Segment>, seg: Segments.Segment, stack: seq<Segments.Segment>)
    requires CodeOf(Some(seg)) == UNT
    ensures var o := Plan(st, context, seg);
      && PS.StackAfter(stack, seg, o.actions) == (if stack == [] then [] else stack[..|stack| - 1])
      && o.state == st.(segmentCount := st.segmentCount + 2)
      && PS.Tail in o.actions && PS.End(TRANSACTION) in o.actions && PS.Finish !in o.actions
  {
    var o := Plan(st, context, seg);
    assert o == CloseMessage(st, context, seg);
    var a := PS.Checks(UntTests(context, seg, st.segmentCount + 1));
    var b := [PS.Tail, PS.Release, PS.End(TRANSACTION)];
    assert [PS.PopSegment] + b == [PS.PopSegment, PS.Tail, PS.Release, PS.End(TRANSACTION)];
    assert o.actions == a + [PS.PopSegment] + b;
    assert PS.Tail in b && PS.End(TRANSACTION) in b && PS.Finish !in b;
    ChecksThenPop(stack, seg, a, b);
  }

  /**
   * A message trailer raises EENVELOPE outside a message, ETTC unless its
   * count is the number of segments of the message including UNH and
   * itself, and ETTR when its reference is not the header's; nothing else.
   */
  lemma {:induction false} MessageTrailerChecks(st: State, context: Option<Segments.Segment>, seg: Segments.Segment)
    requires CodeOf(Some(seg)) == UNT
    ensures var r := PS.Raised(Plan(st, context, seg).actions);
      && (EENVELOPE in r <==> CodeOf(context) != UNH)
      && (ETTC in r <==> !Envelope.CountIs(Segments.GetElement(seg, 0, 0), st.segmentCount + 1))
      && (ETTR in r <==> ReferenceDiffers(seg, context, 0))
      && (forall e :: e in r ==> e == EENVELOPE || e == ETTC || e == ETTR)
  {
    var rest := [PS.PopSegment, PS.Tail, PS.Release, PS.End(TRANSACTION)];
    assert Plan(st, context, seg).actions == PS.Checks(UntTests(context, seg, st.segmentCount + 1)) + rest;
    PS.ThreeChecks(CodeOf(context) != UNH, !Envelope.CountIs(Segments.GetElement(seg, 0, 0), st.segmentCount + 1),
                   ReferenceDiffers(seg, context, 0), EENVELOPE, ETTC, ETTR, rest);
  }

  /** Raises, a pop, then actions that move nothing: the top is dropped, and a finish is there only if it follows the pop. */
  lemma ChecksThenPop(stack: seq<Segments.Segment>, seg: Segments.Segment, a: seq<PS.Action>, b: seq<PS.Action>)
    requires forall x :: x in a ==> x.Raise?
    requires PS.StackQuiet(b)
    ensures var acts := a + [PS.PopSegment] + b;
      && PS.StackAfter(stack, seg, acts) == (if stack == [] then [] else stack[..|stack| - 1])
      && (forall x :: x in b ==> x in acts)
      && (PS.Finish in acts <==> PS.Finish in b)
  {
    var acts := a + [PS.PopSegment] + b;
    PS.StackAfterAround(stack, seg, a, PS.PopSegment, b);
    PS.PopThenQuiet(stack, seg, []);
    assert [PS.PopSegment] + [] == [PS.PopSegment];
    assert forall x :: x in acts ==> x in a || x == PS.PopSegment || x in b;
    assert forall i :: 0 <= i < |b| ==> acts[|a| + 1 + i] == b[i];
  }

  /** UNE closes the group: the header is popped, the group ends, and the counters stay. */
  lemma {:induction false} GroupTrailer(st: State, context: Option<Segments.Segment>, seg: Segments.Segment, stack: seq<Segments.Segment>)
    requires CodeOf(Some(seg)) == UNE
    ensures var o := Plan(st, context, seg);
      && PS.StackAfter(stack, seg, o.actions) == (if stack == [] then [] else stack[..|stack| - 1])
      && o.state == st
      && PS.End(GROUP) in o.actions && PS.Finish !in o.actions
  {
    var o := Plan(st, context, seg);
    var a := PS.Checks(UneTests(st, context, seg));
    var b := [PS.HandOn, PS.End(GROUP)];
    assert o.actions == a + [PS.PopSegment] + b;
    ChecksThenPop(stack, seg, a, b);
  }

  /**
   * A group trailer raises EENVELOPE outside a group, EGEMPTY for a group
   * without messages, EGTC unless its count is the group's messages, and
   * EGTR when its reference is not the group header's (0048); nothing else.
   */
  lemma {:induction false} GroupTrailerChecks(st: State, context: Option<Segments.Segment>, seg: Segments.Segment)
    requires CodeOf(Some(seg)) == UNE
    ensures var r := PS.Raised(Plan(st, context, seg).actions);
      && (EENVELOPE in r <==> CodeOf(context) != UNG)
      && (EGEMPTY in r <==> st.messageCount == 0)
      && (EGTC in r <==> !Envelope.CountIs(Segments.GetElement(seg, 0, 0), st.messageCount))
      && (EGTR in r <==> ReferenceDiffers(seg, context, 4))
      && (forall e :: e in r ==> e == EENVELOPE || e == EGEMPTY || e == EGTC || e == EGTR)
  {
    var rest := [PS.PopSegment, PS.HandOn, PS.End(GROUP)];
    assert Plan(st, context, seg).actions == PS.Checks(UneTests(st, context, seg)) + rest;
    PS.FourChecks(CodeOf(context) != UNG, st.messageCount == 0,
                  !Envelope.CountIs(Segments.GetElement(seg, 0, 0), st.messageCount), ReferenceDiffers(seg, context, 4),
                  EENVELOPE, EGEMPTY, EGTC, EGTR, rest);
  }

  /** UNZ closes the interchange: the header is popped, the interchange ends, and the parser is done. */
  lemma {:induction false} InterchangeTrailer(st: State, context: Option<Segments.Segment>, seg: Segments.Segment, stack: seq<Segments.Segment>)
    requires CodeOf(Some(seg)) == UNZ
    ensures var o := Plan(st, context, seg);
      && PS.StackAfter(stack, seg, o.actions) == (if stack == [] then [] else stack[..|stack| - 1])
      && o.state == st
      && PS.End(INTERCHANGE) in o.actions && PS.Finish in o.actions
  {
    var o := Plan(st, context, seg);
    var a := PS.Checks(UnzTests(st, context, seg));
    var b := [PS.HandOn, PS.End(INTERCHANGE), PS.Finish];
    assert o.actions == a + [PS.PopSegment] + b;
    ChecksThenPop(stack, seg, a, b);
  }

  /**
   * An interchange trailer raises EENVELOPE outside an interchange,
   * EIEMPTY when it held neither groups nor messages, EITC unless its
   * count is the groups, or the messages when there were no groups, and
   * EITR when its reference is not the interchange header's (0020);
   * nothing else.
   */
  lemma {:induction false} InterchangeTrailerChecks(st: State, context: Option<Segments.Segment>, seg: Segments.Segment)
    requires CodeOf(Some(seg)) == UNZ
    ensures var r := PS.Raised(Plan(st, context, seg).actions);
      && (EENVELOPE in r <==> CodeOf(context) != UNB)
      && (EIEMPTY in r <==> st.groupCount == 0 && st.messageCount == 0)
      && (EITC in r <==> !Envelope.CountIs(Segments.GetElement(seg, 0, 0),
                                           if st.groupCount != 0 then st.groupCount else st.messageCount))
      && (EITR in r <==> ReferenceDiffers(seg, context, 4))
      && (forall e :: e in r ==> e == EENVELOPE || e == EIEMPTY || e == EITC || e == EITR)
  {
    var rest := [PS.PopSegment, PS.HandOn, PS.End(INTERCHANGE), PS.Finish];
    var expected := if st.groupCount != 0 then st.groupCount else st.messageCount;
    assert Plan(st, context, seg).actions == PS.Checks(UnzTests(st, context, seg)) + rest;
    PS.FourChecks(CodeOf(context) != UNB, st.groupCount == 0 && st.messageCount == 0,
                  !Envelope.CountIs(Segments.GetElement(seg, 0, 0), expected), ReferenceDiffers(seg, context, 4),
                  EENVELOPE, EIEMPTY, EITC, EITR, rest);
  }

  /**
   * Every other segment belongs to the message: it is counted, handed to
   * the message directory, moves nothing on the stack, and raises
   * EENVELOPE exactly when no message is open.
   */
  lemma {:induction false} MessageBody(st: State, context: Option<Segments.Segment>, seg: Segments.Segment, stack: seq<Segments.Segment>)
    requires IsBody(CodeOf(Some(seg)))
    ensures var o := Plan(st, context, seg);
      && PS.StackAfter(stack, seg, o.actions) == stack
      && o.state == st.(segmentCount := st.segmentCount + 1)
      && PS.Body in o.actions && PS.Finish !in o.actions
      && (forall e :: e in PS.Raised(o.actions) <==> e == EENVELOPE && CodeOf(context) != UNH)
  {
    var o := Plan(st, context, seg);
    assert o == BodySegment(st, CodeOf(context));
    var tests := [(CodeOf(context) != UNH, EENVELOPE)];
    assert o.actions == PS.Checks(tests) + [PS.Body];
    PS.StackAfterQuiet(stack, seg, o.actions);
    PS.OneCheck(CodeOf(context) != UNH, EENVELOPE, [PS.Body]);
  }

  // ---------------------------------------------------------------------
  // Counting inside a message
  // ---------------------------------------------------------------------

  /** The counters after a run of segments, each read against the same open header, as inside a message. */
  function Counters(st: State, context: Option<Segments.Segment>, segs: seq<Segments.Segment>): State
    decreases |segs|
  {
    if segs == [] then st else Counters(Plan(st, context, segs[0]).state, context, segs[1..])
  }

  /** Each body segment adds one to the segment count and leaves the other counters. */
  lemma {:induction false} BodyCounts(st: State, context: Option<Segments.Segment>, body: seq<Segments.Segment>)
    requires forall i :: 0 <= i < |body| ==> IsBody(CodeOf(Some(body[i])))
    ensures Counters(st, context, body) == st.(segmentCount := st.segmentCount + |body|)
    decreases |body|
  {
    if body != [] {
      MessageBody(st, context, body[0], []);
      var next := Plan(st, context, body[0]).state;
      assert forall i :: 0 <= i < |body[1..]| ==> body[1..][i] == body[i + 1];
      BodyCounts(next, context, body[1..]);
    }
  }

  /**
   * A whole message, UNH, its body and UNT, inside an interchange or
   * group: the trailer raises ETTC exactly when its count is not the
   * number of segments from UNH to UNT inclusive, ETTR exactly when its
   * reference is not the header's, and never EENVELOPE.
   */
  lemma {:induction false} MessageSegmentCount(st: State, context: Option<Segments.Segment>, unh: Segments.Segment, body: seq<Segments.Segment>, unt: Segments.Segment)
    requires CodeOf(Some(unh)) == UNH && CodeOf(Some(unt)) == UNT
    requires forall i :: 0 <= i < |body| ==> IsBody(CodeOf(Some(body[i])))
    ensures var inside := Counters(Plan(st, context, unh).state, Some(unh), body);
      var r := PS.Raised(Plan(inside, Some(unh), unt).actions);
      && (ETTC in r <==> !Envelope.CountIs(Segments.GetElement(unt, 0, 0), |body| + 2))
      && (ETTR in r <==> Envelope.Differ(Segments.GetElement(unt, 1, 0), Segments.GetElement(unh, 0, 0)))
      && EENVELOPE !in r
  {
    MessageHeader(st, context, unh, []);
    BodyCounts(Plan(st, context, unh).state, Some(unh), body);
    MessageTrailerChecks(Counters(Plan(st, context, unh).state, Some(unh), body), Some(unh), unt);
  }

  // ---------------------------------------------------------------------
  // A trailer with no header open
  // ---------------------------------------------------------------------

  /**
   * The input that reaches the NULL dereference of the trailer checks as
   * written.  An interchange is open and EENVELOPE is tolerated; a message
   * trailer arrives (UNT+1, the count right, no reference).  It is raised
   * as out of place, tolerated, and still pops the interchange header, so
   * the parser carries on with an empty stack.  The next trailer with a
   * reference then compares it against a header that is not there: a
   * message trailer reads the header's cell (0,0), a group or interchange
   * trailer its cell (4,0).
   */
  lemma {:induction false} NullContextReached<S>(c: PS.Core<S>, st: State, unb: Segments.Segment, next: Segments.Segment, supplied: Option<Directory.Dir>)
    requires PS.Valid(c) && Directory.Valid(supplied)
    requires c.stack == [unb] && c.error == ENONE && !c.done && Tolerates(c.pragma, EENVELOPE)
    requires CodeOf(Some(c.segment)) == UNT
    requires Envelope.CountIs(Segments.GetElement(c.segment, 0, 0), st.segmentCount + 1)
    requires Segments.GetElement(c.segment, 1, 0).None?
    requires CodeOf(Some(next)) in {UNT, UNE, UNZ} && Segments.GetElement(next, 1, 0).Some?
    ensures var r := Handle(c, st, supplied).0;
      && r.stack == [] && r.error == ENONE && !r.done
      && ReferenceDiffersAsWritten(next, PS.Peek(r), if CodeOf(Some(next)) == UNT then 0 else 4).None?
  {
    OutOfPlaceTrailer(st, unb, c.segment, c.pragma);
  }

  /** A message trailer right inside an interchange, count right and no reference: tolerated EENVELOPE only, and it pops the header. */
  lemma {:induction false} OutOfPlaceTrailer(st: State, unb: Segments.Segment, seg: Segments.Segment, pragma: Pragma)
    requires CodeOf(Some(seg)) == UNT && Tolerates(pragma, EENVELOPE)
    requires Envelope.CountIs(Segments.GetElement(seg, 0, 0), st.segmentCount + 1)
    requires Segments.GetElement(seg, 1, 0).None?
    ensures var o := Plan(st, Some(unb), seg);
      && PS.StackAfter([unb], seg, o.actions) == []
      && PS.Latched(ENONE, pragma, PS.Raised(o.actions)) == ENONE
      && PS.Finish !in o.actions
  {
    var o := Plan(st, Some(unb), seg);
    MessageTrailer(st, Some(unb), seg, [unb]);
    var r := PS.Raised(o.actions);
    assert forall e :: e in r ==> e == EENVELOPE by {
      assert !ReferenceDiffers(seg, Some(unb), 0);
      MessageTrailerChecks(st, Some(unb), seg);
    }
    PS.LatchedTolerated(ENONE, pragma, r);
  }
}
