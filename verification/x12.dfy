/**
 * The ANSI ASC X12 syntax (src/x12.c): interchange (ISA/IEA), functional
 * group (GS/GE) and transaction set (ST/SE) envelopes.  Unlike EDIFACT the
 * handler keeps no header stack and checks no nesting; it only counts,
 * and compares the trailers' control counts (elements 96, 97 and I16 of
 * X12.5) against what it counted.  It always returns ENONE.
 */
module X12 {
  import opened Wrappers
  import opened Common
  import CText
  import Params
  import Segments
  import Directory
  import Envelope
  import PS = ParserState

  /** `edi_x12_code_t`; its NONE is `NoCode` here. */
  datatype Code = NoCode | ISA | GS | ST | SE | GE | IEA

  /** The tag `code_table` gives a code. */
  function Name(c: Code): string {
    match c
    case NoCode => ""
    case ISA => "ISA"
    case GS => "GS"
    case ST => "ST"
    case SE => "SE"
    case GE => "GE"
    case IEA => "IEA"
  }

  /**
   * `edi_x12_get_segment_code`: NoCode for a missing segment, else the code
   * of the first table entry, in the order ISA GS ST SE GE IEA, that
   * prefixes the tag.
   */
  function CodeOf(s: Option<Segments.Segment>): (c: Code)
    ensures c != NoCode ==> s.Some? && Name(c) <= s.value.tag
  {
    if s.None? then NoCode
    else
      var tag := s.value.tag;
      if "ISA" <= tag then ISA
      else if "GS" <= tag then GS
      else if "ST" <= tag then Code.ST
      else if "SE" <= tag then SE
      else if "GE" <= tag then GE
      else if "IEA" <= tag then IEA
      else NoCode
  }

  /** No code's tag prefixes another's, so a segment has a code exactly when that code's tag prefixes its own. */
  lemma CodeIsPrefix(s: Segments.Segment, c: Code)
    requires c != NoCode
    ensures CodeOf(Some(s)) == c <==> Name(c) <= s.tag
  {
    if Name(c) <= s.tag {
      var t := s.tag;
      assert t[0] == Name(c)[0] && t[1] == Name(c)[1];
      match c
      case ISA =>
      case GS =>
      case ST =>
      case SE =>
      case GE =>
      case IEA =>
    }
  }

  // ---------------------------------------------------------------------
  // Parameters
  // ---------------------------------------------------------------------

  /**
   * Where `edi_x12_set_parameters` reads each key, as positions in the
   * service segments: ISA's rows are I01 to I15, with I05 at both 4 and
   * 6; GS's are 479 142 124 373 337 28 455 480.
   */
  const IsaSlots: seq<Envelope.Slot> := [
    Envelope.Slot(Params.SendersId, "ISA", 5, 0),
    Envelope.Slot(Params.RecipientsId, "ISA", 7, 0),
    Envelope.Slot(Params.Date, "ISA", 8, 0),
    Envelope.Slot(Params.Time, "ISA", 9, 0),
    Envelope.Slot(Params.SyntaxVersionNumber, "ISA", 11, 0),
    Envelope.Slot(Params.SyntaxIdentifier, "ISA", 10, 0),
    Envelope.Slot(Params.InterchangeControlReference, "ISA", 12, 0),
    Envelope.Slot(Params.AcknowledgementRequest, "ISA", 13, 0)]

  const GsSlots: seq<Envelope.Slot> := [
    Envelope.Slot(Params.FunctionalGroupId, "GS", 0, 0),
    Envelope.Slot(Params.SendersId, "GS", 1, 0),
    Envelope.Slot(Params.RecipientsId, "GS", 2, 0),
    Envelope.Slot(Params.Date, "GS", 3, 0),
    Envelope.Slot(Params.Time, "GS", 4, 0),
    Envelope.Slot(Params.FunctionalGroupReferenceNumber, "GS", 5, 0),
    Envelope.Slot(Params.ControllingAgency, "GS", 6, 0),
    Envelope.Slot(Params.MessageVersionNumber, "GS", 7, 0)]

  function Slots(c: Code): (slots: seq<Envelope.Slot>)
    ensures Envelope.SlotsInRange(slots) && Envelope.DistinctKeys(slots)
    ensures forall i :: 0 <= i < |slots| ==> slots[i].key != Params.TestIndicator && slots[i].key != Params.Standard
  {
    match c
    case ISA => IsaSlots
    case GS => GsSlots
    case _ => []
  }

  /** The usage indicator I14 of an ISA: "1" for test data ("T"), "0" for anything else or nothing. */
  function TestFlag(seg: Segments.Segment): (t: string)
    ensures t == "1" <==> Envelope.ByName(seg, "ISA", 14, 0) == Some("T")
    ensures t == "0" || t == "1"
  {
    if Envelope.ByName(seg, "ISA", 14, 0) == Some("T") then "1" else "0"
  }

  /** The ST parameters, in the order `edi_parameters_set` receives them. */
  function StPairs(version: int, seg: Segments.Segment): (pairs: seq<Params.Pair>)
    ensures Params.KeysInRange(pairs)
  {
    [(Params.MessageVersionNumber, Some("V")),
     (Params.MessageReleaseNumber, Some(CText.FormatPadded(version, 4))),
     (Params.MessageType, Envelope.ByName(seg, "ST", 0, 0)),
     (Params.MessageReferenceNumber, Envelope.ByName(seg, "ST", 1, 0))]
  }

  /**
   * `edi_x12_set_parameters`, with the version last read from ISA or GS:
   * ISA and GS fill their service elements, ISA adding the test indicator
   * and Standard "X12"; ST gives the version "V", the release the version
   * as "%04d", and its elements 143 and 329; every other segment leaves
   * every key unset.
   */
  function Parameters(version: int, seg: Segments.Segment): (p: Params.Parameters)
    ensures Params.ValidParameters(p)
    ensures forall i :: 0 <= i < |Slots(CodeOf(Some(seg)))| ==>
      var slot := Slots(CodeOf(Some(seg)))[i];
      p.values[slot.key] == Envelope.Lookup(seg, slot)
    ensures CodeOf(Some(seg)) == ISA ==>
      && p.values[Params.TestIndicator] == Some(TestFlag(seg))
      && p.values[Params.Standard] == Some("X12")
    ensures CodeOf(Some(seg)) !in {ISA, GS, Code.ST} ==>
      forall k :: 0 <= k < Params.MaxParameter ==> p.values[k].None?
  {
    match CodeOf(Some(seg))
    case ISA =>
      var filled := Envelope.Fill(seg, IsaSlots);
      Params.SetOne(Params.SetOne(filled, Params.TestIndicator, Some(TestFlag(seg))), Params.Standard, Some("X12"))
    case GS => Envelope.Fill(seg, GsSlots)
    case ST => Params.Set(Params.EmptyParameters(), StPairs(version, seg))
    case _ => Envelope.Fill(seg, [])
  }

  /**
   * An ST's parameters: exactly the message version "V", the release as
   * the version written with at least four digits, which `atoi` reads
   * back as the version, and ST's elements 143 and 329.
   */
  lemma {:induction false} TransactionParameters(version: int, seg: Segments.Segment)
    requires CodeOf(Some(seg)) == Code.ST
    ensures var p := Parameters(version, seg);
      && p.values[Params.MessageVersionNumber] == Some("V")
      && p.values[Params.MessageReleaseNumber] == Some(CText.FormatPadded(version, 4))
      && CText.Atoi(p.values[Params.MessageReleaseNumber].value) == version
      && |p.values[Params.MessageReleaseNumber].value| >= 4
      && p.values[Params.MessageType] == Envelope.ByName(seg, "ST", 0, 0)
      && p.values[Params.MessageReferenceNumber] == Envelope.ByName(seg, "ST", 1, 0)
      && forall k :: 0 <= k < Params.MaxParameter && k !in {Params.MessageVersionNumber, Params.MessageReleaseNumber,
                                                            Params.MessageType, Params.MessageReferenceNumber} ==>
           p.values[k].None?
  {
    var pairs := StPairs(version, seg);
    var p := Parameters(version, seg);
    assert p == Params.Set(Params.EmptyParameters(), pairs);
    assert pairs[0].0 == Params.MessageVersionNumber && pairs[1].0 == Params.MessageReleaseNumber;
    assert pairs[2].0 == Params.MessageType && pairs[3].0 == Params.MessageReferenceNumber;
    Params.SetDistinct(Params.EmptyParameters(), pairs);
    CText.AtoiFormatPadded(version, 4);
  }

  // ---------------------------------------------------------------------
  // The envelope counters
  // ---------------------------------------------------------------------

  /** `edi_x12_t`'s counters and the version read from ISA or GS. */
  datatype State = State(version: int, segments: nat, transactions: nat, groups: nat)

  /** `edi_x12_init` zeroes the whole structure. */
  function Init(): (st: State)
    ensures st.version == 0 && st.segments == 0 && st.transactions == 0 && st.groups == 0
  {
    State(0, 0, 0, 0)
  }

  /** What the handler decides for one segment: the parser actions in order, and the new counters. */
  datatype Outcome = Outcome(actions: seq<PS.Action>, state: State)

  /** ISA: version from I11, tenfold; the interchange starts; groups and transactions counted afresh. */
  function OpenInterchange(st: State, seg: Segments.Segment, p: Params.Parameters): (r: Outcome) {
    var i11 := Envelope.ByName(seg, "ISA", 11, 0);
    Outcome([PS.Start(INTERCHANGE, p), PS.HandOn],
            st.(version := if i11.Some? then CText.Atoi(i11.value) * 10 else st.version,
                transactions := 0, groups := 0))
  }

  /** GS: version from 480; the group starts; one more group, no transaction in it yet. */
  function OpenGroup(st: State, seg: Segments.Segment, p: Params.Parameters): (r: Outcome) {
    var v := Envelope.ByName(seg, "GS", 7, 0);
    Outcome([PS.Start(GROUP, p), PS.HandOn],
            st.(version := if v.Some? then CText.Atoi(v.value) else st.version,
                transactions := 0, groups := st.groups + 1))
  }

  /** ST: the transaction named by element 143 starts, with Standard "X12"; counted from this segment. */
  function OpenTransaction(st: State, seg: Segments.Segment, p: Params.Parameters): (r: Outcome)
    requires Params.ValidParameters(p)
  {
    var q := Params.SetOne(p, Params.Standard, Some("X12"));
    Outcome([PS.Start(TRANSACTION, q), PS.Head(q, Envelope.ByName(seg, "ST", 0, 0))],
            st.(segments := 1, transactions := st.transactions + 1))
  }

  /**
   * SE: counted, unless its count is missing (the `||` stops before the
   * increment); checked; the transaction closed.
   */
  function CloseTransaction(st: State, seg: Segments.Segment): (r: Outcome)
    ensures forall a :: a in r.actions ==> !a.Head?
    ensures PS.StackQuiet(r.actions)
  {
    var count := Segments.GetElement(seg, 0, 0);
    var tests := [(!Envelope.CountIs(count, st.segments + 1), ETTC)];
    PS.ChecksThenNoHead(tests, [PS.Tail, PS.End(TRANSACTION)]);
    PS.ChecksThenQuiet(tests, [PS.Tail, PS.End(TRANSACTION)]);
    Outcome(PS.Checks(tests) + [PS.Tail, PS.End(TRANSACTION)],
            st.(segments := if count.Some? then st.segments + 1 else st.segments))
  }

  /** GE: checked against the transactions of the group; handed on; the group ends. */
  function CloseGroup(st: State, seg: Segments.Segment): (r: Outcome)
    ensures forall a :: a in r.actions ==> !a.Head?
    ensures PS.StackQuiet(r.actions)
  {
    var tests := [(!Envelope.CountIs(Segments.GetElement(seg, 0, 0), st.transactions), EGTC)];
    PS.ChecksThenNoHead(tests, [PS.HandOn, PS.End(GROUP)]);
    PS.ChecksThenQuiet(tests, [PS.HandOn, PS.End(GROUP)]);
    Outcome(PS.Checks(tests) + [PS.HandOn, PS.End(GROUP)], st)
  }

  /** IEA: checked against the groups of the interchange; handed on; the interchange ends; done. */
  function CloseInterchange(st: State, seg: Segments.Segment): (r: Outcome)
    ensures forall a :: a in r.actions ==> !a.Head?
    ensures PS.StackQuiet(r.actions)
  {
    var tests := [(!Envelope.CountIs(Segments.GetElement(seg, 0, 0), st.groups), EITC)];
    PS.ChecksThenNoHead(tests, [PS.HandOn, PS.End(INTERCHANGE), PS.Finish]);
    PS.ChecksThenQuiet(tests, [PS.HandOn, PS.End(INTERCHANGE), PS.Finish]);
    Outcome(PS.Checks(tests) + [PS.HandOn, PS.End(INTERCHANGE), PS.Finish], st)
  }

  /** `edi_x12_segment`: the header stack is never consulted. */
  function Plan(st: State, seg: Segments.Segment): (r: Outcome)
  {
    var p := Parameters(st.version, seg);
    match CodeOf(Some(seg))
    case ISA => OpenInterchange(st, seg, p)
    case GS => OpenGroup(st, seg, p)
    case ST => OpenTransaction(st, seg, p)
    case SE => CloseTransaction(st, seg)
    case GE => CloseGroup(st, seg)
    case IEA => CloseInterchange(st, seg)
    case NoCode => Outcome([PS.Body], st.(segments := st.segments + 1))
  }

  /** Only ST opens a transaction, and it names the transaction by element 143. */
  lemma OnlyHeaderOpens(st: State, seg: Segments.Segment)
    ensures forall a :: a in Plan(st, seg).actions && a.Head? ==>
      CodeOf(Some(seg)) == Code.ST && a.transaction == Envelope.ByName(seg, "ST", 0, 0)
  {
    var p := Parameters(st.version, seg);
    match CodeOf(Some(seg))
    case ISA => assert Plan(st, seg) == OpenInterchange(st, seg, p);
    case GS => assert Plan(st, seg) == OpenGroup(st, seg, p);
    case ST =>
      var q := Params.SetOne(p, Params.Standard, Some("X12"));
      assert Plan(st, seg).actions == [PS.Start(TRANSACTION, q), PS.Head(q, Envelope.ByName(seg, "ST", 0, 0))];
    case SE => assert Plan(st, seg) == CloseTransaction(st, seg);
    case GE => assert Plan(st, seg) == CloseGroup(st, seg);
    case IEA => assert Plan(st, seg) == CloseInterchange(st, seg);
    case NoCode =>
  }

  /** The transaction an ST would open fits the client's directory. */
  predicate HeadFits(seg: Segments.Segment, supplied: Option<Directory.Dir>) {
    CodeOf(Some(seg)) == Code.ST ==> PS.HeadDefined(supplied, Envelope.ByName(seg, "ST", 0, 0))
  }

  /** X12 neither pushes nor pops: the header stack is whatever it was. */
  lemma {:induction false} NoNesting(st: State, seg: Segments.Segment, stack: seq<Segments.Segment>)
    ensures PS.StackQuiet(Plan(st, seg).actions)
    ensures PS.StackAfter(stack, seg, Plan(st, seg).actions) == stack
  {
    var o := Plan(st, seg);
    var p := Parameters(st.version, seg);
    match CodeOf(Some(seg)) {
      case ISA => assert o == OpenInterchange(st, seg, p);
      case GS => assert o == OpenGroup(st, seg, p);
      case ST => assert o == OpenTransaction(st, seg, p);
      case SE => assert o == CloseTransaction(st, seg);
      case GE => assert o == CloseGroup(st, seg);
      case IEA => assert o == CloseInterchange(st, seg);
      case NoCode =>
    }
    PS.StackAfterQuiet(stack, seg, o.actions);
  }

  /**
   * `edi_x12_segment` on the parser: the plan for the current segment,
   * performed; the header stack is left alone and the result is ENONE.
   */
  function Handle<S>(c: PS.Core<S>, st: State, supplied: Option<Directory.Dir>): (r: (PS.Core<S>, State, Error))
    requires PS.Valid(c) && Directory.Valid(supplied) && HeadFits(c.segment, supplied)
    ensures PS.Valid(r.0) && r.2 == ENONE
    ensures var o := Plan(st, c.segment);
      && r.1 == o.state
      && r.0.stack == c.stack
      && r.0.error == PS.Latched(c.error, c.pragma, PS.Raised(o.actions))
      && (r.0.done <==> c.done || PS.Finish in o.actions)
      && PS.Keeps(c, r.0)
  {
    var o := Plan(st, c.segment);
    OnlyHeaderOpens(st, c.segment);
    PS.PerformEffects(c, o.actions, supplied);
    NoNesting(st, c.segment, c.stack);
    (PS.Perform(c, o.actions, supplied).0, o.state, ENONE)
  }

  // ---------------------------------------------------------------------
  // What each service segment does
  // ---------------------------------------------------------------------

  /** ISA starts the interchange with its parameters, hands the segment on, raises nothing and counts groups and transactions afresh; I11 gives the version tenfold. */
  lemma {:induction false} InterchangeHeader(st: State, seg: Segments.Segment)
    requires CodeOf(Some(seg)) == ISA
    ensures var o := Plan(st, seg);
      var i11 := Envelope.ByName(seg, "ISA", 11, 0);
      && o.actions == [PS.Start(INTERCHANGE, Parameters(st.version, seg)), PS.HandOn]
      && PS.Raised(o.actions) == []
      && o.state.transactions == 0 && o.state.groups == 0 && o.state.segments == st.segments
      && o.state.version == (if i11.Some? then CText.Atoi(i11.value) * 10 else st.version)
  {
    PS.NothingRaised(Plan(st, seg).actions);
  }

  /** GS starts a group, hands the segment on, raises nothing, counts one more group and no transaction yet; 480 gives the version. */
  lemma {:induction false} GroupHeader(st: State, seg: Segments.Segment)
    requires CodeOf(Some(seg)) == GS
    ensures var o := Plan(st, seg);
      var v := Envelope.ByName(seg, "GS", 7, 0);
      && o.actions == [PS.Start(GROUP, Parameters(st.version, seg)), PS.HandOn]
      && PS.Raised(o.actions) == []
      && o.state.transactions == 0 && o.state.groups == st.groups + 1 && o.state.segments == st.segments
      && o.state.version == (if v.Some? then CText.Atoi(v.value) else st.version)
  {
    PS.NothingRaised(Plan(st, seg).actions);
  }

  /**
   * ST starts the transaction with Standard "X12" and the release read
   * back as the version, opens the transaction element 143 names in the
   * client's directory, raises nothing, counts one more transaction and
   * its segments from the header itself.
   */
  lemma {:induction false} TransactionHeader(st: State, seg: Segments.Segment)
    requires CodeOf(Some(seg)) == Code.ST
    ensures var o := Plan(st, seg);
      && PS.Raised(o.actions) == []
      && o.state == st.(segments := 1, transactions := st.transactions + 1)
      && exists q ::
           && o.actions == [PS.Start(TRANSACTION, q), PS.Head(q, Envelope.ByName(seg, "ST", 0, 0))]
           && q.values[Params.Standard] == Some("X12")
           && q.values[Params.MessageReleaseNumber].Some?
           && CText.Atoi(q.values[Params.MessageReleaseNumber].value) == st.version
  {
    var p := Parameters(st.version, seg);
    TransactionParameters(st.version, seg);
    assert Plan(st, seg) == OpenTransaction(st, seg, p);
    OpenTransactionEffects(st, seg, p);
  }

  lemma {:induction false} OpenTransactionEffects(st: State, seg: Segments.Segment, p: Params.Parameters)
    requires Params.ValidParameters(p)
    requires p.values[Params.MessageReleaseNumber].Some? && CText.Atoi(p.values[Params.MessageReleaseNumber].value) == st.version
    ensures var o := OpenTransaction(st, seg, p);
      && PS.Raised(o.actions) == []
      && o.state == st.(segments := 1, transactions := st.transactions + 1)
      && exists q ::
           && o.actions == [PS.Start(TRANSACTION, q), PS.Head(q, Envelope.ByName(seg, "ST", 0, 0))]
           && q.values[Params.Standard] == Some("X12")
           && q.values[Params.MessageReleaseNumber].Some?
           && CText.Atoi(q.values[Params.MessageReleaseNumber].value) == st.version
  {
    var o := OpenTransaction(st, seg, p);
    var q := Params.SetOne(p, Params.Standard, Some("X12"));
    PS.NothingRaised(o.actions);
    assert o.actions == [PS.Start(TRANSACTION, q), PS.Head(q, Envelope.ByName(seg, "ST", 0, 0))];
  }

  /**
   * SE raises ETTC, and nothing else, exactly when its count (element 96)
   * is not the number of segments from ST to SE inclusive; the
   * transaction is closed either way.
   */
  lemma {:induction false} TransactionTrailer(st: State, seg: Segments.Segment)
    requires CodeOf(Some(seg)) == SE
    ensures var o := Plan(st, seg);
      && (forall e :: e in PS.Raised(o.actions) <==> e == ETTC && !Envelope.CountIs(Segments.GetElement(seg, 0, 0), st.segments + 1))
      && PS.Tail in o.actions && PS.End(TRANSACTION) in o.actions && PS.Finish !in o.actions
      && o.state.transactions == st.transactions && o.state.groups == st.groups
  {
    var rest := [PS.Tail, PS.End(TRANSACTION)];
    var c0 := !Envelope.CountIs(Segments.GetElement(seg, 0, 0), st.segments + 1);
    assert Plan(st, seg).actions == PS.Checks([(c0, ETTC)]) + rest;
    PS.OneCheck(c0, ETTC, rest);
  }

  /** GE raises EGTC, and nothing else, exactly when its count (element 97) is not the transactions since GS; the group ends. */
  lemma {:induction false} GroupTrailer(st: State, seg: Segments.Segment)
    requires CodeOf(Some(seg)) == GE
    ensures var o := Plan(st, seg);
      && (forall e :: e in PS.Raised(o.actions) <==> e == EGTC && !Envelope.CountIs(Segments.GetElement(seg, 0, 0), st.transactions))
      && PS.HandOn in o.actions && PS.End(GROUP) in o.actions && PS.Finish !in o.actions
      && o.state == st
  {
    var rest := [PS.HandOn, PS.End(GROUP)];
    var c0 := !Envelope.CountIs(Segments.GetElement(seg, 0, 0), st.transactions);
    assert Plan(st, seg).actions == PS.Checks([(c0, EGTC)]) + rest;
    PS.OneCheck(c0, EGTC, rest);
  }

  /** IEA raises EITC, and nothing else, exactly when its count (element I16) is not the groups since ISA; the interchange ends and the parser is done. */
  lemma {:induction false} InterchangeTrailer(st: State, seg: Segments.Segment)
    requires CodeOf(Some(seg)) == IEA
    ensures var o := Plan(st, seg);
      && (forall e :: e in PS.Raised(o.actions) <==> e == EITC && !Envelope.CountIs(Segments.GetElement(seg, 0, 0), st.groups))
      && PS.HandOn in o.actions && PS.End(INTERCHANGE) in o.actions && PS.Finish in o.actions
      && o.state == st
  {
    var rest := [PS.HandOn, PS.End(INTERCHANGE), PS.Finish];
    var c0 := !Envelope.CountIs(Segments.GetElement(seg, 0, 0), st.groups);
    assert Plan(st, seg).actions == PS.Checks([(c0, EITC)]) + rest;
    PS.OneCheck(c0, EITC, rest);
  }

  /** Any other segment goes to the message directory, raises nothing and is counted. */
  lemma {:induction false} TransactionBody(st: State, seg: Segments.Segment)
    requires CodeOf(Some(seg)) == NoCode
    ensures var o := Plan(st, seg);
      && o.actions == [PS.Body] && PS.Raised(o.actions) == []
      && o.state == st.(segments := st.segments + 1)
  {
  }

  // ---------------------------------------------------------------------
  // Control counts over a run of segments
  // ---------------------------------------------------------------------

  /** The counters after a run of segments. */
  function Counters(st: State, segs: seq<Segments.Segment>): State
    decreases |segs|
  {
    if segs == [] then st else Counters(Plan(st, segs[0]).state, segs[1..])
  }

  /** How many of the segments have the code. */
  function Occurrences(segs: seq<Segments.Segment>, c: Code): nat
    decreases |segs|
  {
    if segs == [] then 0 else (if CodeOf(Some(segs[0])) == c then 1 else 0) + Occurrences(segs[1..], c)
  }

  /** Transaction bodies are only counted: one each, and the other counters stay. */
  lemma {:induction false} BodyCounts(st: State, body: seq<Segments.Segment>)
    requires forall i :: 0 <= i < |body| ==> CodeOf(Some(body[i])) == NoCode
    ensures Counters(st, body) == st.(segments := st.segments + |body|)
    decreases |body|
  {
    if body != [] {
      assert forall i :: 0 <= i < |body[1..]| ==> body[1..][i] == body[i + 1];
      BodyCounts(Plan(st, body[0]).state, body[1..]);
    }
  }

  /** Without ISA or GS in the run, the transactions counted grow by the STs in it. */
  lemma {:induction false} TransactionsCounted(st: State, segs: seq<Segments.Segment>)
    requires forall i :: 0 <= i < |segs| ==> CodeOf(Some(segs[i])) != ISA && CodeOf(Some(segs[i])) != GS
    ensures Counters(st, segs).transactions == st.transactions + Occurrences(segs, Code.ST)
    decreases |segs|
  {
    if segs != [] {
      assert forall i :: 0 <= i < |segs[1..]| ==> segs[1..][i] == segs[i + 1];
      TransactionsCounted(Plan(st, segs[0]).state, segs[1..]);
    }
  }

  /** Without ISA in the run, the groups counted grow by the GSs in it. */
  lemma {:induction false} GroupsCounted(st: State, segs: seq<Segments.Segment>)
    requires forall i :: 0 <= i < |segs| ==> CodeOf(Some(segs[i])) != ISA
    ensures Counters(st, segs).groups == st.groups + Occurrences(segs, GS)
    decreases |segs|
  {
    if segs != [] {
      assert forall i :: 0 <= i < |segs[1..]| ==> segs[1..][i] == segs[i + 1];
      GroupsCounted(Plan(st, segs[0]).state, segs[1..]);
    }
  }

  /** ST, a body and SE: ETTC exactly when SE's count is not the number of segments from ST to SE inclusive. */
  lemma {:induction false} TransactionSegmentCount(st: State, header: Segments.Segment, body: seq<Segments.Segment>, trailer: Segments.Segment)
    requires CodeOf(Some(header)) == Code.ST && CodeOf(Some(trailer)) == SE
    requires forall i :: 0 <= i < |body| ==> CodeOf(Some(body[i])) == NoCode
    ensures var inside := Counters(Plan(st, header).state, body);
      forall e :: e in PS.Raised(Plan(inside, trailer).actions) <==>
        e == ETTC && !Envelope.CountIs(Segments.GetElement(trailer, 0, 0), |body| + 2)
  {
    TransactionHeader(st, header);
    BodyCounts(Plan(st, header).state, body);
    TransactionTrailer(Counters(Plan(st, header).state, body), trailer);
  }

  /** GS, a run without ISA or GS, and GE: EGTC exactly when GE's count is not the number of STs in the run. */
  lemma {:induction false} GroupControlCount(st: State, header: Segments.Segment, segs: seq<Segments.Segment>, trailer: Segments.Segment)
    requires CodeOf(Some(header)) == GS && CodeOf(Some(trailer)) == GE
    requires forall i :: 0 <= i < |segs| ==> CodeOf(Some(segs[i])) != ISA && CodeOf(Some(segs[i])) != GS
    ensures var inside := Counters(Plan(st, header).state, segs);
      forall e :: e in PS.Raised(Plan(inside, trailer).actions) <==>
        e == EGTC && !Envelope.CountIs(Segments.GetElement(trailer, 0, 0), Occurrences(segs, Code.ST))
  {
    GroupHeader(st, header);
    TransactionsCounted(Plan(st, header).state, segs);
    GroupTrailer(Counters(Plan(st, header).state, segs), trailer);
  }

  /** ISA, a run without ISA, and IEA: EITC exactly when IEA's count is not the number of GSs in the run. */
  lemma {:induction false} InterchangeControlCount(st: State, header: Segments.Segment, segs: seq<Segments.Segment>, trailer: Segments.Segment)
    requires CodeOf(Some(header)) == ISA && CodeOf(Some(trailer)) == IEA
    requires forall i :: 0 <= i < |segs| ==> CodeOf(Some(segs[i])) != ISA
    ensures var inside := Counters(Plan(st, header).state, segs);
      forall e :: e in PS.Raised(Plan(inside, trailer).actions) <==>
        e == EITC && !Envelope.CountIs(Segments.GetElement(trailer, 0, 0), Occurrences(segs, GS))
  {
    InterchangeHeader(st, header);
    GroupsCounted(Plan(st, header).state, segs);
    InterchangeTrailer(Counters(Plan(st, header).state, segs), trailer);
  }
}
