/**
 * The IMP syntax (src/imp.c), a copy of the Tradacoms envelope code with
 * an empty service directory.  Its segment handler computes the
 * segment's parameters, hands the segment on and returns ENONE: the
 * envelope checks that follow the early return are never reached, so IMP
 * pushes, pops, raises, counts and finishes nothing.
 *
 * The code table and the character set are the Tradacoms ones, entry for
 * entry, so `Ungtdi.CodeOf` and `Ungtdi.InCharset` serve both syntaxes.
 */
module Imp {
  import opened Wrappers
  import opened Common
  import Params
  import Segments
  import Francesco
  import Directory
  import Ungtdi
  import PS = ParserState

  // ---------------------------------------------------------------------
  // The service directory
  // ---------------------------------------------------------------------

  /** The tables `IMP()` builds: every table holds only its terminating row. */
  function ServiceTables(): (t: Francesco.Tables)
    ensures t.segmentList == [] && t.compositeList == [] && t.rules == []
  {
    Francesco.Tables([], [], [], [], [], [], [])
  }

  /** `IMP()`: a table directory over the empty tables, with no node stacked and no transaction. */
  function Service(): (d: Option<Directory.Dir>)
    ensures Directory.Valid(d) && d.Some? && d.value.TableDir?
  {
    Some(Directory.TableDir(Francesco.Francesco(ServiceTables(), [], "")))
  }

  /**
   * No name lookup in the IMP service directory finds anything: every
   * segment has no items there, so `edi_get_element_by_name` is NULL for
   * any segment, element and subelement.
   */
  lemma EmptyServiceFindsNothing(seg: Segments.Segment, element: string, subelement: Option<string>)
    ensures Directory.ByNameDefined(Service(), seg.tag, element, subelement)
    ensures Directory.ElementByName(Service(), seg, element, subelement).None?
  {
    var d := Service();
    assert Directory.SegmentSize(d, Some(seg.tag)) == 0;
    assert Directory.ElementPosition(d, seg.tag, element).None?;
  }

  // ---------------------------------------------------------------------
  // Parameters
  // ---------------------------------------------------------------------

  /** One variadic triple of `set_params`: the key, and the element and subelement names to look up. */
  datatype Lookup = Lookup(key: nat, element: string, subelement: string)

  predicate KeysInRange(lookups: seq<Lookup>) {
    forall i :: 0 <= i < |lookups| ==> Params.MinParameter <= lookups[i].key < Params.MaxParameter
  }

  predicate DistinctKeys(lookups: seq<Lookup>) {
    forall i, j :: 0 <= i < j < |lookups| ==> lookups[i].key != lookups[j].key
  }

  /** STX's lookups; the references name a subelement "NULL", a string, not a missing one. */
  const StxLookups: seq<Lookup> := [
    Lookup(Params.SyntaxIdentifier, "STDS", "STDS01"),
    Lookup(Params.SyntaxVersionNumber, "STDS", "STDS02"),
    Lookup(Params.SendersId, "FROM", "FROM01"),
    Lookup(Params.SendersName, "FROM", "FROM02"),
    Lookup(Params.RecipientsId, "UNTO", "UNTO01"),
    Lookup(Params.RecipientsName, "UNTO", "UNTO02"),
    Lookup(Params.Date, "TRDT", "TRDT01"),
    Lookup(Params.Time, "TRDT", "TRDT02"),
    Lookup(Params.InterchangeControlReference, "SNRF", "NULL"),
    Lookup(Params.SendersReference, "SNRF", "NULL"),
    Lookup(Params.RecipientsReference, "RCRF", "NULL"),
    Lookup(Params.ApplicationReference, "APRF", "NULL"),
    Lookup(Params.ProcessingPriorityCode, "PRCD", "NULL")]

  const MhdLookups: seq<Lookup> := [
    Lookup(Params.MessageReferenceNumber, "MSRF", "NULL"),
    Lookup(Params.MessageType, "TYPE", "TYPE01"),
    Lookup(Params.MessageVersionNumber, "TYPE", "TYPE02")]

  const MtrLookups: seq<Lookup> := [Lookup(Params.NumberOfSegmentsInTheMessage, "NOSG", "NULL")]

  const EndLookups: seq<Lookup> := [Lookup(Params.NumberOfMessages, "NMST", "NULL")]

  /** Every lookup is one `edi_get_element_by_name` can answer in `d`. */
  predicate LookupsDefined(d: Option<Directory.Dir>, seg: Segments.Segment, lookups: seq<Lookup>) {
    && Directory.Valid(d)
    && forall i :: 0 <= i < |lookups| ==>
         Directory.ByNameDefined(d, seg.tag, lookups[i].element, Some(lookups[i].subelement))
  }

  /** What a lookup finds, when that is present and non-empty. */
  function Found(d: Option<Directory.Dir>, seg: Segments.Segment, l: Lookup): (r: Option<string>)
    requires Directory.Valid(d) && Directory.ByNameDefined(d, seg.tag, l.element, Some(l.subelement))
  {
    var v := Directory.ElementByName(d, seg, l.element, Some(l.subelement));
    if v.Some? && |v.value| > 0 then v else None
  }

  /**
   * `set_params`: the structure is cleared (the Standard it once set is
   * commented out), then each key is stored in turn with the value its
   * lookup finds, when that is present and non-empty.  A key holds a value
   * only if some lookup for it found that value; with one lookup per key,
   * each key holds exactly what its lookup found.
   */
  function SetParams(d: Option<Directory.Dir>, seg: Segments.Segment, lookups: seq<Lookup>): (p: Params.Parameters)
    requires KeysInRange(lookups) && LookupsDefined(d, seg, lookups)
    ensures Params.ValidParameters(p)
    ensures forall k :: 0 <= k < Params.MaxParameter && p.values[k].Some? ==>
      exists i :: 0 <= i < |lookups| && lookups[i].key == k && p.values[k] == Found(d, seg, lookups[i])
    decreases |lookups|
  {
    if |lookups| == 0 then Params.Set(Params.EmptyParameters(), [])
    else
      var init := lookups[..|lookups| - 1];
      var last := lookups[|lookups| - 1];
      assert forall i :: 0 <= i < |init| ==> init[i] == lookups[i];
      assert LookupsDefined(d, seg, init);
      var p := SetParams(d, seg, init);
      var v := Found(d, seg, last);
      if v.Some? then Params.SetOne(p, last.key, v) else p
  }

  /** With one lookup per key, each key holds exactly what its lookup found. */
  lemma {:induction false} SetParamsDistinct(d: Option<Directory.Dir>, seg: Segments.Segment, lookups: seq<Lookup>)
    requires KeysInRange(lookups) && LookupsDefined(d, seg, lookups) && DistinctKeys(lookups)
    ensures forall i :: 0 <= i < |lookups| ==> SetParams(d, seg, lookups).values[lookups[i].key] == Found(d, seg, lookups[i])
    decreases |lookups|
  {
    if |lookups| > 0 {
      var init := lookups[..|lookups| - 1];
      var last := lookups[|lookups| - 1];
      assert forall i :: 0 <= i < |init| ==> init[i] == lookups[i];
      assert LookupsDefined(d, seg, init) && DistinctKeys(init);
      SetParamsDistinct(d, seg, init);
      var p := SetParams(d, seg, init);
      var v := Found(d, seg, last);
      var r := SetParams(d, seg, lookups);
      assert r == if v.Some? then Params.SetOne(p, last.key, v) else p;
      assert r.values[last.key] == v;
      forall i | 0 <= i < |init|
        ensures r.values[lookups[i].key] == Found(d, seg, lookups[i])
      {
        assert lookups[i].key != last.key && init[i] == lookups[i];
      }
    }
  }

  /** In the IMP service directory every lookup is defined and `set_params` leaves every key unset. */
  lemma {:induction false} ServiceParamsEmpty(seg: Segments.Segment, lookups: seq<Lookup>)
    requires KeysInRange(lookups)
    ensures LookupsDefined(Service(), seg, lookups)
    ensures forall k :: 0 <= k < Params.MaxParameter ==> SetParams(Service(), seg, lookups).values[k].None?
  {
    forall i | 0 <= i < |lookups|
      ensures Directory.ByNameDefined(Service(), seg.tag, lookups[i].element, Some(lookups[i].subelement))
      ensures Found(Service(), seg, lookups[i]).None?
    {
      EmptyServiceFindsNothing(seg, lookups[i].element, Some(lookups[i].subelement));
    }
  }

  /**
   * `imp_set_parameters`: STX holds only Standard "IMP"; BAT and EOB
   * store cell (0,0) under one key, even when it is NULL; MHD, MTR, END and
   * every other segment hold nothing.
   */
  function Parameters(seg: Segments.Segment): (p: Params.Parameters)
    ensures Params.ValidParameters(p)
    ensures var code := Ungtdi.CodeOf(Some(seg));
      && (code == Ungtdi.STX ==>
            && p.values[Params.Standard] == Some("IMP")
            && forall k :: 0 <= k < Params.MaxParameter && k != Params.Standard ==> p.values[k].None?)
      && (code in {Ungtdi.BAT, Ungtdi.EOB} ==>
            var k := if code == Ungtdi.BAT then Params.FunctionalGroupReferenceNumber else Params.NumberOfMessages;
            && p.values[k] == Segments.GetElement(seg, 0, 0)
            && forall j :: 0 <= j < Params.MaxParameter && j != k ==> p.values[j].None?)
      && (code in {Ungtdi.MHD, Ungtdi.MTR, Ungtdi.END, Ungtdi.NoCode} ==>
            forall k :: 0 <= k < Params.MaxParameter ==> p.values[k].None?)
  {
    ServiceParamsEmpty(seg, StxLookups);
    ServiceParamsEmpty(seg, MhdLookups);
    ServiceParamsEmpty(seg, MtrLookups);
    ServiceParamsEmpty(seg, EndLookups);
    match Ungtdi.CodeOf(Some(seg))
    case STX => Params.SetOne(SetParams(Service(), seg, StxLookups), Params.Standard, Some("IMP"))
    case BAT => Params.Single(Params.FunctionalGroupReferenceNumber, Segments.GetElement(seg, 0, 0))
    case MHD => SetParams(Service(), seg, MhdLookups)
    case MTR => SetParams(Service(), seg, MtrLookups)
    case EOB => Params.Single(Params.NumberOfMessages, Segments.GetElement(seg, 0, 0))
    case END => SetParams(Service(), seg, EndLookups)
    case NoCode => Params.Set(Params.EmptyParameters(), [])
  }

  // ---------------------------------------------------------------------
  // The segment handler
  // ---------------------------------------------------------------------

  /** What the handler does for any segment, in any context: hand it on. */
  function Plan(seg: Segments.Segment): (r: seq<PS.Action>)
    ensures forall a :: a in r ==> a == PS.HandOn
  {
    [PS.HandOn]
  }

  /**
   * `edi_imp_segment`: the segment is expanded into element-level events
   * for the service role and ENONE returned; the stack, the latched error
   * and the done flag are untouched, whatever the segment and its context.
   */
  function Handle<S>(c: PS.Core<S>): (r: (PS.Core<S>, Error))
    requires PS.Valid(c)
    ensures PS.Valid(r.0) && PS.Keeps(c, r.0)
    ensures r.0.stack == c.stack && r.0.error == c.error && r.0.done == c.done
    ensures r.0.log == c.log + [PS.SegmentEvents(PS.ServiceRole, c.queue)]
    ensures r.1 == ENONE
  {
    var actions := Plan(c.segment);
    var supplied: Option<Directory.Dir> := None;
    PS.PerformEffects(c, actions, supplied);
    assert actions[..0] == [];
    PS.StackAfterQuiet(c.stack, c.segment, actions);
    PS.NothingRaised(actions);
    (PS.Perform(c, actions, supplied).0, ENONE)
  }
}
