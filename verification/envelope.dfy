/**
 * What the interchange syntaxes share: filling the event parameters from
 * the service segment's elements (`set_params` in src/edifact.c,
 * src/x12.c, src/ungtdi.c and src/imp.c), and the count and reference
 * comparisons of their trailers.
 *
 * A service element is named in the source by its directory code
 * (`"S009"`, `"0065"`) and found through `edi_get_element_by_name`, which
 * looks the segment's tag up exactly and counts the element's position
 * among the segment's rows of the service tables.  Here each such name
 * is given directly as the position that lookup arrives at.
 */
module Envelope {
  import opened Wrappers
  import CText
  import Params
  import Segments

  /** A parameter key and the service element it is read from: the owning segment and the element's cell. */
  datatype Slot = Slot(key: nat, owner: string, x: nat, y: nat)

  predicate SlotsInRange(slots: seq<Slot>) {
    forall i :: 0 <= i < |slots| ==>
      Params.MinParameter <= slots[i].key < Params.MaxParameter
      && slots[i].x < Segments.NElems && slots[i].y < Segments.NElems
  }

  predicate DistinctKeys(slots: seq<Slot>) {
    forall i, j :: 0 <= i < j < |slots| ==> slots[i].key != slots[j].key
  }

  /**
   * The service element at (x, y) of segment `owner`, read from `seg`:
   * NULL unless the tag is exactly the owner's code, and NULL for an
   * undefined or empty cell.
   */
  function ByName(seg: Segments.Segment, owner: string, x: nat, y: nat): (r: Option<string>)
    requires x < Segments.NElems && y < Segments.NElems
    ensures r.Some? <==> seg.tag == owner && Segments.GetElement(seg, x, y).Some?
    ensures r.Some? ==> r == Segments.GetElement(seg, x, y) && r.value != []
  {
    if seg.tag == owner then Segments.GetElement(seg, x, y) else None
  }

  function Lookup(seg: Segments.Segment, slot: Slot): (r: Option<string>)
    requires slot.x < Segments.NElems && slot.y < Segments.NElems
  {
    ByName(seg, slot.owner, slot.x, slot.y)
  }

  /**
   * `set_params`: every slot cleared, then each key stored in turn with
   * its element's value when that is present and non-empty.  With
   * distinct keys every key holds exactly its own element.
   */
  function Fill(seg: Segments.Segment, slots: seq<Slot>): (r: Params.Parameters)
    requires SlotsInRange(slots)
    ensures Params.ValidParameters(r) && r.element == 0 && r.subelement == 0
    ensures forall k :: 0 <= k < Params.MaxParameter && (forall i :: 0 <= i < |slots| ==> slots[i].key != k) ==>
      r.values[k].None?
    ensures DistinctKeys(slots) ==> forall i :: 0 <= i < |slots| ==> r.values[slots[i].key] == Lookup(seg, slots[i])
    decreases |slots|
  {
    if |slots| == 0 then Params.EmptyParameters()
    else
      var init := slots[..|slots| - 1];
      var last := slots[|slots| - 1];
      assert SlotsInRange(init);
      var p := Fill(seg, init);
      var v := Lookup(seg, last);
      assert DistinctKeys(slots) ==> DistinctKeys(init);
      if v.Some? then Params.SetOne(p, last.key, v) else p
  }

  /** Two present strings that differ (`strcmp` is non-zero); NULL on either side is no difference. */
  predicate Differ(a: Option<string>, b: Option<string>) {
    a.Some? && b.Some? && a.value != b.value
  }

  /** A control count cell holds `n`: it is present and `atoi` of it is `n`. */
  predicate CountIs(cell: Option<string>, n: int) {
    cell.Some? && CText.Atoi(cell.value) == n
  }
}
