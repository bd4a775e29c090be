/**
 * The list-backed transaction set guidelines (src/giovanni.c): an arena
 * of items built from XML/PYX start and end tags, finder lists keyed by
 * item code, and a one-pass matcher that walks a tree of segments and
 * loops with a stack of (position, count) cursors.
 *
 * Pointers to items become indices into `items`; an item's child list
 * and the four finder lists are `Adt` lists whose keys are the codes the
 * items had when they were registered.  Callbacks made by the matcher
 * become events returned with the new state.
 */
module Giovanni {
  import opened Wrappers
  import opened Common
  import Adt
  import Params

  // ---------------------------------------------------------------------
  // Data model
  // ---------------------------------------------------------------------

  /** A list node pointing at an item of the arena (`edi_gitem_t *`). */
  type Links = Adt.List<string, nat>

  /** `edi_gitem_t`: the item and its list of children, code values or components. */
  datatype GItem = GItem(item: Item, list: Links)

  /** `edi_giterator_t`: position in the parent's child list (its length is a NULL node) and the count there. */
  datatype Cursor = Cursor(parent: nat, pos: nat, reps: nat)

  /**
   * `edi_giovanni_t`.  The C structure keeps the builder's open-element
   * stack and the matcher's cursors in one stack field; `open` and
   * `stack` are those two uses.
   */
  datatype Tsg = Tsg(
    items: seq<GItem>,
    segments: Links, composites: Links, elements: Links, transactions: Links,
    open: seq<nat>, current: Option<nat>,
    stack: seq<Cursor>, transaction: bool)

  /** A freshly created directory: no items, empty lists, no transaction. */
  const EmptyTsg: Tsg := Tsg([], [], [], [], [], [], None, [], false)

  /** Every non-NULL datum of a list is an item of an arena of size `n`. */
  predicate LinksIn(l: Links, n: nat) {
    forall i :: 0 <= i < |l| ==> l[i].data.Some? ==> l[i].data.value < n
  }

  predicate ItemsOk(items: seq<GItem>) {
    forall i :: 0 <= i < |items| ==> LinksIn(items[i].list, |items|)
  }

  /** Every pointer in the structure refers to an item of the arena. */
  predicate ArenaOk(t: Tsg) {
    && ItemsOk(t.items)
    && LinksIn(t.segments, |t.items|) && LinksIn(t.composites, |t.items|)
    && LinksIn(t.elements, |t.items|) && LinksIn(t.transactions, |t.items|)
    && (forall i :: 0 <= i < |t.open| ==> t.open[i] < |t.items|)
    && (t.current.Some? ==> t.current.value < |t.items|)
  }

  /**
   * `mystrcmp` as the finders use it: zero exactly when both strings
   * exist and are equal, so a NULL never matches.  Only the zero test of
   * the result is ever consulted; the sign of a non-zero `strcmp` is not
   * modelled.
   */
  function KeyCmp(a: Option<string>, b: Option<string>): (r: int)
    ensures r == 0 <==> a.Some? && a == b
  {
    if a.Some? && b.Some? then (if a.value == b.value then 0 else 1)
    else if a.Some? then -1
    else 1
  }

  // ---------------------------------------------------------------------
  // Finders and item lookups
  // ---------------------------------------------------------------------

  /** `edi_list_find` with `mystrcmp` on one of the finder lists; a NULL code finds nothing. */
  function FindIn(l: Links, code: Option<string>): (r: Option<nat>)
    ensures code.None? ==> r.None?
    ensures r.Some? ==> exists i :: 0 <= i < |l| && l[i].key == code && l[i].data == r
    ensures (forall i :: 0 <= i < |l| ==> l[i].key != code) ==> r.None?
  {
    if code.None? then None
    else
      var r := Adt.Find(l, code, KeyCmp);
      assert r.Some? ==> exists i :: 0 <= i < |l| && l[i].key == code && l[i].data == r by {
        var k := Adt.FindIndex(l, code, KeyCmp);
        if k.Some? {
          assert r == l[k.value].data && l[k.value].key == code;
        }
      }
      r
  }

  /** `edi_giovanni_find_element`. */
  function FindElement(t: Tsg, code: Option<string>): Option<nat> {
    FindIn(t.elements, code)
  }

  /** `edi_giovanni_find_composite`. */
  function FindComposite(t: Tsg, code: Option<string>): Option<nat> {
    FindIn(t.composites, code)
  }

  /** `edi_giovanni_find_segment`. */
  function FindSegment(t: Tsg, code: Option<string>): Option<nat> {
    FindIn(t.segments, code)
  }

  /** `edi_giovanni_find_codelist`: the value `code` in the list of element `element`. */
  function FindCodelist(t: Tsg, element: Option<string>, code: Option<string>): (r: Option<nat>)
    requires ArenaOk(t)
    ensures r.Some? ==> FindElement(t, element).Some?
    ensures r.Some? ==> r.value < |t.items|
    ensures FindElement(t, element).Some? ==>
      r == FindIn(t.items[FindElement(t, element).value].list, code)
  {
    match FindElement(t, element)
    case None => None
    case Some(e) => FindIn(t.items[e].list, code)
  }

  /** The item a finder result points at, NULL for no result. */
  function ItemAt(t: Tsg, id: Option<nat>): (r: Option<Item>)
    ensures r.Some? <==> id.Some? && id.value < |t.items|
  {
    if id.Some? && id.value < |t.items| then Some(t.items[id.value].item) else None
  }

  /** `element_repr`: a copy of the element's item, or the null item. */
  function ElementRepr(t: Tsg, code: Option<string>): (r: Item)
    ensures ItemAt(t, FindElement(t, code)).None? ==> r == NullItem
    ensures ItemAt(t, FindElement(t, code)).Some? ==> r == ItemAt(t, FindElement(t, code)).value
  {
    ItemAt(t, FindElement(t, code)).GetOr(NullItem)
  }

  /** `segment_size`: the number of entries in the segment's list, 0 for an unknown segment. */
  function SegmentSize(t: Tsg, code: Option<string>): (n: nat)
    requires ArenaOk(t)
    ensures FindSegment(t, code).None? ==> n == 0
  {
    match FindSegment(t, code)
    case None => 0
    case Some(s) => |t.items[s].list|
  }

  /**
   * `segment_item`: the `i`-th entry of a segment, resolved to the
   * element or composite of the same code, with its type, representation
   * and requirement taken from the entry itself.
   */
  function SegmentItem(t: Tsg, code: Option<string>, i: nat): (r: Item)
    requires ArenaOk(t)
    ensures i >= SegmentSize(t, code) ==> r == NullItem
    ensures i < SegmentSize(t, code) ==>
      var entry := t.items[FindSegment(t, code).value].list[i];
      entry.data.None? ==> r == NullItem
  {
    match FindSegment(t, code)
    case None => NullItem
    case Some(s) =>
      var l := t.items[s].list;
      if i < |l| && l[i].data.Some? then
        var entity := t.items[l[i].data.value].item;
        var found := if entity.itemType != 0 then FindComposite(t, entity.code) else FindElement(t, entity.code);
        var base := ItemAt(t, found).GetOr(NullItem);
        base.(itemType := entity.itemType, repr := entity.repr, reqr := entity.reqr)
      else NullItem
  }

  /** `composite_size`. */
  function CompositeSize(t: Tsg, code: Option<string>): (n: nat)
    requires ArenaOk(t)
    ensures FindComposite(t, code).None? ==> n == 0
  {
    match FindComposite(t, code)
    case None => 0
    case Some(c) => |t.items[c].list|
  }

  /** `composite_item`: the `i`-th component resolved to its element, with the component's requirement. */
  function CompositeItem(t: Tsg, code: Option<string>, i: nat): (r: Item)
    requires ArenaOk(t)
    ensures i >= CompositeSize(t, code) ==> r == NullItem
  {
    match FindComposite(t, code)
    case None => NullItem
    case Some(c) =>
      var l := t.items[c].list;
      if i < |l| && l[i].data.Some? then
        var entity := t.items[l[i].data.value].item;
        ItemAt(t, FindElement(t, entity.code)).GetOr(NullItem).(reqr := entity.reqr)
      else NullItem
  }

  /** A resolved entry of a segment carries the entry's own type, representation and requirement. */
  lemma SegmentItemFields(t: Tsg, code: Option<string>, i: nat)
    requires ArenaOk(t) && i < SegmentSize(t, code)
    requires t.items[FindSegment(t, code).value].list[i].data.Some?
    ensures var e := t.items[t.items[FindSegment(t, code).value].list[i].data.value].item;
            var r := SegmentItem(t, code, i);
            r.itemType == e.itemType && r.repr == e.repr && r.reqr == e.reqr
            && (e.itemType == 0 && FindElement(t, e.code).Some? ==>
                  r.code == t.items[FindElement(t, e.code).value].item.code)
  {
  }

  /**
   * The first position `j` in `[n, size)` at which `f(j)` is the code
   * `target`: the scans of `element_indx`.
   */
  function FirstCode(f: nat -> Option<string>, target: string, n: nat, size: nat): (r: Option<nat>)
    ensures r.Some? ==> n <= r.value < size && f(r.value) == Some(target)
    ensures r.Some? ==> forall j :: n <= j < r.value ==> f(j) != Some(target)
    ensures r.None? ==> forall j :: n <= j < size ==> f(j) != Some(target)
    decreases size - n
  {
    if n >= size then None
    else if f(n) == Some(target) then Some(n)
    else FirstCode(f, target, n + 1, size)
  }

  /** The first entry of segment `segment` whose resolved code is `element`. */
  function SegmentPosition(t: Tsg, segment: Option<string>, element: string): (r: Option<nat>)
    requires ArenaOk(t)
    ensures r.Some? ==> r.value < SegmentSize(t, segment) && SegmentItem(t, segment, r.value).code == Some(element)
    ensures r.Some? ==> forall j :: 0 <= j < r.value ==> SegmentItem(t, segment, j).code != Some(element)
    ensures r.None? ==> forall j :: 0 <= j < SegmentSize(t, segment) ==> SegmentItem(t, segment, j).code != Some(element)
  {
    var codes := (j: nat) => SegmentItem(t, segment, j).code;
    assert forall j: nat :: codes(j) == SegmentItem(t, segment, j).code;
    FirstCode(codes, element, 0, SegmentSize(t, segment))
  }

  /** The first component of composite `composite` whose resolved code is `sub`. */
  function ComponentPosition(t: Tsg, composite: Option<string>, sub: string): (r: Option<nat>)
    requires ArenaOk(t)
    ensures r.Some? ==> r.value < CompositeSize(t, composite) && CompositeItem(t, composite, r.value).code == Some(sub)
    ensures r.None? ==> forall j :: 0 <= j < CompositeSize(t, composite) ==> CompositeItem(t, composite, j).code != Some(sub)
  {
    var codes := (j: nat) => CompositeItem(t, composite, j).code;
    assert forall j: nat :: codes(j) == CompositeItem(t, composite, j).code;
    FirstCode(codes, sub, 0, CompositeSize(t, composite))
  }

  /** The outcome of `element_indx`: its return value and the positions it stores. */
  datatype Index = Index(found: int, x: int, y: int)

  /**
   * `element_indx`: the first entry of the segment whose code is the
   * element; for a simple element the position is (x, 0) and a
   * subelement makes it fail; for a composite the subelement must be one
   * of its components.  The positions are stored even when it fails.
   */
  function ElementIndex(t: Tsg, segment: Option<string>, element: Option<string>,
                        subelement: Option<string>): (r: Index)
    requires ArenaOk(t)
    ensures r.found == 0 || r.found == 1
    ensures segment.None? || element.None? ==> r == Index(0, -1, -1)
    ensures r.found == 1 ==> segment.Some? && element.Some? && 0 <= r.x && 0 <= r.y
    ensures r.x < 0 ==> r == Index(0, -1, -1)
    ensures segment.Some? && element.Some? ==>
      (r.x >= 0 <==> SegmentPosition(t, segment, element.value).Some?)
      && (r.x >= 0 ==> r.x == SegmentPosition(t, segment, element.value).value)
    ensures r.x >= 0 && SegmentItem(t, segment, r.x).itemType == 0 ==>
      r.y == 0 && (r.found == 1 <==> subelement.None?)
    ensures r.x >= 0 && SegmentItem(t, segment, r.x).itemType != 0 && subelement.None? ==>
      r.found == 0 && r.y == -1
    ensures r.x >= 0 && SegmentItem(t, segment, r.x).itemType != 0 && subelement.Some? ==>
      (r.found == 1 <==> r.y >= 0)
      && (r.y >= 0 <==> ComponentPosition(t, element, subelement.value).Some?)
      && (r.y >= 0 ==> r.y == ComponentPosition(t, element, subelement.value).value)
  {
    if segment.None? || element.None? then Index(0, -1, -1)
    else
      match SegmentPosition(t, segment, element.value)
      case None => Index(0, -1, -1)
      case Some(x) =>
        if SegmentItem(t, segment, x).itemType == 0 then
          Index(if subelement.Some? then 0 else 1, x, 0)
        else if subelement.None? then Index(0, x, -1)
        else
          match ComponentPosition(t, element, subelement.value)
          case None => Index(0, x, -1)
          case Some(y) => Index(1, x, y)
  }

  // ---------------------------------------------------------------------
  // Transaction matcher
  // ---------------------------------------------------------------------

  predicate CursorIn(items: seq<GItem>, c: Cursor) {
    c.parent < |items| && c.pos <= |items[c.parent].list|
  }

  /** The cursor is on a live entry: not past the end and not a NULL datum. */
  predicate OnItem(items: seq<GItem>, c: Cursor) {
    CursorIn(items, c) && c.pos < |items[c.parent].list| && items[c.parent].list[c.pos].data.Some?
  }

  /** The arena index of the entry a cursor is on. */
  function Target(items: seq<GItem>, c: Cursor): nat
    requires OnItem(items, c)
  {
    items[c.parent].list[c.pos].data.value
  }

  /**
   * A cursor's count never exceeds the bound of the item it is on, except
   * for the count 1 that loop entry gives a loop's first child whatever
   * that child's bound.
   */
  predicate Counted(items: seq<GItem>, c: Cursor) {
    CursorIn(items, c)
    && (OnItem(items, c) && Target(items, c) < |items| ==>
          c.reps <= items[Target(items, c)].item.reps || c.reps == 1)
  }

  /** A cursor below the top sits on the loop it entered, with its count still under the loop's bound. */
  predicate Entered(items: seq<GItem>, c: Cursor) {
    OnItem(items, c) && Target(items, c) < |items|
    && items[Target(items, c)].item.itemType != 0
    && c.reps < items[Target(items, c)].item.reps
  }

  /** The shape of the cursor stack: each cursor walks the children of the loop the one below it entered. */
  predicate StackOk(items: seq<GItem>, s: seq<Cursor>) {
    && (forall i :: 0 <= i < |s| ==> Counted(items, s[i]))
    && (forall i :: 0 <= i < |s| - 1 ==> Entered(items, s[i]) && s[i + 1].parent == Target(items, s[i]))
  }

  /** The matcher's precondition: a well-formed arena and cursor stack. */
  predicate Ready(t: Tsg) {
    ArenaOk(t) && StackOk(t.items, t.stack)
  }

  /** Open loop cursors: every cursor but the transaction's own. */
  function Depth(s: seq<Cursor>): nat {
    if |s| == 0 then 0 else |s| - 1
  }

  /** What the matcher hands to the application callbacks. */
  datatype GEvent =
    | StartLoop(params: Params.Parameters)     // start(userdata, EDI_LOOP, parameters)
    | EndLoop                                  // end(userdata, EDI_LOOP, NULL)
    | Verdict(params: Params.Parameters)       // segment(userdata, parameters, directory)

  function Starts(ev: seq<GEvent>): nat {
    if |ev| == 0 then 0 else (if ev[0].StartLoop? then 1 else 0) + Starts(ev[1..])
  }

  function Ends(ev: seq<GEvent>): nat {
    if |ev| == 0 then 0 else (if ev[0].EndLoop? then 1 else 0) + Ends(ev[1..])
  }

  function Verdicts(ev: seq<GEvent>): nat {
    if |ev| == 0 then 0 else (if ev[0].Verdict? then 1 else 0) + Verdicts(ev[1..])
  }

  /** Counting events of a concatenated log. */
  lemma {:induction false} CountsAppend(a: seq<GEvent>, b: seq<GEvent>)
    ensures Starts(a + b) == Starts(a) + Starts(b)
    ensures Ends(a + b) == Ends(a) + Ends(b)
    ensures Verdicts(a + b) == Verdicts(a) + Verdicts(b)
    decreases |a|
  {
    if |a| == 0 {
      assert a + b == b;
    } else {
      assert (a + b)[0] == a[0];
      assert (a + b)[1..] == a[1..] + b;
      CountsAppend(a[1..], b);
    }
  }

  /** The parameters describing an item: code, name, description and note, every other slot NULL. */
  function ItemParameters(it: Item): (p: Params.Parameters)
    ensures Params.ValidParameters(p)
    ensures p.values[Params.Code] == it.code && p.values[Params.Name] == it.name
    ensures p.values[Params.Desc] == it.desc && p.values[Params.Note] == it.note
    ensures forall k :: (0 <= k < Params.MaxParameter && k != Params.Code && k != Params.Name
                         && k != Params.Desc && k != Params.Note) ==> p.values[k].None?
  {
    var p := Params.EmptyParameters();
    var p := Params.SetOne(p, Params.Code, it.code);
    var p := Params.SetOne(p, Params.Name, it.name);
    var p := Params.SetOne(p, Params.Desc, it.desc);
    Params.SetOne(p, Params.Note, it.note)
  }

  /** A verdict with the parameters cleared at entry: a rejection, or a segment passed through with no transaction open. */
  function BareVerdict(): GEvent {
    Verdict(Params.EmptyParameters())
  }

  /** What remains to be walked: decreases on every pass of the matcher's loop. */
  function Remaining(items: seq<GItem>, s: seq<Cursor>): nat
    requires forall i :: 0 <= i < |s| ==> CursorIn(items, s[i])
  {
    if |s| == 0 then 0
    else
      var c := s[|s| - 1];
      assert CursorIn(items, c);
      Remaining(items, s[..|s| - 1]) + (|items[c.parent].list| - c.pos) + 1
  }

  /** Moving the top cursor to the next entry with its count reset. */
  function Advance(items: seq<GItem>, s: seq<Cursor>): (r: seq<Cursor>)
    requires StackOk(items, s) && |s| > 0 && OnItem(items, s[|s| - 1])
    ensures |r| == |s| && r[..|s| - 1] == s[..|s| - 1]
    ensures StackOk(items, r)
    ensures Remaining(items, r) < Remaining(items, s)
  {
    var n := |s| - 1;
    var r := s[n := s[n].(pos := s[n].pos + 1, reps := 0)];
    assert r[..n] == s[..n];
    r
  }

  /** Popping an exhausted cursor: the parent completes one more round of its loop. */
  function Complete(items: seq<GItem>, s: seq<Cursor>): (r: seq<Cursor>)
    requires StackOk(items, s) && |s| > 1
    ensures |r| == |s| - 1 && r[..|r| - 1] == s[..|s| - 2]
    ensures r[|r| - 1] == s[|s| - 2].(reps := s[|s| - 2].reps + 1)
    ensures StackOk(items, r)
    ensures Remaining(items, r) < Remaining(items, s)
  {
    var below := s[..|s| - 1];
    var n := |below| - 1;
    var r := below[n := below[n].(reps := below[n].reps + 1)];
    assert r[..n] == below[..n] == s[..|s| - 2];
    assert Entered(items, s[n]);
    r
  }

  /** One call of the matcher: the new cursor stack, the callbacks made, the return code. */
  datatype Outcome = Outcome(stack: seq<Cursor>, events: seq<GEvent>, error: Error)

  /** The cursor stack after accepting: its top sits on an item with the code, counted at least once. */
  predicate AcceptedOn(items: seq<GItem>, s: seq<Cursor>, code: string) {
    |s| > 0 && OnItem(items, s[|s| - 1]) && Target(items, s[|s| - 1]) < |items|
    && items[Target(items, s[|s| - 1])].item.code == Some(code)
    && s[|s| - 1].reps >= 1
  }

  /** The result of one pass of the matcher's loop: go round again, or leave the function. */
  datatype Pass = Again(stack: seq<Cursor>, events: seq<GEvent>) | Leave(outcome: Outcome)

  /**
   * A pass that goes round again keeps the stack well formed, makes
   * progress, and reports only EndLoop events, one per open loop it closes.
   */
  predicate AgainOk(items: seq<GItem>, stack: seq<Cursor>, next: seq<Cursor>, ev: seq<GEvent>)
    requires ItemsOk(items) && StackOk(items, stack)
  {
    && StackOk(items, next) && Remaining(items, next) < Remaining(items, stack)
    && Depth(next) + Ends(ev) == Depth(stack) && Starts(ev) == 0 && Verdicts(ev) == 0
  }

  /**
   * How a call of the matcher ends, given the stack it started the final
   * pass from:
   *   - the open-loop depth changes by StartLoops minus EndLoops;
   *   - at most one segment verdict and one StartLoop;
   *   - success means exactly one verdict for a code, none for NULL, and
   *     for a code the top cursor now sits on an item with that code;
   *   - an error other than EBADTSG always comes with a verdict;
   *   - the stack empties exactly when the matcher fell off it, which is
   *     ECORRUPT for a code and success for NULL.
   */
  predicate LeaveOk(items: seq<GItem>, stack: seq<Cursor>, code: Option<string>, o: Outcome)
    requires ItemsOk(items) && StackOk(items, stack)
  {
    && StackOk(items, o.stack)
    && Depth(o.stack) + Ends(o.events) == Depth(stack) + Starts(o.events)
    && Verdicts(o.events) <= 1 && Starts(o.events) <= 1
    && o.error in {ENONE, EBADTSG, EREQUIRED, ECORRUPT}
    && (o.error == ENONE ==> Verdicts(o.events) == (if code.Some? then 1 else 0))
    && (o.error != ENONE && Verdicts(o.events) == 0 ==> o.error == EBADTSG)
    && (o.error == ECORRUPT ==> code.Some?)
    && (|o.stack| == 0 <==> o.error == ECORRUPT || (o.error == ENONE && code.None?))
    && (o.error == ENONE && code.Some? ==> AcceptedOn(items, o.stack, code.value))
  }

  predicate PassOk(items: seq<GItem>, stack: seq<Cursor>, code: Option<string>, r: Pass)
    requires ItemsOk(items) && StackOk(items, stack)
  {
    && (r.Again? ==> AgainOk(items, stack, r.stack, r.events))
    && (r.Leave? ==> LeaveOk(items, stack, code, r.outcome))
  }

  /** A rejection leaves the stack as it is and reports one verdict with cleared parameters. */
  function Reject(stack: seq<Cursor>, error: Error): (o: Outcome)
    ensures o.stack == stack && o.error == error && Verdicts(o.events) == 1
    ensures Starts(o.events) == 0 && Ends(o.events) == 0
  {
    Outcome(stack, [BareVerdict()], error)
  }

  /**
   * One pass of the `while` loop of `iterate_transaction`, or its exit
   * when the stack is empty: pop an exhausted cursor (EndLoop when a
   * parent remains, whose count goes up by one), stop at a NULL datum,
   * skip an item whose count has reached its bound, or try the item.
   */
  function Step(items: seq<GItem>, stack: seq<Cursor>, code: Option<string>): (r: Pass)
    requires ItemsOk(items) && StackOk(items, stack)
    ensures PassOk(items, stack, code, r)
  {
    if |stack| == 0 then
      if code.None? then Leave(Outcome([], [], ENONE)) else Leave(Reject([], ECORRUPT))
    else
      var top := stack[|stack| - 1];
      assert Counted(items, top);
      if top.pos == |items[top.parent].list| then Exhausted(items, stack)
      else OnEntry(items, stack, code)
  }

  /** The top cursor has run off its list: pop it, with an EndLoop when a parent remains. */
  function Exhausted(items: seq<GItem>, stack: seq<Cursor>): (r: Pass)
    requires ItemsOk(items) && StackOk(items, stack) && |stack| > 0
    ensures r.Again? && AgainOk(items, stack, r.stack, r.events)
  {
    if |stack| == 1 then Again([], []) else Again(Complete(items, stack), [EndLoop])
  }

  /** The top cursor is on an entry of its list: stop at NULL, skip a spent item, or try it. */
  function OnEntry(items: seq<GItem>, stack: seq<Cursor>, code: Option<string>): (r: Pass)
    requires ItemsOk(items) && StackOk(items, stack) && |stack| > 0
    requires CursorIn(items, stack[|stack| - 1])
    requires stack[|stack| - 1].pos < |items[stack[|stack| - 1].parent].list|
    ensures PassOk(items, stack, code, r)
  {
    var top := stack[|stack| - 1];
    var list := items[top.parent].list;
    if list[top.pos].data.None? then Leave(Outcome(stack, [], EBADTSG))
    else
      var id := list[top.pos].data.value;
      assert LinksIn(items[top.parent].list, |items|);
      if top.reps >= items[id].item.reps then Again(Advance(items, stack), [])
      else if items[id].item.itemType != 0 then TryLoop(items, stack, code)
      else TrySegment(items, stack, code)
  }

  /** The top cursor is on an item whose count is still under its bound. */
  predicate Live(items: seq<GItem>, s: seq<Cursor>) {
    |s| > 0 && OnItem(items, s[|s| - 1]) && Target(items, s[|s| - 1]) < |items|
    && s[|s| - 1].reps < items[Target(items, s[|s| - 1])].item.reps
  }

  /**
   * The loop branch: a loop without a first child, or whose first child is
   * a loop, is a bad TSG; a code equal to the first child's enters it;
   * otherwise a mandatory loop not yet seen is EREQUIRED and any other is
   * passed over.
   */
  function TryLoop(items: seq<GItem>, stack: seq<Cursor>, code: Option<string>): (r: Pass)
    requires ItemsOk(items) && StackOk(items, stack) && Live(items, stack)
    requires items[Target(items, stack[|stack| - 1])].item.itemType != 0
    ensures PassOk(items, stack, code, r)
  {
    var top := stack[|stack| - 1];
    var entity := items[Target(items, top)];
    var kids := entity.list;
    if |kids| == 0 || kids[0].data.None? then Leave(Reject(stack, EBADTSG))
    else
      assert LinksIn(kids, |items|);
      var child := items[kids[0].data.value].item;
      if child.itemType != 0 then Leave(Reject(stack, EBADTSG))
      else if code.Some? && KeyCmp(child.code, code) == 0 then
        var next := Enter(items, stack, code.value);
        assert Depth(next) == Depth(stack) + 1;
        Leave(Outcome(next, EntryEvents(entity.item, child), ENONE))
      else if entity.item.reqr != 0 && top.reps == 0 then Leave(Reject(stack, EREQUIRED))
      else Again(Advance(items, stack), [])
  }

  /**
   * The segment branch: a code equal to the item's is accepted; otherwise
   * a mandatory segment not yet seen is EREQUIRED and any other is passed
   * over.
   */
  function TrySegment(items: seq<GItem>, stack: seq<Cursor>, code: Option<string>): (r: Pass)
    requires ItemsOk(items) && StackOk(items, stack) && Live(items, stack)
    ensures PassOk(items, stack, code, r)
  {
    var top := stack[|stack| - 1];
    var entity := items[Target(items, top)].item;
    if code.Some? && KeyCmp(entity.code, code) == 0 then
      Leave(Outcome(Accept(items, stack, code.value), [Verdict(ItemParameters(entity))], ENONE))
    else if entity.reqr != 0 && top.reps == 0 then Leave(Reject(stack, EREQUIRED))
    else Again(Advance(items, stack), [])
  }

  /** The callbacks of loop entry: StartLoop for the loop, then the verdict accepting its first child. */
  function EntryEvents(loop: Item, child: Item): (ev: seq<GEvent>)
    ensures ev == [StartLoop(ItemParameters(loop)), Verdict(ItemParameters(child))]
    ensures Starts(ev) == 1 && Ends(ev) == 0 && Verdicts(ev) == 1
  {
    var verdict := [Verdict(ItemParameters(child))];
    assert verdict[1..] == [];
    assert Starts(verdict) == 0 && Ends(verdict) == 0 && Verdicts(verdict) == 1;
    var ev := [StartLoop(ItemParameters(loop))] + verdict;
    assert ev[0].StartLoop? && ev[1..] == verdict;
    ev
  }

  /** Loop entry: a cursor on the loop's first child, already counted once, is pushed. */
  function Enter(items: seq<GItem>, s: seq<Cursor>, code: string): (r: seq<Cursor>)
    requires ItemsOk(items) && StackOk(items, s) && |s| > 0
    requires OnItem(items, s[|s| - 1]) && Target(items, s[|s| - 1]) < |items|
    requires var e := items[Target(items, s[|s| - 1])];
      e.item.itemType != 0 && s[|s| - 1].reps < e.item.reps
      && |e.list| > 0 && e.list[0].data.Some? && e.list[0].data.value < |items|
      && items[e.list[0].data.value].item.code == Some(code)
    ensures r == s + [Cursor(Target(items, s[|s| - 1]), 0, 1)]
    ensures StackOk(items, r) && AcceptedOn(items, r, code)
  {
    var r := s + [Cursor(Target(items, s[|s| - 1]), 0, 1)];
    assert forall i :: 0 <= i < |s| ==> r[i] == s[i];
    r
  }

  /** Accepting a segment: the top cursor's count goes up by exactly one. */
  function Accept(items: seq<GItem>, s: seq<Cursor>, code: string): (r: seq<Cursor>)
    requires StackOk(items, s) && |s| > 0
    requires OnItem(items, s[|s| - 1]) && Target(items, s[|s| - 1]) < |items|
    requires var e := items[Target(items, s[|s| - 1])];
      s[|s| - 1].reps < e.item.reps && e.item.code == Some(code)
    ensures r == s[|s| - 1 := s[|s| - 1].(reps := s[|s| - 1].reps + 1)]
    ensures StackOk(items, r) && AcceptedOn(items, r, code)
  {
    s[|s| - 1 := s[|s| - 1].(reps := s[|s| - 1].reps + 1)]
  }

  /** The `while` loop of `iterate_transaction` with its exits: passes until one leaves. */
  function Walk(items: seq<GItem>, stack: seq<Cursor>, code: Option<string>): (r: Outcome)
    requires ItemsOk(items) && StackOk(items, stack)
    ensures LeaveOk(items, stack, code, r)
    decreases Remaining(items, stack)
  {
    match Step(items, stack, code)
    case Leave(o) => o
    case Again(next, ev) =>
      var rest := Walk(items, next, code);
      CountsAppend(ev, rest.events);
      Outcome(rest.stack, ev + rest.events, rest.error)
  }

  /** What one entry point of the matcher leaves behind: the directory, the callbacks made, the return code. */
  datatype Iteration = Iteration(tsg: Tsg, events: seq<GEvent>, error: Error)

  /**
   * `start_transaction`: the cursor stack is emptied; an unknown (or NULL)
   * name is ETUNKNOWN and leaves the transaction flag as it was; a known
   * one sets the flag and pushes one cursor on the transaction's first
   * child, with count 0.
   */
  function StartTransaction(t: Tsg, name: Option<string>): (r: Iteration)
    requires ArenaOk(t)
    ensures Ready(r.tsg) && r.events == []
    ensures r.tsg == t.(stack := r.tsg.stack, transaction := r.tsg.transaction)
    ensures r.error == ETUNKNOWN <==> FindIn(t.transactions, name).None?
    ensures r.error == ETUNKNOWN ==> r.tsg.stack == [] && r.tsg.transaction == t.transaction
    ensures r.error != ETUNKNOWN ==>
      && r.error == ENONE && r.tsg.transaction
      && r.tsg.stack == [Cursor(FindIn(t.transactions, name).value, 0, 0)]
      && (exists i :: 0 <= i < |t.transactions| && t.transactions[i].key == name
                      && t.transactions[i].data == Some(r.tsg.stack[0].parent))
  {
    match FindIn(t.transactions, name)
    case None => Iteration(t.(stack := []), [], ETUNKNOWN)
    case Some(tx) =>
      assert tx < |t.items|;
      Iteration(t.(stack := [Cursor(tx, 0, 0)], transaction := true), [], ENONE)
  }

  /**
   * `end_transaction`: ECORRUPT exactly when a cursor was still open; the
   * stack is always emptied without any EndLoop, and the flag cleared.
   */
  function EndTransaction(t: Tsg): (r: Iteration)
    ensures r.error == ECORRUPT <==> |t.stack| > 0
    ensures r.error == ENONE || r.error == ECORRUPT
    ensures r.tsg == t.(stack := [], transaction := false) && r.events == []
  {
    Iteration(t.(stack := [], transaction := false), [], if |t.stack| > 0 then ECORRUPT else ENONE)
  }

  /**
   * `iterate_transaction`: with no transaction open the segment is handed
   * on with cleared parameters and nothing changes; otherwise the walk
   * decides the verdict.  Only the cursor stack ever changes.
   */
  function IterateTransaction(t: Tsg, code: Option<string>): (r: Iteration)
    requires Ready(t)
    ensures Ready(r.tsg) && r.tsg == t.(stack := r.tsg.stack)
    ensures !t.transaction ==> r == Iteration(t, [BareVerdict()], ENONE)
    ensures t.transaction ==> LeaveOk(t.items, t.stack, code, Outcome(r.tsg.stack, r.events, r.error))
    ensures Depth(r.tsg.stack) + Ends(r.events) == Depth(t.stack) + Starts(r.events)
    ensures Verdicts(r.events) <= 1
  {
    if !t.transaction then
      assert Verdicts([BareVerdict()]) == 1 by { assert [BareVerdict()][1..] == []; }
      Iteration(t, [BareVerdict()], ENONE)
    else
      var o := Walk(t.items, t.stack, code);
      Iteration(t.(stack := o.stack), o.events, o.error)
  }

  /** Feeding segment codes one call at a time; the callbacks concatenate. */
  function Feed(t: Tsg, codes: seq<Option<string>>): (r: Iteration)
    requires Ready(t)
    ensures Ready(r.tsg)
    decreases |codes|
  {
    if |codes| == 0 then Iteration(t, [], ENONE)
    else
      var first := IterateTransaction(t, codes[0]);
      var rest := Feed(first.tsg, codes[1..]);
      Iteration(rest.tsg, first.events + rest.events, rest.error)
  }

  /** Over any run of calls the open-loop depth moves by StartLoops minus EndLoops, and each call gives at most one verdict. */
  lemma {:induction false} FeedBalance(t: Tsg, codes: seq<Option<string>>)
    requires Ready(t)
    ensures var r := Feed(t, codes);
      Depth(r.tsg.stack) + Ends(r.events) == Depth(t.stack) + Starts(r.events)
      && Verdicts(r.events) <= |codes|
    decreases |codes|
  {
    if |codes| > 0 {
      var first := IterateTransaction(t, codes[0]);
      FeedBalance(first.tsg, codes[1..]);
      CountsAppend(first.events, Feed(first.tsg, codes[1..]).events);
    }
  }

  /**
   * From a successful `start_transaction`, while any cursor is open the
   * cursors other than the transaction's own are exactly the loops
   * started and not yet ended.
   */
  lemma SessionBalance(t: Tsg, name: Option<string>, codes: seq<Option<string>>)
    requires ArenaOk(t)
    requires StartTransaction(t, name).error == ENONE
    ensures var r := Feed(StartTransaction(t, name).tsg, codes);
      |r.tsg.stack| > 0 ==> |r.tsg.stack| - 1 == Starts(r.events) - Ends(r.events)
  {
    FeedBalance(StartTransaction(t, name).tsg, codes);
  }

  // ---------------------------------------------------------------------
  // The matcher's branches, one lemma each
  // ---------------------------------------------------------------------

  /** The top cursor is on an item of the arena (not past its list, not a NULL datum). */
  predicate TopOn(items: seq<GItem>, s: seq<Cursor>) {
    |s| > 0 && OnItem(items, s[|s| - 1]) && Target(items, s[|s| - 1]) < |items|
  }

  /** The item under the top cursor. */
  function TopItem(items: seq<GItem>, s: seq<Cursor>): GItem
    requires TopOn(items, s)
  {
    items[Target(items, s[|s| - 1])]
  }

  /** Falling off the stack: success for NULL, ECORRUPT and one bare verdict for a code. */
  lemma FallOff(items: seq<GItem>, code: Option<string>)
    requires ItemsOk(items)
    ensures code.None? ==> Walk(items, [], code) == Outcome([], [], ENONE)
    ensures code.Some? ==> Walk(items, [], code) == Outcome([], [BareVerdict()], ECORRUPT)
  {
  }

  /**
   * An exhausted cursor is popped; only when a parent remains is EndLoop
   * reported and the parent's count incremented.
   */
  lemma PopExhausted(items: seq<GItem>, stack: seq<Cursor>, code: Option<string>)
    requires ItemsOk(items) && StackOk(items, stack) && |stack| > 0
    requires stack[|stack| - 1].pos == |items[stack[|stack| - 1].parent].list|
    ensures |stack| == 1 ==> Walk(items, stack, code) == Walk(items, [], code)
    ensures |stack| > 1 ==>
      var rest := Walk(items, Complete(items, stack), code);
      Walk(items, stack, code) == Outcome(rest.stack, [EndLoop] + rest.events, rest.error)
  {
    assert Counted(items, stack[|stack| - 1]);
    if |stack| == 1 {
      assert [] + Walk(items, [], code).events == Walk(items, [], code).events;
    }
  }

  /** An item whose count has reached its bound is skipped without consuming the code: a bound of 0 is never matched there. */
  lemma SkipExhausted(items: seq<GItem>, stack: seq<Cursor>, code: Option<string>)
    requires ItemsOk(items) && StackOk(items, stack) && TopOn(items, stack)
    requires stack[|stack| - 1].reps >= TopItem(items, stack).item.reps
    ensures Walk(items, stack, code) == Walk(items, Advance(items, stack), code)
  {
    assert [] + Walk(items, Advance(items, stack), code).events == Walk(items, Advance(items, stack), code).events;
  }

  /** A segment whose code is given is accepted: one verdict with its parameters, its count up by one. */
  lemma AcceptSegment(items: seq<GItem>, stack: seq<Cursor>, code: string)
    requires ItemsOk(items) && StackOk(items, stack) && Live(items, stack)
    requires TopItem(items, stack).item.itemType == 0 && TopItem(items, stack).item.code == Some(code)
    ensures var top := stack[|stack| - 1];
      Walk(items, stack, Some(code))
        == Outcome(stack[|stack| - 1 := top.(reps := top.reps + 1)],
                   [Verdict(ItemParameters(TopItem(items, stack).item))], ENONE)
  {
  }

  /**
   * A loop whose first child is a segment with the given code is entered:
   * StartLoop with the loop's parameters, a verdict for the child, and a
   * new cursor on the child already counted once.
   */
  lemma EnterLoop(items: seq<GItem>, stack: seq<Cursor>, code: string)
    requires ItemsOk(items) && StackOk(items, stack) && Live(items, stack)
    requires var loop := TopItem(items, stack);
      && loop.item.itemType != 0 && |loop.list| > 0 && loop.list[0].data.Some?
      && loop.list[0].data.value < |items|
      && items[loop.list[0].data.value].item.itemType == 0
      && items[loop.list[0].data.value].item.code == Some(code)
    ensures var loop := TopItem(items, stack);
      var child := items[loop.list[0].data.value].item;
      Walk(items, stack, Some(code))
        == Outcome(stack + [Cursor(Target(items, stack[|stack| - 1]), 0, 1)],
                   [StartLoop(ItemParameters(loop.item)), Verdict(ItemParameters(child))], ENONE)
  {
    var loop := TopItem(items, stack);
    var child := items[loop.list[0].data.value].item;
    var o := Outcome(Enter(items, stack, code), EntryEvents(loop.item, child), ENONE);
    assert TryLoop(items, stack, Some(code)) == Leave(o);
    assert Step(items, stack, Some(code)) == Leave(o);
  }

  /** A loop with no first child, a NULL one, or one that is itself a loop, is a bad TSG, with a bare verdict. */
  lemma BadLoop(items: seq<GItem>, stack: seq<Cursor>, code: Option<string>)
    requires ItemsOk(items) && StackOk(items, stack) && Live(items, stack)
    requires var loop := TopItem(items, stack);
      loop.item.itemType != 0
      && (|loop.list| == 0 || loop.list[0].data.None?
          || (loop.list[0].data.value < |items| && items[loop.list[0].data.value].item.itemType != 0))
    ensures Walk(items, stack, code) == Outcome(stack, [BareVerdict()], EBADTSG)
  {
  }

  /** The code the item under the top cursor would accept: its own, or its first child's for a loop. */
  function Opening(items: seq<GItem>, stack: seq<Cursor>): Option<string>
    requires ItemsOk(items) && TopOn(items, stack)
  {
    var e := TopItem(items, stack);
    if e.item.itemType == 0 then e.item.code
    else if |e.list| > 0 && e.list[0].data.Some? && e.list[0].data.value < |items| then
      items[e.list[0].data.value].item.code
    else None
  }

  /** A well-formed loop: its first child exists and is a segment. */
  predicate GoodLoopTop(items: seq<GItem>, stack: seq<Cursor>)
    requires TopOn(items, stack)
  {
    var e := TopItem(items, stack);
    e.item.itemType != 0 ==>
      |e.list| > 0 && e.list[0].data.Some? && e.list[0].data.value < |items|
      && items[e.list[0].data.value].item.itemType == 0
  }

  /**
   * A mandatory segment or loop not yet seen, whose opening code is not
   * the given one, is EREQUIRED: a bare verdict, and the cursor stays.
   */
  lemma MissingMandatory(items: seq<GItem>, stack: seq<Cursor>, code: Option<string>)
    requires ItemsOk(items) && StackOk(items, stack) && Live(items, stack) && GoodLoopTop(items, stack)
    requires TopItem(items, stack).item.reqr != 0 && stack[|stack| - 1].reps == 0
    requires code.None? || Opening(items, stack) != code
    ensures Walk(items, stack, code) == Outcome(stack, [BareVerdict()], EREQUIRED)
  {
  }

  /** An optional item, or one already seen, that does not open with the code is passed over: the count resets and the cursor advances. */
  lemma PassOver(items: seq<GItem>, stack: seq<Cursor>, code: Option<string>)
    requires ItemsOk(items) && StackOk(items, stack) && Live(items, stack) && GoodLoopTop(items, stack)
    requires TopItem(items, stack).item.reqr == 0 || stack[|stack| - 1].reps > 0
    requires code.None? || Opening(items, stack) != code
    ensures Walk(items, stack, code) == Walk(items, Advance(items, stack), code)
  {
    assert [] + Walk(items, Advance(items, stack), code).events == Walk(items, Advance(items, stack), code).events;
  }

  /**
   * Loop entry does not consult the bound of the loop's first child: a
   * child whose bound is 0, which the skip rule would otherwise pass
   * over, is still accepted once when its loop is entered.
   */
  lemma EntryIgnoresChildBound()
    ensures var child := Item(Some("A"), None, None, None, 0, 1, 0, 0, 0, ISO2382X);
      var loop := Item(Some("L"), None, None, None, 1, 0, 1, 0, 0, ISO2382X);
      var items := [GItem(NullItem, [Adt.Entry(Some("L"), Some(1))]),
                    GItem(loop, [Adt.Entry(Some("A"), Some(2))]),
                    GItem(child, [])];
      ItemsOk(items) && StackOk(items, [Cursor(0, 0, 0)])
      && Walk(items, [Cursor(0, 0, 0)], Some("A")).error == ENONE
      && Walk(items, [Cursor(0, 0, 0)], Some("A")).stack == [Cursor(0, 0, 0), Cursor(1, 0, 1)]
  {
    var child := Item(Some("A"), None, None, None, 0, 1, 0, 0, 0, ISO2382X);
    var loop := Item(Some("L"), None, None, None, 1, 0, 1, 0, 0, ISO2382X);
    var items := [GItem(NullItem, [Adt.Entry(Some("L"), Some(1))]),
                  GItem(loop, [Adt.Entry(Some("A"), Some(2))]),
                  GItem(child, [])];
    assert StackOk(items, [Cursor(0, 0, 0)]);
    EnterLoop(items, [Cursor(0, 0, 0)], "A");
  }

  // ---------------------------------------------------------------------
  // TSG builder (start and end tags of the XML/PYX description)
  // ---------------------------------------------------------------------

  /** The element names `tsg_elemtype` knows, and the rest. */
  datatype Tag =
    | TElement | TComposite | TSegment | TCodelist | TTransaction
    | TValue | TElemref | TSegref | TLoop | TComponent | TUnknown

  /** The element name of each known tag. */
  function TagName(k: Tag): string
    requires k != TUnknown
  {
    match k
    case TSegment => "segment"
    case TComposite => "composite"
    case TElement => "element"
    case TCodelist => "codelist"
    case TTransaction => "transaction"
    case TValue => "value"
    case TElemref => "elemref"
    case TSegref => "segref"
    case TLoop => "loop"
    case TComponent => "component"
  }

  /** `tsg_elemtype`: the tag an element name denotes; NULL and any other name are unknown. */
  function ElemType(el: Option<string>): (k: Tag)
    ensures k != TUnknown ==> el == Some(TagName(k))
  {
    if el.None? then TUnknown
    else if el.value == "segment" then TSegment
    else if el.value == "composite" then TComposite
    else if el.value == "element" then TElement
    else if el.value == "codelist" then TCodelist
    else if el.value == "transaction" then TTransaction
    else if el.value == "value" then TValue
    else if el.value == "elemref" then TElemref
    else if el.value == "segref" then TSegref
    else if el.value == "loop" then TLoop
    else if el.value == "component" then TComponent
    else TUnknown
  }

  /** Every known tag is recognised by its own name. */
  lemma ElemTypeOfName(k: Tag)
    requires k != TUnknown
    ensures ElemType(Some(TagName(k))) == k
  {
  }

  /** An attribute pair; a NULL value is skipped. */
  type Attr = (string, Option<string>)

  /** `mystrdup`: a copy of the string, NULL for the empty string. */
  function Dup(v: string): (r: Option<string>)
    ensures r.None? <==> v == ""
    ensures r.Some? ==> r.value == v
  {
    if v == "" then None else Some(v)
  }

  /** The representations a `repr` attribute names; any other value keeps the previous one. */
  function ReprOf(v: string, prior: DataType): DataType {
    if v == "alpha" then ISO2382A
    else if v == "numeric" then ISO2382N
    else if v == "mixed" then ISO2382X
    else if v == "enum" then ENUMLIST
    else if v == "1decimal" then DECIMAL1
    else if v == "2decimal" then DECIMAL2
    else if v == "3decimal" then DECIMAL3
    else if v == "4decimal" then DECIMAL4
    else if v == "integer" then INTEGER
    else if v == "real" then REAL
    else prior
  }

  /** One pass of the loop of `tsg_elemattr`: the field the key names takes the value. */
  function ApplyAttr(it: Item, key: string, v: string): (r: Item)
    ensures key != "code" ==> r.code == it.code
    ensures key != "name" ==> r.name == it.name
    ensures key != "desc" && key != "func" ==> r.desc == it.desc
    ensures key != "note" ==> r.note == it.note
    ensures key != "min" ==> r.min == it.min
    ensures key != "max" ==> r.max == it.max
    ensures key != "reps" ==> r.reps == it.reps
    ensures key != "reqr" ==> r.reqr == it.reqr
    ensures key != "repr" ==> r.repr == it.repr
    ensures key != "type" ==> r.itemType == it.itemType
  {
    if key == "code" then it.(code := Dup(v))
    else if key == "name" then it.(name := Dup(v))
    else if key == "desc" || key == "func" then it.(desc := Dup(v))
    else if key == "note" then it.(note := Dup(v))
    else if key == "min" then it.(min := ToU32(CText.Atoi(v)))
    else if key == "max" then it.(max := ToU32(CText.Atoi(v)))
    else if key == "reps" then it.(reps := ToU32(CText.Atoi(v)))
    else if key == "reqr" then it.(reqr := if v == "mandatory" then 1 else 0)
    else if key == "repr" then it.(repr := ReprOf(v, it.repr))
    else if key == "type" then
      if v == "simple" then it.(itemType := 0)
      else if v == "composite" then it.(itemType := 1)
      else it
    else it
  }

  /** Some pair with one of the keys has a non-NULL value. */
  predicate Mentions(attrs: seq<Attr>, keys: set<string>) {
    exists i :: 0 <= i < |attrs| && attrs[i].0 in keys && attrs[i].1.Some?
  }

  /**
   * `tsg_elemattr`: the pairs are applied in order, so a later pair for a
   * field wins; a field no pair with a value mentions is left as it was.
   */
  function ElemAttr(it: Item, attrs: seq<Attr>): (r: Item)
    ensures !Mentions(attrs, {"code"}) ==> r.code == it.code
    ensures !Mentions(attrs, {"name"}) ==> r.name == it.name
    ensures !Mentions(attrs, {"desc", "func"}) ==> r.desc == it.desc
    ensures !Mentions(attrs, {"note"}) ==> r.note == it.note
    ensures !Mentions(attrs, {"min"}) ==> r.min == it.min
    ensures !Mentions(attrs, {"max"}) ==> r.max == it.max
    ensures !Mentions(attrs, {"reps"}) ==> r.reps == it.reps
    ensures !Mentions(attrs, {"reqr"}) ==> r.reqr == it.reqr
    ensures !Mentions(attrs, {"repr"}) ==> r.repr == it.repr
    ensures !Mentions(attrs, {"type"}) ==> r.itemType == it.itemType
    decreases |attrs|
  {
    if |attrs| == 0 then it
    else
      var next := if attrs[0].1.Some? then ApplyAttr(it, attrs[0].0, attrs[0].1.value) else it;
      MentionsTail(attrs);
      ElemAttr(next, attrs[1..])
  }

  /** A key the first pair or a later one mentions is mentioned by the whole list. */
  lemma MentionsTail(attrs: seq<Attr>)
    requires |attrs| > 0
    ensures forall keys :: Mentions(attrs[1..], keys) || (attrs[0].0 in keys && attrs[0].1.Some?) ==> Mentions(attrs, keys)
  {
    forall keys | Mentions(attrs[1..], keys) || (attrs[0].0 in keys && attrs[0].1.Some?)
      ensures Mentions(attrs, keys)
    {
      if !(attrs[0].0 in keys && attrs[0].1.Some?) {
        var i :| 0 <= i < |attrs[1..]| && attrs[1..][i].0 in keys && attrs[1..][i].1.Some?;
        assert attrs[i + 1] == attrs[1..][i];
      }
    }
  }

  /** Applying pairs in two batches is applying them all in order. */
  lemma {:induction false} ElemAttrAppend(it: Item, a: seq<Attr>, b: seq<Attr>)
    ensures ElemAttr(it, a + b) == ElemAttr(ElemAttr(it, a), b)
    decreases |a|
  {
    if |a| == 0 {
      assert a + b == b;
    } else {
      assert (a + b)[0] == a[0] && (a + b)[1..] == a[1..] + b;
      var next := if a[0].1.Some? then ApplyAttr(it, a[0].0, a[0].1.value) else it;
      ElemAttrAppend(next, a[1..], b);
    }
  }

  /** The last `code` and `reps` pairs decide those fields. */
  lemma LastAttributeWins(it: Item, attrs: seq<Attr>, v: string)
    ensures ElemAttr(it, attrs + [("code", Some(v))]).code == Dup(v)
    ensures ElemAttr(it, attrs + [("reps", Some(v))]).reps == ToU32(CText.Atoi(v))
  {
    var prior := ElemAttr(it, attrs);
    ElemAttrAppend(it, attrs, [("code", Some(v))]);
    ElemAttrSingle(prior, "code", v);
    ElemAttrAppend(it, attrs, [("reps", Some(v))]);
    ElemAttrSingle(prior, "reps", v);
  }

  lemma ElemAttrSingle(it: Item, key: string, v: string)
    ensures ElemAttr(it, [(key, Some(v))]) == ApplyAttr(it, key, v)
  {
    var a: seq<Attr> := [(key, Some(v))];
    assert a[1..] == [];
  }

  /** The item an opening tag creates: zeroed, given its attributes, and marked as a loop for `loop`. */
  function NewItem(k: Tag, attrs: seq<Attr>): (it: Item)
    ensures k == TLoop ==> it.itemType == 1
    ensures k != TLoop ==> it == ElemAttr(NullItem, attrs)
  {
    var base := ElemAttr(NullItem, attrs);
    if k == TLoop then base.(itemType := 1) else base
  }

  /** Appending a node to the list of item `p`, if there is one (a NULL `current` drops it). */
  function AddChild(items: seq<GItem>, p: Option<nat>, link: Adt.Entry<string, nat>): (r: seq<GItem>)
    ensures |r| == |items|
    ensures forall i :: 0 <= i < |items| ==> r[i].item == items[i].item
    ensures forall i :: 0 <= i < |items| && p != Some(i) ==> r[i] == items[i]
    ensures p.Some? && p.value < |items| ==> r[p.value].list == Adt.PushKey(items[p.value].list, link.key, link.data)
  {
    if p.Some? && p.value < |items| then
      items[p.value := items[p.value].(list := Adt.PushKey(items[p.value].list, link.key, link.data))]
    else items
  }

  lemma LinksInPush(l: Links, k: Option<string>, d: nat, n: nat)
    requires LinksIn(l, n) && d < n
    ensures LinksIn(Adt.PushKey(l, k, Some(d)), n)
  {
  }

  lemma LinksInGrow(l: Links, n: nat, m: nat)
    requires LinksIn(l, n) && n <= m
    ensures LinksIn(l, m)
  {
  }

  /**
   * `edi_giovanni_start`: an unknown tag changes nothing.  Any other tag
   * appends a new item to the arena and registers it: segments,
   * composites, elements and transactions in their finder lists,
   * components, element and segment references, code values and loops
   * under the current item.  Transactions and loops are opened and
   * become current; a codelist makes its element current.
   */
  function StartElement(t: Tsg, el: Option<string>, attrs: seq<Attr>): (r: Tsg)
    requires ArenaOk(t)
    ensures ArenaOk(r)
    ensures r.stack == t.stack && r.transaction == t.transaction
    ensures ElemType(el) == TUnknown ==> r == t
    ensures ElemType(el) != TUnknown ==>
      && |r.items| == |t.items| + 1
      && r.items[|t.items|] == GItem(NewItem(ElemType(el), attrs), [])
      && forall i :: 0 <= i < |t.items| ==> r.items[i].item == t.items[i].item
  {
    var k := ElemType(el);
    if k == TUnknown then t
    else
      var it := NewItem(k, attrs);
      var u := Grown(t, it);
      var r := Place(u, k, it, |t.items|);
      assert forall i :: 0 <= i < |t.items| ==> r.items[i].item == u.items[i].item == t.items[i].item;
      r
  }

  /** The arena with one more item, childless, at its end; every link stays in range. */
  function Grown(t: Tsg, it: Item): (u: Tsg)
    requires ArenaOk(t)
    ensures ArenaOk(u) && u == t.(items := u.items)
    ensures |u.items| == |t.items| + 1 && u.items[|t.items|] == GItem(it, [])
    ensures forall i :: 0 <= i < |t.items| ==> u.items[i] == t.items[i]
  {
    var items := t.items + [GItem(it, [])];
    assert forall i :: 0 <= i < |t.items| ==> items[i] == t.items[i];
    forall i | 0 <= i < |items|
      ensures LinksIn(items[i].list, |items|)
    {
      if i < |t.items| {
        LinksInGrow(t.items[i].list, |t.items|, |items|);
      }
    }
    LinksInGrow(t.segments, |t.items|, |items|);
    LinksInGrow(t.composites, |t.items|, |items|);
    LinksInGrow(t.elements, |t.items|, |items|);
    LinksInGrow(t.transactions, |t.items|, |items|);
    t.(items := items)
  }

  /** The new item `id` registered as its tag says: listed, made current, opened or added as a child. */
  function Place(u: Tsg, k: Tag, it: Item, id: nat): (r: Tsg)
    requires ArenaOk(u) && k != TUnknown && id < |u.items|
    requires u.current.Some? ==> u.current.value != id
    ensures ArenaOk(r)
    ensures r.stack == u.stack && r.transaction == u.transaction
    ensures |r.items| == |u.items| && forall i :: 0 <= i < |u.items| ==> r.items[i].item == u.items[i].item
    ensures r.items[id] == u.items[id]
    ensures k == TTransaction || k == TLoop ==> r.open == u.open + [id] && r.current == Some(id)
  {
    var items := u.items;
    match k
    case TSegment =>
      LinksInPush(u.segments, it.code, id, |items|);
      u.(segments := Adt.PushKey(u.segments, it.code, Some(id)), current := Some(id))
    case TComposite =>
      LinksInPush(u.composites, it.code, id, |items|);
      u.(composites := Adt.PushKey(u.composites, it.code, Some(id)), current := Some(id))
    case TElement =>
      LinksInPush(u.elements, it.code, id, |items|);
      u.(elements := Adt.PushKey(u.elements, it.code, Some(id)), current := Some(id))
    case TTransaction =>
      LinksInPush(u.transactions, it.code, id, |items|);
      u.(transactions := Adt.PushKey(u.transactions, it.code, Some(id)),
         open := u.open + [id], current := Some(id))
    case TCodelist =>
      assert FindElement(u, it.code).Some? ==> FindElement(u, it.code).value < |items|;
      u.(current := FindElement(u, it.code))
    case TLoop =>
      var v := u.(items := AddChild(items, u.current, Adt.Entry(it.code, Some(id))),
                  open := u.open + [id], current := Some(id));
      ChildAdded(items, u.current, it.code, id);
      v
    case TValue | TElemref | TSegref | TComponent =>
      ChildAdded(items, u.current, it.code, id);
      u.(items := AddChild(items, u.current, Adt.Entry(it.code, Some(id))))
  }

  lemma ChildAdded(items: seq<GItem>, p: Option<nat>, code: Option<string>, id: nat)
    requires ItemsOk(items) && id < |items|
    ensures ItemsOk(AddChild(items, p, Adt.Entry(code, Some(id))))
  {
    var r := AddChild(items, p, Adt.Entry(code, Some(id)));
    if p.Some? && p.value < |items| {
      LinksInPush(items[p.value].list, code, id, |items|);
    }
  }

  /**
   * `edi_giovanni_end`: closing a transaction or loop pops the open
   * stack and makes its new top current (NULL when none is left); any
   * other tag changes nothing.
   */
  function EndElement(t: Tsg, el: Option<string>): (r: Tsg)
    requires ArenaOk(t)
    ensures ArenaOk(r)
    ensures ElemType(el) != TTransaction && ElemType(el) != TLoop ==> r == t
    ensures ElemType(el) == TTransaction || ElemType(el) == TLoop ==>
      && r == t.(open := r.open, current := r.current)
      && r.open == (if |t.open| == 0 then [] else t.open[..|t.open| - 1])
      && r.current == (if |r.open| == 0 then None else Some(r.open[|r.open| - 1]))
  {
    var k := ElemType(el);
    if k == TTransaction || k == TLoop then
      var open := if |t.open| == 0 then [] else t.open[..|t.open| - 1];
      t.(open := open, current := if |open| == 0 then None else Some(open[|open| - 1]))
    else t
  }

  /**
   * A transaction or loop opened and then closed leaves the open stack as
   * it was, with its top (the enclosing transaction or loop) current.
   */
  lemma OpenThenClose(t: Tsg, k: Tag, attrs: seq<Attr>)
    requires ArenaOk(t) && (k == TTransaction || k == TLoop)
    ensures var r := EndElement(StartElement(t, Some(TagName(k)), attrs), Some(TagName(k)));
      r.open == t.open && r.current == (if |t.open| == 0 then None else Some(t.open[|t.open| - 1]))
  {
    ElemTypeOfName(k);
    var it := NewItem(k, attrs);
    var s := StartElement(t, Some(TagName(k)), attrs);
    assert s == Place(Grown(t, it), k, it, |t.items|);
    assert s.open == t.open + [|t.items|];
    assert s.open[..|s.open| - 1] == t.open;
  }

  /** A new loop becomes the last child of the item that was current, and is a loop whatever its attributes say. */
  lemma LoopUnderCurrent(t: Tsg, attrs: seq<Attr>)
    requires ArenaOk(t) && t.current.Some?
    ensures var r := StartElement(t, Some("loop"), attrs);
      && r.items[|t.items|].item.itemType == 1
      && r.items[t.current.value].list
           == Adt.PushKey(t.items[t.current.value].list, NewItem(TLoop, attrs).code, Some(|t.items|))
  {
  }

  /**
   * Registering an element never shadows an earlier one: lookups of a
   * code registered before are unchanged, and the new element is found
   * by its code only when no earlier entry carries it.
   */
  lemma FirstRegistrationWins(t: Tsg, attrs: seq<Attr>, code: Option<string>)
    requires ArenaOk(t)
    ensures var r := StartElement(t, Some("element"), attrs);
      FindElement(r, code)
        == if Adt.FindIndex(t.elements, code, KeyCmp).Some? then FindElement(t, code)
           else if code.Some? && ElemAttr(NullItem, attrs).code == code then Some(|t.items|)
           else None
  {
    var it := NewItem(TElement, attrs);
    var r := StartElement(t, Some("element"), attrs);
    ElementRegistered(t, attrs);
    if code.Some? {
      assert FindElement(r, code) == Adt.Find(Adt.PushKey(t.elements, it.code, Some(|t.items|)), code, KeyCmp);
      Adt.FindAfterPush(t.elements, it.code, Some(|t.items|), code, KeyCmp);
    }
  }

  /** A new element is pushed, under its code, onto the element list. */
  lemma ElementRegistered(t: Tsg, attrs: seq<Attr>)
    requires ArenaOk(t)
    ensures StartElement(t, Some("element"), attrs).elements
      == Adt.PushKey(t.elements, NewItem(TElement, attrs).code, Some(|t.items|))
  {
    ElemTypeOfName(TElement);
  }
}
