/**
 * The directory interface (src/drctry.c): null-safe dispatch over the two
 * directory kinds, with fixed defaults for a NULL directory or a method
 * the kind does not provide, plus the lookups built on top of it.
 *
 * A TSG directory (src/giovanni.c) provides every method but the
 * requirement, composite-test and segment-type lookups; a table
 * directory (src/frncsc.c) provides no note lookups, no code-list
 * description or note, and no `parse`.
 */
module Directory {
  import opened Wrappers
  import opened Common
  import Params
  import Giovanni
  import Francesco
  import Segments

  /** `edi_directory_t`, by the kind of its implementation. */
  datatype Dir = TsgDir(tsg: Giovanni.Tsg) | TableDir(tables: Francesco.Francesco)

  /** The state each kind's methods expect. */
  predicate Valid(d: Option<Dir>) {
    d.Some? ==> match d.value
      case TsgDir(t) => Giovanni.Ready(t)
      case TableDir(f) => Francesco.Ready(f)
  }

  // ---------------------------------------------------------------------
  // Description lookups
  // ---------------------------------------------------------------------

  datatype Entity = ElementEntity | SegmentEntity | CompositeEntity
  datatype Field = NameField | DescField | NoteField

  function Pick(it: Item, f: Field): Option<string> {
    match f
    case NameField => it.name
    case DescField => it.desc
    case NoteField => it.note
  }

  /** The TSG finder for an entity kind. */
  function TsgFind(t: Giovanni.Tsg, e: Entity, ref: Option<string>): (r: Option<nat>)
    ensures ref.None? ==> r.None?
  {
    match e
    case ElementEntity => Giovanni.FindElement(t, ref)
    case SegmentEntity => Giovanni.FindSegment(t, ref)
    case CompositeEntity => Giovanni.FindComposite(t, ref)
  }

  /** The table holding an entity kind's descriptions, with its row as an `Info`. */
  function TableRows(t: Francesco.Tables, e: Entity): seq<Francesco.Info> {
    match e
    case ElementEntity => seq(|t.elements|, (i: nat) requires i < |t.elements| =>
                            Francesco.Info(t.elements[i].code, t.elements[i].name, t.elements[i].desc))
    case SegmentEntity => t.segments
    case CompositeEntity => t.composites
  }

  /**
   * `edi_directory_{element,segment,composite}_{name,desc,note}`: NULL for
   * a NULL directory or a kind without the method; otherwise the field of
   * the entity registered under `ref`.  A table directory has no notes.
   */
  function Describe(d: Option<Dir>, e: Entity, f: Field, ref: Option<string>): (r: Option<string>)
    ensures d.None? || ref.None? ==> r.None?
    ensures d.Some? && d.value.TableDir? && f == NoteField ==> r.None?
    ensures d.Some? && d.value.TsgDir? ==>
      var t := d.value.tsg;
      r == (if Giovanni.ItemAt(t, TsgFind(t, e, ref)).Some? then Pick(Giovanni.ItemAt(t, TsgFind(t, e, ref)).value, f) else None)
    ensures d.Some? && d.value.TableDir? && f != NoteField ==>
      var rows := TableRows(d.value.tables.tables, e);
      var k := Francesco.FindInfo(rows, ref);
      r == (if k.Some? then (if f == NameField then rows[k.value].name else rows[k.value].desc) else None)
  {
    if d.None? then None
    else match d.value
      case TsgDir(t) =>
        var it := Giovanni.ItemAt(t, TsgFind(t, e, ref));
        if it.Some? then Pick(it.value, f) else None
      case TableDir(fr) =>
        if f == NoteField then None
        else
          var rows := TableRows(fr.tables, e);
          match Francesco.FindInfo(rows, ref)
          case None => None
          case Some(k) => if f == NameField then rows[k].name else rows[k].desc
  }

  /** The element lookups of a table directory read the element table itself. */
  lemma TableElementLookup(fr: Francesco.Francesco, ref: Option<string>)
    ensures Describe(Some(TableDir(fr)), ElementEntity, NameField, ref) == Francesco.ElementName(fr.tables, ref)
    ensures Describe(Some(TableDir(fr)), ElementEntity, DescField, ref) == Francesco.ElementDesc(fr.tables, ref)
  {
    var t := fr.tables;
    var rows := TableRows(t, ElementEntity);
    assert forall i :: 0 <= i < |rows| ==> rows[i].code == t.elements[i].code;
  }

  /**
   * `edi_directory_codelist_{name,desc,note}`: the field of the value's
   * entry in the element's code list; a table directory knows only names.
   */
  function Codelist(d: Option<Dir>, f: Field, element: Option<string>, value: Option<string>): (r: Option<string>)
    requires Valid(d)
    ensures d.None? ==> r.None?
    ensures d.Some? && d.value.TableDir? ==>
      r == (if f == NameField then Francesco.CodelistName(d.value.tables.tables, element, value) else None)
    ensures d.Some? && d.value.TsgDir? ==>
      var t := d.value.tsg;
      var k := Giovanni.FindCodelist(t, element, value);
      r == (if k.Some? then Pick(t.items[k.value].item, f) else None)
  {
    if d.None? then None
    else match d.value
      case TsgDir(t) =>
        var it := Giovanni.ItemAt(t, Giovanni.FindCodelist(t, element, value));
        if it.Some? then Pick(it.value, f) else None
      case TableDir(fr) =>
        if f == NameField then Francesco.CodelistName(fr.tables, element, value) else None
  }

  /** `edi_directory_codelist_value`: NULL when any argument is NULL, otherwise the code-list name. */
  function CodelistValue(d: Option<Dir>, element: Option<string>, value: Option<string>): (r: Option<string>)
    requires Valid(d)
    ensures d.None? || element.None? || value.None? ==> r.None?
    ensures d.Some? && element.Some? && value.Some? ==> r == Codelist(d, NameField, element, value)
  {
    if d.None? || element.None? || value.None? then None
    else Codelist(d, NameField, element, value)
  }

  /** A NULL element or value names no code-list entry in either kind of directory. */
  lemma CodelistNeedsBoth(d: Option<Dir>, f: Field, element: Option<string>, value: Option<string>)
    requires Valid(d) && (element.None? || value.None?)
    ensures Codelist(d, f, element, value).None?
  {
    if d.Some? && d.value.TsgDir? {
      var t := d.value.tsg;
      if element.Some? {
        assert Giovanni.FindCodelist(t, element, value).None?;
      }
    }
  }

  // ---------------------------------------------------------------------
  // Item lookups
  // ---------------------------------------------------------------------

  /**
   * A NULL code reaches a table directory's size and requirement methods
   * only when its table is empty: with rows, `strcmp` would read through
   * NULL.
   */
  predicate SizeDefined(d: Option<Dir>, code: Option<string>) {
    code.None? && d.Some? && d.value.TableDir? ==>
      |d.value.tables.tables.segmentList| == 0 && |d.value.tables.tables.compositeList| == 0
  }

  /** `edi_directory_segment_size`: 0 for a NULL directory or an unknown segment. */
  function SegmentSize(d: Option<Dir>, code: Option<string>): (n: nat)
    requires Valid(d) && SizeDefined(d, code)
    ensures d.None? ==> n == 0
    ensures d.Some? && d.value.TsgDir? ==> n == Giovanni.SegmentSize(d.value.tsg, code)
    ensures d.Some? && d.value.TableDir? && code.Some? ==> n == Francesco.SegmentSize(d.value.tables.tables, code.value)
    ensures d.Some? && d.value.TableDir? && code.None? ==> n == 0
  {
    if d.None? then 0
    else match d.value
      case TsgDir(t) => Giovanni.SegmentSize(t, code)
      case TableDir(fr) => if code.Some? then Francesco.SegmentSize(fr.tables, code.value) else 0
  }

  /** `edi_directory_composite_size`: 0 for a NULL directory or an unknown composite. */
  function CompositeSize(d: Option<Dir>, code: Option<string>): (n: nat)
    requires Valid(d) && SizeDefined(d, code)
    ensures d.None? ==> n == 0
    ensures d.Some? && d.value.TsgDir? ==> n == Giovanni.CompositeSize(d.value.tsg, code)
    ensures d.Some? && d.value.TableDir? && code.Some? ==> n == Francesco.CompositeSize(d.value.tables.tables, code.value)
    ensures d.Some? && d.value.TableDir? && code.None? ==> n == 0
  {
    if d.None? then 0
    else match d.value
      case TsgDir(t) => Giovanni.CompositeSize(t, code)
      case TableDir(fr) => if code.Some? then Francesco.CompositeSize(fr.tables, code.value) else 0
  }

  /** A table directory's item `i` exists or is the terminating row: reading further is undefined. */
  predicate SegmentItemDefined(d: Option<Dir>, code: Option<string>, i: nat) {
    d.Some? && d.value.TableDir? && code.Some? ==>
      Francesco.FirstOwned(d.value.tables.tables.segmentList, code.value) + i <= |d.value.tables.tables.segmentList|
  }

  predicate CompositeItemDefined(d: Option<Dir>, code: Option<string>, i: nat) {
    d.Some? && d.value.TableDir? && code.Some? ==>
      Francesco.FirstOwned(d.value.tables.tables.compositeList, code.value) + i <= |d.value.tables.tables.compositeList|
  }

  /** `edi_directory_segment_item`: the null item for a NULL directory or code. */
  function SegmentItem(d: Option<Dir>, code: Option<string>, i: nat): (r: Item)
    requires Valid(d) && SegmentItemDefined(d, code, i)
    ensures d.None? || code.None? ==> r == NullItem
    ensures d.Some? && code.Some? && d.value.TsgDir? ==> r == Giovanni.SegmentItem(d.value.tsg, code, i)
    ensures d.Some? && code.Some? && d.value.TableDir? ==> r == Francesco.SegmentItem(d.value.tables.tables, code.value, i)
  {
    if d.None? || code.None? then NullItem
    else match d.value
      case TsgDir(t) => Giovanni.SegmentItem(t, code, i)
      case TableDir(fr) => Francesco.SegmentItem(fr.tables, code.value, i)
  }

  /** `edi_directory_composite_item`: the null item for a NULL directory or code. */
  function CompositeItem(d: Option<Dir>, code: Option<string>, i: nat): (r: Item)
    requires Valid(d) && CompositeItemDefined(d, code, i)
    ensures d.None? || code.None? ==> r == NullItem
    ensures d.Some? && code.Some? && d.value.TsgDir? ==> r == Giovanni.CompositeItem(d.value.tsg, code, i)
    ensures d.Some? && code.Some? && d.value.TableDir? ==> r == Francesco.CompositeItem(d.value.tables.tables, code.value, i)
  {
    if d.None? || code.None? then NullItem
    else match d.value
      case TsgDir(t) => Giovanni.CompositeItem(t, code, i)
      case TableDir(fr) => Francesco.CompositeItem(fr.tables, code.value, i)
  }

  /** Every index below a segment's size may be read. */
  lemma ItemsBelowSizeDefined(d: Option<Dir>, code: Option<string>, i: nat)
    requires Valid(d) && SizeDefined(d, code)
    ensures i < SegmentSize(d, code) ==> SegmentItemDefined(d, code, i)
    ensures i < CompositeSize(d, code) ==> CompositeItemDefined(d, code, i)
  {
    if d.Some? && d.value.TableDir? && code.Some? {
      Francesco.ItemsFit(d.value.tables.tables.segmentList, code.value);
      Francesco.ItemsFit(d.value.tables.tables.compositeList, code.value);
    }
  }

  /** `edi_directory_element_repr`: the null item for a NULL directory or code. */
  function ElementRepr(d: Option<Dir>, code: Option<string>): (r: Item)
    ensures d.None? || code.None? ==> r == NullItem
    ensures d.Some? && d.value.TsgDir? ==> r == Giovanni.ElementRepr(d.value.tsg, code)
    ensures d.Some? && d.value.TableDir? ==> r == Francesco.ElementRepr(d.value.tables.tables, code)
  {
    if d.None? || code.None? then NullItem
    else match d.value
      case TsgDir(t) => Giovanni.ElementRepr(t, code)
      case TableDir(fr) => Francesco.ElementRepr(fr.tables, code)
  }

  /** `edi_directory_segment_reqr`: 'C' unless a table directory records a requirement. */
  function SegmentReqr(d: Option<Dir>, segment: string, ref: string): (c: char)
    ensures d.None? || d.value.TsgDir? ==> c == 'C'
    ensures d.Some? && d.value.TableDir? ==> c == Francesco.ContentReqr(d.value.tables.tables.segmentList, segment, ref)
  {
    if d.Some? && d.value.TableDir? then Francesco.ContentReqr(d.value.tables.tables.segmentList, segment, ref) else 'C'
  }

  /** `edi_directory_composite_reqr`: 'C' unless a table directory records a requirement. */
  function CompositeReqr(d: Option<Dir>, composite: string, ref: string): (c: char)
    ensures d.None? || d.value.TsgDir? ==> c == 'C'
    ensures d.Some? && d.value.TableDir? ==> c == Francesco.ContentReqr(d.value.tables.tables.compositeList, composite, ref)
  {
    if d.Some? && d.value.TableDir? then Francesco.ContentReqr(d.value.tables.tables.compositeList, composite, ref) else 'C'
  }

  /** `edi_directory_is_composite`: 1 only for a composite row of a table directory. */
  function IsComposite(d: Option<Dir>, segment: string, ref: string): (b: int)
    ensures b == 0 || b == 1
    ensures b == 1 <==> (d.Some? && d.value.TableDir?
      && Francesco.FindContent(d.value.tables.tables.segmentList, segment, ref).Some?
      && d.value.tables.tables.segmentList[Francesco.FindContent(d.value.tables.tables.segmentList, segment, ref).value].rowType
         == Francesco.CompositeType)
  {
    if d.Some? && d.value.TableDir? && Francesco.IsComposite(d.value.tables.tables, segment, ref) then 1 else 0
  }

  // ---------------------------------------------------------------------
  // Element references "SEG/ELEMENT/SUBELEMENT"
  // ---------------------------------------------------------------------

  /** The size of the key buffer of `edi_directory_element_index`. */
  const KeyBuffer: nat := 256

  /** The first position of `c` in `s`. */
  function IndexOf(s: string, c: char): (r: Option<nat>)
    ensures r.Some? ==> r.value < |s| && s[r.value] == c && c !in s[..r.value]
    ensures r.None? ==> c !in s
  {
    if |s| == 0 then None
    else if s[0] == c then Some(0)
    else match IndexOf(s[1..], c)
      case None => None
      case Some(i) =>
        assert s[..i + 1] == [s[0]] + s[1..][..i];
        Some(i + 1)
  }

  /** The text after the last `c` of `s`, or all of `s`. */
  function AfterLast(s: string, c: char): (r: string)
    ensures |r| <= |s| && c !in r
    ensures c in s ==> |r| < |s| && s[|s| - |r| - 1] == c
    ensures s[|s| - |r|..] == r
  {
    match IndexOf(s, c)
    case None => s
    case Some(i) =>
      var rest := AfterLast(s[i + 1..], c);
      assert s[i + 1..][|s[i + 1..]| - |rest|..] == s[|s| - |rest|..];
      rest
  }

  /** A key cut at '/': segment code, element, and (at the second '/' or later) subelement. */
  datatype Key = Key(segment: string, element: Option<string>, subelement: Option<string>)

  /**
   * The split of `edi_directory_element_index`: the key is cut to 255
   * characters and every '/' becomes a terminator.  The first one starts
   * the element, and each later one starts the subelement again, so the
   * subelement is the text after the last '/'.
   */
  function SplitKey(key: string): (k: Key)
    ensures '/' !in k.segment
    ensures k.element.Some? ==> '/' !in k.element.value
    ensures k.subelement.Some? ==> k.element.Some? && '/' !in k.subelement.value
  {
    var code := if |key| < KeyBuffer then key else key[..KeyBuffer - 1];
    match IndexOf(code, '/')
    case None => Key(code, None, None)
    case Some(i) =>
      var rest := code[i + 1..];
      match IndexOf(rest, '/')
      case None => Key(code[..i], Some(rest), None)
      case Some(j) => Key(code[..i], Some(rest[..j]), Some(AfterLast(rest[j + 1..], '/')))
  }

  /** Joining parts with '/' and splitting again gives the parts back, for a key that fits the buffer. */
  lemma SplitJoin(segment: string, element: Option<string>, subelement: Option<string>)
    requires '/' !in segment
    requires element.Some? ==> '/' !in element.value
    requires subelement.Some? ==> element.Some? && '/' !in subelement.value
    requires |segment| + |element.GetOr("")| + |subelement.GetOr("")| + 2 < KeyBuffer
    ensures var key := segment + (if element.Some? then "/" + element.value else "")
                               + (if subelement.Some? then "/" + subelement.value else "");
      SplitKey(key) == Key(segment, element, subelement)
  {
    if element.None? {
      assert segment + "" + "" == segment;
      SplitOne(segment);
    } else if subelement.None? {
      assert segment + ("/" + element.value) + "" == segment + "/" + element.value;
      SplitTwo(segment, element.value);
    } else {
      assert segment + ("/" + element.value) + ("/" + subelement.value) == segment + "/" + element.value + "/" + subelement.value;
      SplitThree(segment, element.value, subelement.value);
    }
  }

  lemma SplitOne(segment: string)
    requires '/' !in segment && |segment| < KeyBuffer
    ensures SplitKey(segment) == Key(segment, None, None)
  {
    NoSlashIndex(segment, segment);
  }

  lemma SplitTwo(segment: string, element: string)
    requires '/' !in segment && '/' !in element && |segment| + |element| + 1 < KeyBuffer
    ensures SplitKey(segment + "/" + element) == Key(segment, Some(element), None)
  {
    var key := segment + "/" + element;
    NoSlashIndex(segment, key);
    var rest := key[|segment| + 1..];
    assert rest == element;
    NoSlashIndex(element, rest);
    assert key[..|segment|] == segment;
  }

  lemma SplitThree(segment: string, element: string, subelement: string)
    requires '/' !in segment && '/' !in element && '/' !in subelement
    requires |segment| + |element| + |subelement| + 2 < KeyBuffer
    ensures SplitKey(segment + "/" + element + "/" + subelement) == Key(segment, Some(element), Some(subelement))
  {
    var key := segment + "/" + element + "/" + subelement;
    NoSlashIndex(segment, key);
    var rest := key[|segment| + 1..];
    assert rest == element + "/" + subelement;
    NoSlashIndex(element, rest);
    var tail := rest[|element| + 1..];
    assert tail == subelement;
    assert IndexOf(tail, '/').None?;
    assert rest[..|element|] == element;
    assert key[..|segment|] == segment;
  }

  /** A slash-free prefix followed by '/' (or nothing) puts the first '/' right after it. */
  lemma NoSlashIndex(prefix: string, s: string)
    requires '/' !in prefix && prefix <= s
    requires |s| > |prefix| ==> s[|prefix|] == '/'
    ensures |s| > |prefix| ==> IndexOf(s, '/') == Some(|prefix|)
    ensures |s| == |prefix| ==> IndexOf(s, '/').None?
  {
  }

  /**
   * `edi_directory_element_index`: the outcome of the directory's
   * `element_indx` on the parts of the key.  The directory must not be
   * NULL.  A table directory compares the element even when the key has
   * none, which is defined only for a segment without rows.
   */
  function ElementIndex(d: Dir, key: string): (r: Giovanni.Index)
    requires Valid(Some(d))
    requires d.TableDir? && SplitKey(key).element.None? ==>
      Francesco.SegmentSize(d.tables.tables, SplitKey(key).segment) == 0
    ensures var k := SplitKey(key);
      && (d.TsgDir? ==> r == Giovanni.ElementIndex(d.tsg, Some(k.segment), k.element, k.subelement))
      && (d.TableDir? ==>
            var i := Francesco.ElementIndex(d.tables.tables, k.segment, k.element.GetOr(""), k.subelement);
            r == Giovanni.Index(i.found, i.x, i.y))
  {
    var k := SplitKey(key);
    match d
    case TsgDir(t) => Giovanni.ElementIndex(t, Some(k.segment), k.element, k.subelement)
    case TableDir(fr) =>
      var i := Francesco.ElementIndex(fr.tables, k.segment, k.element.GetOr(""), k.subelement);
      Giovanni.Index(i.found, i.x, i.y)
  }

  /** A key without '/' names no element: a TSG directory fails on it. */
  lemma BareKeyFails(t: Giovanni.Tsg, key: string)
    requires Giovanni.Ready(t) && '/' !in key
    ensures ElementIndex(TsgDir(t), key).found == 0
  {
    assert SplitKey(key).element.None? by {
      var code := if |key| < KeyBuffer then key else key[..KeyBuffer - 1];
      assert forall j :: 0 <= j < |code| ==> code[j] == key[j];
    }
  }

  // ---------------------------------------------------------------------
  // Name-based and positional element lookup
  // ---------------------------------------------------------------------

  /** The first position below `size` whose item code is `target`. */
  function FirstItem(codes: nat -> Option<string>, target: string, size: nat): (r: Option<nat>)
    ensures r.Some? ==> r.value < size && codes(r.value) == Some(target)
    ensures r.Some? ==> forall j :: 0 <= j < r.value ==> codes(j) != Some(target)
    ensures r.None? ==> forall j :: 0 <= j < size ==> codes(j) != Some(target)
  {
    Giovanni.FirstCode(codes, target, 0, size)
  }

  /** The position of the first item of segment `tag` with code `element`. */
  function ElementPosition(d: Option<Dir>, tag: string, element: string): (r: Option<nat>)
    requires Valid(d) && SizeDefined(d, Some(tag))
    ensures r.Some? ==> r.value < SegmentSize(d, Some(tag))
    ensures r.Some? ==> SegmentItemDefined(d, Some(tag), r.value) && SegmentItem(d, Some(tag), r.value).code == Some(element)
    ensures r.None? ==> forall j :: 0 <= j < SegmentSize(d, Some(tag)) ==>
      SegmentItemDefined(d, Some(tag), j) && SegmentItem(d, Some(tag), j).code != Some(element)
  {
    var size := SegmentSize(d, Some(tag));
    forall j | 0 <= j < size ensures SegmentItemDefined(d, Some(tag), j) {
      ItemsBelowSizeDefined(d, Some(tag), j);
    }
    var codes := (j: nat) => if j < size then SegmentItem(d, Some(tag), j).code else None;
    assert forall j: nat :: j < size ==> codes(j) == SegmentItem(d, Some(tag), j).code;
    FirstItem(codes, element, size)
  }

  /** The position of the first component of composite `element` with code `sub`. */
  function ComponentPosition(d: Option<Dir>, element: string, sub: string): (r: Option<nat>)
    requires Valid(d) && SizeDefined(d, Some(element))
    ensures r.Some? ==> r.value < CompositeSize(d, Some(element))
    ensures r.Some? ==> (CompositeItemDefined(d, Some(element), r.value)
      && CompositeItem(d, Some(element), r.value).code == Some(sub))
    ensures r.None? ==> forall j :: 0 <= j < CompositeSize(d, Some(element)) ==>
      CompositeItemDefined(d, Some(element), j) && CompositeItem(d, Some(element), j).code != Some(sub)
  {
    var size := CompositeSize(d, Some(element));
    forall j | 0 <= j < size ensures CompositeItemDefined(d, Some(element), j) {
      ItemsBelowSizeDefined(d, Some(element), j);
    }
    var codes := (j: nat) => if j < size then CompositeItem(d, Some(element), j).code else None;
    assert forall j: nat :: j < size ==> codes(j) == CompositeItem(d, Some(element), j).code;
    FirstItem(codes, sub, size)
  }

  /**
   * What `edi_get_element_by_name` needs of its inputs: the positions it
   * reads lie inside the 32 by 32 grid, and a composite is searched only
   * with a subelement to compare against.
   */
  predicate ByNameDefined(d: Option<Dir>, tag: string, element: string, subelement: Option<string>)
    requires Valid(d)
  {
    && SizeDefined(d, Some(tag)) && SizeDefined(d, Some(element))
    && (ElementPosition(d, tag, element).Some? ==>
          var e := ElementPosition(d, tag, element).value;
          && e < Segments.NElems
          && (SegmentItem(d, Some(tag), e).itemType != 0 && CompositeSize(d, Some(element)) > 0 ==>
                && subelement.Some?
                && (ComponentPosition(d, element, subelement.value).Some? ==>
                      ComponentPosition(d, element, subelement.value).value < Segments.NElems)))
  }

  /**
   * `edi_get_element_by_name`: locate the element among the segment's
   * items by code; a simple element is cell (e, 0), whatever the
   * subelement; a composite is cell (e, s) for its first component with
   * the subelement's code; anything not found is NULL.
   */
  function ElementByName(d: Option<Dir>, seg: Segments.Segment, element: string, subelement: Option<string>): (r: Option<string>)
    requires Valid(d) && ByNameDefined(d, seg.tag, element, subelement)
    ensures ElementPosition(d, seg.tag, element).None? ==> r.None?
    ensures ElementPosition(d, seg.tag, element).Some? ==>
      var e := ElementPosition(d, seg.tag, element).value;
      if SegmentItem(d, Some(seg.tag), e).itemType == 0 then r == Segments.GetElement(seg, e, 0)
      else if CompositeSize(d, Some(element)) == 0 then r.None?
      else match ComponentPosition(d, element, subelement.value)
        case None => r.None?
        case Some(s) => r == Segments.GetElement(seg, e, s)
  {
    var tag := seg.tag;
    if SegmentSize(d, Some(tag)) == 0 then None
    else match ElementPosition(d, tag, element)
      case None => None
      case Some(e) =>
        if SegmentItem(d, Some(tag), e).itemType == 0 then Segments.GetElement(seg, e, 0)
        else if CompositeSize(d, Some(element)) == 0 then None
        else match ComponentPosition(d, element, subelement.value)
          case None => None
          case Some(s) => Segments.GetElement(seg, e, s)
  }

  /**
   * `edi_directory_find_element`: the code of item `e` of the segment,
   * or for a composite the code of its component `se`; a simple element
   * asked for a non-zero subelement has none.
   */
  function FindElement(d: Option<Dir>, s: Option<string>, e: nat, se: nat): (r: Option<string>)
    requires Valid(d) && SegmentItemDefined(d, s, e)
    requires var it := SegmentItem(d, s, e); it.code.Some? && it.itemType != 0 ==> CompositeItemDefined(d, it.code, se)
    ensures var it := SegmentItem(d, s, e);
      && (it.code.None? ==> r.None?)
      && (it.code.Some? && it.itemType == 0 ==> r == (if se == 0 then it.code else None))
      && (it.code.Some? && it.itemType != 0 ==> r == CompositeItem(d, it.code, se).code)
  {
    var it := SegmentItem(d, s, e);
    if it.code.None? then None
    else if it.itemType != 0 then CompositeItem(d, it.code, se).code
    else if se != 0 then None
    else it.code
  }

  /** `edi_directory_find_composite`: the code of item `e` of the segment when it is a composite. */
  function FindComposite(d: Option<Dir>, s: Option<string>, e: nat): (r: Option<string>)
    requires Valid(d) && SegmentItemDefined(d, s, e)
    ensures r.Some? <==> SegmentItem(d, s, e).code.Some? && SegmentItem(d, s, e).itemType != 0
    ensures r.Some? ==> r == SegmentItem(d, s, e).code
  {
    var it := SegmentItem(d, s, e);
    if it.code.None? || it.itemType == 0 then None else it.code
  }

  /**
   * The name-based and positional lookups agree: the position the name
   * lookup settles on gives back the element's code, or the component's
   * for a composite.
   */
  lemma ByNameAgreesWithPosition(d: Option<Dir>, tag: string, element: string, subelement: Option<string>)
    requires Valid(d) && ByNameDefined(d, tag, element, subelement)
    requires ElementPosition(d, tag, element).Some?
    ensures var e := ElementPosition(d, tag, element).value;
      && SegmentItem(d, Some(tag), e).itemType == 0 ==> FindElement(d, Some(tag), e, 0) == Some(element)
    ensures var e := ElementPosition(d, tag, element).value;
      && SegmentItem(d, Some(tag), e).itemType != 0 ==> FindComposite(d, Some(tag), e) == Some(element)
    ensures var e := ElementPosition(d, tag, element).value;
      (SegmentItem(d, Some(tag), e).itemType != 0 && CompositeSize(d, Some(element)) > 0
       && ComponentPosition(d, element, subelement.value).Some?) ==>
        var s := ComponentPosition(d, element, subelement.value).value;
        CompositeItemDefined(d, Some(element), s)
        && FindElement(d, Some(tag), e, s) == subelement
  {
  }

  // ---------------------------------------------------------------------
  // Transactions
  // ---------------------------------------------------------------------

  /**
   * `edi_directory_start`: ENONE for a NULL directory; otherwise the
   * result of the directory's own `start`.  A table directory copies a
   * name it knows into a 16-byte buffer.
   */
  function Start(d: Option<Dir>, transaction: Option<string>): (r: (Option<Dir>, Error))
    requires Valid(d)
    requires (d.Some? && d.value.TableDir? && transaction.Some?
       && Francesco.FirstRule(d.value.tables.tables.rules, transaction, None).Some?)
      ==> |transaction.value| <= Francesco.TransactionCapacity
    ensures Valid(r.0) && (d.None? <==> r.0.None?)
    ensures d.None? ==> r.1 == ENONE
    ensures d.Some? && d.value.TsgDir? ==>
      var s := Giovanni.StartTransaction(d.value.tsg, transaction);
      r == (Some(TsgDir(s.tsg)), s.error)
    ensures d.Some? && d.value.TableDir? ==>
      var s := Francesco.StartTransaction(d.value.tables, transaction);
      r == (Some(TableDir(s.fr)), s.error)
  {
    if d.None? then (d, ENONE)
    else match d.value
      case TsgDir(t) =>
        var s := Giovanni.StartTransaction(t, transaction);
        (Some(TsgDir(s.tsg)), s.error)
      case TableDir(fr) =>
        var s := Francesco.StartTransaction(fr, transaction);
        (Some(TableDir(s.fr)), s.error)
  }

  /** A callback `edi_directory_parse` brings about. */
  datatype DEvent =
    | Matched(e: Giovanni.GEvent)   // made by the directory's `parse`
    | Unparsed                      // segment(userdata, NULL, self): no `parse` method

  function Lift(ev: seq<Giovanni.GEvent>): (r: seq<DEvent>)
    ensures |r| == |ev| && forall i :: 0 <= i < |ev| ==> r[i] == Matched(ev[i])
  {
    seq(|ev|, (i: nat) requires i < |ev| => Matched(ev[i]))
  }

  /**
   * `edi_directory_parse`: a TSG directory matches the code; any other
   * directory, or none, hands the segment on with NULL parameters.  With
   * `done` the directory's `end` runs.  Every result is discarded and the
   * call reports ENONE.
   */
  function Parse(d: Option<Dir>, code: Option<string>, done: bool): (r: (Option<Dir>, seq<DEvent>, Error))
    requires Valid(d)
    ensures Valid(r.0) && (d.None? <==> r.0.None?) && r.2 == ENONE
    ensures d.None? || d.value.TableDir? ==> r.1 == [Unparsed]
    ensures d.Some? && d.value.TableDir? ==>
      r.0 == Some(TableDir(if done then d.value.tables.(stack := []) else d.value.tables))
    ensures d.Some? && d.value.TsgDir? ==>
      var it := Giovanni.IterateTransaction(d.value.tsg, code);
      && r.1 == Lift(it.events)
      && r.0 == Some(TsgDir(if done then it.tsg.(stack := [], transaction := false) else it.tsg))
  {
    if d.None? then (d, [Unparsed], ENONE)
    else match d.value
      case TsgDir(t) =>
        var it := Giovanni.IterateTransaction(t, code);
        var after := if done then Giovanni.EndTransaction(it.tsg).tsg else it.tsg;
        (Some(TsgDir(after)), Lift(it.events), ENONE)
      case TableDir(fr) =>
        var after := if done then Francesco.EndTransaction(fr).fr else fr;
        (Some(TableDir(after)), [Unparsed], ENONE)
  }

  /** Whatever the matcher reports, parsing through the directory reports success. */
  lemma ParseHidesMatcherErrors(t: Giovanni.Tsg, code: string)
    requires Giovanni.Ready(t) && t.transaction && |t.stack| > 0
    requires Giovanni.IterateTransaction(t, Some(code)).error == EREQUIRED
    ensures Parse(Some(TsgDir(t)), Some(code), false).2 == ENONE
    ensures |Parse(Some(TsgDir(t)), Some(code), false).1| > 0
  {
    var it := Giovanni.IterateTransaction(t, Some(code));
    assert Giovanni.Verdicts(it.events) == 1;
  }
}
