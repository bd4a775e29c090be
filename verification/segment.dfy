/**
 * The segment matrix (src/segment.h, src/segment.c): a tag plus a 32 by 32
 * grid of optional element values, with an element count `de` and a
 * subelement count per element `cde`.  A cell is either undefined (absent
 * from `cells`) or defined with a possibly empty value; strings are taken
 * to be free of NUL characters.
 */
module Segments {
  import opened Wrappers
  import CText

  /** `EDI_NELEMS`: the grid is this many elements by this many subelements. */
  const NElems: nat := 32
  /** `EDI_BUFFER`: the size of the tag array. */
  const TagBuffer: nat := 1024

  type Cell = (nat, nat)

  datatype Segment = Segment(tag: string, cells: map<Cell, string>, de: nat, cde: seq<nat>)

  /** Defined cells lie inside the grid and inside the counts, which themselves fit the grid. */
  predicate Valid(s: Segment) {
    |s.cde| == NElems && s.de <= NElems
    && (forall x :: 0 <= x < NElems ==> s.cde[x] <= NElems)
    && (forall c :: c in s.cells ==> c.0 < s.de && c.1 < s.cde[c.0])
  }

  /** The counts are tight: each is one past the highest defined index, or 0. */
  ghost predicate Tight(s: Segment)
    requires Valid(s)
  {
    (s.de == 0 || exists c :: c in s.cells && c.0 == s.de - 1)
    && forall x :: 0 <= x < NElems ==> (s.cde[x] == 0 || (x, s.cde[x] - 1) in s.cells)
  }

  function Zeros(): (z: seq<nat>)
    ensures |z| == NElems && forall x :: 0 <= x < NElems ==> z[x] == 0
  {
    seq(NElems, _ => 0)
  }

  /**
   * `edi_segment_create` / `edi_segment_init`: no defined cell and zero
   * counts.  The C tag is left uninitialised; it is the empty string here.
   */
  function NewSegment(): (s: Segment)
    ensures Valid(s) && Tight(s) && s.cells == map[] && s.de == 0
  {
    Segment("", map[], 0, Zeros())
  }

  /** `edi_segment_clear`: every cell undefined and every count zero; the tag stays. */
  function Clear(s: Segment): (r: Segment)
    ensures Valid(r) && Tight(r)
    ensures r.tag == s.tag && r.cells == map[] && r.de == 0
    ensures forall x :: 0 <= x < NElems ==> r.cde[x] == 0
  {
    Segment(s.tag, map[], 0, Zeros())
  }

  /**
   * `edi_segment_get_element(s, x, y)`: the cell's text, NULL when the cell
   * is undefined and also when it is defined but empty (its buffer then
   * holds no data).
   */
  function GetElement(s: Segment, x: nat, y: nat): (r: Option<string>)
    requires x < NElems && y < NElems
    ensures r.Some? <==> (x, y) in s.cells && s.cells[(x, y)] != []
    ensures r.Some? ==> r.value == s.cells[(x, y)]
  {
    if (x, y) in s.cells && s.cells[(x, y)] != [] then Some(s.cells[(x, y)]) else None
  }

  function Max(a: nat, b: nat): (m: nat)
    ensures m >= a && m >= b && (m == a || m == b)
  {
    if a >= b then a else b
  }

  /**
   * `edi_segment_set_element(s, x, y, c, l)`: outside the grid nothing
   * happens.  Otherwise the cell becomes defined, even for NULL data or a
   * zero length, holding the first `l` characters of `c` (or nothing), and
   * the counts grow to cover it.
   */
  function SetElement(s: Segment, x: nat, y: nat, c: Option<string>, l: nat): (r: Segment)
    requires Valid(s)
    requires c.Some? ==> l <= |c.value|
    ensures Valid(r)
    ensures x >= NElems || y >= NElems ==> r == s
    ensures x < NElems && y < NElems ==>
      && r.tag == s.tag
      && (x, y) in r.cells
      && r.cells[(x, y)] == (if c.Some? && l > 0 then c.value[..l] else [])
      && (forall cell :: cell != (x, y) ==> (cell in r.cells <==> cell in s.cells))
      && (forall cell :: cell != (x, y) && cell in s.cells ==> r.cells[cell] == s.cells[cell])
      && r.de == Max(s.de, x + 1)
      && r.cde[x] == Max(s.cde[x], y + 1)
      && (forall z :: 0 <= z < NElems && z != x ==> r.cde[z] == s.cde[z])
  {
    if x >= NElems || y >= NElems then s
    else
      var value := if c.Some? && l > 0 then c.value[..l] else [];
      Segment(s.tag, s.cells[(x, y) := value], Max(s.de, x + 1), s.cde[x := Max(s.cde[x], y + 1)])
  }

  /** Setting an element keeps the counts tight. */
  lemma SetElementTight(s: Segment, x: nat, y: nat, c: Option<string>, l: nat)
    requires Valid(s) && Tight(s)
    requires c.Some? ==> l <= |c.value|
    ensures Tight(SetElement(s, x, y, c, l))
  {
    if x < NElems && y < NElems {
      SetElementParts(s, x, y, c, l);
      TightAfterSet(s, x, y, SetElement(s, x, y, c, l));
    }
  }

  /** Inside the grid, setting a cell adds exactly that cell and raises only its own counts. */
  lemma SetElementParts(s: Segment, x: nat, y: nat, c: Option<string>, l: nat)
    requires Valid(s) && (c.Some? ==> l <= |c.value|) && x < NElems && y < NElems
    ensures var r := SetElement(s, x, y, c, l);
      && Adds(s.cells, r.cells, (x, y))
      && r.de == Max(s.de, x + 1) && r.cde == s.cde[x := Max(s.cde[x], y + 1)]
  {
  }

  /** The defined cells of `after` are those of `before` and `cell`. */
  ghost predicate Adds(before: map<Cell, string>, after: map<Cell, string>, cell: Cell) {
    forall c :: c in after <==> c in before || c == cell
  }

  lemma TightAfterSet(s: Segment, x: nat, y: nat, r: Segment)
    requires Valid(s) && Tight(s) && x < NElems && y < NElems && Valid(r)
    requires Adds(s.cells, r.cells, (x, y))
    requires r.de == Max(s.de, x + 1) && r.cde == s.cde[x := Max(s.cde[x], y + 1)]
    ensures Tight(r)
  {
    TightElementCount(s.cells, s.de, x, y, r.cells, r.de);
    TightSubelementCounts(s.cells, s.cde, x, y, r.cells, r.cde);
  }

  lemma TightElementCount(before: map<Cell, string>, de0: nat, x: nat, y: nat, cells: map<Cell, string>, de: nat)
    requires de0 == 0 || exists c :: c in before && c.0 == de0 - 1
    requires Adds(before, cells, (x, y))
    requires de == Max(de0, x + 1)
    ensures exists c :: c in cells && c.0 == de - 1
  {
    if de0 > x + 1 {
      var w :| w in before && w.0 == de0 - 1;
      assert w in cells;
    } else {
      assert (x, y) in cells;
    }
  }

  lemma TightSubelementCounts(before: map<Cell, string>, cde0: seq<nat>, x: nat, y: nat, cells: map<Cell, string>, cde: seq<nat>)
    requires |cde0| == NElems && x < NElems
    requires forall z :: 0 <= z < NElems ==> (cde0[z] == 0 || (z, cde0[z] - 1) in before)
    requires Adds(before, cells, (x, y))
    requires cde == cde0[x := Max(cde0[x], y + 1)]
    ensures forall z :: 0 <= z < NElems ==> (cde[z] == 0 || (z, cde[z] - 1) in cells)
  {
    forall z | 0 <= z < NElems
      ensures cde[z] == 0 || (z, cde[z] - 1) in cells
    {
      if z != x && cde[z] != 0 {
        assert (z, cde0[z] - 1) in before;
      }
    }
  }

  /** What `set_element` stored is what `get_element` reads back; an empty value reads as NULL. */
  lemma GetAfterSet(s: Segment, x: nat, y: nat, v: string)
    requires Valid(s) && x < NElems && y < NElems
    ensures GetElement(SetElement(s, x, y, Some(v), |v|), x, y) == if v == [] then None else Some(v)
  {
    assert v[..|v|] == v;
  }

  /** Setting one cell leaves what every other cell reads as. */
  lemma GetOtherAfterSet(s: Segment, x: nat, y: nat, c: Option<string>, l: nat, x': nat, y': nat)
    requires Valid(s) && (c.Some? ==> l <= |c.value|)
    requires x' < NElems && y' < NElems && (x', y') != (x, y)
    ensures GetElement(SetElement(s, x, y, c, l), x', y') == GetElement(s, x', y')
  {
  }

  /** A defined cell counts even when it reads as NULL. */
  lemma DefinedEmptyCounts(s: Segment, x: nat, y: nat)
    requires Valid(s) && x < NElems && y < NElems
    ensures GetElement(SetElement(s, x, y, None, 0), x, y).None?
    ensures SetElement(s, x, y, None, 0).de > x
    ensures SetElement(s, x, y, None, 0).cde[x] > y
  {
  }

  /** `edi_segment_get_element_count`. */
  function ElementCount(s: Segment): (n: nat)
    requires Valid(s)
    ensures forall c :: c in s.cells ==> c.0 < n
  {
    s.de
  }

  /** `edi_segment_get_subelement_count`. */
  function SubelementCount(s: Segment, x: nat): (n: nat)
    requires Valid(s) && x < NElems
    ensures forall y :: (x, y) in s.cells ==> y < n
  {
    s.cde[x]
  }

  /**
   * `edi_segment_set_code(s, c, l)`: the tag becomes the first `l`
   * characters of `c`.  The C code writes the terminator at index
   * `min(l, EDI_BUFFER)`, which is outside the tag array for `l >= 1024`.
   */
  function SetCode(s: Segment, c: string, l: nat): (r: Segment)
    requires l < TagBuffer && l <= |c|
    ensures r.tag == c[..l] && |r.tag| < TagBuffer
    ensures r.cells == s.cells && r.de == s.de && r.cde == s.cde
  {
    s.(tag := c[..l])
  }

  /**
   * `edi_segment_cmp_code(s, c)` read as a test: `strncmp(tag, c, strlen(c))`
   * is zero.
   */
  function CodeIs(s: Segment, c: string): (b: bool)
    requires CText.NulFree(s.tag) && CText.NulFree(c)
    ensures b <==> c <= s.tag
  {
    CText.StrNCmpPrefix(s.tag, c);
    CText.StrNCmp(s.tag, c, |c|) == 0
  }

  /** The cell the `k`-th step of the copy loop visits, element-major. */
  function GridCell(k: nat): (c: Cell)
    requires k < NElems * NElems
    ensures c.0 < NElems && c.1 < NElems
  {
    (k / NElems, k % NElems)
  }

  /**
   * One step of `edi_segment_copy`'s loop: a cell defined in `src` is
   * undefined in `dst` and set again from `src`'s buffer (its data, or NULL
   * when empty, and its size).
   */
  function CopyCell(dst: Segment, src: Segment, c: Cell): (r: Segment)
    requires Valid(dst) && c.0 < NElems && c.1 < NElems
    ensures Valid(r)
  {
    if c in src.cells then
      var data := if src.cells[c] == [] then None else Some(src.cells[c]);
      var undefined := dst.(cells := dst.cells - {c});
      SetElement(undefined, c.0, c.1, data, |src.cells[c]|)
    else dst
  }

  /** The copy loop over the first `k` cells of the grid. */
  function CopyCells(dst: Segment, src: Segment, k: nat): (r: Segment)
    requires Valid(dst) && k <= NElems * NElems
    ensures Valid(r)
  {
    if k == 0 then dst else CopyCell(CopyCells(dst, src, k - 1), src, GridCell(k - 1))
  }

  /**
   * `edi_segment_copy(dst, src)`: the whole structure is assigned, then
   * every defined cell is rebuilt from the source into a buffer of its own.
   * `edi_segment_dup` copies into a new segment, which the assignment
   * overwrites, so it is the same function.
   */
  function Copy(src: Segment): (r: Segment)
    requires Valid(src)
    ensures Valid(r)
  {
    CopyCells(src, src, NElems * NElems)
  }

  /** Re-setting a defined cell of a valid segment from itself changes nothing. */
  lemma CopyCellIdentity(s: Segment, c: Cell)
    requires Valid(s) && c.0 < NElems && c.1 < NElems
    ensures CopyCell(s, s, c) == s
  {
    if c in s.cells {
      var r := CopyCell(s, s, c);
      var v := s.cells[c];
      assert (if v == [] then None else Some(v)).Some? && |v| > 0 ==> v[..|v|] == v;
      assert r.cells == s.cells;
      assert r.cde == s.cde;
    }
  }

  lemma {:induction false} CopyCellsIdentity(s: Segment, k: nat)
    requires Valid(s) && k <= NElems * NElems
    ensures CopyCells(s, s, k) == s
    decreases k
  {
    if k > 0 {
      CopyCellsIdentity(s, k - 1);
      CopyCellIdentity(s, GridCell(k - 1));
    }
  }

  /** A copy has the same tag, counts and cells as its source. */
  lemma CopyIsFaithful(s: Segment)
    requires Valid(s)
    ensures Copy(s) == s
  {
    CopyCellsIdentity(s, NElems * NElems);
  }
}
