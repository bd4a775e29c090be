/**
 * The table-backed directory (src/frncsc.c): flat, NULL-terminated
 * arrays of element, composite, segment and code-list descriptions,
 * segment and composite contents, and transaction rules, with a matcher
 * of its own.  Each array becomes a sequence of its rows before the
 * terminating row; a row index plays the part of a row pointer.
 *
 * The matcher is installed only as the `old_parse` entry of the
 * directory, which directory dispatch never calls; it is modelled as an
 * independent matcher.
 */
module Francesco {
  import opened Wrappers
  import opened Common
  import Params

  // ---------------------------------------------------------------------
  // Tables
  // ---------------------------------------------------------------------

  /** `edi_francesco_element_info_t`. */
  datatype ElementInfo = ElementInfo(
    code: string, dataType: DataType, minsize: int, maxsize: int,
    name: Option<string>, desc: Option<string>)

  /** `edi_francesco_cmpsite_info_t` and `edi_francesco_segment_info_t`. */
  datatype Info = Info(code: string, name: Option<string>, desc: Option<string>)

  /** `edi_francesco_cmpsite_list_t` (whose rows have no type: 0) and `edi_francesco_segment_list_t`. */
  datatype Content = Content(owner: string, content: string, requirement: char, rowType: int)

  /** `edi_francesco_codelst_info_t`. */
  datatype CodeInfo = CodeInfo(element: string, value: string, name: Option<string>, desc: Option<string>)

  /** `edi_francesco_trnsctn_rule_t`: a rule of a transaction, inside a container loop or at top level. */
  datatype Rule = Rule(
    transaction: string, container: Option<string>, sequence: Option<string>,
    code: string, requirement: char, reps: int, ruleType: int)

  /** Rule and content types (`EDI_SEGMENT`, `EDI_LOOP`, `EDI_COMPOSITE`). */
  const SegmentType: int := 1
  const LoopType: int := 2
  const CompositeType: int := 4

  datatype Tables = Tables(
    elements: seq<ElementInfo>, composites: seq<Info>, segments: seq<Info>,
    compositeList: seq<Content>, segmentList: seq<Content>,
    codes: seq<CodeInfo>, rules: seq<Rule>)

  /** `fnode`: a rule of the current chain and how often it matched. */
  datatype FNode = FNode(rule: nat, reps: nat)

  /** `fdata`: the tables, the node stack and the current transaction name (initially empty). */
  datatype Francesco = Francesco(tables: Tables, stack: seq<FNode>, transaction: string)

  /** The first row satisfying `p`. */
  function FirstWhere<T>(s: seq<T>, p: T -> bool): (r: Option<nat>)
    ensures r.Some? ==> r.value < |s| && p(s[r.value])
    ensures r.Some? ==> forall j :: 0 <= j < r.value ==> !p(s[j])
    ensures r.None? ==> forall j :: 0 <= j < |s| ==> !p(s[j])
  {
    if |s| == 0 then None
    else if p(s[0]) then Some(0)
    else match FirstWhere(s[1..], p)
      case None => None
      case Some(i) => Some(i + 1)
  }

  // ---------------------------------------------------------------------
  // Rule chains
  // ---------------------------------------------------------------------

  /** Both containers NULL, or both present and equal. */
  predicate SameContainer(a: Option<string>, b: Option<string>) {
    (a.None? && b.None?) || (a.Some? && b.Some? && a.value == b.value)
  }

  /** NULL-or-equal is plain equality of optional strings. */
  lemma SameContainerIsEquality(a: Option<string>, b: Option<string>)
    ensures SameContainer(a, b) <==> a == b
  {
  }

  /** The rule belongs to the transaction and container. */
  predicate Opens(r: Rule, transaction: string, container: Option<string>) {
    r.transaction == transaction && SameContainer(r.container, container)
  }

  /**
   * `getfirstrule`: the first rule of the transaction in the container
   * (NULL for the top level); NULL if there is none or no transaction.
   */
  function FirstRule(rules: seq<Rule>, transaction: Option<string>, container: Option<string>): (r: Option<nat>)
    ensures transaction.None? ==> r.None?
    ensures r.Some? ==> r.value < |rules| && Opens(rules[r.value], transaction.value, container)
    ensures r.Some? ==> forall j :: 0 <= j < r.value ==> !Opens(rules[j], transaction.value, container)
    ensures transaction.Some? && r.None? ==> forall j :: 0 <= j < |rules| ==> !Opens(rules[j], transaction.value, container)
  {
    if transaction.None? then None
    else
      var p := (x: Rule) => Opens(x, transaction.value, container);
      assert forall x :: p(x) == Opens(x, transaction.value, container);
      FirstWhere(rules, p)
  }

  /**
   * `getnextrule`: the row after `i` if it belongs to the same
   * transaction and container; NULL at the end of the table.
   */
  function NextRule(rules: seq<Rule>, i: nat): (r: Option<nat>)
    requires i < |rules|
    ensures r.Some? <==> i + 1 < |rules| && Opens(rules[i + 1], rules[i].transaction, rules[i].container)
    ensures r.Some? ==> r.value == i + 1
  {
    if i + 1 < |rules| && rules[i + 1].transaction == rules[i].transaction
       && SameContainer(rules[i + 1].container, rules[i].container)
    then Some(i + 1) else None
  }

  /** The last rule reached by following `getnextrule` from `i`. */
  function ChainEnd(rules: seq<Rule>, i: nat): (e: nat)
    requires i < |rules|
    ensures i <= e < |rules|
    decreases |rules| - i
  {
    match NextRule(rules, i)
    case None => i
    case Some(j) => ChainEnd(rules, j)
  }

  /**
   * A rule chain is a contiguous run of the table: every row from its
   * start to its end has the start's transaction and container, and the
   * row after the end does not.
   */
  lemma {:induction false} ChainIsRun(rules: seq<Rule>, i: nat)
    requires i < |rules|
    ensures forall k :: i <= k <= ChainEnd(rules, i) ==> Opens(rules[k], rules[i].transaction, rules[i].container)
    ensures ChainEnd(rules, i) + 1 < |rules| ==>
      !Opens(rules[ChainEnd(rules, i) + 1], rules[i].transaction, rules[i].container)
    decreases |rules| - i
  {
    match NextRule(rules, i)
    case None =>
    case Some(j) =>
      ChainIsRun(rules, j);
  }

  // ---------------------------------------------------------------------
  // Finders and item lookups
  // ---------------------------------------------------------------------

  /** `find_element_info`: the first row with the code; NULL for a NULL code. */
  function FindElementInfo(t: Tables, code: Option<string>): (r: Option<nat>)
    ensures code.None? ==> r.None?
    ensures r.Some? ==> r.value < |t.elements| && t.elements[r.value].code == code.value
    ensures r.Some? ==> forall j :: 0 <= j < r.value ==> t.elements[j].code != code.value
    ensures code.Some? && r.None? ==> forall j :: 0 <= j < |t.elements| ==> t.elements[j].code != code.value
  {
    if code.None? then None
    else
      var p := (x: ElementInfo) => x.code == code.value;
      assert forall x :: p(x) == (x.code == code.value);
      FirstWhere(t.elements, p)
  }

  /** `find_cmpsite_info` and `find_segment_info` on one of the info tables. */
  function FindInfo(rows: seq<Info>, code: Option<string>): (r: Option<nat>)
    ensures code.None? ==> r.None?
    ensures r.Some? ==> r.value < |rows| && rows[r.value].code == code.value
    ensures r.Some? ==> forall j :: 0 <= j < r.value ==> rows[j].code != code.value
    ensures code.Some? && r.None? ==> forall j :: 0 <= j < |rows| ==> rows[j].code != code.value
  {
    if code.None? then None
    else
      var p := (x: Info) => x.code == code.value;
      assert forall x :: p(x) == (x.code == code.value);
      FirstWhere(rows, p)
  }

  /** `find_codelst_info`: the first row matching both element and value; NULL if either is NULL. */
  function FindCodeInfo(t: Tables, element: Option<string>, value: Option<string>): (r: Option<nat>)
    ensures element.None? || value.None? ==> r.None?
    ensures r.Some? ==> (r.value < |t.codes|
      && t.codes[r.value].element == element.value && t.codes[r.value].value == value.value)
    ensures r.Some? ==> forall j :: 0 <= j < r.value ==>
      !(t.codes[j].element == element.value && t.codes[j].value == value.value)
    ensures element.Some? && value.Some? && r.None? ==> forall j :: 0 <= j < |t.codes| ==>
      !(t.codes[j].element == element.value && t.codes[j].value == value.value)
  {
    if element.None? || value.None? then None
    else
      var p := (x: CodeInfo) => x.element == element.value && x.value == value.value;
      assert forall x :: p(x) == (x.element == element.value && x.value == value.value);
      FirstWhere(t.codes, p)
  }

  /** `segment_name`, `segment_desc`, `composite_name`, ...: a field of the row found, NULL if none. */
  function InfoName(rows: seq<Info>, code: Option<string>): (r: Option<string>)
    ensures FindInfo(rows, code).None? ==> r.None?
    ensures FindInfo(rows, code).Some? ==> r == rows[FindInfo(rows, code).value].name
  {
    match FindInfo(rows, code)
    case None => None
    case Some(i) => rows[i].name
  }

  function InfoDesc(rows: seq<Info>, code: Option<string>): (r: Option<string>)
    ensures FindInfo(rows, code).None? ==> r.None?
    ensures FindInfo(rows, code).Some? ==> r == rows[FindInfo(rows, code).value].desc
  {
    match FindInfo(rows, code)
    case None => None
    case Some(i) => rows[i].desc
  }

  /** `element_name` / `element_desc`. */
  function ElementName(t: Tables, code: Option<string>): (r: Option<string>)
    ensures FindElementInfo(t, code).None? ==> r.None?
    ensures FindElementInfo(t, code).Some? ==> r == t.elements[FindElementInfo(t, code).value].name
  {
    match FindElementInfo(t, code)
    case None => None
    case Some(i) => t.elements[i].name
  }

  function ElementDesc(t: Tables, code: Option<string>): (r: Option<string>)
    ensures FindElementInfo(t, code).None? ==> r.None?
    ensures FindElementInfo(t, code).Some? ==> r == t.elements[FindElementInfo(t, code).value].desc
  {
    match FindElementInfo(t, code)
    case None => None
    case Some(i) => t.elements[i].desc
  }

  /** `element_repr`: code, sizes (stored as unsigned) and representation of the element; the null item if unknown. */
  function ElementRepr(t: Tables, code: Option<string>): (r: Item)
    ensures FindElementInfo(t, code).None? ==> r == NullItem
    ensures FindElementInfo(t, code).Some? ==>
      var e := t.elements[FindElementInfo(t, code).value];
      r == NullItem.(code := Some(e.code), min := ToU32(e.minsize), max := ToU32(e.maxsize), repr := e.dataType)
  {
    match FindElementInfo(t, code)
    case None => NullItem
    case Some(i) =>
      var e := t.elements[i];
      NullItem.(code := Some(e.code), min := ToU32(e.minsize), max := ToU32(e.maxsize), repr := e.dataType)
  }

  /** `codelist_name`: NULL if the element or value is NULL or the pair is unknown. */
  function CodelistName(t: Tables, element: Option<string>, value: Option<string>): (r: Option<string>)
    ensures element.None? || value.None? ==> r.None?
    ensures FindCodeInfo(t, element, value).Some? ==> r == t.codes[FindCodeInfo(t, element, value).value].name
    ensures FindCodeInfo(t, element, value).None? ==> r.None?
  {
    match FindCodeInfo(t, element, value)
    case None => None
    case Some(i) => t.codes[i].name
  }

  /** How many rows of a contents table belong to `owner`. */
  function CountOwned(rows: seq<Content>, owner: string): (n: nat)
    ensures n <= |rows|
  {
    if |rows| == 0 then 0
    else (if rows[0].owner == owner then 1 else 0) + CountOwned(rows[1..], owner)
  }

  /** `segment_size`: the number of rows of the segment. */
  function SegmentSize(t: Tables, code: string): (n: nat)
    ensures n <= |t.segmentList|
    ensures n == 0 <==> forall j :: 0 <= j < |t.segmentList| ==> t.segmentList[j].owner != code
  {
    OwnedNoneIffZero(t.segmentList, code);
    CountOwned(t.segmentList, code)
  }

  /** `composite_size`: the number of rows of the composite. */
  function CompositeSize(t: Tables, code: string): (n: nat)
    ensures n <= |t.compositeList|
    ensures n == 0 <==> forall j :: 0 <= j < |t.compositeList| ==> t.compositeList[j].owner != code
  {
    OwnedNoneIffZero(t.compositeList, code);
    CountOwned(t.compositeList, code)
  }

  lemma {:induction false} OwnedNoneIffZero(rows: seq<Content>, owner: string)
    ensures CountOwned(rows, owner) == 0 <==> forall j :: 0 <= j < |rows| ==> rows[j].owner != owner
  {
    if |rows| > 0 {
      OwnedNoneIffZero(rows[1..], owner);
      assert forall j :: 1 <= j < |rows| ==> rows[j] == rows[1..][j - 1];
    }
  }

  /** Where `segment_item` starts counting: the owner's first row, or the terminator's index if it has none. */
  function FirstOwned(rows: seq<Content>, owner: string): (n: nat)
    ensures n <= |rows|
    ensures n < |rows| ==> rows[n].owner == owner
    ensures forall j :: 0 <= j < n ==> rows[j].owner != owner
  {
    var p := (x: Content) => x.owner == owner;
    assert forall x :: p(x) == (x.owner == owner);
    FirstWhere(rows, p).GetOr(|rows|)
  }

  /** A row of a contents table as an item; the all-zero terminating row is the null item. */
  function RowItem(rows: seq<Content>, k: nat, composite: bool): (r: Item)
    requires k <= |rows|
    ensures k == |rows| ==> r == NullItem
  {
    if k == |rows| then NullItem
    else
      var row := rows[k];
      NullItem.(code := Some(row.content),
                itemType := if composite && row.rowType == CompositeType then 1 else 0,
                reqr := if row.requirement == 'M' then 1 else 0)
  }

  /**
   * `segment_item`: the row `i` places after the segment's first row
   * (counting from the terminator for an unknown segment), with type 1
   * for a composite row and reqr 1 for requirement 'M'.  Reading beyond
   * the terminating row is undefined in C, hence the precondition.
   */
  function SegmentItem(t: Tables, code: string, i: nat): (r: Item)
    requires FirstOwned(t.segmentList, code) + i <= |t.segmentList|
    ensures var k := FirstOwned(t.segmentList, code) + i;
      k < |t.segmentList| ==>
        && r.code == Some(t.segmentList[k].content)
        && (r.itemType == 1 <==> t.segmentList[k].rowType == CompositeType)
        && (r.reqr == 1 <==> t.segmentList[k].requirement == 'M')
  {
    RowItem(t.segmentList, FirstOwned(t.segmentList, code) + i, true)
  }

  /** `composite_item`: as `segment_item` on the composite contents, always of type 0. */
  function CompositeItem(t: Tables, code: string, i: nat): (r: Item)
    requires FirstOwned(t.compositeList, code) + i <= |t.compositeList|
    ensures r.itemType == 0
    ensures var k := FirstOwned(t.compositeList, code) + i;
      k < |t.compositeList| ==>
        r.code == Some(t.compositeList[k].content) && (r.reqr == 1 <==> t.compositeList[k].requirement == 'M')
  {
    RowItem(t.compositeList, FirstOwned(t.compositeList, code) + i, false)
  }

  /** The rows of `owner` form one contiguous run. */
  predicate Contiguous(rows: seq<Content>, owner: string) {
    forall a, b, c :: 0 <= a < b < c < |rows| && rows[a].owner == owner && rows[c].owner == owner
      ==> rows[b].owner == owner
  }

  lemma {:induction false} CountOwnedSplit(rows: seq<Content>, owner: string, k: nat)
    requires k <= |rows|
    ensures CountOwned(rows, owner) == CountOwned(rows[..k], owner) + CountOwned(rows[k..], owner)
    decreases k
  {
    if k > 0 {
      CountOwnedSplit(rows[1..], owner, k - 1);
      assert rows[..k][1..] == rows[1..][..k - 1];
      assert rows[1..][k - 1..] == rows[k..];
    } else {
      assert rows[k..] == rows;
    }
  }

  lemma {:induction false} CountOwnedAll(rows: seq<Content>, owner: string)
    requires forall j :: 0 <= j < |rows| ==> rows[j].owner == owner
    ensures CountOwned(rows, owner) == |rows|
  {
    if |rows| > 0 {
      CountOwnedAll(rows[1..], owner);
    }
  }

  /** Past the end of a run, a contiguous owner has no more rows. */
  lemma NothingAfterRun(rows: seq<Content>, owner: string, n: nat)
    requires Contiguous(rows, owner) && n < |rows| && rows[n].owner == owner
    ensures forall j :: RunEnd(rows, owner, n) <= j < |rows| ==> rows[j].owner != owner
  {
  }

  /** A slice with no row of the owner counts 0. */
  lemma NoneOwned(rows: seq<Content>, owner: string, lo: nat, hi: nat)
    requires lo <= hi <= |rows|
    requires forall j :: lo <= j < hi ==> rows[j].owner != owner
    ensures CountOwned(rows[lo..hi], owner) == 0
  {
    var s := rows[lo..hi];
    assert forall j :: 0 <= j < |s| ==> s[j] == rows[lo + j];
    OwnedNoneIffZero(s, owner);
  }

  /** A slice of the owner's rows only counts its length. */
  lemma AllOwned(rows: seq<Content>, owner: string, lo: nat, hi: nat)
    requires lo <= hi <= |rows|
    requires forall j :: lo <= j < hi ==> rows[j].owner == owner
    ensures CountOwned(rows[lo..hi], owner) == hi - lo
  {
    var s := rows[lo..hi];
    assert forall j :: 0 <= j < |s| ==> s[j] == rows[lo + j];
    CountOwnedAll(s, owner);
  }

  /** An owner whose rows are exactly those from `n` to `e` has `e - n` rows. */
  lemma RunCount(rows: seq<Content>, owner: string, n: nat, e: nat)
    requires n <= e <= |rows|
    requires forall j :: 0 <= j < n ==> rows[j].owner != owner
    requires forall j :: n <= j < e ==> rows[j].owner == owner
    requires forall j :: e <= j < |rows| ==> rows[j].owner != owner
    ensures CountOwned(rows, owner) == e - n
  {
    NoneOwned(rows, owner, 0, n);
    assert rows[..n] == rows[0..n];
    RunThenNone(rows, owner, n, e);
    CountOwnedSplit(rows, owner, n);
  }

  /** The rows from `n` on, owned from `n` to `e` and not after, count `e - n`. */
  lemma RunThenNone(rows: seq<Content>, owner: string, n: nat, e: nat)
    requires n <= e <= |rows|
    requires forall j :: n <= j < e ==> rows[j].owner == owner
    requires forall j :: e <= j < |rows| ==> rows[j].owner != owner
    ensures CountOwned(rows[n..], owner) == e - n
  {
    var back := rows[n..];
    CountOwnedSplit(back, owner, e - n);
    assert back[..e - n] == rows[n..e];
    assert back[e - n..] == rows[e..|rows|];
    AllOwned(rows, owner, n, e);
    NoneOwned(rows, owner, e, |rows|);
  }

  /**
   * When a segment's rows are contiguous, each `i` below its size selects
   * a row of that segment: the items of a segment are its rows, in order.
   */
  lemma SegmentItemOwned(t: Tables, code: string, i: nat)
    requires Contiguous(t.segmentList, code) && i < SegmentSize(t, code)
    ensures FirstOwned(t.segmentList, code) + i < |t.segmentList|
    ensures t.segmentList[FirstOwned(t.segmentList, code) + i].owner == code
  {
    var rows := t.segmentList;
    var n := FirstOwned(rows, code);
    if n == |rows| {
      assert false;
    }
    NothingAfterRun(rows, code, n);
    RunCount(rows, code, n, RunEnd(rows, code, n));
  }

  /** The owner's rows all lie at or after its first row, so every index below the size stays within the table. */
  lemma ItemsFit(rows: seq<Content>, owner: string)
    ensures FirstOwned(rows, owner) + CountOwned(rows, owner) <= |rows|
  {
    var n := FirstOwned(rows, owner);
    CountOwnedSplit(rows, owner, n);
    assert rows[..n] == rows[0..n];
    NoneOwned(rows, owner, 0, n);
  }

  /** The end of the run of `owner` rows starting at `n`. */
  function RunEnd(rows: seq<Content>, owner: string, n: nat): (e: nat)
    requires n < |rows| && rows[n].owner == owner
    ensures n < e <= |rows|
    ensures forall j :: n <= j < e ==> rows[j].owner == owner
    ensures e < |rows| ==> rows[e].owner != owner
    decreases |rows| - n
  {
    if n + 1 < |rows| && rows[n + 1].owner == owner then RunEnd(rows, owner, n + 1) else n + 1
  }

  /** The first row with both owner and content (`standaloneSegmentContents` / `standaloneCompositeContents`). */
  function FindContent(rows: seq<Content>, owner: string, content: string): (r: Option<nat>)
    ensures r.Some? ==> r.value < |rows| && rows[r.value].owner == owner && rows[r.value].content == content
    ensures r.None? ==> forall j :: 0 <= j < |rows| ==> !(rows[j].owner == owner && rows[j].content == content)
  {
    var p := (x: Content) => x.owner == owner && x.content == content;
    assert forall x :: p(x) == (x.owner == owner && x.content == content);
    FirstWhere(rows, p)
  }

  /** `getSegmentContentReqr` / `getCompositeContentReqr`: the row's requirement, 'C' when there is no such row. */
  function ContentReqr(rows: seq<Content>, owner: string, content: string): (c: char)
    ensures FindContent(rows, owner, content).None? ==> c == 'C'
    ensures FindContent(rows, owner, content).Some? ==> c == rows[FindContent(rows, owner, content).value].requirement
  {
    match FindContent(rows, owner, content)
    case None => 'C'
    case Some(i) => rows[i].requirement
  }

  /** `segment_type`: the row's type, 0 when there is no such row; `isElementComposite` tests it for `EDI_COMPOSITE`. */
  function ContentType(t: Tables, segment: string, content: string): (n: int)
    ensures FindContent(t.segmentList, segment, content).None? ==> n == 0
    ensures FindContent(t.segmentList, segment, content).Some? ==>
      n == t.segmentList[FindContent(t.segmentList, segment, content).value].rowType
  {
    match FindContent(t.segmentList, segment, content)
    case None => 0
    case Some(i) => t.segmentList[i].rowType
  }

  function IsComposite(t: Tables, segment: string, content: string): bool {
    ContentType(t, segment, content) == CompositeType
  }

  // ---------------------------------------------------------------------
  // element_indx
  // ---------------------------------------------------------------------

  /**
   * The loop of `element_indx` over one contents table: `x` is bumped for
   * every row of the owner and the loop stops at the row with the content.
   */
  function Scan(rows: seq<Content>, owner: string, content: string, x: int): (r: int)
    ensures r >= x
  {
    if |rows| == 0 then x
    else if rows[0].owner == owner then
      if rows[0].content == content then x + 1 else Scan(rows[1..], owner, content, x + 1)
    else Scan(rows[1..], owner, content, x)
  }

  /**
   * What the scan computes: the number of the owner's rows before the
   * first row with the content, or (with no such row) one less than the
   * number of the owner's rows; -1 for an owner with no rows.
   */
  lemma {:induction false} ScanCounts(rows: seq<Content>, owner: string, content: string, x: int)
    ensures var k := FindContent(rows, owner, content);
      Scan(rows, owner, content, x)
        == if k.Some? then x + CountOwned(rows[..k.value], owner) + 1
           else x + CountOwned(rows, owner)
  {
    if |rows| > 0 {
      var k := FindContent(rows, owner, content);
      var tailK := FindContent(rows[1..], owner, content);
      ScanCounts(rows[1..], owner, content, if rows[0].owner == owner then x + 1 else x);
      if rows[0].owner == owner && rows[0].content == content {
        assert k == Some(0);
        assert rows[..0] == [];
      } else {
        assert k.Some? <==> tailK.Some?;
        if k.Some? {
          assert k.value == tailK.value + 1 by {
            assert rows[tailK.value + 1] == rows[1..][tailK.value];
            assert forall j :: 1 <= j < tailK.value + 1 ==> rows[j] == rows[1..][j - 1];
          }
          assert rows[..k.value][1..] == rows[1..][..tailK.value];
        }
      }
    }
  }

  /** The outcome of `element_indx`: its return value and the positions it stores. */
  datatype Index = Index(found: int, x: int, y: int)

  /**
   * `element_indx`: x is the scan of the segment contents for the
   * element, y the scan of the composite contents for the subelement (0
   * without one); success is both differing from -1.
   */
  function ElementIndex(t: Tables, segment: string, element: string, subelement: Option<string>): (r: Index)
    ensures r.x == -1 <==> SegmentSize(t, segment) == 0
    ensures FindContent(t.segmentList, segment, element).Some? ==>
      r.x == CountOwned(t.segmentList[..FindContent(t.segmentList, segment, element).value], segment)
    ensures FindContent(t.segmentList, segment, element).None? ==> r.x == SegmentSize(t, segment) - 1
    ensures subelement.None? ==> r.y == 0
    ensures subelement.Some? ==> (r.y == -1 <==> CompositeSize(t, element) == 0)
    ensures subelement.Some? && FindContent(t.compositeList, element, subelement.value).Some? ==>
      r.y == CountOwned(t.compositeList[..FindContent(t.compositeList, element, subelement.value).value], element)
    ensures subelement.Some? && FindContent(t.compositeList, element, subelement.value).None? ==>
      r.y == CompositeSize(t, element) - 1
    ensures r.found == (if r.x != -1 && r.y != -1 then 1 else 0)
  {
    var x := Scan(t.segmentList, segment, element, -1);
    ScanCounts(t.segmentList, segment, element, -1);
    var y := if subelement.Some? then Scan(t.compositeList, element, subelement.value, -1) else 0;
    ScanCounts(t.compositeList, element, subelement.GetOr(""), -1);
    Index(if x != -1 && y != -1 then 1 else 0, x, y)
  }

  /** An element the segment does not contain still succeeds whenever the segment has rows. */
  lemma AbsentElementFound(t: Tables, segment: string, element: string)
    requires SegmentSize(t, segment) > 0
    requires forall j :: 0 <= j < |t.segmentList| ==> t.segmentList[j].content != element
    ensures ElementIndex(t, segment, element, None).found == 1
  {
    assert FindContent(t.segmentList, segment, element).None?;
  }

  // ---------------------------------------------------------------------
  // The matcher
  // ---------------------------------------------------------------------

  /** Every node of the stack names a rule of the table. */
  predicate NodesIn(rules: seq<Rule>, s: seq<FNode>) {
    forall i :: 0 <= i < |s| ==> s[i].rule < |rules|
  }

  /** Open loops: every node but the transaction's own. */
  function Depth(s: seq<FNode>): nat {
    if |s| == 0 then 0 else |s| - 1
  }

  /** What the matcher hands to the application callbacks, with the parameters as they stood. */
  datatype FEvent =
    | StartLoop(params: Params.Parameters)     // start(userdata, EDI_LOOP, parameters)
    | EndLoop(params: Params.Parameters)       // end(userdata, EDI_LOOP, parameters)
    | Verdict(params: Params.Parameters)       // segment(userdata, parameters, directory)

  function Starts(ev: seq<FEvent>): nat {
    if |ev| == 0 then 0 else (if ev[0].StartLoop? then 1 else 0) + Starts(ev[1..])
  }

  function Ends(ev: seq<FEvent>): nat {
    if |ev| == 0 then 0 else (if ev[0].EndLoop? then 1 else 0) + Ends(ev[1..])
  }

  function Verdicts(ev: seq<FEvent>): nat {
    if |ev| == 0 then 0 else (if ev[0].Verdict? then 1 else 0) + Verdicts(ev[1..])
  }

  /** Counting events of a concatenated log. */
  lemma {:induction false} CountsAppend(a: seq<FEvent>, b: seq<FEvent>)
    ensures Starts(a + b) == Starts(a) + Starts(b)
    ensures Ends(a + b) == Ends(a) + Ends(b)
    ensures Verdicts(a + b) == Verdicts(a) + Verdicts(b)
    decreases |a|
  {
    if |a| == 0 {
      assert a + b == b;
    } else {
      assert (a + b)[0] == a[0];
      assert (a + b)[1..] == a[1..] + b;
      CountsAppend(a[1..], b);
    }
  }

  /** Counting the events of a one-event log. */
  lemma CountsOne(e: FEvent)
    ensures Starts([e]) == (if e.StartLoop? then 1 else 0)
    ensures Ends([e]) == (if e.EndLoop? then 1 else 0)
    ensures Verdicts([e]) == (if e.Verdict? then 1 else 0)
  {
    assert [e][0] == e && [e][1..] == [];
  }

  /**
   * The parameters an EndLoop reports: every slot cleared, then the code
   * of the loop rule the matcher returns to.  The call in the source has
   * no terminating key; see `EndParametersAsWritten`.
   */
  function EndParameters(p: Params.Parameters, loopCode: string): (r: Params.Parameters)
    ensures Params.ValidParameters(r)
    ensures r.values[Params.Code] == Some(loopCode)
    ensures forall k :: 0 <= k < Params.MaxParameter && k != Params.Code ==> r.values[k].None?
    ensures r.element == p.element && r.subelement == p.subelement
  {
    var pairs: seq<Params.Pair> := [(Params.Code, Some(loopCode)), (Params.LastParameter, None)];
    assert Params.Active(pairs) == [(Params.Code, Some(loopCode))] by {
      assert pairs[1..][0].0 == Params.LastParameter;
    }
    Params.GetAfterSet(p, pairs, Params.Code, Some(loopCode));
    var r := Params.Set(p, pairs);
    forall k | 0 <= k < Params.MaxParameter && k != Params.Code
      ensures r.values[k].None?
    {
      assert Params.Get(r, k).None?;
    }
    r
  }

  /**
   * The call as written: the variable argument list goes on past the code
   * into whatever pairs `tail` the callee happens to read, up to a 0 key.
   */
  function EndParametersAsWritten(p: Params.Parameters, loopCode: string, tail: seq<Params.Pair>): (r: Params.Parameters)
    requires Params.KeysInRange(tail)
    ensures Params.ValidParameters(r)
  {
    Params.Set(p, [(Params.Code, Some(loopCode))] + tail)
  }

  /** With a stray pair after the code, the EndLoop parameters carry a slot the loop never set. */
  lemma UnterminatedEndSetsMore(p: Params.Parameters, loopCode: string, v: string)
    ensures var tail: seq<Params.Pair> := [(Params.Name, Some(v)), (Params.LastParameter, None)];
      && Params.KeysInRange(tail)
      && EndParametersAsWritten(p, loopCode, tail).values[Params.Name] == Some(v)
      && EndParameters(p, loopCode).values[Params.Name].None?
  {
    var tail: seq<Params.Pair> := [(Params.Name, Some(v)), (Params.LastParameter, None)];
    var pairs := [(Params.Code, Some(loopCode))] + tail;
    assert Params.Active(pairs) == [(Params.Code, Some(loopCode)), (Params.Name, Some(v))] by {
      assert pairs[1..] == tail;
      assert tail[1..][0].0 == Params.LastParameter;
    }
    var a := Params.Active(pairs);
    assert Params.LastAssigned(a, Params.Name) == Some(Some(v));
  }

  /** What remains to be walked: decreases on every pass of the matcher's loop. */
  function Remaining(rules: seq<Rule>, s: seq<FNode>): nat
    requires NodesIn(rules, s)
  {
    if |s| == 0 then 0
    else Remaining(rules, s[..|s| - 1]) + (|rules| - s[|s| - 1].rule) + 1
  }

  /** One call of the matcher: the node stack, the in/out parameters, the callbacks made, the return code. */
  datatype Outcome = Outcome(stack: seq<FNode>, params: Params.Parameters, events: seq<FEvent>, error: Error)

  /** The result of one pass of the matcher's loop: go round again, or leave the function. */
  datatype Pass = Again(stack: seq<FNode>, params: Params.Parameters, events: seq<FEvent>) | Leave(outcome: Outcome)

  /** The top node's rule has the code and has matched at least once. */
  predicate AcceptedOn(rules: seq<Rule>, s: seq<FNode>, code: string) {
    |s| > 0 && s[|s| - 1].rule < |rules| && rules[s[|s| - 1].rule].code == code && s[|s| - 1].reps >= 1
  }

  /**
   * A pass that goes round again keeps a node on the stack, makes
   * progress, and reports only EndLoop events, one per loop it closes.
   */
  predicate AgainOk(rules: seq<Rule>, stack: seq<FNode>, next: seq<FNode>, p: Params.Parameters, ev: seq<FEvent>)
    requires NodesIn(rules, stack)
  {
    && NodesIn(rules, next) && |next| > 0 && Remaining(rules, next) < Remaining(rules, stack)
    && Params.ValidParameters(p)
    && Depth(next) + Ends(ev) == Depth(stack) && Starts(ev) == 0 && Verdicts(ev) == 0
  }

  /**
   * How a call of the matcher ends, given the non-empty stack it started
   * the final pass from:
   *   - the open-loop depth changes by StartLoops minus EndLoops, with at
   *     most one StartLoop;
   *   - a verdict is reported exactly on success, never more than one,
   *     and it is the last event, with the parameters the call returns;
   *   - on success the top node's rule has the code and has been counted;
   *   - the stack empties exactly on ECORRUPT.
   */
  predicate LeaveOk(rules: seq<Rule>, stack: seq<FNode>, code: string, o: Outcome)
    requires NodesIn(rules, stack)
  {
    && NodesIn(rules, o.stack) && Params.ValidParameters(o.params)
    && Depth(o.stack) + Ends(o.events) == Depth(stack) + Starts(o.events)
    && Starts(o.events) <= 1 && Verdicts(o.events) <= 1
    && o.error in {ENONE, EREQUIRED, ERULES, ECORRUPT}
    && (Verdicts(o.events) == 1 <==> o.error == ENONE)
    && (o.error == ENONE ==> |o.events| > 0 && o.events[|o.events| - 1] == Verdict(o.params))
    && (o.error == ENONE ==> AcceptedOn(rules, o.stack, code))
    && (|o.stack| == 0 <==> o.error == ECORRUPT)
  }

  predicate PassOk(rules: seq<Rule>, stack: seq<FNode>, code: string, r: Pass)
    requires NodesIn(rules, stack)
  {
    && (r.Again? ==> AgainOk(rules, stack, r.stack, r.params, r.events))
    && (r.Leave? ==> LeaveOk(rules, stack, code, r.outcome))
  }

  /** The top node's rule. */
  function TopRule(rules: seq<Rule>, s: seq<FNode>): (r: Rule)
    requires NodesIn(rules, s) && |s| > 0
  {
    rules[s[|s| - 1].rule]
  }

  /**
   * The `nextrule` label: move the top node to the next rule of its chain
   * with its count reset; at the end of the chain pop it, which is
   * ECORRUPT when nothing is left and otherwise reports EndLoop for the
   * loop rule of the node below, whose count stays as it was.
   */
  function NextPass(rules: seq<Rule>, stack: seq<FNode>, code: string, p: Params.Parameters): (r: Pass)
    requires NodesIn(rules, stack) && |stack| > 0 && Params.ValidParameters(p)
    ensures PassOk(rules, stack, code, r)
  {
    var n := |stack| - 1;
    match NextRule(rules, stack[n].rule)
    case Some(j) =>
      var next := stack[n := FNode(j, 0)];
      assert next[..n] == stack[..n];
      Again(next, p, [])
    case None =>
      var below := stack[..n];
      assert Remaining(rules, below) < Remaining(rules, stack);
      if n == 0 then Leave(Outcome([], p, [], ECORRUPT))
      else
        var q := EndParameters(p, TopRule(rules, below).code);
        CountsOne(EndLoop(q));
        Again(below, q, [EndLoop(q)])
  }

  /**
   * One pass of the `for` loop of `iterate_transaction`: a rule whose
   * non-zero bound is reached is left; a loop rule is entered when the
   * code is that of its first rule (ERULES when it has none) and left
   * otherwise, whatever its requirement; a rule with the code is counted
   * and accepted; a mandatory rule not yet matched is EREQUIRED; any
   * other rule is left.
   */
  function Step(rules: seq<Rule>, transaction: string, stack: seq<FNode>, code: string, p: Params.Parameters): (r: Pass)
    requires NodesIn(rules, stack) && |stack| > 0 && Params.ValidParameters(p)
    ensures PassOk(rules, stack, code, r)
  {
    var n := |stack| - 1;
    var top := stack[n];
    var rule := rules[top.rule];
    if rule.reps != 0 && top.reps >= rule.reps then NextPass(rules, stack, code, p)
    else if rule.ruleType == LoopType then TryLoop(rules, transaction, stack, code, p)
    else if code == rule.code then Leave(Accept(rules, stack, code, p))
    else if rule.requirement == 'M' && top.reps == 0 then Leave(Outcome(stack, p, [], EREQUIRED))
    else NextPass(rules, stack, code, p)
  }

  /** Counting the top node and reporting the verdict with the parameters as they stand. */
  function Accept(rules: seq<Rule>, stack: seq<FNode>, code: string, p: Params.Parameters): (o: Outcome)
    requires NodesIn(rules, stack) && |stack| > 0 && Params.ValidParameters(p)
    requires TopRule(rules, stack).code == code
    ensures o.stack == stack[|stack| - 1 := stack[|stack| - 1].(reps := stack[|stack| - 1].reps + 1)]
    ensures o.params == p && o.events == [Verdict(p)] && o.error == ENONE
    ensures LeaveOk(rules, stack, code, o)
  {
    var n := |stack| - 1;
    var next := stack[n := stack[n].(reps := stack[n].reps + 1)];
    CountsOne(Verdict(p));
    Outcome(next, p, [Verdict(p)], ENONE)
  }

  /** The loop branch of the pass. */
  function TryLoop(rules: seq<Rule>, transaction: string, stack: seq<FNode>, code: string, p: Params.Parameters): (r: Pass)
    requires NodesIn(rules, stack) && |stack| > 0 && Params.ValidParameters(p)
    ensures PassOk(rules, stack, code, r)
  {
    var rule := TopRule(rules, stack);
    match FirstRule(rules, Some(transaction), rule.sequence)
    case None => Leave(Outcome(stack, p, [], ERULES))
    case Some(f) =>
      if code == rules[f].code then Leave(Enter(rules, stack, f, code, p))
      else NextPass(rules, stack, code, p)
  }

  /**
   * Loop entry: the code slot is set to the loop rule's code, StartLoop
   * is reported, a node for the loop's first rule is pushed and, since
   * that rule has the code, counted once and accepted with the same
   * parameters.  The loop rule's own node is not counted.
   */
  function Enter(rules: seq<Rule>, stack: seq<FNode>, f: nat, code: string, p: Params.Parameters): (o: Outcome)
    requires NodesIn(rules, stack) && |stack| > 0 && Params.ValidParameters(p)
    requires f < |rules| && rules[f].code == code
    ensures o.stack == stack + [FNode(f, 1)]
    ensures o.params == Params.SetOne(p, Params.Code, Some(TopRule(rules, stack).code))
    ensures o.events == [StartLoop(o.params), Verdict(o.params)] && o.error == ENONE
    ensures LeaveOk(rules, stack, code, o)
  {
    var q := Params.SetOne(p, Params.Code, Some(TopRule(rules, stack).code));
    var next := stack + [FNode(f, 1)];
    assert forall i :: 0 <= i < |stack| ==> next[i] == stack[i];
    var ev := [StartLoop(q)] + [Verdict(q)];
    CountsOne(StartLoop(q));
    CountsOne(Verdict(q));
    CountsAppend([StartLoop(q)], [Verdict(q)]);
    Outcome(next, q, ev, ENONE)
  }

  /** The `for` loop of `iterate_transaction`: passes until one leaves. */
  function Walk(rules: seq<Rule>, transaction: string, stack: seq<FNode>, code: string, p: Params.Parameters): (r: Outcome)
    requires NodesIn(rules, stack) && |stack| > 0 && Params.ValidParameters(p)
    ensures LeaveOk(rules, stack, code, r)
    decreases Remaining(rules, stack)
  {
    match Step(rules, transaction, stack, code, p)
    case Leave(o) => o
    case Again(next, q, ev) =>
      var rest := Walk(rules, transaction, next, code, q);
      CountsAppend(ev, rest.events);
      assert rest.error == ENONE ==> (ev + rest.events)[|ev + rest.events| - 1] == rest.events[|rest.events| - 1];
      Outcome(rest.stack, rest.params, ev + rest.events, rest.error)
  }

  /** What one entry point leaves behind: the directory, the parameters, the callbacks made, the return code. */
  datatype Iteration = Iteration(fr: Francesco, params: Params.Parameters, events: seq<FEvent>, error: Error)

  predicate Ready(f: Francesco) {
    NodesIn(f.tables.rules, f.stack)
  }

  /**
   * `iterate_transaction`: a NULL code is ECORRUPT with no callback; with
   * no node on the stack the segment is handed on and accepted;
   * otherwise the walk decides.  Only the stack and the parameters change.
   */
  function IterateTransaction(f: Francesco, code: Option<string>, p: Params.Parameters): (r: Iteration)
    requires Ready(f) && Params.ValidParameters(p)
    ensures Ready(r.fr) && r.fr == f.(stack := r.fr.stack)
    ensures code.None? ==> r == Iteration(f, p, [], ECORRUPT)
    ensures code.Some? && |f.stack| == 0 ==> r == Iteration(f, p, [Verdict(p)], ENONE)
    ensures code.Some? && |f.stack| > 0 ==>
      LeaveOk(f.tables.rules, f.stack, code.value, Outcome(r.fr.stack, r.params, r.events, r.error))
    ensures Depth(r.fr.stack) + Ends(r.events) == Depth(f.stack) + Starts(r.events)
  {
    if code.None? then Iteration(f, p, [], ECORRUPT)
    else if |f.stack| == 0 then Iteration(f, p, [Verdict(p)], ENONE)
    else
      var o := Walk(f.tables.rules, f.transaction, f.stack, code.value, p);
      Iteration(f.(stack := o.stack), o.params, o.events, o.error)
  }

  /** Longest transaction name the 16-byte buffer holds, with its terminator. */
  const TransactionCapacity: nat := 15

  /**
   * `start_transaction`: a name with no top-level rule is ETUNKNOWN and
   * changes nothing; otherwise the name is copied and a node on the
   * transaction's first rule is pushed onto the stack as it stands
   * (which is not cleared).  Copying a longer name overruns the buffer,
   * hence the precondition.
   */
  function StartTransaction(f: Francesco, name: Option<string>): (r: Iteration)
    requires Ready(f)
    requires FirstRule(f.tables.rules, name, None).Some? ==> |name.value| <= TransactionCapacity
    ensures Ready(r.fr) && r.events == [] && r.params == Params.EmptyParameters()
    ensures r.error == ETUNKNOWN <==> FirstRule(f.tables.rules, name, None).None?
    ensures r.error == ETUNKNOWN ==> r.fr == f
    ensures r.error != ETUNKNOWN ==>
      && r.error == ENONE && name.Some? && r.fr.transaction == name.value
      && r.fr == f.(stack := r.fr.stack, transaction := r.fr.transaction)
      && r.fr.stack == f.stack + [FNode(FirstRule(f.tables.rules, name, None).value, 0)]
      && r.fr.tables.rules[r.fr.stack[|f.stack|].rule].transaction == name.value
      && r.fr.tables.rules[r.fr.stack[|f.stack|].rule].container.None?
  {
    match FirstRule(f.tables.rules, name, None)
    case None => Iteration(f, Params.EmptyParameters(), [], ETUNKNOWN)
    case Some(first) =>
      var s := f.stack + [FNode(first, 0)];
      assert forall i :: 0 <= i < |f.stack| ==> s[i] == f.stack[i];
      Iteration(f.(stack := s, transaction := name.value), Params.EmptyParameters(), [], ENONE)
  }

  /** `end_transaction`: the stack is emptied, without any EndLoop, and the call always succeeds. */
  function EndTransaction(f: Francesco): (r: Iteration)
    ensures r.fr == f.(stack := []) && r.fr.transaction == f.transaction
    ensures r.error == ENONE && r.events == []
  {
    Iteration(f.(stack := []), Params.EmptyParameters(), [], ENONE)
  }

  // ---------------------------------------------------------------------
  // The matcher's branches
  // ---------------------------------------------------------------------

  /** The top node's rule bound is not yet reached: zero means unlimited. */
  predicate Open(rules: seq<Rule>, s: seq<FNode>)
    requires NodesIn(rules, s) && |s| > 0
  {
    !(TopRule(rules, s).reps != 0 && s[|s| - 1].reps >= TopRule(rules, s).reps)
  }

  /** A segment rule with bound 0 accepts its code however often it has matched already. */
  lemma UnlimitedRule(rules: seq<Rule>, transaction: string, stack: seq<FNode>, code: string, p: Params.Parameters)
    requires NodesIn(rules, stack) && |stack| > 0 && Params.ValidParameters(p)
    requires TopRule(rules, stack).reps == 0 && TopRule(rules, stack).ruleType != LoopType
    requires TopRule(rules, stack).code == code
    ensures var o := Walk(rules, transaction, stack, code, p);
      && o.error == ENONE && o.events == [Verdict(p)] && o.params == p
      && o.stack == stack[|stack| - 1 := stack[|stack| - 1].(reps := stack[|stack| - 1].reps + 1)]
  {
  }

  /** A rule whose bound is reached is passed over even when it has the code. */
  lemma BoundReached(rules: seq<Rule>, transaction: string, stack: seq<FNode>, code: string, p: Params.Parameters)
    requires NodesIn(rules, stack) && |stack| > 0 && Params.ValidParameters(p)
    requires !Open(rules, stack)
    ensures Step(rules, transaction, stack, code, p) == NextPass(rules, stack, code, p)
  {
  }

  /** A mandatory segment rule not yet matched rejects a different code, with no callback and nothing changed. */
  lemma MissingMandatory(rules: seq<Rule>, transaction: string, stack: seq<FNode>, code: string, p: Params.Parameters)
    requires NodesIn(rules, stack) && |stack| > 0 && Params.ValidParameters(p) && Open(rules, stack)
    requires TopRule(rules, stack).ruleType != LoopType && TopRule(rules, stack).code != code
    requires TopRule(rules, stack).requirement == 'M' && stack[|stack| - 1].reps == 0
    ensures Walk(rules, transaction, stack, code, p) == Outcome(stack, p, [], EREQUIRED)
  {
  }

  /**
   * A loop rule whose first rule does not have the code is passed over,
   * mandatory and not yet entered or not: the requirement of a loop is
   * never checked.
   */
  lemma LoopPassedOver(rules: seq<Rule>, transaction: string, stack: seq<FNode>, code: string, p: Params.Parameters)
    requires NodesIn(rules, stack) && |stack| > 0 && Params.ValidParameters(p) && Open(rules, stack)
    requires TopRule(rules, stack).ruleType == LoopType
    requires var f := FirstRule(rules, Some(transaction), TopRule(rules, stack).sequence);
      f.Some? && rules[f.value].code != code
    ensures Step(rules, transaction, stack, code, p) == NextPass(rules, stack, code, p)
  {
  }

  /** A loop rule whose contents have no rule of the transaction is ERULES, with no callback. */
  lemma EmptyLoop(rules: seq<Rule>, transaction: string, stack: seq<FNode>, code: string, p: Params.Parameters)
    requires NodesIn(rules, stack) && |stack| > 0 && Params.ValidParameters(p) && Open(rules, stack)
    requires TopRule(rules, stack).ruleType == LoopType
    requires FirstRule(rules, Some(transaction), TopRule(rules, stack).sequence).None?
    ensures Walk(rules, transaction, stack, code, p) == Outcome(stack, p, [], ERULES)
  {
  }

  /**
   * Entering a loop leaves the loop rule's node as it was: its count is
   * never raised, so a loop rule's bound never stops it from being
   * entered again.
   */
  lemma LoopCountUntouched(rules: seq<Rule>, transaction: string, stack: seq<FNode>, code: string, p: Params.Parameters)
    requires NodesIn(rules, stack) && |stack| > 0 && Params.ValidParameters(p) && Open(rules, stack)
    requires TopRule(rules, stack).ruleType == LoopType
    requires var f := FirstRule(rules, Some(transaction), TopRule(rules, stack).sequence);
      f.Some? && rules[f.value].code == code
    ensures var o := Walk(rules, transaction, stack, code, p);
      && o.error == ENONE && |o.stack| == |stack| + 1
      && o.stack[..|stack|] == stack
      && o.stack[|stack|] == FNode(FirstRule(rules, Some(transaction), TopRule(rules, stack).sequence).value, 1)
      && o.params.values[Params.Code] == Some(TopRule(rules, stack).code)
      && Starts(o.events) == 1
  {
    var o := Walk(rules, transaction, stack, code, p);
    assert o.stack[..|stack|] == stack;
  }

  /** Running off the end of the transaction's top-level chain is ECORRUPT, with no callback, and empties the stack. */
  lemma FallOff(rules: seq<Rule>, transaction: string, node: FNode, code: string, p: Params.Parameters)
    requires node.rule < |rules| && Params.ValidParameters(p)
    requires NextRule(rules, node.rule).None?
    requires var r := rules[node.rule];
      (r.reps != 0 && node.reps >= r.reps)
      || (r.ruleType != LoopType && r.code != code && !(r.requirement == 'M' && node.reps == 0))
    ensures Walk(rules, transaction, [node], code, p) == Outcome([], p, [], ECORRUPT)
  {
    assert NodesIn(rules, [node]);
    assert [node][..0] == [];
  }
}
