/**
 * Shared vocabulary of the library (src/common.h, src/common.c): error
 * codes and the pragma bits that tolerate them, structural event kinds,
 * data representations, interchange types, the delimiter advice, the TSG
 * item record and the element validators.
 */
module Common {
  import opened Wrappers
  import CText

  /** Error codes, in the order of their C enumerators (the order is what the pragma bits hang on). */
  datatype Error =
    | ENONE | EAPP | ECHARSET | ESEGMENT | ESYNTAX | ERULES | EEOF | EGARBAGE
    | EREQUIRED | EENVELOPE | ECORRUPT | ETUNKNOWN | EBADTSG | EITR | EITC
    | EGTR | EGTC | EGMT | EGMV | ETTR | ETTC | EIEMPTY | EGEMPTY | ETEMPTY
    | ENOTTTH | ENOMEM

  /** Every error code, at the index of its C enumerator value. */
  const Errors: seq<Error> := [
    ENONE, EAPP, ECHARSET, ESEGMENT, ESYNTAX, ERULES, EEOF, EGARBAGE,
    EREQUIRED, EENVELOPE, ECORRUPT, ETUNKNOWN, EBADTSG, EITR, EITC,
    EGTR, EGTC, EGMT, EGMV, ETTR, ETTC, EIEMPTY, EGEMPTY, ETEMPTY,
    ENOTTTH, ENOMEM]

  /** The numeric value of an error code. */
  function Ordinal(e: Error): (n: nat)
    ensures n < |Errors| && Errors[n] == e
  {
    match e
    case ENONE => 0 case EAPP => 1 case ECHARSET => 2 case ESEGMENT => 3
    case ESYNTAX => 4 case ERULES => 5 case EEOF => 6 case EGARBAGE => 7
    case EREQUIRED => 8 case EENVELOPE => 9 case ECORRUPT => 10
    case ETUNKNOWN => 11 case EBADTSG => 12 case EITR => 13 case EITC => 14
    case EGTR => 15 case EGTC => 16 case EGMT => 17 case EGMV => 18
    case ETTR => 19 case ETTC => 20 case EIEMPTY => 21 case EGEMPTY => 22
    case ETEMPTY => 23 case ENOTTTH => 24 case ENOMEM => 25
  }

  /** Distinct errors have distinct numeric values. */
  lemma OrdinalInjective(e1: Error, e2: Error)
    requires Ordinal(e1) == Ordinal(e2)
    ensures e1 == e2
  {
  }

  // ---------------------------------------------------------------------
  // Pragma: a bit set of tolerated errors
  // ---------------------------------------------------------------------

  type Pragma = bv32

  /** The numeric value of an error as a shift distance. */
  function Shift(e: Error): (k: bv32)
    ensures k < 32
  {
    match e
    case ENONE => 0 case EAPP => 1 case ECHARSET => 2 case ESEGMENT => 3
    case ESYNTAX => 4 case ERULES => 5 case EEOF => 6 case EGARBAGE => 7
    case EREQUIRED => 8 case EENVELOPE => 9 case ECORRUPT => 10
    case ETUNKNOWN => 11 case EBADTSG => 12 case EITR => 13 case EITC => 14
    case EGTR => 15 case EGTC => 16 case EGMT => 17 case EGMV => 18
    case ETTR => 19 case ETTC => 20 case EIEMPTY => 21 case EGEMPTY => 22
    case ETEMPTY => 23 case ENOTTTH => 24 case ENOMEM => 25
  }

  /** The shift distance is the error's numeric value. */
  lemma ShiftIsOrdinal(e: Error)
    ensures Shift(e) as int == Ordinal(e)
  {
  }

  /** Distinct errors shift by distinct distances. */
  lemma ShiftInjective(e: Error, other: Error)
    requires Shift(e) == Shift(other)
    ensures e == other
  {
  }

  /** Bit `k` of `p | 1 << k` is set, and every other bit is that of `p`. */
  lemma SingleBit(p: bv32, k: bv32, j: bv32)
    requires k < 32 && j < 32
    ensures (p | (1 << k)) & (1 << k) != 0
    ensures k != j ==> ((p | (1 << k)) & (1 << j) != 0 <==> p & (1 << j) != 0)
  {
  }

  /** The pragma bit of an error: one shifted left by the error's numeric value. */
  function Flag(e: Error): (f: Pragma)
  {
    1 << Shift(e)
  }

  const PNONE: Pragma := 0
  const PCHARSET: Pragma := Flag(ECHARSET)
  const PSEGMENT: Pragma := Flag(ESEGMENT)
  const PTUNKNOWN: Pragma := Flag(ETUNKNOWN)
  const PCORRUPT: Pragma := Flag(ECORRUPT)
  const PREQUIRED: Pragma := Flag(EREQUIRED)

  /** The pragma a fresh parser starts with. */
  const DefaultPragma: Pragma := PCHARSET | PTUNKNOWN | PSEGMENT

  /** An error is downgraded to a warning when its bit is set in the pragma. */
  predicate Tolerates(p: Pragma, e: Error) {
    p & Flag(e) != 0
  }

  /** Tolerance of `e` is exactly bit number `Ordinal(e)` of the pragma. */
  lemma ToleratesIsBit(p: Pragma, e: Error)
    ensures Tolerates(p, e) <==> (p >> Shift(e)) & 1 == 1
  {
    var k := Shift(e);
    assert k < 32;
  }

  /** Setting an error's bit makes the pragma tolerate that error. */
  lemma FlagTolerates(p: Pragma, e: Error)
    ensures Tolerates(p | Flag(e), e)
  {
    SingleBit(p, Shift(e), Shift(e));
  }

  /** Setting one error's bit leaves every other error's tolerance alone. */
  lemma FlagIsolated(p: Pragma, e: Error, other: Error)
    requires other != e
    ensures Tolerates(p | Flag(e), other) <==> Tolerates(p, other)
  {
    var k, j := Shift(e), Shift(other);
    if k == j { ShiftInjective(e, other); }
    BitIsolated(p, k, j, Flag(e), Flag(other));
  }

  /** Or-ing in one bit leaves a different bit alone: the two single-bit masks share no bit. */
  lemma BitIsolated(p: bv32, k: bv32, j: bv32, fk: bv32, fj: bv32)
    requires k < 32 && j < 32 && k != j && fk == 1 << k && fj == 1 << j
    ensures (p | fk) & fj != 0 <==> p & fj != 0
  {
    assert (p | fk) & fj == (p & fj) | (fk & fj);
    assert fk & fj == 0;
  }

  /** A fresh parser tolerates exactly the character-set, segment and unknown-transaction errors. */
  lemma DefaultPragmaTolerates(e: Error)
    ensures Tolerates(DefaultPragma, e) <==> e in {ECHARSET, ESEGMENT, ETUNKNOWN}
  {
    var k := Shift(e);
    assert DefaultPragma == 0x0000_080C;
    assert DefaultPragma & (1 << k) != 0 <==> k == 2 || k == 3 || k == 11;
  }

  // ---------------------------------------------------------------------
  // Event kinds, data representations, interchange types
  // ---------------------------------------------------------------------

  /** Structural event kinds, in C enumerator order. */
  datatype EventKind =
    | NONE | INTERCHANGE | ADVICE | GROUP | TRANSACTION | SECTION | LOOP
    | SEGMENT | TAG | COMPOSITE | ELEMENT | TS | ES | SS | ST | RI

  /** Data representations, in C enumerator order. */
  datatype DataType =
    | ISO2382X | ISO2382A | ISO2382N | DECIMAL1 | DECIMAL2 | DECIMAL3 | DECIMAL4
    | INTEGER | REAL | INT | LONG | FLOAT | DOUBLE

  /** Alias names the header defines for representations. */
  const ENUMLIST: DataType := ISO2382X
  const TIMESPEC: DataType := ISO2382N
  const DATESPEC: DataType := ISO2382N
  const TRADACOMS1: DataType := DECIMAL1
  const TRADACOMS2: DataType := DECIMAL2
  const TRADACOMS3: DataType := DECIMAL3
  const TRADACOMS4: DataType := DECIMAL4

  /** The syntaxes the parser can morph into. */
  datatype InterchangeType = UNKNOWN | EDIFACT | UNGTDI | X12 | IMP

  /** `EDI_ANY` is the same value as `EDI_UNKNOWN`. */
  const ANY: InterchangeType := UNKNOWN

  function ItypeOrdinal(t: InterchangeType): (n: nat)
    ensures n <= 4
    ensures n == 0 <==> t == ANY
  {
    match t
    case UNKNOWN => 0 case EDIFACT => 1 case UNGTDI => 2 case X12 => 3 case IMP => 4
  }

  // ---------------------------------------------------------------------
  // Descriptive strings
  // ---------------------------------------------------------------------

  /** What the string functions return for a value outside their enumeration. */
  const BugString := "This shouldn't happen - please file a bug report"

  const ItypeNames: seq<string> := ["Unknown", "UN/EDIFACT", "UN(G)TDI", "ASC X12", "Cargo IMP"]

  const ErrorMessages: seq<string> := [
    "Success", "Application error", "Character not allowed in character set",
    "Segment contains invalid elements", "Unknown syntax", "Rules corrupt",
    "Premature end of file", "Trailing garbage", "Required segment missing",
    "Envelope corrupt", "Transaction corrupt", "Unknown transaction", "TSG badness",
    "Interchange trailer reference mismatch", "Interchange trailer count incorrect",
    "Functional group trailer reference mismatch", "Functional group trailer count incorrect",
    "Functional group contains mixed transaction types",
    "Functional group contains mixed transaction versions",
    "Transaction trailer reference mismatch", "Transaction trailer count incorrect",
    "Interchange contains no transactions", "Functional group contains no transactions",
    "Transaction contains no segments", "No transaction type in transaction header",
    "Memory allocation error"]

  const EventNames: seq<string> := [
    "none", "interchange", "servicestringadvice", "functionalgroup", "transaction",
    "section", "loop", "segment", "tag", "composite", "element", "ts", "es", "ss",
    "st", "ri"]

  /** Name of an interchange type given by its numeric value; total, with a fallback. */
  function ItypeString(code: int): (s: string)
    ensures 0 <= code < |ItypeNames| ==> s == ItypeNames[code]
    ensures (0 <= code < |ItypeNames|) <==> s != BugString
  {
    if 0 <= code < |ItypeNames| then ItypeNames[code] else BugString
  }

  /** Message of an error given by its numeric value; total, with a fallback. */
  function ErrorString(code: int): (s: string)
    ensures 0 <= code < |Errors| ==> s == ErrorMessages[code]
    ensures (0 <= code < |Errors|) <==> s != BugString
  {
    if 0 <= code < |ErrorMessages| then ErrorMessages[code] else BugString
  }

  /** Name of an event kind given by its numeric value; total, with the fallback "unknown". */
  function EventString(code: int): (s: string)
    ensures 0 <= code < |EventNames| ==> s == EventNames[code]
    ensures (0 <= code < |EventNames|) <==> s != "unknown"
  {
    if 0 <= code < |EventNames| then EventNames[code] else "unknown"
  }

  /** Every error has its own message. */
  lemma ErrorMessagesDistinct(i: nat, j: nat)
    requires i < j < |ErrorMessages|
    ensures ErrorMessages[i] != ErrorMessages[j]
  {
    assert forall a, b :: 0 <= a < b < |ErrorMessages| ==>
      ErrorMessages[a] != ErrorMessages[b];
  }

  // ---------------------------------------------------------------------
  // Delimiter advice
  // ---------------------------------------------------------------------

  /** The seven delimiters a stream can announce. */
  datatype Delimiter =
    | RepetitionSep | TagSep | ElementSep | SubelementSep | SegmentTerm
    | ReleaseInd | DecimalMark

  /** One delimiter: its character and whether it is in force. */
  datatype Setting = Setting(ch: char, active: bool)

  datatype Advice = Advice(
    rs: Setting, ts: Setting, es: Setting, ss: Setting, st: Setting,
    ri: Setting, dn: Setting, hasSsa: bool)

  /** The setting of one delimiter (`edi_advice_get_*`: the character, and 1 iff active). */
  function Get(a: Advice, d: Delimiter): Setting {
    match d
    case RepetitionSep => a.rs
    case TagSep => a.ts
    case ElementSep => a.es
    case SubelementSep => a.ss
    case SegmentTerm => a.st
    case ReleaseInd => a.ri
    case DecimalMark => a.dn
  }

  /** `edi_advice_set_*(a, active, c)`: any non-zero `active` activates the delimiter. */
  function Set(a: Advice, d: Delimiter, active: int, c: char): (r: Advice)
    ensures Get(r, d) == Setting(c, active != 0)
    ensures forall other :: other != d ==> Get(r, other) == Get(a, other)
    ensures r.hasSsa == a.hasSsa
  {
    var s := Setting(c, active != 0);
    match d
    case RepetitionSep => a.(rs := s)
    case TagSep => a.(ts := s)
    case ElementSep => a.(es := s)
    case SubelementSep => a.(ss := s)
    case SegmentTerm => a.(st := s)
    case ReleaseInd => a.(ri := s)
    case DecimalMark => a.(dn := s)
  }

  /** `edi_advice_init`: every delimiter a blank and inactive, no service string advice seen. */
  function InitAdvice(): (a: Advice)
    ensures forall d :: Get(a, d) == Setting(' ', false)
    ensures !a.hasSsa
  {
    var blank := Setting(' ', false);
    Advice(blank, blank, blank, blank, blank, blank, blank, false)
  }

  /** `edi_advice_is_*`: `c` is the delimiter's character and the delimiter is active. */
  predicate IsDelimiter(a: Advice, d: Delimiter, c: char) {
    Get(a, d).active && Get(a, d).ch == c
  }

  /** A freshly initialised advice recognises no character as a delimiter. */
  lemma InitAdviceRecognisesNothing(d: Delimiter, c: char)
    ensures !IsDelimiter(InitAdvice(), d, c)
  {
  }

  // ---------------------------------------------------------------------
  // TSG items
  // ---------------------------------------------------------------------

  /** `edi_item_t`: `reps`, `min` and `max` are unsigned 32-bit fields. */
  datatype Item = Item(
    code: Option<string>, name: Option<string>, desc: Option<string>, note: Option<string>,
    itemType: int, reqr: int, reps: nat, min: nat, max: nat, repr: DataType)

  /** `EDI_NULL_ITEM`: every pointer NULL and every number 0. */
  const NullItem: Item := Item(None, None, None, None, 0, 0, 0, 0, 0, ISO2382X)

  const U32Modulus: nat := 0x1_0000_0000

  /** An `int` stored into an `unsigned int` field wraps modulo 2^32. */
  function ToU32(x: int): (r: nat)
    ensures r < U32Modulus
    ensures 0 <= x < U32Modulus ==> r == x
    ensures (r - x) % U32Modulus == 0
  {
    x % U32Modulus
  }

  // ---------------------------------------------------------------------
  // Element validators
  // ---------------------------------------------------------------------

  /** Number of characters of `s[n..]` that are not digits. */
  function NonDigits(s: string): nat {
    if |s| == 0 then 0 else NonDigits(s[..|s| - 1]) + (if CText.IsDigit(s[|s| - 1]) then 0 else 1)
  }

  predicate DigitFree(s: string) {
    forall i :: 0 <= i < |s| ==> !CText.IsDigit(s[i])
  }

  /** The loop of `edi_validate_edifact_alpha` over `e[n..]`, carrying its length and success flag. */
  function AlphaScan(e: string, n: nat, length: nat, success: bool): (r: (nat, bool))
    requires n <= |e|
    ensures r.1 <==> success && DigitFree(e[n..])
    ensures r.1 ==> r.0 == length + |e| - n
    decreases |e| - n
  {
    if n == |e| then (length, success)
    else if CText.IsDigit(e[n]) then AlphaScan(e, n + 1, length, false)
    else AlphaScan(e, n + 1, length + 1, success)
  }

  /**
   * `edi_validate_edifact_alpha` (ISO 9735 clause A.1: anything but a digit):
   * 1 for a non-empty digit-free string and 0 otherwise, including NULL.
   */
  function ValidateAlpha(element: Option<string>): (r: nat)
    ensures r <= 1
    ensures r == 1 <==> element.Some? && |element.value| > 0 && DigitFree(element.value)
  {
    if element.None? then 0
    else
      var (length, success) := AlphaScan(element.value, 0, 0, true);
      assert element.value[0..] == element.value;
      if success && length != 0 then 1 else 0
  }

  /** `edi_validate_edifact_alphanumeric`: the string's length, 0 for NULL. */
  function ValidateAlphanumeric(element: Option<string>): (r: nat)
    ensures element.Some? ==> r == |element.value|
    ensures element.None? ==> r == 0
  {
    if element.None? then 0 else |element.value|
  }

  /** A character strictly between '0' and '9', the test `edi_validate_integer_numeric` makes. */
  predicate StrictlyInsideDigits(c: char) {
    '0' < c < '9'
  }

  /** The loop of `edi_validate_integer_numeric` over `e[n..]`. */
  function IntegerScan(e: string, n: nat, length: nat, success: bool): (r: (nat, bool))
    requires n <= |e|
    ensures r.1 <==> success && forall i :: n <= i < |e| ==> StrictlyInsideDigits(e[i])
    ensures r.1 ==> r.0 == length + |e| - n
    decreases |e| - n
  {
    if n == |e| then (length, success)
    else if !StrictlyInsideDigits(e[n]) then IntegerScan(e, n + 1, length, false)
    else IntegerScan(e, n + 1, length + 1, success)
  }

  /**
   * `edi_validate_integer_numeric`: the length when every character is
   * strictly between '0' and '9' (so '0' and '9' themselves fail), else 0.
   */
  function ValidateIntegerNumeric(element: Option<string>): (r: nat)
    ensures element.None? ==> r == 0
    ensures element.Some? && (forall i :: 0 <= i < |element.value| ==> StrictlyInsideDigits(element.value[i]))
      ==> r == |element.value|
    ensures element.Some? && (exists i :: 0 <= i < |element.value| && !StrictlyInsideDigits(element.value[i]))
      ==> r == 0
  {
    if element.None? then 0
    else
      var (length, success) := IntegerScan(element.value, 0, 0, true);
      if success then length else 0
  }

  /** The length measure `edi_validate_element` applies for a representation. */
  function MeasuredLength(e: string, t: DataType, numeric: string -> nat): nat {
    match t
    case ISO2382X => ValidateAlphanumeric(Some(e))
    case ISO2382A => ValidateAlpha(Some(e))
    case ISO2382N => numeric(e)
    case DECIMAL1 => ValidateIntegerNumeric(Some(e))
    case DECIMAL2 => ValidateIntegerNumeric(Some(e))
    case DECIMAL3 => ValidateIntegerNumeric(Some(e))
    case DECIMAL4 => ValidateIntegerNumeric(Some(e))
    case _ => |e|
  }

  /**
   * `edi_validate_element`: an absent or empty element is valid exactly
   * when its minimum size is 0; otherwise the representation's length
   * measure must be non-zero and within [min, max].  `numeric` stands for
   * the EDIFACT numeric automaton, which is not part of this model.
   */
  function ValidateElement(element: Option<string>, t: DataType, min: nat, max: nat,
                           numeric: string -> nat): (ok: bool)
    ensures (element.None? || element.value == []) ==> (ok <==> min == 0)
    ensures ok && element.Some? && element.value != [] ==> min <= max
  {
    if element.None? || element.value == [] then min == 0
    else
      var length := MeasuredLength(element.value, t, numeric);
      length != 0 && min <= length <= max
  }

  /** A free-text (ISO 2382 X) element is valid iff its length is within the bounds. */
  lemma ValidateFreeText(e: string, min: nat, max: nat, numeric: string -> nat)
    requires |e| > 0
    ensures ValidateElement(Some(e), ISO2382X, min, max, numeric) <==> min <= |e| <= max
  {
  }

  /**
   * An alphabetic element is measured as 1, not by its length: it is valid
   * iff it is digit-free and 1 lies within [min, max].
   */
  lemma ValidateAlphabetic(e: string, min: nat, max: nat, numeric: string -> nat)
    requires |e| > 0
    ensures ValidateElement(Some(e), ISO2382A, min, max, numeric)
      <==> DigitFree(e) && min <= 1 <= max
  {
  }

  /** An implied-decimal element is valid iff it uses only '1'..'8' and its length is within the bounds. */
  lemma ValidateImpliedDecimal(e: string, t: DataType, min: nat, max: nat, numeric: string -> nat)
    requires |e| > 0
    requires t in {DECIMAL1, DECIMAL2, DECIMAL3, DECIMAL4}
    ensures ValidateElement(Some(e), t, min, max, numeric)
      <==> (forall i :: 0 <= i < |e| ==> StrictlyInsideDigits(e[i])) && min <= |e| <= max
  {
  }

  // ---------------------------------------------------------------------
  // Element evaluation (integer branches)
  // ---------------------------------------------------------------------

  /** The power of ten an implied-decimal representation divides by, 1 for any other. */
  function DecimalScale(criteria: DataType): (d: nat)
    ensures d >= 1
  {
    match criteria
    case DECIMAL1 => 10
    case DECIMAL2 => 100
    case DECIMAL3 => 1000
    case DECIMAL4 => 10000
    case _ => 1
  }

  /**
   * The `INT` and `LONG` branches of `edi_evaluate_element`: `atoi` of the
   * element (0 for NULL), divided with truncation toward zero by the
   * representation's scale.  `None` means nothing is written: the floating
   * branches are outside this model and any other target type writes nothing.
   */
  function EvaluateElement(criteria: DataType, element: Option<string>, target: DataType): (r: Option<int>)
    ensures r.Some? <==> target in {INT, LONG}
    ensures r.Some? ==>
      var a := if element.Some? then CText.Atoi(element.value) else 0;
      var d := DecimalScale(criteria);
      (a >= 0 ==> 0 <= a - r.value * d < d) && (a < 0 ==> 0 - d < a - r.value * d <= 0)
  {
    if target == INT || target == LONG then
      var a := if element.Some? then CText.Atoi(element.value) else 0;
      Some(CText.TruncDiv(a, DecimalScale(criteria)))
    else None
  }

  /** A number written with `%d` evaluates, as a plain integer, to itself. */
  lemma EvaluateFormattedInteger(n: int)
    ensures EvaluateElement(INTEGER, Some(CText.FormatInt(n)), INT) == Some(n)
  {
    CText.AtoiFormatInt(n);
    assert DecimalScale(INTEGER) == 1;
    assert CText.TruncDiv(n, 1) == n;
  }
}
