/**
 * Envelope parameters (src/prmtrs.h, src/prmtrs.c): a dense table of
 * optional strings indexed by parameter key, filled from a list of
 * (key, value) pairs that ends at the first key 0 (`LastParameter`).
 * The variable argument list becomes a sequence of pairs.
 */
module Params {
  import opened Wrappers

  // Parameter keys, with their C enumerator values.
  const LastParameter: nat := 0
  const MinParameter: nat := 1
  const Code: nat := 2
  const Name: nat := 3
  const Desc: nat := 4
  const Note: nat := 5
  const List: nat := 6
  const Context: nat := 7
  const Standard: nat := 8
  const Element: nat := 9
  const Subelement: nat := 10
  const AcknowledgementRequest: nat := 11
  const AddressForReverseRouting: nat := 12
  const ApplicationPassword: nat := 13
  const ApplicationReference: nat := 14
  const AssociationAssignedCode: nat := 15
  const CommonAccessReference: nat := 16
  const CommunicationsAgreementID: nat := 17
  const ControllingAgency: nat := 18
  const Date: nat := 19
  const FirstAndLastTransfer: nat := 20
  const FreeFormText: nat := 21
  const FunctionalGroupId: nat := 22
  const FunctionalGroupReferenceNumber: nat := 23
  const InterchangeControlCount: nat := 24
  const InterchangeControlReference: nat := 25
  const MessageReferenceNumber: nat := 26
  const MessageReleaseNumber: nat := 27
  const MessageType: nat := 28
  const MessageVersionNumber: nat := 29
  const NumberOfMessages: nat := 30
  const NumberOfSegmentsInTheMessage: nat := 31
  const PartnerIdCodeQualifier: nat := 32
  const ProcessingPriorityCode: nat := 33
  const RecipientsId: nat := 34
  const RecipientsIdCodeQualifier: nat := 35
  const RecipientsName: nat := 36
  const RecipientsReference: nat := 37
  const RecipientsReferencePassword: nat := 38
  const RecipientsReferencePasswordQualifier: nat := 39
  const RoutingAddress: nat := 40
  const SectionId: nat := 41
  const SendersId: nat := 42
  const SendersIdCodeQualifier: nat := 43
  const SendersName: nat := 44
  const SendersReference: nat := 45
  const SequenceOfTransfers: nat := 46
  const ServiceStringAdvice: nat := 47
  const SyntaxIdentifier: nat := 48
  const SyntaxVersionNumber: nat := 49
  const TestIndicator: nat := 50
  const TextReferenceCode: nat := 51
  const TransactionCode: nat := 52
  const TransactionType: nat := 53
  const Time: nat := 54
  const TagSeparator: nat := 55
  const SubelementSeparator: nat := 56
  const ElementSeparator: nat := 57
  const DecimalNotation: nat := 58
  const ReleaseIndicator: nat := 59
  const RepetitionSeparator: nat := 60
  const SegmentTerminator: nat := 61
  const MaxParameter: nat := 62

  /** `edi_parameters_t`: one slot per key below `MaxParameter`, plus two integers the setters never touch. */
  datatype Parameters = Parameters(values: seq<Option<string>>, element: nat, subelement: nat)

  predicate ValidParameters(p: Parameters) {
    |p.values| == MaxParameter
  }

  /** A structure with every slot NULL. */
  function EmptyParameters(): (p: Parameters)
    ensures ValidParameters(p)
    ensures forall k :: 0 <= k < MaxParameter ==> p.values[k].None?
  {
    Parameters(seq(MaxParameter, _ => None), 0, 0)
  }

  /** One argument pair of `edi_parameters_set`. */
  type Pair = (nat, Option<string>)

  /** Every key the call would store to is a slot of the table. */
  predicate KeysInRange(pairs: seq<Pair>) {
    forall i :: 0 <= i < |pairs| ==> pairs[i].0 < MaxParameter
  }

  /** The pairs the call reads: those before the first 0 key. */
  function Active(pairs: seq<Pair>): (a: seq<Pair>)
    ensures a <= pairs
    ensures forall i :: 0 <= i < |a| ==> a[i].0 != LastParameter
    ensures |a| < |pairs| ==> pairs[|a|].0 == LastParameter
  {
    if |pairs| == 0 || pairs[0].0 == LastParameter then []
    else [pairs[0]] + Active(pairs[1..])
  }

  /** No 0 key: every pair is read. */
  lemma {:induction false} ActiveAll(pairs: seq<Pair>)
    requires forall i :: 0 <= i < |pairs| ==> pairs[i].0 != LastParameter
    ensures Active(pairs) == pairs
    decreases |pairs|
  {
    if |pairs| > 0 {
      assert forall i :: 0 <= i < |pairs[1..]| ==> pairs[1..][i] == pairs[i + 1];
      ActiveAll(pairs[1..]);
      assert pairs == [pairs[0]] + pairs[1..];
    }
  }

  /** The value of the last pair with key `k`, if there is one: the assignment that survives. */
  function LastAssigned(pairs: seq<Pair>, k: nat): Option<Option<string>> {
    if |pairs| == 0 then None
    else if pairs[|pairs| - 1].0 == k then Some(pairs[|pairs| - 1].1)
    else LastAssigned(pairs[..|pairs| - 1], k)
  }

  /** With distinct keys, a key's last assignment is its only one, and an absent key has none. */
  lemma {:induction false} LastAssignedDistinct(pairs: seq<Pair>, k: nat)
    requires forall i, j :: 0 <= i < j < |pairs| ==> pairs[i].0 != pairs[j].0
    ensures (forall i :: 0 <= i < |pairs| ==> pairs[i].0 != k) ==> LastAssigned(pairs, k).None?
    ensures forall i :: 0 <= i < |pairs| && pairs[i].0 == k ==> LastAssigned(pairs, k) == Some(pairs[i].1)
    decreases |pairs|
  {
    if |pairs| > 0 {
      var init := pairs[..|pairs| - 1];
      assert forall i :: 0 <= i < |init| ==> init[i] == pairs[i];
      LastAssignedDistinct(init, k);
    }
  }

  /** The assignment loop of `edi_parameters_set`, front to back, stopping at a 0 key. */
  function Assign(values: seq<Option<string>>, pairs: seq<Pair>): (r: seq<Option<string>>)
    requires KeysInRange(pairs) && |values| == MaxParameter
    ensures |r| == MaxParameter
    decreases |pairs|
  {
    if |pairs| == 0 || pairs[0].0 == LastParameter then values
    else Assign(values[pairs[0].0 := pairs[0].1], pairs[1..])
  }

  /** After the loop, a slot holds the last value assigned to it, or what it held before. */
  lemma {:induction false} AssignIsLastAssigned(values: seq<Option<string>>, pairs: seq<Pair>, k: nat)
    requires KeysInRange(pairs) && |values| == MaxParameter && k < MaxParameter
    ensures Assign(values, pairs)[k] == LastAssigned(Active(pairs), k).GetOr(values[k])
    decreases |pairs|
  {
    if |pairs| > 0 && pairs[0].0 != LastParameter {
      var head, rest := pairs[0], pairs[1..];
      AssignIsLastAssigned(values[head.0 := head.1], rest, k);
      LastAssignedCons(head, Active(rest), k);
    }
  }

  /** Looking up the last assignment in a list with one pair in front. */
  lemma {:induction false} LastAssignedCons(head: Pair, rest: seq<Pair>, k: nat)
    ensures LastAssigned([head] + rest, k)
      == if LastAssigned(rest, k).Some? then LastAssigned(rest, k)
         else if head.0 == k then Some(head.1) else None
    decreases |rest|
  {
    if |rest| == 0 {
      assert [head] + rest == [head];
      assert [head][..0] == [];
    } else {
      var all := [head] + rest;
      assert all[..|all| - 1] == [head] + rest[..|rest| - 1];
      LastAssignedCons(head, rest[..|rest| - 1], k);
    }
  }

  /**
   * `edi_parameters_set(p, k1, v1, k2, v2, ..., 0)`: every slot is cleared,
   * then the pairs are assigned in order up to the first 0 key, so a later
   * pair with the same key wins.  The integer fields are untouched.
   */
  function Set(p: Parameters, pairs: seq<Pair>): (r: Parameters)
    requires KeysInRange(pairs)
    ensures ValidParameters(r)
    ensures r.element == p.element && r.subelement == p.subelement
    ensures forall k :: 0 <= k < MaxParameter ==>
      r.values[k] == LastAssigned(Active(pairs), k).GetOr(None)
  {
    var cleared := EmptyParameters().values;
    var values := Assign(cleared, pairs);
    forall k | 0 <= k < MaxParameter
      ensures values[k] == LastAssigned(Active(pairs), k).GetOr(None)
    {
      AssignIsLastAssigned(cleared, pairs, k);
    }
    Parameters(values, p.element, p.subelement)
  }

  /** `edi_parameters_set_one`: exactly one slot changes. */
  function SetOne(p: Parameters, k: nat, v: Option<string>): (r: Parameters)
    requires ValidParameters(p) && k < MaxParameter
    ensures ValidParameters(r)
    ensures r.values[k] == v
    ensures forall j :: 0 <= j < MaxParameter && j != k ==> r.values[j] == p.values[j]
    ensures r.element == p.element && r.subelement == p.subelement
  {
    p.(values := p.values[k := v])
  }

  /** `edi_parameters_get`: the stored slot, NULL when unset since the last clear. */
  function Get(p: Parameters, k: nat): (v: Option<string>)
    requires ValidParameters(p) && k < MaxParameter
  {
    p.values[k]
  }

  /** What one key's slot reads after `set`: the last pair for it, or NULL. */
  lemma GetAfterSet(p: Parameters, pairs: seq<Pair>, k: nat, v: Option<string>)
    requires KeysInRange(pairs) && k < MaxParameter
    requires Active(pairs) == [(k, v)]
    ensures Get(Set(p, pairs), k) == v
    ensures forall j :: 0 <= j < MaxParameter && j != k ==> Get(Set(p, pairs), j).None?
  {
    var a := Active(pairs);
    assert a[..0] == [];
    forall j | 0 <= j < MaxParameter && j != k
      ensures LastAssigned(a, j) == None
    {
      assert LastAssigned(a, j) == LastAssigned(a[..0], j);
    }
  }

  /** `edi_parameters_set` with one pair on a fresh structure: that key holds the value, every other key is unset. */
  function Single(k: nat, v: Option<string>): (p: Parameters)
    requires MinParameter <= k < MaxParameter
    ensures ValidParameters(p) && p.values[k] == v
    ensures forall j :: 0 <= j < MaxParameter && j != k ==> p.values[j].None?
  {
    var pairs := [(k, v)];
    var r := Set(EmptyParameters(), pairs);
    assert Active(pairs) == pairs;
    GetAfterSet(EmptyParameters(), pairs, k, v);
    assert forall j :: 0 <= j < MaxParameter ==> r.values[j] == Get(r, j);
    r
  }

  /** Pairs with distinct non-zero keys: each key holds its value, and every other key is unset. */
  lemma SetDistinct(p: Parameters, pairs: seq<Pair>)
    requires KeysInRange(pairs)
    requires forall i :: 0 <= i < |pairs| ==> pairs[i].0 != LastParameter
    requires forall i, j :: 0 <= i < j < |pairs| ==> pairs[i].0 != pairs[j].0
    ensures forall i :: 0 <= i < |pairs| ==> Set(p, pairs).values[pairs[i].0] == pairs[i].1
    ensures forall k :: 0 <= k < MaxParameter && (forall i :: 0 <= i < |pairs| ==> pairs[i].0 != k) ==>
      Set(p, pairs).values[k].None?
  {
    ActiveAll(pairs);
    forall k | 0 <= k < MaxParameter
      ensures (forall i :: 0 <= i < |pairs| ==> pairs[i].0 != k) ==> LastAssigned(pairs, k).None?
      ensures forall i :: 0 <= i < |pairs| && pairs[i].0 == k ==> LastAssigned(pairs, k) == Some(pairs[i].1)
    {
      LastAssignedDistinct(pairs, k);
    }
  }

  /** A later pair for the same key overrides an earlier one. */
  lemma LaterPairWins(p: Parameters, k: nat, v1: Option<string>, v2: Option<string>)
    requires 0 < k < MaxParameter
    ensures Get(Set(p, [(k, v1), (k, v2)]), k) == v2
  {
    var pairs: seq<Pair> := [(k, v1), (k, v2)];
    assert Active(pairs) == pairs by {
      assert pairs[1..] == [(k, v2)];
      assert pairs[1..][1..] == [];
    }
  }

  const ParameterNames: seq<string> := [
    "LastParameter", "MinParameter", "Code", "Name", "Desc", "Note", "List",
    "Context", "Standard", "Element", "Subelement",
    "AcknowledgementRequest", "AddressForReverseRouting", "ApplicationPassword",
    "ApplicationReference", "AssociationAssignedCode", "CommonAccessReference",
    "CommunicationsAgreementID", "ControllingAgency", "Date", "FirstAndLastTransfer",
    "FreeFormText", "FunctionalGroupId", "FunctionalGroupReferenceNumber",
    "InterchangeControlCount", "InterchangeControlReference", "MessageReferenceNumber",
    "MessageReleaseNumber", "MessageType", "MessageVersionNumber", "NumberOfMessages",
    "NumberOfSegmentsInTheMessage", "PartnerIdCodeQualifier", "ProcessingPriorityCode",
    "RecipientsId", "RecipientsIdCodeQualifier", "RecipientsName", "RecipientsReference",
    "RecipientsReferencePassword", "RecipientsReferencePasswordQualifier", "RoutingAddress",
    "SectionId", "SendersId", "SendersIdCodeQualifier", "SendersName", "SendersReference",
    "SequenceOfTransfers", "ServiceStringAdvice", "SyntaxIdentifier", "SyntaxVersionNumber",
    "TestIndicator", "TextReferenceCode", "TransactionCode:", "TransactionType", "Time",
    "TagSeparator", "SubelementSeparator", "ElementSeparator", "DecimalNotation",
    "ReleaseIndicator", "RepetitionSeparator", "SegmentTerminator", "MaxParameter"]

  const UndefinedParameterString := "UndefinedParameterString"

  /**
   * `edi_parameters_get_string`: every enumerator, the two sentinels
   * included, has its name; any other value gets a fixed fallback.
   */
  function GetString(code: int): (s: string)
    ensures 0 <= code <= MaxParameter ==> s == ParameterNames[code]
    ensures !(0 <= code <= MaxParameter) ==> s == UndefinedParameterString
  {
    if 0 <= code < |ParameterNames| then ParameterNames[code] else UndefinedParameterString
  }
}
