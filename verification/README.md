# medici core in Dafny

A model of the core of medici, a streaming parser for EDI interchanges
(EDIFACT, ANSI X12, UN/GTDI Tradacoms and IMP) written in C, together with the
two components of its example programs that the XML converters are built on:
the PYX line reader and the XML writer.

The parser reads an interchange a character at a time.  The tokeniser
(`Tokens`) cuts the text into tokens at the segment terminator and the element,
subelement and release characters.  It hands each token to the parser's token
handler (`Parser`), which fills a segment grid (`Segments`).  The syntax
dialect's segment handler (`Edifact`, `X12`, `Ungtdi`, `Imp`) checks each
segment against the envelope.  It pushes and pops the envelope stack, raises
errors and counts segments and messages (`ParserState`, `Envelope`).  It
consults a message directory, either a tree built from a TSG description
(`Giovanni`) or compiled tables (`Francesco`), behind the common `Directory`
interface.

The C callbacks become events appended to a log in the parser state.  An event
that a user handler receives is logged only when that handler is installed.
Storage is modelled as values: lists, trees, buffers and hash tables are
sequences, datatypes and maps (`Adt`); parameter structures are maps from
parameter keys (`Params`).  C strings are `seq<char>`, and `CText` holds the
libc functions the core uses (`atoi`, `strncmp`, the C string of an array).

Each dialect handler is written as a plan of actions (hand the segment on,
push, pop, raise an error, count) that `ParserState.Perform` carries out.  The
lemmas about a handler state, for each segment in each envelope context, which
errors are raised, what the stack becomes and what the counters hold.

## Model

| member | source | states |
|---|---|---|
| Adt.PushKey | src/adt.c:72-91 | the node is added at the tail and every earlier node keeps its place |
| Adt.Push | src/adt.c:65-69 | the datum is added at the tail, the list is otherwise unchanged |
| Adt.Pop | src/adt.c:94-118 | an empty list yields NULL unchanged; otherwise the tail is removed and its datum returned |
| Adt.Peek | src/adt.c:121-125 | yields what a pop would return, without removing it |
| Adt.Shift | src/adt.c:128-153 | an empty list yields NULL unchanged; otherwise the head is removed and its datum returned |
| Adt.UnshiftKey | src/adt.c:164-185 | the node is added at the head and the old nodes follow it |
| Adt.PopAfterPush | src/adt.c:72-118 | popping right after a push gives back the old list and the pushed datum |
| Adt.ShiftAfterUnshift | src/adt.c:128-185 | shifting right after an unshift gives back the old list and the datum |
| Adt.QueueOrder | src/adt.c:65-153 | push at the tail and shift at the head behave as a queue |
| Adt.Drain | src/adt.c:194-202 | the list is emptied and the data go to the free function head first |
| Adt.Clear | src/adt.c:205-213 | the list is emptied |
| Adt.ClearIsReversedDrain | src/adt.c:194-213 | clearing frees the same data as draining, tail first |
| Adt.FindIndex | src/adt.c:222-232 | the first node from the head whose key compares equal, or none when no key does |
| Adt.Find | src/adt.c:234-243 | the datum of the first matching node, NULL when nothing matches |
| Adt.FindAfterPush | src/adt.c:65-91 | a node pushed at the tail is found only when no earlier node matches |
| Adt.EmptyTree | src/adt.c:252-256 | a new tree is ordered and holds no association |
| Adt.FindNode | src/adt.c:324-357 | in an ordered tree the walk finds a node exactly when the key is in the tree, and the node is live exactly when the key is associated |
| Adt.Exists | src/adt.c:413-423 | true exactly when a live node holds the key |
| Adt.TreeFind | src/adt.c:425-435 | the associated datum, NULL when the key has no live node |
| Adt.Insert | src/adt.c:359-384 | returns 0 and leaves the tree alone exactly when the key is live; otherwise returns 1 and the key maps to the datum; the order is kept |
| Adt.Delete | src/adt.c:386-400 | the key loses its association, the node stays, the old datum is returned, the order is kept |
| Adt.Replace | src/adt.c:402-411 | the key maps to the new datum, the old one is handed back, the result is 1 |
| Adt.ReinsertRevives | src/adt.c:359-400 | deleting and reinserting a key revives its node rather than adding one |
| Adt.EmptyBuffer | src/adt.c:444-449 | a new buffer holds no bytes and is well formed |
| Adt.BufferAppend | src/adt.c:451-480 | NULL or zero size changes nothing; otherwise the bytes are appended, capacity grows only when needed and always leaves room for a NUL |
| Adt.BufferAppendTwice | src/adt.c:451-480 | two appends store the concatenation |
| Adt.HashInit | src/adt.c:524-538 | `size` empty buckets |
| Adt.BucketOf | src/adt.c:540-547 | the hash reduced modulo the bucket count is a valid bucket |
| Adt.Store | src/adt.c:540-547 | the pair is unshifted into its own bucket and no other bucket changes |
| Adt.Fetch | src/adt.c:549-566 | the datum of the first node in the key's bucket whose key compares equal, NULL when none does |
| Adt.FetchAfterStore | src/adt.c:540-566 | fetching a key just stored yields the stored datum |
| Adt.FetchOtherAfterStore | src/adt.c:540-566 | a store does not change what another key fetches |
| Common.Ordinal | src/common.h:43-78 | each error has the numeric value of its place in the error enumeration |
| Common.OrdinalInjective | src/common.h:43-78 | distinct errors have distinct values |
| Common.Shift | src/common.h:154-163 | an error's pragma bit lies within a 32-bit word |
| Common.ShiftIsOrdinal | src/common.h:154-163 | the pragma bit of an error is its enumeration value |
| Common.ShiftInjective | src/common.h:154-163 | distinct errors have distinct pragma bits |
| Common.SingleBit | src/parser.c:332 | or-ing in bit k sets bit k and no other |
| Common.ToleratesIsBit | src/parser.c:332 | an error is tolerated exactly when the pragma has the bit `1 << error` |
| Common.FlagTolerates | src/common.h:154-163 | setting an error's pragma flag makes that error tolerated |
| Common.FlagIsolated | src/common.h:154-163 | setting one error's flag leaves every other error's tolerance alone |
| Common.DefaultPragmaTolerates | src/parser.c:115 | a new parser tolerates exactly the character-set, segment and unknown-transaction errors |
| Common.ItypeOrdinal | src/common.h:143-152 | interchange types number 0 to 4, with 0 for "any" |
| Common.ItypeString | src/common.c:50-72 | the name of a known interchange type, and the fallback exactly for an unknown value |
| Common.ErrorString | src/common.c:82-145 | the message of a known error, and the fallback exactly for an unknown value |
| Common.EventString | src/common.c:148-187 | the name of a known event, and "unknown" exactly for an unknown value |
| Common.ErrorMessagesDistinct | src/common.c:82-145 | no two errors share a message |
| Common.Set | src/common.c:209-242 | the delimiter gets the character and is active for any non-zero flag; the other delimiters are unchanged |
| Common.InitAdvice | src/common.c:190-204 | every delimiter is a blank and inactive |
| Common.InitAdviceRecognisesNothing | src/common.h:188-194 | fresh advice recognises no character as a delimiter |
| Common.ValidateAlpha | src/common.c:355-371 | 1 exactly for a non-empty string without digits, 0 otherwise and for NULL |
| Common.ValidateAlphanumeric | src/common.c:373-385 | the string's length, 0 for NULL |
| Common.ValidateIntegerNumeric | src/common.c:388-403 | the length when every character lies strictly between '0' and '9', 0 otherwise and for NULL |
| Common.ValidateElement | src/common.c:407-443 | an absent or empty element is valid exactly when the minimum is 0 |
| Common.ValidateFreeText | src/common.c:407-443 | a free-text element is valid exactly when its length is within the bounds |
| Common.ValidateAlphabetic | src/common.c:355-371 | an alphabetic element is measured as 1: valid exactly when it has no digit and 1 lies within the bounds |
| Common.ValidateImpliedDecimal | src/common.c:388-443 | an implied-decimal element is valid exactly when it uses only '1' to '8' and its length is within the bounds |
| Common.DecimalScale | src/common.c:450-518 | the divisor of a representation is at least 1 |
| Common.EvaluateElement | src/common.c:450-484 | only integer targets are written, and the value is `atoi` of the element divided by the scale with truncation toward zero |
| Common.EvaluateFormattedInteger | src/common.c:450-484 | a number printed with `%d` evaluates back to itself |
| CText.LeadingDigits | src/common.c:461 | the longest all-digit prefix, which `atoi` reads |
| CText.SkipSpace | src/common.c:461 | the leading white space `atoi` skips, and nothing more |
| CText.FormatPadded | src/x12.c:163 | `%0*d` output is at least as wide as asked |
| CText.AtoiOfDigits | src/edifact.c:374 | `atoi` of an unsigned digit string is its value |
| CText.AtoiOfNegated | src/common.c:461 | `atoi` of a minus sign and digits is the negated value |
| CText.AtoiFormatPadded | src/x12.c:163 | `atoi` reads back every number `%04d` writes |
| CText.AtoiFormatInt | src/parser.c:956-957 | `atoi` reads back every number `%d` writes |
| CText.AtoiStopsAtNonDigit | src/edifact.c:374 | characters after the digits do not change what `atoi` reads |
| CText.Str | examples/xmlout.c:75-85 | the C string of an array is its prefix before the first NUL |
| CText.StrNCmpPrefix | src/segment.c:91-95 | comparing over the length of the pattern finds equality exactly when the pattern is a prefix |
| CText.TruncDiv | src/common.c:461-470 | C division truncates toward zero: the remainder has the dividend's sign and is smaller than the divisor |
| Params.EmptyParameters | src/prmtrs.c:53-69 | every slot NULL |
| Params.Active | src/prmtrs.c:65-67 | the pairs read are those before the first 0 key |
| Params.AssignIsLastAssigned | src/prmtrs.c:65-67 | after the loop a slot holds the last value assigned to it, or its old value |
| Params.Set | src/prmtrs.c:53-69 | every slot is cleared, then each slot holds the last value given for it before the terminating 0; the integer fields are untouched |
| Params.SetOne | src/prmtrs.c:86-90 | exactly one slot changes |
| Params.GetAfterSet | src/prmtrs.c:53-112 | reading a key after a set gives the last pair for it, and NULL for every other key |
| Params.Single | src/prmtrs.c:53-69 | a set with one pair leaves only that key set |
| Params.LaterPairWins | src/prmtrs.c:53-69 | a later pair for the same key overrides an earlier one |
| Params.GetString | src/prmtrs.c:124-274 | every key, the two sentinels included, has its name; any other value gets the fallback |
| Segments.NewSegment | src/segment.c:28-83 | no cell defined and every count zero |
| Segments.Clear | src/segment.c:42-61 | every cell undefined and every count zero, the tag kept |
| Segments.GetElement | src/segment.c:97-102 | the cell's text exactly when it is defined and non-empty, NULL otherwise |
| Segments.SetElement | src/segment.c:112-142 | outside the grid nothing changes; otherwise the cell becomes defined with the first `l` characters, every other cell is kept, and the counts grow to cover it |
| Segments.SetElementTight | src/segment.c:112-142 | setting a cell keeps every count exactly one past the last defined cell |
| Segments.GetAfterSet | src/segment.c:97-142 | what is set is what is read back, an empty value reading as NULL |
| Segments.DefinedEmptyCounts | src/segment.c:112-142 | a cell set to NULL reads as NULL but still counts |
| Segments.ElementCount | src/segment.c:144-148 | every defined cell lies below the element count |
| Segments.SubelementCount | src/segment.c:150-154 | every defined cell of an element lies below its subelement count |
| Segments.SetCode | src/segment.c:104-110 | the tag becomes the first `l` characters and the grid is unchanged |
| Segments.CodeIs | src/segment.c:91-95 | the comparison is zero exactly when the code is a prefix of the tag |
| Segments.Copy | src/segment.c:156-183 | the copy is well formed |
| Segments.CopyIsFaithful | src/segment.c:156-183 | a copy has the same tag, counts and cells as its source |
| Tokens.NewToken | src/token.c:45-57 | an empty element token, first and not last |
| Tokens.TokenAppend | src/token.c:272-284 | the character always joins the raw data, flagged when it is a release indicator, and joins the cooked data only when it is data; the result says when the token is full |
| Tokens.UnreleasedAppend | src/token.c:272-284 | cooking two pieces separately and together gives the same data |
| Tokens.UnreleasedAround | src/token.c:272-284 | a flagged character between two pieces is dropped from the cooked data |
| Tokens.UnreleasedWhole | src/token.c:272-284 | the cooked data is as long as the raw data exactly when nothing is flagged, and is then the raw data |
| Tokens.HandleToken | src/token.c:116-141 | the token goes out with its last flag; the next starts empty at the following offset, first exactly when this one was last, and an element token after a last fragment |
| Tokens.HandOffAdvancesOffset | src/token.c:116-141 | every raw character moves the next token's offset on by one |
| Tokens.Classify | src/token.c:179-240 | the active delimiters are tried in the order release, subelement, element, tag, terminator; then the listed letters, CR, LF and GS; else the default class |
| Tokens.ClassifyWithoutAdvice | src/token.c:179-240 | before any advice, a character's class depends on the character alone |
| Tokens.SeparatorBeatsTerminator | src/token.c:179-190 | a character that is both element separator and terminator is a separator |
| Tokens.NewTokeniser | src/token.c:88-106 | no delimiter active, no error, release on, nothing counted |
| Tokens.Examine | src/token.c:173-177 | each character examined is counted |
| Tokens.RunFromCounts | src/token.c:173-263 | the count grows by one per character examined, and no more than the length is returned |
| Tokens.Parse | src/token.c:165-263 | the loop agrees with the reference run; a latched error returns 0 at once; a syntax error latches ESYNTAX and returns 0; otherwise the count grows by what is returned |
| Giovanni.KeyCmp | src/giovanni.c:53-61 | zero exactly when both strings exist and are equal, so NULL never matches |
| Giovanni.FindIn | src/giovanni.c:70-92 | NULL finds nothing; a result is the datum of an entry with the code; no entry with the code finds nothing |
| Giovanni.FindCodelist | src/giovanni.c:94-106 | the value is looked up in the list of the element with the code, and nothing is found without that element |
| Giovanni.ElementRepr | src/giovanni.c:295-299 | the element's item, or the null item when the element is unknown |
| Giovanni.SegmentSize | src/giovanni.c:115-121 | 0 for an unknown segment |
| Giovanni.SegmentItem | src/giovanni.c:123-151 | the null item past the end or for a NULL entry |
| Giovanni.SegmentItemFields | src/giovanni.c:123-151 | a resolved entry keeps its own type, representation and requirement |
| Giovanni.CompositeSize | src/giovanni.c:154-159 | 0 for an unknown composite |
| Giovanni.CompositeItem | src/giovanni.c:161-185 | the null item past the end |
| Giovanni.FirstCode | src/giovanni.c:746-808 | the first position in the range whose code matches, or none when no position does |
| Giovanni.SegmentPosition | src/giovanni.c:760-775 | the first entry of the segment with the element's code, or none |
| Giovanni.ComponentPosition | src/giovanni.c:780-800 | the first component of the composite with the subelement's code, or none |
| Giovanni.ElementIndex | src/giovanni.c:746-808 | NULL arguments fail with (-1, -1); the element position is the first match; a simple element sits at (x, 0) and succeeds exactly without a subelement; a composite succeeds exactly when the subelement is one of its components |
| Giovanni.ItemParameters | src/giovanni.c:639-643 | code, name, description and note of the item, every other key NULL |
| Giovanni.Advance | src/giovanni.c:559-563 | the top cursor moves to the next entry with its count reset, and less remains to walk |
| Giovanni.Complete | src/giovanni.c:525-543 | an exhausted cursor is popped and its parent's count goes up by one |
| Giovanni.Reject | src/giovanni.c:705-738 | a rejection leaves the stack alone and gives one verdict |
| Giovanni.Step | src/giovanni.c:517-704 | one pass of the loop leaves the stack well formed and either exits or makes progress |
| Giovanni.TryLoop | src/giovanni.c:568-685 | the loop branch keeps the stack well formed and either exits or makes progress |
| Giovanni.TrySegment | src/giovanni.c:691-704 | the segment branch keeps the stack well formed and either exits or makes progress |
| Giovanni.EntryEvents | src/giovanni.c:636-657 | loop entry reports the loop start and then a verdict for the first child |
| Giovanni.Enter | src/giovanni.c:614-657 | loop entry pushes a cursor on the first child, counted once |
| Giovanni.Accept | src/giovanni.c:705-720 | acceptance counts the item once more |
| Giovanni.Walk | src/giovanni.c:517-738 | the loop ends in one of its exits with the stack well formed |
| Giovanni.StartTransaction | src/giovanni.c:370-397 | an unknown name is ETUNKNOWN with the stack emptied and the flag kept; a known one sets the flag and pushes one cursor at count 0 |
| Giovanni.EndTransaction | src/giovanni.c:400-423 | ECORRUPT exactly when a cursor was open; the stack is emptied and the flag cleared |
| Giovanni.IterateTransaction | src/giovanni.c:478-738 | without a transaction the segment is handed on and nothing changes; otherwise only the stack changes, the loop depth moves by starts minus ends, and there is at most one verdict |
| Giovanni.FeedBalance | src/giovanni.c:478-738 | over any run of segments the depth moves by starts minus ends, with at most one verdict per segment |
| Giovanni.SessionBalance | src/giovanni.c:370-738 | after a start, the open loops are exactly those started and not ended |
| Giovanni.FallOff | src/giovanni.c:711-724 | with nothing stacked NULL succeeds and a code is ECORRUPT with one verdict |
| Giovanni.PopExhausted | src/giovanni.c:525-543 | an exhausted cursor is popped, and only with a parent left is the loop end reported |
| Giovanni.SkipExhausted | src/giovanni.c:559-563 | an item at its bound is skipped without consuming the code |
| Giovanni.AcceptSegment | src/giovanni.c:691-692 | a matching segment is accepted with its parameters and counted once more |
| Giovanni.EnterLoop | src/giovanni.c:568-657 | a loop whose first child matches is entered: loop start, verdict, and a new cursor |
| Giovanni.BadLoop | src/giovanni.c:574-590 | a loop without a usable first child, or whose first child is a loop, is EBADTSG |
| Giovanni.MissingMandatory | src/giovanni.c:670-702 | a mandatory item not yet seen that does not match is EREQUIRED and the cursor stays |
| Giovanni.PassOver | src/giovanni.c:680-710 | an optional or already-seen item that does not match is passed over |
| Giovanni.EntryIgnoresChildBound | src/giovanni.c:614-657 | entering a loop accepts its first child even when the child's bound is 0 |
| Giovanni.ElemType | src/giovanni.c:989-1016 | a known kind only for its own tag name |
| Giovanni.ElemTypeOfName | src/giovanni.c:989-1016 | every tag name is recognised as its kind |
| Giovanni.Dup | src/giovanni.c:878-895 | a copy of the string, NULL exactly for the empty string |
| Giovanni.ApplyAttr | src/giovanni.c:914-986 | each pair changes only the field its key names |
| Giovanni.ElemAttr | src/giovanni.c:914-986 | a field no pair names keeps its value |
| Giovanni.ElemAttrAppend | src/giovanni.c:914-986 | applying pairs in two batches is applying them in order |
| Giovanni.LastAttributeWins | src/giovanni.c:914-986 | the last pair for a field decides it |
| Giovanni.NewItem | src/giovanni.c:1019-1085 | a new item is zeroed and given its attributes, and a loop is marked as one |
| Giovanni.AddChild | src/giovanni.c:1019-1085 | only the parent's list changes, by one entry at its tail |
| Giovanni.StartElement | src/giovanni.c:1019-1085 | an unknown tag changes nothing; any other appends one new item and keeps every old one |
| Giovanni.EndElement | src/giovanni.c:1088-1102 | closing a transaction or loop pops the open stack and makes its new top current; other tags change nothing |
| Giovanni.OpenThenClose | src/giovanni.c:1019-1102 | opening and closing a loop leaves the open stack as it was |
| Giovanni.LoopUnderCurrent | src/giovanni.c:1019-1085 | a new loop becomes the last child of the current item |
| Giovanni.FirstRegistrationWins | src/giovanni.c:1019-1085 | registering an element never shadows an earlier one |
| Francesco.FirstWhere | src/frncsc.c:104-163 | the first row satisfying the test, or none when no row does |
| Francesco.FirstRule | src/frncsc.c:53-76 | NULL for no transaction; otherwise the first rule of the transaction in the container, or NULL when no rule is |
| Francesco.NextRule | src/frncsc.c:78-97 | the next row exactly when it belongs to the same transaction and container |
| Francesco.ChainIsRun | src/frncsc.c:78-97 | a rule chain is a contiguous run of the table, and the row after it belongs elsewhere |
| Francesco.FindElementInfo | src/frncsc.c:104-117 | NULL for NULL; the first row with the code, or none when no row has it |
| Francesco.FindInfo | src/frncsc.c:119-147 | NULL for NULL; the first row with the code, or none when no row has it |
| Francesco.FindCodeInfo | src/frncsc.c:149-163 | NULL when either part is NULL; the first row matching both, or none |
| Francesco.InfoName | src/frncsc.c:165-193 | the name of the row found, NULL without one |
| Francesco.InfoDesc | src/frncsc.c:165-193 | the description of the row found, NULL without one |
| Francesco.ElementName | src/frncsc.c:195-200 | the element's name, NULL when unknown |
| Francesco.ElementDesc | src/frncsc.c:202-207 | the element's description, NULL when unknown |
| Francesco.ElementRepr | src/frncsc.c:229-244 | code, sizes as unsigned and representation of the element; the null item when unknown |
| Francesco.CodelistName | src/frncsc.c:321-331 | the name of the pair found, NULL when either part is NULL or the pair is unknown |
| Francesco.SegmentSize | src/frncsc.c:586-596 | the number of the segment's rows, 0 exactly when it has none |
| Francesco.CompositeSize | src/frncsc.c:638-649 | the number of the composite's rows, 0 exactly when it has none |
| Francesco.FirstOwned | src/frncsc.c:598-617 | the owner's first row, or the terminator when it has none |
| Francesco.RowItem | src/frncsc.c:598-617 | the terminating row reads as the null item |
| Francesco.SegmentItem | src/frncsc.c:598-617 | the row `i` places after the segment's first, typed 1 exactly for a composite row and required exactly for 'M' |
| Francesco.CompositeItem | src/frncsc.c:651-669 | the row `i` places after the composite's first, always of type 0, required exactly for 'M' |
| Francesco.SegmentItemOwned | src/frncsc.c:586-617 | with contiguous rows, each index below the size selects a row of that segment |
| Francesco.ItemsFit | src/frncsc.c:586-617 | every index below the size stays within the table |
| Francesco.RunCount | src/frncsc.c:586-596 | an owner whose rows run from `n` to `e` has `e - n` of them |
| Francesco.FindContent | src/frncsc.c:250-275 | the first row with both owner and content, or none |
| Francesco.ContentReqr | src/frncsc.c:279-300 | the row's requirement, 'C' without a row |
| Francesco.ContentType | src/frncsc.c:306-319 | the row's type, 0 without a row |
| Francesco.ScanCounts | src/frncsc.c:334-376 | the scan yields the owner's rows before the content, or one less than all of them when the content is absent |
| Francesco.ElementIndex | src/frncsc.c:334-376 | x is -1 exactly for a segment without rows, and otherwise the position of the element among the segment's rows or the last row; y is 0 without a subelement, and otherwise -1 exactly for an element without rows, the position of the subelement among the element's rows, or the last row; success is x and y both differing from -1 |
| Francesco.AbsentElementFound | src/frncsc.c:334-376 | an element the segment lacks still succeeds when the segment has rows |
| Francesco.EndParameters | src/frncsc.c:503 | the end-of-loop parameters hold only the enclosing loop's code |
| Francesco.EndParametersAsWritten | src/frncsc.c:503 | the unterminated call reads whatever pairs follow the code |
| Francesco.UnterminatedEndSetsMore | src/frncsc.c:503 | a stray pair after the code sets a slot the loop never set |
| Francesco.NextPass | src/frncsc.c:488-507 | the next rule of the chain with its count reset; at the chain's end a pop that is ECORRUPT with nothing left and otherwise reports the loop end |
| Francesco.Step | src/frncsc.c:409-487 | one pass of the loop keeps the stack well formed and either exits or makes progress |
| Francesco.Accept | src/frncsc.c:468-476 | the top node is counted once more and the segment handed on with the parameters as they stand |
| Francesco.TryLoop | src/frncsc.c:426-463 | the loop branch keeps the stack well formed and either exits or makes progress |
| Francesco.Enter | src/frncsc.c:444-460 | the code slot becomes the loop's code, the loop start is reported, and a node for the first rule is pushed, counted and accepted |
| Francesco.Walk | src/frncsc.c:409-508 | the loop ends in one of its exits with the stack well formed |
| Francesco.IterateTransaction | src/frncsc.c:385-509 | NULL is ECORRUPT; with nothing stacked the segment is handed on; otherwise only the stack and the parameters change, and the depth moves by starts minus ends |
| Francesco.StartTransaction | src/frncsc.c:540-564 | ETUNKNOWN exactly when the name has no top-level rule, changing nothing; otherwise a node on its first rule is pushed on the stack as it stands |
| Francesco.EndTransaction | src/frncsc.c:566-572 | the stack is emptied without a loop end, and the call succeeds |
| Francesco.UnlimitedRule | src/frncsc.c:414-476 | a rule with bound 0 accepts its code however often it has matched |
| Francesco.BoundReached | src/frncsc.c:414-422 | a rule at its bound is passed over even when it has the code |
| Francesco.MissingMandatory | src/frncsc.c:480-481 | a mandatory rule not yet matched rejects another code with EREQUIRED |
| Francesco.LoopPassedOver | src/frncsc.c:444-462 | a loop whose first rule does not match is passed over whatever its requirement |
| Francesco.EmptyLoop | src/frncsc.c:428-434 | a loop without rules of its own is ERULES |
| Francesco.LoopCountUntouched | src/frncsc.c:444-460 | entering a loop leaves the loop rule's count as it was |
| Francesco.FallOff | src/frncsc.c:496-500 | running off the top-level chain is ECORRUPT and empties the stack |
| Directory.Describe | src/drctry.c:194-246 | NULL for a NULL directory or reference, and a table directory has no notes; otherwise the field of the entity registered under the reference |
| Directory.TableElementLookup | src/drctry.c:194-204 | a table directory's element names and descriptions come from its element table |
| Directory.Codelist | src/drctry.c:267-283 | NULL for a NULL directory; a table directory knows only names; a TSG directory reads the entry of the value in the element's code list |
| Directory.CodelistValue | src/drctry.c:166-176 | NULL when any argument is NULL, otherwise the code-list name |
| Directory.CodelistNeedsBoth | src/drctry.c:267-283 | a NULL element or value names no entry |
| Directory.SegmentSize | src/drctry.c:286-289 | 0 for a NULL directory, otherwise the directory's own count |
| Directory.CompositeSize | src/drctry.c:291-294 | 0 for a NULL directory, otherwise the directory's own count |
| Directory.SegmentItem | src/drctry.c:305-311 | the null item for a NULL directory or code, otherwise the directory's own item |
| Directory.CompositeItem | src/drctry.c:297-303 | the null item for a NULL directory or code, otherwise the directory's own item |
| Directory.ItemsBelowSizeDefined | src/drctry.c:286-311 | every index below the size may be read |
| Directory.ElementRepr | src/drctry.c:314-320 | the null item for a NULL directory or code, otherwise the directory's own |
| Directory.SegmentReqr | src/drctry.c:254-258 | 'C' unless a table directory records a requirement |
| Directory.CompositeReqr | src/drctry.c:260-265 | 'C' unless a table directory records a requirement |
| Directory.IsComposite | src/drctry.c:248-252 | 1 exactly for a composite row of a table directory |
| Directory.AfterLast | src/drctry.c:142-163 | the text after the last separator, holding none |
| Directory.SplitKey | src/drctry.c:142-163 | no part of the split key holds a '/', and a subelement comes only with an element |
| Directory.SplitJoin | src/drctry.c:142-163 | joining the parts with '/' and splitting again gives the parts back |
| Directory.ElementIndex | src/drctry.c:142-163 | the outcome is the directory's own index lookup on the parts of the key |
| Directory.BareKeyFails | src/drctry.c:142-163 | a key without '/' names no element in a TSG directory |
| Directory.ElementPosition | src/drctry.c:328-368 | the first item of the segment with the element's code, or none when no item has it |
| Directory.ComponentPosition | src/drctry.c:328-368 | the first component of the composite with the subelement's code, or none |
| Directory.ElementByName | src/drctry.c:328-368 | NULL when the element is not found; a simple element reads cell (e, 0); a composite reads cell (e, s) of the component found |
| Directory.FindElement | src/drctry.c:376-397 | the item's code, the component's for a composite, and none for a simple element asked for a non-zero subelement |
| Directory.FindComposite | src/drctry.c:400-411 | the item's code exactly when it is a composite |
| Directory.ByNameAgreesWithPosition | src/drctry.c:328-411 | the position the name lookup settles on gives back the element's code, or the component's |
| Directory.Start | src/drctry.c:60-66 | ENONE for a NULL directory, otherwise the directory's own transaction start |
| Directory.Parse | src/drctry.c:83-100 | a TSG directory matches the code; any other hands the segment on unparsed; `done` ends the transaction; the call reports ENONE |
| Directory.ParseHidesMatcherErrors | src/drctry.c:83-100 | whatever the matcher reports, the call reports success |
| Envelope.ByName | src/drctry.c:328-368 | a service element is read only from a segment whose tag is its owner's code, and only when defined and non-empty |
| Envelope.Fill | src/edifact.c:149-181 | every slot cleared, then each key holds its element's value when present and non-empty; keys not listed stay NULL |
| ParserState.Notify | src/parser.c:389-436 | a call reaches the client only when its handler is installed |
| ParserState.SetHandler | src/parser.c:627-714 | the new handler is installed and the old one returned; no other handler changes |
| ParserState.SetHandlerUndo | src/parser.c:627-714 | putting back the returned handler restores the parser |
| ParserState.SetUserData | src/parser.c:717-723 | the pointer is stored and the old one returned |
| ParserState.SetPragma | src/parser.c:295-301 | the pragma is stored and the old one returned |
| ParserState.ByteIndex | src/parser.c:249-253 | the tokeniser's byte count, 0 for NULL |
| ParserState.SegmentIndex | src/parser.c:256-260 | the number of segments finished, 0 for NULL |
| ParserState.ErrorCode | src/parser.c:263-267 | the latched error, ENONE for NULL |
| ParserState.Itype | src/parser.c:270-274 | the detected syntax, UNKNOWN for NULL |
| ParserState.RaiseError | src/parser.c:324-349 | ENONE does nothing; a tolerated error is a warning that returns ENONE; any other goes to the error handler, is latched and returned; a syntax error is latched even as a warning |
| ParserState.DefaultPragmaRaise | src/parser.c:324-349 | under the initial pragma exactly the character-set, segment and unknown-transaction errors return ENONE, and every other error is latched |
| ParserState.WarningsDoNotLatch | src/parser.c:324-349 | tolerated errors leave the latched error and the tokeniser alone |
| ParserState.HandleStart | src/parser.c:389-394 | the start handler, if installed, gets the event and parameters |
| ParserState.HandleEnd | src/parser.c:397-402 | the end handler, if installed, gets the event |
| ParserState.HandleToken | src/parser.c:405-410 | the token handler, if installed, gets the token |
| ParserState.HandleDefault | src/parser.c:421-427 | the default handler, if installed, gets the text |
| ParserState.HandleText | src/parser.c:412-419 | the text handler gets the text, or failing that the default handler |
| ParserState.HandleSeparator | src/parser.c:429-436 | the separator handler gets the character, or failing that the default handler gets it as text |
| ParserState.HandleDirectory | src/parser.c:381-386 | with a handler its answer, without one NULL |
| ParserState.HandleSegment | src/parser.c:370-378 | the segment and its queued tokens go out as one expansion, and the queue is emptied |
| ParserState.Push | src/parser.c:575-584 | a copy of the segment goes on top and nothing else changes |
| ParserState.Pop | src/parser.c:586-590 | the top is removed, an empty stack stays empty |
| ParserState.Peek | src/parser.c:592-596 | the top segment, NULL exactly for an empty stack |
| ParserState.PushPeekPop | src/parser.c:575-596 | the pushed copy does not follow later changes of the live segment, and a pop restores the stack |
| ParserState.DeliverHandsOn | src/parser.c:454-491 | delivery only appends calls, with one hand-off per segment verdict |
| ParserState.TransactionHead | src/parser.c:454-466 | the message directory starts the transaction and parses the code; its results are delivered and its return codes dropped |
| ParserState.TransactionBody | src/parser.c:468-478 | the message directory parses the code and its results are delivered |
| ParserState.TransactionTail | src/parser.c:480-491 | as the body, with the transaction ended |
| ParserState.NoDirectoryHandsOn | src/parser.c:468-491 | without a message directory each segment is handed on once, unparsed |
| ParserState.RaiseIf | src/edifact.c:185-278 | a raise exactly when the condition holds |
| ParserState.RaisedChecks | src/edifact.c:185-278 | a run of checks raises exactly the errors of the failing tests, in order |
| ParserState.PerformEffects | src/parser.c:324-349 | a handler's pushes, pops and raises change only the stack, the latched error, the done flag and the log; the log only grows |
| ParserState.PerformReturns | src/parser.c:324-349 | the handler's result is what its last raise returned |
| ParserState.LastReturned | src/parser.c:324-349 | a non-ENONE result is the last error raised, and one the pragma does not tolerate |
| Parser.Init | src/parser.c:53-122 | no handler or user data, the default pragma tolerating exactly the character-set, unknown-transaction and segment errors, nothing parsed, no syntax |
| Parser.Reset | src/parser.c:125-133 | everything is set up afresh except the handlers, user data and pragma |
| Parser.ResetIdempotent | src/parser.c:125-133 | resetting twice is resetting once, and a new parser is already reset |
| Parser.EndTag | src/parser.c:510-518 | the buffer becomes the segment's code, the buffer is emptied and both indices return to 0 |
| Parser.EndElement | src/parser.c:520-527 | the buffer is stored at the current cell and reads back there; the next element starts at its first component |
| Parser.EndSubelement | src/parser.c:529-535 | the buffer is stored at the current cell and reads back there; the next component starts |
| Parser.NewSegment | src/parser.c:537-544 | the segment is cleared with its tag kept, one more segment is counted, and the indices return to 0 |
| Parser.Dispatch | src/parser.c:786-787 | the installed syntax's handler runs and keeps its kind; without one nothing happens |
| Parser.TokenHandler | src/parser.c:770-822 | a terminator stores the last element, runs the handler, counts a segment and clears the grid; any other token joins the queue and touches only the buffer and grid; data tokens extend the buffer |
| Parser.CompositeElement | src/parser.c:770-822 | two components separated by a component separator land in cells (de, 0) and (de, 1) |
| Parser.CharsParameters | src/parser.c:940-971 | nothing for a continuation or a tag; for the first fragment of an element its position in decimal and as numbers, its code, the code's texts and the code-list entry of the data |
| Parser.PositionReadsBack | src/parser.c:956-960 | the decimal positions read back through `atoi` as the element and component numbers |
| Parser.Runs | src/parser.c:982-998 | no text run is empty |
| Parser.RunsFlatten | src/parser.c:982-998 | the runs and separators put back together are the raw data |
| Parser.RunsSeparators | src/parser.c:984-994 | the separators are exactly the flagged characters |
| Parser.RunsTexts | src/parser.c:982-998 | the text runs together are the cooked data |
| Parser.EmitSays | src/parser.c:984-998 | the text and separator calls carry every character of the pieces, in order |
| Parser.CharsBody | src/parser.c:982-1004 | only calls are added, and an empty fragment adds none |
| Parser.CharsBodySays | src/parser.c:982-1004 | the calls of a fragment carry exactly its raw characters |
| Parser.Framed | src/parser.c:975-1008 | the first fragment starts the event, the last ends it, and an empty fragment adds only those calls |
| Parser.HandleChars | src/parser.c:930-1009 | the start call carries the element's parameters, the end call closes the event, and only calls are added |
| Parser.HandleCharsSays | src/parser.c:930-1009 | between start and end a client hearing text and separators receives exactly the raw characters |
| Parser.ReleasedPieces | src/parser.c:982-998 | the text calls carry the cooked data and the separator calls the release indicators |
| Parser.ItypeHandler | src/parser.c:838-865 | the type is recorded; a known type installs its syntax afresh with no message directory; an unknown one keeps the syntax |
| Parser.CompleteHandler | src/parser.c:867-873 | the completion handler, if installed, is called, and nothing else changes |
| Parser.Parse | src/token.c:247-257 | the parser's tokeniser runs the loop; a latched error returns 0 and changes nothing; a syntax error returns 0, is latched in the parser and its tokeniser and reaches the warning or error handler as the pragma says; a completed stream returns a positive count and reaches the completion handler; otherwise only the tokeniser changes |
| Parser.SyntaxRaised | src/token.c:144-149 | a syntax error reported by the tokeniser is latched in the parser, even as a warning, and the warning or error handler hears of it |
| Edifact.CodeOf | src/edifact.c:77-89 | a segment has a code only when the code's tag is a prefix of its tag; a missing segment has none |
| Edifact.CodeIsPrefix | src/edifact.c:65-89 | the table's tags never prefix one another, so a segment has code c exactly when c's tag prefixes its tag |
| Edifact.LevelBExtendsA | src/edifact.c:123-146 | a character is in level B exactly when it is in level A, is one of IS4, IS3, IS1, or is a lower-case letter |
| Edifact.Parameters | src/edifact.c:149-181 | each service element of UNB, UNG, UNH, UNE, UNT, UNZ, UNS is stored under its key when present and non-empty; UNB adds Standard "EDIFACT"; any other segment sets no key |
| Edifact.Init | src/edifact.c:461-476 | all counters start at zero, the syntax level at 'A' and the version at '2' |
| Edifact.ReferenceDiffersAsWritten | src/edifact.c:376-418 | the trailer's reference check reads a header that is absent exactly when no header is open and the trailer carries a reference; otherwise it agrees with the guarded check |
| Edifact.OnlyHeaderOpens | src/edifact.c:341-366 | only UNH opens a transaction, named by its cell (1,0) |
| Edifact.Handle | src/edifact.c:281-445 | performing the plan moves the stack, latches the raised errors, sets done on UNZ, and always returns ENONE |
| Edifact.InterchangeHeader | src/edifact.c:307-328 | UNB pushes itself, resets all three counters, reads level and version from S001, and starts the interchange with Standard "EDIFACT" |
| Edifact.InterchangeChecks | src/edifact.c:307-323 | UNB raises only EENVELOPE, exactly when a header is already open or S001 lacks a level (fourth character) or a version |
| Edifact.GroupHeader | src/edifact.c:330-338 | UNG pushes itself, counts one more group, restarts the message count, and raises EENVELOPE exactly when UNB is not on top |
| Edifact.MessageHeader | src/edifact.c:341-366 | UNH pushes itself, counts one more message, starts the segment count at one, and starts the transaction named by S009/0065 |
| Edifact.MessageHeaderChecks | src/edifact.c:341-362 | UNH raises EENVELOPE outside UNB/UNG, EGMT or EGMV when type or version differ from the group's, and ENOTTTH without a message type; nothing else |
| Edifact.MessageTrailer | src/edifact.c:369-386 | UNT pops the header, ends the transaction, and counts itself and the step past it |
| Edifact.MessageTrailerChecks | src/edifact.c:369-379 | UNT raises EENVELOPE outside a message, ETTC unless its count equals the segments from UNH through UNT, and ETTR on a reference mismatch; nothing else |
| Edifact.GroupTrailer | src/edifact.c:389-404 | UNE pops the header, ends the group and keeps the counters |
| Edifact.GroupTrailerChecks | src/edifact.c:389-400 | UNE raises EENVELOPE outside a group, EGEMPTY for a group without messages, EGTC on a wrong count and EGTR on a wrong reference; nothing else |
| Edifact.InterchangeTrailer | src/edifact.c:407-423 | UNZ pops the header, ends the interchange and sets done |
| Edifact.InterchangeTrailerChecks | src/edifact.c:407-418 | UNZ raises EENVELOPE outside an interchange, EIEMPTY when empty, EITC unless the count is the groups (or the messages when there are no groups), EITR on a wrong reference |
| Edifact.MessageBody | src/edifact.c:426-441 | any other segment is counted, given to the message directory, leaves the stack alone, and raises EENVELOPE exactly outside a message |
| Edifact.BodyCounts | src/edifact.c:426-441 | a run of body segments adds its length to the segment count and changes nothing else |
| Edifact.MessageSegmentCount | src/edifact.c:341-386 | for UNH, a body and UNT, ETTC is raised exactly when UNT's count is not the body length plus two; EENVELOPE is never raised |
| Edifact.NullContextReached | src/edifact.c:369-418 | an out-of-place UNT that is tolerated empties the stack, so a later UNT, UNE or UNZ with a reference reaches the header read with no header |
| Edifact.OutOfPlaceTrailer | src/edifact.c:369-380 | UNT directly inside UNB raises only EENVELOPE and still pops UNB |
| X12.CodeOf | src/x12.c:70-82 | a segment has a code only when the code's tag prefixes its tag; a missing segment has none |
| X12.CodeIsPrefix | src/x12.c:59-82 | a segment has code c exactly when c's tag prefixes its tag |
| X12.TestFlag | src/x12.c:142-144 | the test indicator is "1" exactly when I14 is "T", else "0" |
| X12.Parameters | src/x12.c:121-176 | ISA and GS store their service elements, ISA adds the test flag and Standard "X12"; ST is handled separately; other segments set nothing |
| X12.TransactionParameters | src/x12.c:161-171 | ST's parameters are version "V", the release as the version in at least four digits (which reads back as the version), and elements 143 and 329 |
| X12.Init | src/x12.c:291-303 | the version and all counters start at zero |
| X12.OnlyHeaderOpens | src/x12.c:226-235 | only ST opens a transaction, named by element 143 |
| X12.NoNesting | src/x12.c:203-271 | X12 never pushes or pops a header |
| X12.Handle | src/x12.c:179-274 | performing the plan leaves the stack, latches the raised errors, sets done on IEA, and returns ENONE |
| X12.InterchangeHeader | src/x12.c:206-213 | ISA starts the interchange, raises nothing, resets groups and transactions, and takes ten times I11 as the version |
| X12.GroupHeader | src/x12.c:216-223 | GS starts a group, raises nothing, counts one more group, resets transactions and takes 480 as the version |
| X12.TransactionHeader | src/x12.c:226-235 | ST starts the transaction with Standard "X12", opens it in the client's directory, counts one more transaction and starts the segment count at one |
| X12.TransactionTrailer | src/x12.c:238-245 | SE raises only ETTC, exactly when its count is not the segments from ST through SE, and always closes the transaction |
| X12.GroupTrailer | src/x12.c:248-254 | GE raises only EGTC, exactly when its count is not the transactions since GS, and ends the group |
| X12.InterchangeTrailer | src/x12.c:257-264 | IEA raises only EITC, exactly when its count is not the groups since ISA, ends the interchange and sets done |
| X12.TransactionBody | src/x12.c:267-270 | any other segment goes to the message directory, raises nothing and is counted |
| X12.BodyCounts | src/x12.c:267-270 | a run of body segments adds its length to the segment count only |
| X12.TransactionsCounted | src/x12.c:226-235 | without ISA or GS in a run, the transaction count grows by the number of STs |
| X12.GroupsCounted | src/x12.c:216-223 | without ISA in a run, the group count grows by the number of GSs |
| X12.TransactionSegmentCount | src/x12.c:226-245 | for ST, a body and SE, ETTC is raised exactly when SE's count is not the body length plus two |
| X12.GroupControlCount | src/x12.c:216-254 | for GS, a run and GE, EGTC is raised exactly when GE's count is not the number of STs in the run |
| X12.InterchangeControlCount | src/x12.c:206-264 | for ISA, a run and IEA, EITC is raised exactly when IEA's count is not the number of GSs in the run |
| Ungtdi.CodeOf | src/ungtdi.c:67-79 | a segment has a code only when the code's tag prefixes its tag; a missing segment has none |
| Ungtdi.CodeIsPrefix | src/ungtdi.c:56-79 | a segment has code c exactly when c's tag prefixes its tag |
| Ungtdi.Parameters | src/ungtdi.c:141-204 | STX, MHD, MTR, END store their service elements when present and non-empty, STX adding Standard "UNGTDI"; BAT and EOB store cell (0,0) under one key even when it is missing; other segments set nothing |
| Ungtdi.Init | src/ungtdi.c:332-344 | all counters start at zero |
| Ungtdi.OnlyHeaderOpens | src/ungtdi.c:258-269 | only MHD opens a transaction, named by its cell (1,0) |
| Ungtdi.Handle | src/ungtdi.c:207-316 | performing the plan moves the stack and latches what is raised; the result is ENONE, a plain EENVELOPE, or what the raise returned |
| Ungtdi.MisplacedRefused | src/ungtdi.c:249-309 | BAT, MHD, MTR, EOB, END or a body segment out of place returns EENVELOPE without raising, logging, pushing or latching anything |
| Ungtdi.NestedTransmission | src/ungtdi.c:239-241 | STX inside an open header raises EENVELOPE, pushes nothing, and returns what the raise returned |
| Ungtdi.TransmissionHeader | src/ungtdi.c:239-247 | STX with no header open pushes itself, starts the transmission with Standard "UNGTDI", resets the counters and raises nothing |
| Ungtdi.BatchHeader | src/ungtdi.c:249-256 | BAT inside STX pushes itself, starts the batch and counts one more batch; the message count carries on |
| Ungtdi.MessageHeader | src/ungtdi.c:258-269 | MHD inside STX or BAT pushes itself, starts the message named by (1,0), counts one more message and starts the segment count at one |
| Ungtdi.MessageTrailer | src/ungtdi.c:271-282 | MTR pops the header whatever its count; a wrong count raises ETTC and skips the tail and end; a right one closes the message and returns ENONE |
| Ungtdi.BatchTrailer | src/ungtdi.c:284-293 | EOB with a count other than the messages so far raises EGTC and leaves the batch open; otherwise it pops and ends the batch |
| Ungtdi.TransmissionTrailer | src/ungtdi.c:295-305 | END with a wrong count raises EITC and changes nothing else; otherwise it pops exactly one header, ends the transmission and sets done |
| Ungtdi.MessageBody | src/ungtdi.c:307-312 | any other segment inside a message goes to the message directory, raises nothing and is counted |
| Ungtdi.BodyCounts | src/ungtdi.c:307-312 | a run of body segments inside a message adds its length to the segment count only |
| Ungtdi.MessageSegmentCount | src/ungtdi.c:258-282 | for MHD, a body and MTR, ETTC is raised exactly when MTR's count is not the body length plus two |
| Imp.ServiceTables | src/imp.c:425-443 | every table of the IMP service directory is empty |
| Imp.Service | src/imp.c:434-443 | the IMP service directory is a valid table directory |
| Imp.EmptyServiceFindsNothing | src/imp.c:434-443 | no name lookup in the IMP service directory finds a value |
| Imp.SetParams | src/imp.c:82-114 | the parameters are cleared and then each key holds only a value its lookup found, present and non-empty |
| Imp.SetParamsDistinct | src/imp.c:82-114 | with one lookup per key, each key holds exactly what its lookup found |
| Imp.ServiceParamsEmpty | src/imp.c:82-114 | against the IMP service directory, looking up any list of keys leaves every key unset |
| Imp.Parameters | src/imp.c:141-204 | STX holds only Standard "IMP"; BAT and EOB hold cell (0,0) under one key; every other segment holds nothing |
| Imp.Plan | src/imp.c:207-223 | the only thing IMP does with a segment is hand it on |
| Imp.Handle | src/imp.c:207-223 | the stack, the latched error and the done flag are unchanged, one segment event is logged, and the result is ENONE |
| Pyx.Create | examples/expyx.c:784-799 | a new parser is valid, at the start of a line, in no line kind, and has sent nothing |
| Pyx.Notify | examples/expyx.c:182-205 | an event is sent exactly when its handler is installed, and nothing else changes |
| Pyx.Attributes | examples/expyx.c:165-176 | the attribute list has one pair per collected attribute, key with value, in order |
| Pyx.HandleStartElement | examples/expyx.c:165-180 | the start element event carries the element name and the collected pairs, when its handler is installed |
| Pyx.Append | examples/expyx.c:97-101 | a character is appended while the buffer has room for it and the NUL; a full buffer leaves the parser unchanged |
| Pyx.EndOfLine | examples/expyx.c:212-251 | a newline that ends a line empties the buffer, returns to the start of a line, and keeps the line kind, escape flag and handlers |
| Pyx.StartOfLine | examples/expyx.c:254-303 | a line's first character empties the buffer, sets the line kind from that character and moves to the key state |
| Pyx.Content | examples/expyx.c:324-366 | a character inside a line never sends an event and keeps the line kind and escape flag |
| Pyx.Char | examples/expyx.c:208-370 | a newline ends a begun line; a line's first character sets its kind and sends a pending start element unless it is 'A'; '(' forgets the element and its attributes; at most one event is sent |
| Pyx.Feed | examples/expyx.c:377-378 | feeding a string keeps the parser valid and its handlers, and only adds to the events sent |
| Pyx.FeedAppend | examples/expyx.c:377-378 | feeding a then b is feeding a + b |
| Pyx.FeedSnoc | examples/expyx.c:377-378 | the last character is fed after the others |
| Pyx.ParseNew | examples/expyx.c:372-384 | all bytes are fed in order and their count returned; when done, a newline is added unless the byte after the given ones is a newline |
| Pyx.FeedLine | examples/expyx.c:208-303 | a line is its first character, its body and its newline fed in turn |
| Pyx.FeedCollected | examples/expyx.c:357-362 | plain characters in a '(', ')', '-' or 'C' line are appended to the buffer |
| Pyx.FeedKey | examples/expyx.c:329-355 | plain characters before the first space of an 'A' or '?' line are appended to the buffer |
| Pyx.FeedValue | examples/expyx.c:329-355 | plain characters after that space, spaces included, are appended to the buffer |
| Pyx.FeedDropped | examples/expyx.c:326-327 | plain characters of an unknown line change nothing |
| Pyx.DataLineDelivers | examples/expyx.c:231-233 | a plain '-' line sends its text as character data and changes nothing else |
| Pyx.CommentLineDelivers | examples/expyx.c:239-241 | a plain 'C' line sends its text as a comment |
| Pyx.EndLineDelivers | examples/expyx.c:220-223 | a plain ')' line names the element and sends the end element event |
| Pyx.PiLineDelivers | examples/expyx.c:235-237 | a plain '?' line sends its target, up to the first space, and the rest as data to the processing-instruction handler |
| Pyx.StartLineWaits | examples/expyx.c:216-218 | a '(' line names the element, clears the attributes and sends nothing yet |
| Pyx.AttrLineCollects | examples/expyx.c:225-229 | an 'A' line adds its key and value as the next pair and sends nothing |
| Pyx.AttributeCountSaturates | examples/expyx.c:226-228 | once 63 attributes are held, another 'A' line overwrites the last slot and the count stays |
| Pyx.BlankLineHidesNext | examples/expyx.c:212-303 | an empty line starts an unknown line, so the plain line after it is dropped |
| Pyx.EscapesInData | examples/expyx.c:307-321 | an escaped 'n' becomes a newline in the text and an escaped backslash a backslash |
| XmlOut.EscapeChar | examples/xmlout.c:48-58 | one character is written as at least one character, and as itself unless it is one of the five markup characters |
| XmlOut.Escape | examples/xmlout.c:48-58 | each character of the text written in turn, see XmlOut.UnescapeEscape and XmlOut.EscapeHasNoMarkup |
| XmlOut.EscapeAppend | examples/xmlout.c:83-84 | escaping a concatenation writes the escaped parts one after the other |
| XmlOut.PrintN | examples/xmlout.c:63-73 | exactly `length` characters are escaped, NULs included; nothing for NULL or a non-positive length |
| XmlOut.Print | examples/xmlout.c:75-85 | the characters before the first NUL are escaped; nothing for NULL |
| XmlOut.PrintStopsAtNul | examples/xmlout.c:63-85 | printing up to the first NUL and printing the given length of a string whose first NUL is at that length write the same text |
| XmlOut.PrintNReadsBack | examples/xmlout.c:63-97 | unescaping what xmlnprint or xmlprintn writes gives back exactly the characters given, NULs included |
| XmlOut.UnescapeEscape | examples/xmlout.c:48-58 | reading the five entities back undoes the escaping for every text |
| XmlOut.EscapeHasNoMarkup | examples/xmlout.c:48-58 | escaped text holds no '<', '>', '"' or '\'' |
| XmlOut.PrintHasNoMarkup | examples/xmlout.c:75-85 | printed text holds no '<', '>', '"' or '\'' |
| XmlOut.Pair | examples/xmlout.c:151-163 | a pair is written as ` key="value"` with both parts escaped, and nothing exactly when its value is NULL |
| XmlOut.PairMarks | examples/xmlout.c:156-163 | a written pair holds exactly two quotes, and none when its value is NULL; it holds no angle bracket |
| XmlOut.AttributesQuoted | examples/xmlout.c:146-165 | the attributes hold two quotes per pair with a value and no angle bracket |
| XmlOut.PairReadsBack | examples/xmlout.c:156-163 | the key and the value can be cut out of a written pair and unescaped back exactly |
| XmlOut.PrintReadsBack | examples/xmlout.c:75-85 | printed text unescapes back to the text up to its first NUL |
| XmlOut.TagBody | examples/xmlout.c:184-187 | the code and attributes between a tag's delimiters hold no angle bracket |
| XmlOut.StartElement | examples/xmlout.c:181-189 | a start tag begins with '<', ends with '>', and holds exactly one of each |
| XmlOut.EndElement | examples/xmlout.c:191-197 | an end tag begins with "</", ends with '>', and holds exactly one '<' and one '>' |
| XmlOut.Element | examples/xmlout.c:167-179 | an element is its start tag, then the data, then its end tag, with exactly two '<' and two '>' |
| XmlOut.ElementReadsBack | examples/xmlout.c:167-179 | the text between an element's tags unescapes back to its data up to the first NUL |
| XmlOut.VoidElement | examples/xmlout.c:199-208 | a void element begins with '<', ends with a newline and "/>", and holds one '<' and one '>' |
| XmlOut.ProcessingInstruction | examples/xmlout.c:210-218 | a processing instruction begins with "<?", ends with "?>", and holds one '<' and one '>' |
| XmlOut.Variadic | examples/xmlout.c:7-24 | the variadic writers put the opening text first and the closing text last, and add no '<' of their own |
| XmlOut.VariadicAgrees | examples/xmlout.c:99-141 | vxmlstartelement, vxmlprocessinginstruction and vxmlelement write what their array forms write |
| XmlOut.Comment | examples/xmlout.c:117-131 | a comment begins with "<!-- " and ends with " -->", and its parts appear between them unescaped, each up to its first NUL |

## Left out

- `segment_events` (src/parser.c:1018-1156), which expands a segment into element-level events, is one `SegmentEvent` event naming the directory role; its element walk is not modelled.
- `handle_advice` (src/parser.c:880-914), which copies a UNA or ISA service string advice into the tokeniser, is not modelled; the advice reaches the model as a value.
- The lexical automaton (`SYNTAX_init`, `FSAProcess`) is an uninterpreted step function passed to the tokeniser, because its tables are not part of this model.
- `edi_validate_edifact_numeric` and the EDIFACT numeric automaton it runs are a measuring function passed to `Common.ValidateElement`, for the same reason.
- The FLOAT and DOUBLE branches of `edi_evaluate_element` are not modelled: Dafny has no C floating point.
- The string hash functions of src/adt.c are a parameter of the hash table, because they depend on the width of `unsigned long`; `edi_adt_unit_tests` is left out.
- Allocation failure (ENOMEM after a failed `malloc`) is not modelled: every allocation succeeds.
- `free`, and leaks such as the stack re-initialisation in giovanni `start_transaction` or the empty `imp_fini`, are not modelled: memory is not part of the model.
- The stray-token report of the token handler (the `fprintf` loop at src/parser.c:790-796) writes to standard error only and is not modelled; the leftover tokens are still discarded.
- The bulk description and codelist tables of src/edifact.c, src/x12.c and src/ungtdi.c are not modelled. Their service-segment lookups by element name become fixed grid positions (`Envelope.Slot`) of the names the handlers look up.
- The `printf` output of the XML writer is the returned string; the varargs writers take their attribute pairs as a list.
- Varargs calls of `edi_parameters_set` and `set_params` are lists of (key, value) pairs, or (key, element, subelement) lookups.
- The IMP envelope checks after the early return (src/imp.c:224-316) are unreachable and are not modelled.
- The charset predicates of src/edifact.c, src/ungtdi.c and src/imp.c are never called; they are modelled, but nothing in the parser uses them.
- The pyx API stubs, the memory suite, `PYX_GetBuffer`, the handler setters and the remaining `PYX_*` entry points (examples/expyx.c:388-1198) are not modelled. The installed handlers are a set given to `Pyx.Create`.
- The old pyx path (`pyx_line`, `pyx_parse_old`, examples/expyx.c:422-590) is not modelled: `PYX_Parse` uses `pyx_parse_new`.
- `Pyx.ParseNew`: the byte `buffer[length]` that `pyx_parse_new` reads past the input is the parameter `past`.
- `XmlOut.Comment`: `vxmlcomment` with a NULL `first` passes NULL to `printf`; the model takes `first` as a string.
- Giovanni.KeyCmp: models only whether `mystrcmp` returns zero, not the sign of its result, because the matcher only tests for zero.
- Params.GetString: states each key's name and the fallback, but not that distinct keys have distinct names.
- Integer fields of `edi_parameters_t` that the source leaves uninitialised (`element`, `subelement`) are modelled as kept by the setters, not as garbage.
- X12.InterchangeHeader: the version `atoi(I11) * 10` is an unbounded integer; overflow of the C `int`, which is undefined, is not modelled.
- Strings are taken to be free of NUL characters: the parser's buffer, the segment's tag and cells (`ParserState.Valid`), and the arguments of `Segments.CodeIs`, `Parser.CompositeElement`, `Parser.DataThenSeparator` and `XmlOut.PairReadsBack` are NUL-free by precondition. In C a NUL byte inside the data ends the string early at `strncpy`, `strlen` and `strcmp`, and that truncation is not modelled.
- Every control count read with `atoi` (the UNT, UNE and UNZ counts of src/edifact.c, the SE, GE and IEA counts of src/x12.c, the trailers of src/ungtdi.c, the TSG `min`, `max` and `reps` attributes, and the integer target of `Common.EvaluateElement`) is an unbounded integer in `CText.Atoi`; a number beyond the range of the C `int`, whose `atoi` is undefined, is compared by its true value.
- C undefined behaviour is a precondition, not a modelled outcome: the `tag[EDI_BUFFER]` write at src/segment.c:109, the read past the last row for an unknown code at src/frncsc.c:613, strcmp on NULL in the directory lookups, and the `strcpy` of a name longer than 15 characters into the 16-byte buffer in frncsc `start_transaction`, which is reached only once a top-level rule for the name has been found (src/frncsc.c:547-550).
- The command-line example drivers, `src/medici.c` and `util/xmltoedi.c` are I/O wrappers around the modelled code and are not modelled.

## Findings

| source | as written | input that shows it | evidently intended | confidence | as-written member | corrected member |
|---|---|---|---|---|---|---|
| src/edifact.c:369-379 | the `return` after a tolerated EENVELOPE is commented out, so an out-of-place UNT still pops the stack, and the ETTR check reads cell (0,0) of the top header even when no header is open | with EENVELOPE tolerated, `UNB+UNOA:2'` then `UNT+1'` then `UNT+1+REF'`: the first UNT is out of place but pops UNB, and the second compares REF against a NULL segment | the reference check only when a message header is open | not executed | Edifact.NullContextReached | Edifact.MessageTrailerChecks |
| src/edifact.c:389-400 | the EGTR check of a group trailer reads cell (4,0) of the top header whenever the trailer has a reference, even when no header is open | with EENVELOPE tolerated, `UNB+UNOA:2'` then `UNT+1'` then `UNE+0+REF'`: the UNT pops UNB, and the UNE compares REF against a NULL segment | the reference check only when a group header is open | not executed | Edifact.NullContextReached | Edifact.GroupTrailerChecks |
| src/edifact.c:407-418 | the EITR check of an interchange trailer reads cell (4,0) of the top header whenever the trailer has a reference, even when no header is open | with EENVELOPE tolerated, `UNB+UNOA:2'` then `UNT+1'` then `UNZ+0+REF'`: the UNT pops UNB, and the UNZ compares REF against a NULL segment | the reference check only when an interchange header is open | not executed | Edifact.NullContextReached | Edifact.InterchangeTrailerChecks |
| src/frncsc.c:503 | `edi_parameters_set(parameters, Code, node->rule->code)` has no terminating `LastParameter`, so the callee reads whatever follows on the argument list as more (key, value) pairs | any loop end of the table matcher: when the stray words form the key `Name` and a string, the EndLoop parameters carry that name | the end-of-loop parameters hold the loop's code and nothing else | not executed | Francesco.UnterminatedEndSetsMore | Francesco.EndParameters |
