# FreebaseNode, modelled in Dafny

Anserini builds its Freebase knowledge-graph index out of `FreebaseNode`
objects. A node has a subject URI and a `TreeMap` from each predicate to the
list of values added under it. `toString` writes the node out one
tab-separated line per (predicate, value) fact. The same class also has the
static helpers that turn a raw N-Triples object token into the value that gets
stored:

- `getObjectType` tells a URI, a plain STRING, a TEXT literal (one with a
  language tag or datatype) and anything else apart;
- `cleanUri` strips the angle brackets and lower-cases what is inside;
- `removeEnclosingQuote` drops the surrounding quotes;
- `undoMqlKeyEscape` decodes Freebase's MQL key escaping;
- `normalizeObjectValue` dispatches on the kind.

The project has four modules:

- `JavaString` (`java_string.dfy`) holds the parts of `java.lang.String` the
  class relies on:
  - strings are sequences of UTF-16 code units (`CodeUnit`, 0..0xFFFF),
    because a decoded `$XXXX` may be a lone surrogate;
  - `CompareTo` is `String.compareTo`, with the total-order laws a `TreeMap`
    needs;
  - `Split` is `split("\\$")`, which drops trailing empty pieces and returns
    no pieces at all for a string made only of `$`;
  - `LowerCase` is `toLowerCase` on ASCII letters.
- `MqlKey` (`mql_key.dfy`) covers MQL key escaping:
  - `UndoMqlKeyEscape` is the source's loop over the split pieces, as an
    imperative method;
  - it is proved equal to `Unescape`, a reference decoder that reads one code
    unit at a time;
  - `Unescape` in turn is proved to invert `Escape`, the escaping the decoder
    undoes.

  `ParseGroup` is `Integer.parseInt(_, 16)` on four units: it accepts a leading
  sign, as Java does. A group that parses to a negative number reaches
  `appendCodePoint`, which throws an `IllegalArgumentException` that nothing
  catches. The model returns that outcome as `IllegalCodePoint`.
- `ObjectValue` (`object_value.dfy`) holds the classifier and the normaliser.
  The TEXT branch calls `NTriplesUtil.unescapeString`, which is a function
  parameter (`unescapeText`) here. The central lemma shows why un-escaping a
  whole quoted token before removing its quotes is sound: the closing quote is
  no hex digit or sign, so no group can swallow it.
- `Node` (`node.dfy`) has the node record:
  - `class FreebaseNode` has a constant `uri` and a field `predicateValues`
    (a `map`);
  - the `TreeMap` iteration order is `SortedKeys`, the keys in ascending
    `compareTo` order, proved to be the one strictly ascending listing of the
    keys;
  - `Serialize` is the text `toString` produces. The `ToString` method builds
    it with the source's nested loops;
  - lemmas show what `addPredicateValue` does to that text: exactly one line
    is inserted, at the position that the predicate's order and the insertion
    order dictate.

Where the code and its documentation differ, the model follows the code:

- `foo$1bar` decodes to `foo1bar`. The `$` is dropped even when the group does
  not parse, because `split` has already removed it.
- `cleanUri` removes the last unit of a `<` token whatever that unit is.
- `cleanUri` is idempotent only when its result does not start with `<` again:
  `<<a>>` cleans to `<a>`, and cleaning that gives `a`.

## Model

| member | source | states |
|---|---|---|
| JavaString.LowerCase | src/main/java/io/anserini/kg/freebase/FreebaseNode.java:71 | the result has the same length and no upper-case ASCII letter; each letter `A`..`Z` becomes its lower-case partner and every other unit is kept in place |
| JavaString.LowerCaseIdempotent | src/main/java/io/anserini/kg/freebase/FreebaseNode.java:71 | lower-casing twice is lower-casing once |
| JavaString.CompareTo | src/main/java/io/anserini/kg/freebase/FreebaseNode.java:17 | `String.compareTo` on UTF-16 units, the order of the `TreeMap`; the three lemmas below prove it a total order |
| JavaString.CompareToZero | src/main/java/io/anserini/kg/freebase/FreebaseNode.java:17 | compareTo is zero exactly when the two strings are equal |
| JavaString.CompareToAntisymmetric | src/main/java/io/anserini/kg/freebase/FreebaseNode.java:17 | swapping the arguments of compareTo negates its result |
| JavaString.CompareToTransitive | src/main/java/io/anserini/kg/freebase/FreebaseNode.java:17 | compareTo's "less than" is transitive, as a TreeMap key order must be |
| JavaString.CompareToIsTotalOrder | src/main/java/io/anserini/kg/freebase/FreebaseNode.java:17 | compareTo is a total order on all strings |
| JavaString.Split | src/main/java/io/anserini/kg/freebase/FreebaseNode.java:114 | split gives no pieces exactly when the string is non-empty and made only of `$` |
| JavaString.SplitPieces | src/main/java/io/anserini/kg/freebase/FreebaseNode.java:114 | no piece holds a `$`; with no `$` the one piece is the whole string; with one, the last piece kept is non-empty |
| JavaString.SplitJoin | src/main/java/io/anserini/kg/freebase/FreebaseNode.java:114 | the string is its first piece, then each later piece after a `$`, then a run of `$` whose empty pieces split dropped |
| MqlKey.ParseGroup | src/main/java/io/anserini/kg/freebase/FreebaseNode.java:118 | a four-unit group parses exactly when it is three hex digits behind a hex digit or a sign; its value lies in -0xFFF..0xFFFF and is negative only behind a `-` |
| MqlKey.ParseGroupIgnoresCase | src/main/java/io/anserini/kg/freebase/FreebaseNode.java:118 | a group parses to the same value, or fails the same way, whatever the case of its digits |
| MqlKey.ParseGroupSign | src/main/java/io/anserini/kg/freebase/FreebaseNode.java:118 | a signed group parses when the group with `0` in place of the sign does, to that value, negated after a `-` |
| MqlKey.LowerCaseGroupsExample | src/main/java/io/anserini/kg/freebase/FreebaseNode.java:118 | `002c` and `002e` parse to the codes of `,` and `.` |
| MqlKey.NegativeGroupExample | src/main/java/io/anserini/kg/freebase/FreebaseNode.java:118-119 | `-001` parses to -1, and `$-001` decodes to the code-point error |
| MqlKey.DecodePiece | src/main/java/io/anserini/kg/freebase/FreebaseNode.java:117-124 | the try/catch body for one piece; `UnescapePiece` proves it decodes a `$` and that piece exactly as the reference decoder does |
| MqlKey.UnescapeBounds | src/main/java/io/anserini/kg/freebase/FreebaseNode.java:113-127 | decoding never lengthens a string and leaves a string without `$` unchanged; it fails only on a group with a negative value, which needs a `$` |
| MqlKey.UnescapePiece | src/main/java/io/anserini/kg/freebase/FreebaseNode.java:116-125 | a `$` and the piece after it decode on their own, whatever follows the next `$` |
| MqlKey.UnescapeTrailingDollars | src/main/java/io/anserini/kg/freebase/FreebaseNode.java:114 | trailing `$` that split drops change nothing in the decoded string |
| MqlKey.UnescapeSplitPieces | src/main/java/io/anserini/kg/freebase/FreebaseNode.java:114-125 | the first piece, then each later piece decoded on its own, give what the whole string decodes to |
| MqlKey.UndoMqlKeyEscape | src/main/java/io/anserini/kg/freebase/FreebaseNode.java:113-127 | the loop over the split pieces computes the reference decoding `Unescape(s)`, error included |
| MqlKey.Hex4 | src/main/java/io/anserini/kg/freebase/FreebaseNode.java:106-109 | every code unit has four hex digits that parse back to it |
| MqlKey.UnescapeEscape | src/main/java/io/anserini/kg/freebase/FreebaseNode.java:113-127 | decoding undoes escaping, whatever text follows, provided `$` itself is always escaped |
| MqlKey.EscapeRoundTrip | src/main/java/io/anserini/kg/freebase/FreebaseNode.java:103-127 | decoding an escaped key gives back the key |
| MqlKey.ObamaExample | src/main/java/io/anserini/kg/freebase/FreebaseNode.java:103-104 | `Barack_Hussein_Obama$002C_Jr$002E` decodes to `Barack_Hussein_Obama,_Jr.` |
| MqlKey.UnescapeDroppedDollar | src/main/java/io/anserini/kg/freebase/FreebaseNode.java:120-124 | a `$` whose piece does not open with a group that parses (an empty piece included) is dropped and the piece is copied |
| MqlKey.MalformedGroupExample | src/main/java/io/anserini/kg/freebase/FreebaseNode.java:120-124 | `foo$1bar` decodes to `foo1bar` |
| ObjectValue.GetObjectType | src/main/java/io/anserini/kg/freebase/FreebaseNode.java:129-146 | URI iff the token opens with `<`; STRING iff it opens and ends with `"`; TEXT iff it opens with `"` and ends otherwise; OTHER iff it opens with neither |
| ObjectValue.ObjectTypeReadsEnds | src/main/java/io/anserini/kg/freebase/FreebaseNode.java:129-146 | two tokens with the same first and last unit have the same kind |
| ObjectValue.CleanUri | src/main/java/io/anserini/kg/freebase/FreebaseNode.java:69-75 | a `<` token loses its first and last units and is lower-cased (no upper-case letter survives); any other token comes back unchanged |
| ObjectValue.CleanUriBracketed | src/main/java/io/anserini/kg/freebase/FreebaseNode.java:69-75 | `<x>` cleans to x lower-cased |
| ObjectValue.CleanUriIdempotent | src/main/java/io/anserini/kg/freebase/FreebaseNode.java:69-75 | cleaning twice is cleaning once when the cleaned URI does not open with `<` |
| ObjectValue.CleanUriNotIdempotent | src/main/java/io/anserini/kg/freebase/FreebaseNode.java:69-75 | `<<a>>` is a token on which cleaning twice differs from cleaning once |
| ObjectValue.RemoveEnclosingQuote | src/main/java/io/anserini/kg/freebase/FreebaseNode.java:96-101 | a string opening with `"` loses two units; any other string comes back unchanged |
| ObjectValue.RemoveQuoteOfQuoted | src/main/java/io/anserini/kg/freebase/FreebaseNode.java:96-101 | removing the quotes of `"x"` gives x |
| ObjectValue.UnescapeBeforeQuote | src/main/java/io/anserini/kg/freebase/FreebaseNode.java:83-85 | a closing `"` survives decoding whatever precedes it |
| ObjectValue.UnescapeString | src/main/java/io/anserini/kg/freebase/FreebaseNode.java:83-85 | a STRING token decodes to its decoded inside, still quoted, or fails as its inside fails |
| ObjectValue.NormalizeString | src/main/java/io/anserini/kg/freebase/FreebaseNode.java:81-88 | both STRING paths (un-escape then unquote with a `$`, unquote without) give the decoded inside of the token |
| ObjectValue.NormalizeObjectValue | src/main/java/io/anserini/kg/freebase/FreebaseNode.java:77-94 | URI gives cleanUri, STRING the decoded inside, TEXT the text unescaper's result on the whole token, OTHER the token; only a STRING with a `$` can hit the code-point error |
| ObjectValue.NormalizePlainString | src/main/java/io/anserini/kg/freebase/FreebaseNode.java:86-88 | a STRING without `$` normalises to the token minus its two ends, two units shorter |
| ObjectValue.NormalizeQuoted | src/main/java/io/anserini/kg/freebase/FreebaseNode.java:81-88 | `"x"` without `$` is a STRING and normalises to x |
| ObjectValue.NormalizeEscapedKey | src/main/java/io/anserini/kg/freebase/FreebaseNode.java:81-85 | a quoted escaped key normalises to the key itself |
| ObjectValue.NormalizeTagged | src/main/java/io/anserini/kg/freebase/FreebaseNode.java:89-90 | a quoted literal with a suffix not ending in `"` is TEXT and goes whole to the text unescaper |
| ObjectValue.NormalizeBracketed | src/main/java/io/anserini/kg/freebase/FreebaseNode.java:79-80 | `<x>` is a URI and normalises to x lower-cased |
| Node.SortedKeys | src/main/java/io/anserini/kg/freebase/FreebaseNode.java:52 | the keys in `TreeMap` iteration order; `SortedKeysMembers`, `SortedKeysAscending` and `SortedUnique` prove it is the one strictly ascending listing of the keys |
| Node.LeastKey | src/main/java/io/anserini/kg/freebase/FreebaseNode.java:17 | the key a TreeMap visits first is a member that sorts at or before every other key |
| Node.SortedKeysMembers | src/main/java/io/anserini/kg/freebase/FreebaseNode.java:52 | iteration visits every key of the map, and each only once |
| Node.SortedKeysAscending | src/main/java/io/anserini/kg/freebase/FreebaseNode.java:52 | iteration visits the keys in strictly ascending compareTo order |
| Node.SortedUnique | src/main/java/io/anserini/kg/freebase/FreebaseNode.java:17 | a set of keys has only one strictly ascending listing |
| Node.InsertionPoint | src/main/java/io/anserini/kg/freebase/FreebaseNode.java:42 | a new key has a place among the sorted keys where the listing stays strictly ascending |
| Node.Line | src/main/java/io/anserini/kg/freebase/FreebaseNode.java:54-55 | one appended line, `uri TAB predicate TAB value TAB . NEWLINE`; `ToString` is proved to append exactly this per value |
| Node.Facts | src/main/java/io/anserini/kg/freebase/FreebaseNode.java:52-53 | the (predicate, value) pairs in the order `toString` visits them; `FactsDescribeMap` proves them the map's contents in key and insertion order |
| Node.Serialize | src/main/java/io/anserini/kg/freebase/FreebaseNode.java:49-59 | the text `toString` returns; `ToString` computes it, and `SerializeEmpty`, `SerializeSinglePredicate` and `SerializeAppended` describe it |
| Node.Appended | src/main/java/io/anserini/kg/freebase/FreebaseNode.java:37-47 | the map `addPredicateValue` leaves; `AddPredicateValue` produces it, and `AppendedFacts` and `SerializeAppended` describe its facts and text |
| Node.FactsDescribeMap | src/main/java/io/anserini/kg/freebase/FreebaseNode.java:49-59 | the facts written out are exactly the map's: each predicate is a key, predicates never decrease, and each predicate's values come in insertion order |
| Node.SerializeEmpty | src/main/java/io/anserini/kg/freebase/FreebaseNode.java:49-59 | a node with no facts writes the empty string |
| Node.SerializeSinglePredicate | src/main/java/io/anserini/kg/freebase/FreebaseNode.java:49-59 | with one predicate, one line per value is written, in insertion order |
| Node.OnePredicateExample | src/main/java/io/anserini/kg/freebase/FreebaseNode.java:49-59 | `ns:type` with `Person` then `Award_Winner` writes those two lines, in that order |
| Node.AppendedFacts | src/main/java/io/anserini/kg/freebase/FreebaseNode.java:37-47 | adding (p, o) inserts that one fact, after every fact whose predicate sorts at or before p and before all the others, and leaves the other facts in their order |
| Node.SerializeAppended | src/main/java/io/anserini/kg/freebase/FreebaseNode.java:37-59 | after adding (p, o) the written text is the old text with the one line for (p, o) inserted between two of its lines |
| Node.FreebaseNode.constructor | src/main/java/io/anserini/kg/freebase/FreebaseNode.java:27-29 | a new node has the given URI and no predicates |
| Node.FreebaseNode.AddPredicateValue | src/main/java/io/anserini/kg/freebase/FreebaseNode.java:37-47 | o is appended to p's list, which is created when p is new; no other predicate's list changes; the node itself is returned; no list is ever empty |
| Node.FreebaseNode.GetPredicateValues | src/main/java/io/anserini/kg/freebase/FreebaseNode.java:65-67 | returns the node's map, in which every list has a value |
| Node.FreebaseNode.ToString | src/main/java/io/anserini/kg/freebase/FreebaseNode.java:49-59 | the nested loops write `uri TAB p TAB v TAB . NEWLINE` for each fact, in `Serialize` order |

## Left out

- The TEXT result: `NTriplesUtil.unescapeString` belongs to the openrdf
  library, which is not part of this model. `NormalizeObjectValue` takes it
  as the parameter `unescapeText` and states only that a TEXT token goes to it
  whole.
- NormalizeObjectValue: does not model a failure of the TEXT unescaper.
  `unescapeText` is a total function here, although `unescapeString` throws
  `IllegalArgumentException` on a malformed escape. So "only a STRING with a
  `$` can fail" is stated for the code-point error alone.
- Null arguments cannot be written as a `JString`. In the source,
  `addPredicateValue(null, o)` throws a `NullPointerException` from
  `TreeMap.get`. A null value is stored, and `toString` prints it as `null`.
  Null tokens make the static helpers throw.
- CleanUri: lower-cases ASCII `A`..`Z` only. Java's `toLowerCase` is locale-
  and Unicode-dependent.
- ParseGroup: accepts ASCII hex digits only, in either case and behind an
  optional sign. `Integer.parseInt` also accepts the other Unicode digits
  that `Character.digit` knows.
- UndoMqlKeyEscape: requires a string that is not made only of `$`. For such a
  string `split` returns no pieces and `part[0]` throws outside the `try`.
  That cannot happen inside `normalizeObjectValue`, whose STRING tokens open
  with `"`.
- GetObjectType, CleanUri, RemoveEnclosingQuote, NormalizeObjectValue: the
  `StringIndexOutOfBoundsException` that `charAt(0)` and `substring` throw on
  tokens that are too short is not modelled. These members instead require a
  non-empty token, and two units for a token that opens with `<` or `"`.
- GetPredicateValues: returns the map as a value. The source hands out its
  mutable `TreeMap`, through which callers can change the node. That aliasing
  is not modelled.
- `uri()` is not a separate method: the model reads the constant field `uri`
  directly.
- The `TreeMap` and its `ArrayList`s are not modelled as objects: the field is
  a Dafny `map` to immutable sequences, which `AddPredicateValue` reassigns.
- `StringBuilder` and `StringBuffer` are sequences that grow by concatenation.
- Concurrency, and the reading of the Freebase dump that feeds the node, are
  outside this class.
- `Escape` is not in the source. It is the escaping that the source's decoder
  undoes, here to state the round trip.
