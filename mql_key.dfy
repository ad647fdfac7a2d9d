/**
 * Freebase "MQL key escaping": inside a key, `$XXXX` (four hexadecimal
 * digits) stands for the UTF-16 code unit XXXX. `UndoMqlKeyEscape` is the
 * decoder of FreebaseNode.undoMqlKeyEscape, a loop over the pieces of
 * `s.split("\\$")`; it is proved equal to `Unescape`, a reference decoder
 * that reads the string one code unit at a time. `Escape` is the encoder the
 * decoder inverts.
 */
module MqlKey {
  import opened JavaString

  datatype Option<T> = None | Some(value: T)

  /**
   * The result of un-escaping: the decoded string, or the
   * IllegalArgumentException that `StringBuffer.appendCodePoint` throws when
   * a group parses to a negative number (nothing in the decoder catches it).
   */
  datatype Decoded = Ok(value: JString) | IllegalCodePoint(code: int)

  /** `prefix` in front of a decoded string; an error stays an error. */
  function Prepend(prefix: JString, d: Decoded): Decoded
  {
    match d
    case Ok(v) => Ok(prefix + v)
    case IllegalCodePoint(_) => d
  }

  /** `d` followed by `e`: the first error wins. */
  function Then(d: Decoded, e: Decoded): Decoded
  {
    match d
    case Ok(v) => Prepend(v, e)
    case IllegalCodePoint(_) => d
  }

  // ---------------------------------------------------------------------------
  // Integer.parseInt(g, 16) on a group of four code units

  /** `Character.digit(c, 16) >= 0`, for ASCII characters. */
  predicate IsHexDigit(c: CodeUnit)
  {
    0x30 <= c <= 0x39 || 0x41 <= c <= 0x46 || 0x61 <= c <= 0x66
  }

  function DigitValue(c: CodeUnit): (v: nat)
    requires IsHexDigit(c)
    ensures v < 16
  {
    if c <= 0x39 then c - 0x30 else if c <= 0x46 then c - 0x41 + 10 else c - 0x61 + 10
  }

  /**
   * `Integer.parseInt(g, 16)` for a four-unit `g`: an optional leading `+` or
   * `-` followed by hexadecimal digits, `None` for a NumberFormatException.
   */
  function ParseGroup(g: JString): (r: Option<int>)
    requires |g| == 4
    ensures r.Some? ==> -0xFFF <= r.value <= 0xFFFF
    ensures r.Some? <==> (IsHexDigit(g[0]) || g[0] == PLUS || g[0] == MINUS) &&
                         IsHexDigit(g[1]) && IsHexDigit(g[2]) && IsHexDigit(g[3])
    ensures r.Some? && r.value < 0 ==> g[0] == MINUS
  {
    if g[0] == PLUS || g[0] == MINUS then
      if IsHexDigit(g[1]) && IsHexDigit(g[2]) && IsHexDigit(g[3]) then
        var v := (DigitValue(g[1]) * 16 + DigitValue(g[2])) * 16 + DigitValue(g[3]);
        Some(if g[0] == MINUS then -v else v)
      else None
    else if IsHexDigit(g[0]) && IsHexDigit(g[1]) && IsHexDigit(g[2]) && IsHexDigit(g[3]) then
      Some(((DigitValue(g[0]) * 16 + DigitValue(g[1])) * 16 + DigitValue(g[2])) * 16 + DigitValue(g[3]))
    else None
  }

  /** Lower-casing a unit keeps it a hex digit of the same value, or a sign, or neither. */
  lemma LowerHexUnit(c: CodeUnit, l: CodeUnit)
    requires l == if IsUpperAscii(c) then c + 0x20 else c
    ensures IsHexDigit(l) <==> IsHexDigit(c)
    ensures IsHexDigit(c) ==> DigitValue(l) == DigitValue(c)
    ensures (l == PLUS <==> c == PLUS) && (l == MINUS <==> c == MINUS)
  {
  }

  /** `parseInt(_, 16)` ignores the case of the digits: `002c` means what `002C` does. */
  lemma ParseGroupIgnoresCase(g: JString)
    requires |g| == 4
    ensures ParseGroup(LowerCase(g)) == ParseGroup(g)
  {
    var l := LowerCase(g);
    LowerHexUnit(g[0], l[0]);
    LowerHexUnit(g[1], l[1]);
    LowerHexUnit(g[2], l[2]);
    LowerHexUnit(g[3], l[3]);
  }

  /** A signed group is the group with a `0` in place of the sign, negated after a `-`. */
  lemma ParseGroupSign(g: JString)
    requires |g| == 4 && (g[0] == PLUS || g[0] == MINUS)
    ensures ParseGroup(g).Some? <==> ParseGroup([0x30] + g[1..]).Some?
    ensures ParseGroup(g).Some? ==>
      ParseGroup(g).value == if g[0] == MINUS then -ParseGroup([0x30] + g[1..]).value
                             else ParseGroup([0x30] + g[1..]).value
  {
    var u := [0x30] + g[1..];
    assert u[0] == 0x30 && u[1] == g[1] && u[2] == g[2] && u[3] == g[3];
  }

  /** A unit that never belongs to a group that parses. */
  predicate NotInGroup(c: CodeUnit)
  {
    !IsHexDigit(c) && c != PLUS && c != MINUS
  }

  lemma GroupWithout(g: JString, i: nat, c: CodeUnit)
    requires |g| == 4 && i < 4 && g[i] == c && NotInGroup(c)
    ensures ParseGroup(g).None?
  {
  }

  // ---------------------------------------------------------------------------
  // The reference decoder

  /**
   * Un-escaping read left to right: a `$` followed by four units that parse
   * as a group becomes the code unit they denote (a negative one is an
   * error); any other `$` is dropped; every other unit is copied.
   */
  function Unescape(s: JString): (r: Decoded)
    decreases |s|
  {
    if s == [] then Ok([])
    else if s[0] != DOLLAR then Prepend([s[0]], Unescape(s[1..]))
    else
      var rest := s[1..];
      if |rest| >= 4 && ParseGroup(rest[..4]).Some? then
        var code := ParseGroup(rest[..4]).value;
        if code < 0 then IllegalCodePoint(code)
        else Prepend([code], Unescape(rest[4..]))
      else Unescape(rest)
  }

  /**
   * Decoding never lengthens a string, leaves a string without `$` alone,
   * and fails only on a `$` group spelling a negative number.
   */
  lemma {:induction false} UnescapeBounds(s: JString)
    ensures Unescape(s).Ok? ==> |Unescape(s).value| <= |s|
    ensures DOLLAR !in s ==> Unescape(s) == Ok(s)
    ensures Unescape(s).IllegalCodePoint? ==> -0xFFF <= Unescape(s).code < 0 && DOLLAR in s
    decreases |s|
  {
    if s != [] {
      var rest := s[1..];
      assert s[0] in s;
      if s[0] != DOLLAR {
        UnescapeBounds(rest);
        assert DOLLAR in rest ==> DOLLAR in s;
        assert s == [s[0]] + rest;
      } else if |rest| >= 4 && ParseGroup(rest[..4]).Some? {
        UnescapeBounds(rest[4..]);
      } else {
        UnescapeBounds(rest);
      }
    }
  }

  /** What the decoder does with one piece that followed a `$`. */
  function DecodePiece(piece: JString): Decoded
  {
    if |piece| >= 4 && ParseGroup(piece[..4]).Some? then
      var code := ParseGroup(piece[..4]).value;
      if code < 0 then IllegalCodePoint(code) else Ok([code] + piece[4..])
    else Ok(piece)
  }

  lemma PrependPrepend(a: JString, b: JString, d: Decoded)
    ensures Prepend(a, Prepend(b, d)) == Prepend(a + b, d)
  {
    match d
    case Ok(w) => assert a + (b + w) == (a + b) + w;
    case IllegalCodePoint(_) =>
  }

  lemma PrependEmpty(d: Decoded)
    ensures Prepend([], d) == d
  {
    match d
    case Ok(w) => assert [] + w == w;
    case IllegalCodePoint(_) =>
  }

  /** A unit other than `$` is copied. */
  lemma UnescapeCons(c: CodeUnit, x: JString)
    requires c != DOLLAR
    ensures Unescape([c] + x) == Prepend([c], Unescape(x))
  {
    assert ([c] + x)[0] == c && ([c] + x)[1..] == x;
  }

  /** A run of units without `$` is copied verbatim. */
  lemma {:induction false} UnescapeVerbatim(u: JString, v: JString)
    requires DOLLAR !in u
    ensures Unescape(u + v) == Prepend(u, Unescape(v))
  {
    if u == [] {
      assert u + v == v;
      PrependEmpty(Unescape(v));
    } else {
      assert u + v == [u[0]] + (u[1..] + v);
      assert u[0] in u;
      UnescapeCons(u[0], u[1..] + v);
      UnescapeVerbatim(u[1..], v);
      PrependPrepend([u[0]], u[1..], Unescape(v));
      assert [u[0]] + u[1..] == u;
    }
  }

  /** A piece opening with a group that spells a code unit. */
  lemma UnescapePieceGroup(piece: JString, v: JString, code: CodeUnit)
    requires DOLLAR !in piece
    requires |piece| >= 4 && ParseGroup(piece[..4]) == Some(code)
    ensures Unescape([DOLLAR] + piece + v) == Then(Ok([code] + piece[4..]), Unescape(v))
  {
    var s := [DOLLAR] + piece + v;
    assert s[0] == DOLLAR && s[1..][..4] == piece[..4] && s[1..][4..] == piece[4..] + v;
    assert DOLLAR !in piece[4..] by { assert forall k :: 4 <= k < |piece| ==> piece[4..][k - 4] == piece[k]; }
    UnescapeVerbatim(piece[4..], v);
    match Unescape(v)
    case Ok(w) => assert [code] + (piece[4..] + w) == ([code] + piece[4..]) + w;
    case IllegalCodePoint(_) =>
  }

  /** A `$` not followed by a group is dropped. */
  lemma UnescapeDollarDropped(rest: JString)
    requires |rest| < 4 || ParseGroup(rest[..4]).None?
    ensures Unescape([DOLLAR] + rest) == Unescape(rest)
  {
    var s := [DOLLAR] + rest;
    assert s[0] == DOLLAR && s[1..] == rest;
  }

  /** The four units after a `$` that ends a piece do not parse. */
  lemma NoGroupAcrossDollar(piece: JString, v: JString)
    requires v == [] || v[0] == DOLLAR
    requires |piece| < 4 || ParseGroup(piece[..4]).None?
    ensures |piece + v| < 4 || ParseGroup((piece + v)[..4]).None?
  {
    var rest := piece + v;
    if |piece| >= 4 {
      assert rest[..4] == piece[..4];
    } else if |rest| >= 4 {
      GroupWithout(rest[..4], |piece|, DOLLAR);
    }
  }

  /** A piece that does not open with a group: only the `$` is lost. */
  lemma UnescapePieceVerbatim(piece: JString, v: JString)
    requires DOLLAR !in piece
    requires v == [] || v[0] == DOLLAR
    requires |piece| < 4 || ParseGroup(piece[..4]).None?
    ensures Unescape([DOLLAR] + piece + v) == Prepend(piece, Unescape(v))
  {
    NoGroupAcrossDollar(piece, v);
    UnescapeDollarDropped(piece + v);
    assert [DOLLAR] + piece + v == [DOLLAR] + (piece + v);
    UnescapeVerbatim(piece, v);
  }

  /** A `$`, a piece without `$`, then the rest: the piece decodes on its own. */
  lemma UnescapePiece(piece: JString, v: JString)
    requires DOLLAR !in piece
    requires v == [] || v[0] == DOLLAR
    ensures Unescape([DOLLAR] + piece + v) == Then(DecodePiece(piece), Unescape(v))
  {
    if |piece| >= 4 && ParseGroup(piece[..4]).Some? {
      var code := ParseGroup(piece[..4]).value;
      if code >= 0 {
        UnescapePieceGroup(piece, v, code);
      } else {
        var s := [DOLLAR] + piece + v;
        assert s[0] == DOLLAR && s[1..][..4] == piece[..4];
      }
    } else {
      UnescapePieceVerbatim(piece, v);
    }
  }

  /** A trailing `$` decodes to nothing. */
  lemma {:induction false} UnescapeTrailingDollar(x: JString)
    ensures Unescape(x + [DOLLAR]) == Unescape(x)
    decreases |x|
  {
    var s := x + [DOLLAR];
    if x == [] {
      assert s[1..] == [];
    } else if x[0] != DOLLAR {
      assert s[0] == x[0] && s[1..] == x[1..] + [DOLLAR];
      UnescapeTrailingDollar(x[1..]);
    } else {
      var rest := x[1..];
      assert s[0] == DOLLAR && s[1..] == rest + [DOLLAR];
      if |rest| >= 4 {
        assert (rest + [DOLLAR])[..4] == rest[..4];
        assert (rest + [DOLLAR])[4..] == rest[4..] + [DOLLAR];
        UnescapeTrailingDollar(rest[4..]);
        UnescapeTrailingDollar(rest);
      } else {
        if |rest| == 3 {
          GroupWithout((rest + [DOLLAR])[..4], 3, DOLLAR);
        }
        UnescapeTrailingDollar(rest);
      }
    }
  }

  lemma {:induction false} UnescapeTrailingDollars(x: JString, k: nat)
    ensures Unescape(x + Repeat(DOLLAR, k)) == Unescape(x)
  {
    if k > 0 {
      assert x + Repeat(DOLLAR, k) == (x + Repeat(DOLLAR, k - 1)) + [DOLLAR];
      UnescapeTrailingDollar(x + Repeat(DOLLAR, k - 1));
      UnescapeTrailingDollars(x, k - 1);
    } else {
      assert x + Repeat(DOLLAR, k) == x;
    }
  }

  /** The first piece of the split is copied, the trailing `$`s add nothing. */
  lemma UnescapeSplit(s: JString)
    requires !OnlySep(s, DOLLAR)
    ensures |Split(s, DOLLAR)| > 0
    ensures Unescape(s) == Prepend(Split(s, DOLLAR)[0], Unescape(JoinAfter(Split(s, DOLLAR)[1..], DOLLAR)))
  {
    var part := Split(s, DOLLAR);
    SplitJoin(s, DOLLAR);
    SplitPieces(s, DOLLAR);
    var k: nat :| s == part[0] + JoinAfter(part[1..], DOLLAR) + Repeat(DOLLAR, k);
    UnescapeTrailingDollars(part[0] + JoinAfter(part[1..], DOLLAR), k);
    UnescapeVerbatim(part[0], JoinAfter(part[1..], DOLLAR));
  }

  /** Each later piece of the split decodes on its own. */
  lemma UnescapeSplitStep(part: seq<JString>, i: nat)
    requires i < |part|
    requires forall j :: 0 <= j < |part| ==> DOLLAR !in part[j]
    ensures Unescape(JoinAfter(part[i..], DOLLAR))
         == Then(DecodePiece(part[i]), Unescape(JoinAfter(part[i + 1..], DOLLAR)))
  {
    assert part[i..][0] == part[i] && part[i..][1..] == part[i + 1..];
    var v := JoinAfter(part[i + 1..], DOLLAR);
    assert v == [] || v[0] == DOLLAR;
    UnescapePiece(part[i], v);
  }

  /** The pieces from `i` on, each decoded on its own, the first error winning. */
  function DecodeFrom(part: seq<JString>, i: nat): Decoded
    decreases |part| - i
  {
    if i >= |part| then Ok([]) else Then(DecodePiece(part[i]), DecodeFrom(part, i + 1))
  }

  /** Decoding the pieces one by one is decoding them joined with `$`. */
  lemma {:induction false} DecodeFromJoin(part: seq<JString>, i: nat)
    requires i <= |part|
    requires forall j :: 0 <= j < |part| ==> DOLLAR !in part[j]
    ensures Unescape(JoinAfter(part[i..], DOLLAR)) == DecodeFrom(part, i)
    decreases |part| - i
  {
    if i < |part| {
      UnescapeSplitStep(part, i);
      DecodeFromJoin(part, i + 1);
    } else {
      assert part[i..] == [];
    }
  }

  /** The split pieces decode, one by one, to what the whole string decodes to. */
  lemma UnescapeSplitPieces(s: JString)
    requires !OnlySep(s, DOLLAR)
    ensures |Split(s, DOLLAR)| > 0
    ensures Unescape(s) == Prepend(Split(s, DOLLAR)[0], DecodeFrom(Split(s, DOLLAR), 1))
  {
    UnescapeSplit(s);
    SplitPieces(s, DOLLAR);
    DecodeFromJoin(Split(s, DOLLAR), 1);
  }

  /** What one loop iteration of undoMqlKeyEscape adds to the buffer, or the error it hits. */
  lemma DecodeStep(part: seq<JString>, i: nat, sb: JString)
    requires i < |part|
    ensures DecodePiece(part[i]).Ok? ==>
      Prepend(sb, DecodeFrom(part, i)) == Prepend(sb + DecodePiece(part[i]).value, DecodeFrom(part, i + 1))
    ensures DecodePiece(part[i]).IllegalCodePoint? ==> Prepend(sb, DecodeFrom(part, i)) == DecodePiece(part[i])
  {
    match DecodePiece(part[i])
    case Ok(v) => PrependPrepend(sb, v, DecodeFrom(part, i + 1));
    case IllegalCodePoint(_) =>
  }

  /**
   * FreebaseNode.undoMqlKeyEscape: split on `$`, copy the first piece, then
   * for every later piece decode its first four units when
   * `Integer.parseInt(_, 16)` accepts them and copy the rest, or copy the
   * whole piece when `substring(0, 4)` or the parse throws. A string made
   * only of `$` splits into no pieces at all, and `part[0]` throws.
   */
  method UndoMqlKeyEscape(s: JString) returns (r: Decoded)
    requires !OnlySep(s, DOLLAR)
    ensures r == Unescape(s)
  {
    var part := Split(s, DOLLAR);
    var sb: JString := part[0];
    var i := 1;
    while i < |part|
      invariant 1 <= i <= |part|
      invariant Prepend(part[0], DecodeFrom(part, 1)) == Prepend(sb, DecodeFrom(part, i))
    {
      var piece := part[i];
      DecodeStep(part, i, sb);
      var decoded: JString;
      if |piece| >= 4 && ParseGroup(piece[..4]).Some? {
        var code := ParseGroup(piece[..4]).value;
        if code < 0 {
          UnescapeSplitPieces(s);
          return IllegalCodePoint(code);
        }
        decoded := [code] + piece[4..];
      } else {
        decoded := piece;
      }
      assert DecodePiece(piece) == Ok(decoded);
      sb := sb + decoded;
      i := i + 1;
    }
    assert sb + [] == sb;
    UnescapeSplitPieces(s);
    r := Ok(sb);
  }

  // ---------------------------------------------------------------------------
  // Escaping, the direction the decoder undoes

  function HexDigit(d: nat): (c: CodeUnit)
    requires d < 16
    ensures IsHexDigit(c) && DigitValue(c) == d
  {
    if d < 10 then 0x30 + d else 0x41 + d - 10
  }

  /** Four digits parse to the number they spell. */
  lemma ParseHexDigits(d0: nat, d1: nat, d2: nat, d3: nat)
    requires d0 < 16 && d1 < 16 && d2 < 16 && d3 < 16
    ensures ParseGroup([HexDigit(d0), HexDigit(d1), HexDigit(d2), HexDigit(d3)])
         == Some(((d0 * 16 + d1) * 16 + d2) * 16 + d3)
  {
    var g := [HexDigit(d0), HexDigit(d1), HexDigit(d2), HexDigit(d3)];
    assert g[0] != PLUS && g[0] != MINUS;
  }

  /** The four upper-case hexadecimal digits of `c`. */
  function Hex4(c: CodeUnit): (g: JString)
    ensures |g| == 4 && ParseGroup(g) == Some(c)
  {
    var q1, d3 := c / 16, c % 16;
    var q2, d2 := q1 / 16, q1 % 16;
    var d0, d1 := q2 / 16, q2 % 16;
    assert c == q1 * 16 + d3 && q1 == q2 * 16 + d2 && q2 == d0 * 16 + d1;
    assert q1 < 0x1000 && q2 < 0x100 && d0 < 16;
    ParseHexDigits(d0, d1, d2, d3);
    [HexDigit(d0), HexDigit(d1), HexDigit(d2), HexDigit(d3)]
  }

  /** One unit, escaped as `$` and four hex digits unless `safe` accepts it. */
  function EscapeUnit(c: CodeUnit, safe: CodeUnit -> bool): JString
  {
    if safe(c) then [c] else [DOLLAR] + Hex4(c)
  }

  /** Escapes every unit that `safe` rejects as `$` and four hex digits. */
  function Escape(s: JString, safe: CodeUnit -> bool): (r: JString)
  {
    if s == [] then [] else EscapeUnit(s[0], safe) + Escape(s[1..], safe)
  }

  /** A `$` and a group that parses to a non-negative code decode to that code. */
  lemma UnescapeGroup(g: JString, c: CodeUnit, x: JString)
    requires |g| == 4 && ParseGroup(g) == Some(c)
    ensures Unescape([DOLLAR] + g + x) == Prepend([c], Unescape(x))
  {
    var t := [DOLLAR] + g + x;
    assert t[0] == DOLLAR && t[1..][..4] == g && t[1..][4..] == x;
  }

  /** An escaped unit decodes to itself, whatever follows. */
  lemma UnescapeEscapeUnit(c: CodeUnit, safe: CodeUnit -> bool, x: JString)
    requires !safe(DOLLAR)
    ensures Unescape(EscapeUnit(c, safe) + x) == Prepend([c], Unescape(x))
  {
    if safe(c) {
      UnescapeCons(c, x);
    } else {
      UnescapeGroup(Hex4(c), c, x);
    }
  }

  /**
   * Decoding undoes escaping, whatever follows, provided `$` itself is
   * escaped.
   */
  lemma {:induction false} UnescapeEscape(s: JString, safe: CodeUnit -> bool, w: JString)
    requires !safe(DOLLAR)
    ensures Unescape(Escape(s, safe) + w) == Prepend(s, Unescape(w))
  {
    if s == [] {
      assert Escape(s, safe) + w == w;
      PrependEmpty(Unescape(w));
    } else {
      var tail := Escape(s[1..], safe) + w;
      UnescapeEscape(s[1..], safe, w);
      var head := EscapeUnit(s[0], safe);
      assert Escape(s, safe) + w == head + tail;
      UnescapeEscapeUnit(s[0], safe, tail);
      PrependPrepend([s[0]], s[1..], Unescape(w));
      assert [s[0]] + s[1..] == s;
    }
  }

  lemma EscapeRoundTrip(s: JString, safe: CodeUnit -> bool)
    requires !safe(DOLLAR)
    ensures Unescape(Escape(s, safe)) == Ok(s)
  {
    UnescapeEscape(s, safe, []);
    assert Escape(s, safe) + [] == Escape(s, safe);
    assert s + [] == s;
  }

  // ---------------------------------------------------------------------------
  // Examples

  /** Text, a group, text, a group: both groups decode. */
  lemma UnescapeTwoGroups(a: JString, g1: JString, b: JString, g2: JString, c1: CodeUnit, c2: CodeUnit)
    requires DOLLAR !in a && DOLLAR !in b
    requires |g1| == 4 && ParseGroup(g1) == Some(c1)
    requires |g2| == 4 && ParseGroup(g2) == Some(c2)
    ensures Unescape(a + ([DOLLAR] + g1 + (b + ([DOLLAR] + g2)))) == Ok(a + ([c1] + (b + [c2])))
  {
    var t2 := [DOLLAR] + g2;
    var t1 := b + t2;
    UnescapeGroup(g2, c2, []);
    assert t2 + [] == t2;
    UnescapeVerbatim(b, t2);
    assert Unescape(t1) == Ok(b + [c2]);
    UnescapeGroup(g1, c1, t1);
    UnescapeVerbatim(a, [DOLLAR] + g1 + t1);
  }

  lemma ObamaKeyParts()
    ensures Units("Barack_Hussein_Obama$002C_Jr$002E")
         == Units("Barack_Hussein_Obama") + ([DOLLAR] + Units("002C") + (Units("_Jr") + ([DOLLAR] + Units("002E"))))
    ensures Units("Barack_Hussein_Obama,_Jr.")
         == Units("Barack_Hussein_Obama") + ([0x2C] + (Units("_Jr") + [0x2E]))
  {
  }

  lemma ObamaGroups()
    ensures ParseGroup(Units("002C")) == Some(0x2C) && ParseGroup(Units("002E")) == Some(0x2E)
  {
  }

  /** Lower-case digits spell the same code units: `$002c` is `,` as well. */
  lemma LowerCaseGroupsExample()
    ensures ParseGroup(Units("002c")) == Some(0x2C) && ParseGroup(Units("002e")) == Some(0x2E)
  {
    ObamaGroups();
    ParseGroupIgnoresCase(Units("002C"));
    ParseGroupIgnoresCase(Units("002E"));
    assert LowerCase(Units("002C")) == Units("002c");
    assert LowerCase(Units("002E")) == Units("002e");
  }

  /** `-001` parses to -1, so `$-001` is the error `appendCodePoint` throws. */
  lemma NegativeGroupExample()
    ensures ParseGroup(Units("-001")) == Some(-1)
    ensures Unescape([DOLLAR] + Units("-001")) == IllegalCodePoint(-1)
  {
    var g := Units("-001");
    ParseGroupSign(g);
    assert [0x30] + g[1..] == Units("0001");
    var s := [DOLLAR] + g;
    assert s[0] == DOLLAR && s[1..][..4] == g && s[1..][4..] == [];
  }

  /** The key of the English Wikipedia article on Barack Obama. */
  lemma ObamaExample()
    ensures Unescape(Units("Barack_Hussein_Obama$002C_Jr$002E"))
         == Ok(Units("Barack_Hussein_Obama,_Jr."))
  {
    var a, b := Units("Barack_Hussein_Obama"), Units("_Jr");
    var g1, g2 := Units("002C"), Units("002E");
    ObamaGroups();
    UnitsWithout("Barack_Hussein_Obama", '$');
    UnitsWithout("_Jr", '$');
    UnescapeTwoGroups(a, g1, b, g2, 0x2C, 0x2E);
    ObamaKeyParts();
  }

  /** A `$` whose four following units do not parse is dropped. */
  lemma UnescapeDroppedDollar(a: JString, p: JString)
    requires DOLLAR !in a && DOLLAR !in p
    requires |p| < 4 || ParseGroup(p[..4]).None?
    ensures Unescape(a + ([DOLLAR] + p)) == Ok(a + p)
  {
    assert DecodePiece(p) == Ok(p);
    UnescapePiece(p, []);
    assert [DOLLAR] + p + [] == [DOLLAR] + p;
    assert p + [] == p;
    UnescapeVerbatim(a, [DOLLAR] + p);
  }

  lemma MalformedGroupParts()
    ensures Units("foo$1bar") == Units("foo") + ([DOLLAR] + Units("1bar"))
    ensures Units("foo1bar") == Units("foo") + Units("1bar")
  {
  }

  /** `foo$1bar`: `1bar` is no group, so only the `$` is lost. */
  lemma MalformedGroupExample()
    ensures Unescape(Units("foo$1bar")) == Ok(Units("foo1bar"))
  {
    var a, p := Units("foo"), Units("1bar");
    assert ParseGroup(p[..4]).None?;
    UnitsWithout("foo", '$');
    UnitsWithout("1bar", '$');
    UnescapeDroppedDollar(a, p);
    MalformedGroupParts();
  }
}
