/**
 * Java strings as the Freebase node code sees them: sequences of UTF-16 code
 * units, with the handful of java.lang.String operations that code relies on
 * (toLowerCase, compareTo, split around one character).
 */
module JavaString {

  /** One UTF-16 code unit, the element of a Java `String` (surrogates included). */
  type CodeUnit = c: int | 0 <= c < 0x1_0000

  type JString = seq<CodeUnit>

  const TAB: CodeUnit := 0x09
  const NEWLINE: CodeUnit := 0x0A
  const QUOTE: CodeUnit := 0x22
  const DOLLAR: CodeUnit := 0x24
  const PLUS: CodeUnit := 0x2B
  const MINUS: CodeUnit := 0x2D
  const DOT: CodeUnit := 0x2E
  const LT: CodeUnit := 0x3C
  const GT: CodeUnit := 0x3E

  /** An ASCII Dafny string as Java code units, for writing examples. */
  function Units(s: string): (r: JString)
    requires forall i :: 0 <= i < |s| ==> s[i] as int < 0x80
    ensures |r| == |s|
    ensures forall i :: 0 <= i < |s| ==> r[i] == s[i] as int
  {
    seq(|s|, i requires 0 <= i < |s| => s[i] as int)
  }

  lemma UnitsWithout(s: string, c: char)
    requires forall i :: 0 <= i < |s| ==> s[i] as int < 0x80
    requires c !in s
    ensures c as int !in Units(s)
  {
  }

  // ---------------------------------------------------------------------------
  // String.toLowerCase, on ASCII letters

  predicate IsUpperAscii(c: CodeUnit)
  {
    0x41 <= c <= 0x5A
  }

  function LowerUnit(c: CodeUnit): CodeUnit
  {
    if IsUpperAscii(c) then c + 0x20 else c
  }

  /**
   * `String.toLowerCase` restricted to the ASCII letters 'A'..'Z': no
   * upper-case letter is left, each one becomes its lower-case partner, and
   * every other unit stays where it was.
   */
  function LowerCase(s: JString): (r: JString)
    ensures |r| == |s|
    ensures forall i :: 0 <= i < |r| ==> !IsUpperAscii(r[i])
    ensures forall i :: 0 <= i < |s| && IsUpperAscii(s[i]) ==> r[i] == s[i] + 0x20
    ensures forall i :: 0 <= i < |s| && !IsUpperAscii(s[i]) ==> r[i] == s[i]
  {
    seq(|s|, i requires 0 <= i < |s| => LowerUnit(s[i]))
  }

  /** Lower-casing an already lower-cased string changes nothing. */
  lemma LowerCaseIdempotent(s: JString)
    ensures LowerCase(LowerCase(s)) == LowerCase(s)
  {
  }

  // ---------------------------------------------------------------------------
  // String.compareTo: the order a TreeMap<String, _> keeps its keys in

  /**
   * `String.compareTo`: the difference of the first differing code units, or
   * the difference of the lengths when one string is a prefix of the other.
   */
  function CompareTo(a: JString, b: JString): int
  {
    if a == [] || b == [] then |a| - |b|
    else if a[0] != b[0] then a[0] - b[0]
    else CompareTo(a[1..], b[1..])
  }

  predicate Less(a: JString, b: JString)
  {
    CompareTo(a, b) < 0
  }

  /** compareTo is zero exactly on equal strings. */
  lemma {:induction false} CompareToZero(a: JString, b: JString)
    ensures CompareTo(a, b) == 0 <==> a == b
  {
    if a != [] && b != [] && a[0] == b[0] {
      CompareToZero(a[1..], b[1..]);
      assert a == [a[0]] + a[1..] && b == [b[0]] + b[1..];
    }
  }

  /** compareTo is antisymmetric: swapping the arguments negates the result. */
  lemma {:induction false} CompareToAntisymmetric(a: JString, b: JString)
    ensures CompareTo(a, b) == -CompareTo(b, a)
  {
    if a != [] && b != [] && a[0] == b[0] {
      CompareToAntisymmetric(a[1..], b[1..]);
    }
  }

  /** compareTo is transitive, as the TreeMap contract requires. */
  lemma {:induction false} CompareToTransitive(a: JString, b: JString, c: JString)
    requires CompareTo(a, b) < 0 && CompareTo(b, c) < 0
    ensures CompareTo(a, c) < 0
  {
    if a != [] && b != [] && c != [] && a[0] == b[0] && b[0] == c[0] {
      CompareToTransitive(a[1..], b[1..], c[1..]);
    }
  }

  /** The consequences of the three lemmas above, for every string at once. */
  lemma CompareToIsTotalOrder()
    ensures forall a: JString, b: JString :: CompareTo(a, b) == 0 <==> a == b
    ensures forall a: JString, b: JString :: CompareTo(a, b) == -CompareTo(b, a)
    ensures forall a: JString, b: JString, c: JString ::
      CompareTo(a, b) <= 0 && CompareTo(b, c) <= 0 ==> CompareTo(a, c) <= 0
    ensures forall a: JString, b: JString, c: JString ::
      CompareTo(a, b) < 0 && CompareTo(b, c) < 0 ==> CompareTo(a, c) < 0
  {
    forall a: JString, b: JString
      ensures CompareTo(a, b) == 0 <==> a == b
      ensures CompareTo(a, b) == -CompareTo(b, a)
    {
      CompareToZero(a, b);
      CompareToAntisymmetric(a, b);
    }
    forall a: JString, b: JString, c: JString | CompareTo(a, b) <= 0 && CompareTo(b, c) <= 0
      ensures CompareTo(a, c) <= 0
      ensures CompareTo(a, b) < 0 && CompareTo(b, c) < 0 ==> CompareTo(a, c) < 0
    {
      CompareToZero(a, b);
      CompareToZero(b, c);
      if CompareTo(a, b) < 0 && CompareTo(b, c) < 0 {
        CompareToTransitive(a, b, c);
      }
    }
  }

  // ---------------------------------------------------------------------------
  // String.split around a single character

  /** The pieces each preceded by `sep`, concatenated. */
  function JoinAfter(ps: seq<JString>, sep: CodeUnit): JString
  {
    if ps == [] then [] else [sep] + ps[0] + JoinAfter(ps[1..], sep)
  }

  function Repeat(c: CodeUnit, n: nat): (r: JString)
    ensures |r| == n && forall i :: 0 <= i < n ==> r[i] == c
  {
    if n == 0 then [] else [c] + Repeat(c, n - 1)
  }

  /** A non-empty string made only of `sep`. */
  predicate OnlySep(s: JString, sep: CodeUnit)
  {
    |s| > 0 && forall i :: 0 <= i < |s| ==> s[i] == sep
  }

  /** Every piece between occurrences of `sep`, empty pieces included. */
  function Pieces(s: JString, sep: CodeUnit): (r: seq<JString>)
    ensures |r| >= 1
    ensures s == r[0] + JoinAfter(r[1..], sep)
  {
    if s == [] then [[]]
    else
      var rest := Pieces(s[1..], sep);
      if s[0] == sep then
        assert ([[]] + rest)[1..] == rest;
        [[]] + rest
      else
        var r := [[s[0]] + rest[0]] + rest[1..];
        assert r[1..] == rest[1..];
        assert s == [s[0]] + s[1..];
        r
  }

  /** No piece holds the separator. */
  lemma {:induction false} PiecesWithoutSep(s: JString, sep: CodeUnit)
    ensures forall i :: 0 <= i < |Pieces(s, sep)| ==> sep !in Pieces(s, sep)[i]
  {
    if s != [] {
      PiecesWithoutSep(s[1..], sep);
      var rest := Pieces(s[1..], sep);
      if s[0] != sep {
        assert sep !in [s[0]] + rest[0];
      }
    }
  }

  function DropTrailingEmpty(ps: seq<JString>): (r: seq<JString>)
    ensures |r| <= |ps| && r == ps[..|r|]
    ensures forall i :: |r| <= i < |ps| ==> ps[i] == []
    ensures |r| > 0 ==> r[|r| - 1] != []
  {
    if ps == [] then []
    else if ps[|ps| - 1] == [] then DropTrailingEmpty(ps[..|ps| - 1])
    else ps
  }

  /**
   * `s.split(regex)` for a regex matching the single character `sep`: with no
   * match the result is `[s]`; otherwise the pieces between matches, with
   * trailing empty pieces removed.
   */
  function Split(s: JString, sep: CodeUnit): (r: seq<JString>)
    ensures |r| == 0 <==> OnlySep(s, sep)
  {
    if sep !in s then
      assert |s| > 0 ==> s[0] in s;
      [s]
    else
      PiecesAllEmpty(s, sep);
      DropTrailingEmpty(Pieces(s, sep))
  }

  /**
   * No piece holds `sep`; without a match the one piece is the whole string;
   * with one, a trailing empty piece never survives.
   */
  lemma SplitPieces(s: JString, sep: CodeUnit)
    ensures forall i :: 0 <= i < |Split(s, sep)| ==> sep !in Split(s, sep)[i]
    ensures sep !in s ==> Split(s, sep) == [s]
    ensures sep in s && |Split(s, sep)| > 0 ==> Split(s, sep)[|Split(s, sep)| - 1] != []
  {
    if sep in s {
      PiecesWithoutSep(s, sep);
    }
  }

  /** Split finds no non-empty piece exactly when the string is all `sep`. */
  lemma PiecesAllEmpty(s: JString, sep: CodeUnit)
    requires sep in s
    ensures |DropTrailingEmpty(Pieces(s, sep))| == 0 <==> OnlySep(s, sep)
  {
    var ps := Pieces(s, sep);
    if |DropTrailingEmpty(ps)| == 0 {
      AllEmptyJoin(ps[1..], sep);
    }
    if OnlySep(s, sep) {
      OnlySepPieces(s, sep);
    }
  }

  lemma {:induction false} AllEmptyJoin(ps: seq<JString>, sep: CodeUnit)
    requires forall i :: 0 <= i < |ps| ==> ps[i] == []
    ensures JoinAfter(ps, sep) == Repeat(sep, |ps|)
  {
    if ps != [] {
      AllEmptyJoin(ps[1..], sep);
    }
  }

  lemma {:induction false} OnlySepPieces(s: JString, sep: CodeUnit)
    requires s == [] || OnlySep(s, sep)
    ensures forall i :: 0 <= i < |Pieces(s, sep)| ==> Pieces(s, sep)[i] == []
  {
    if s != [] {
      OnlySepPieces(s[1..], sep);
    }
  }

  lemma {:induction false} JoinAfterAppend(ps: seq<JString>, qs: seq<JString>, sep: CodeUnit)
    ensures JoinAfter(ps + qs, sep) == JoinAfter(ps, sep) + JoinAfter(qs, sep)
  {
    if ps == [] {
      assert ps + qs == qs;
    } else {
      assert (ps + qs)[0] == ps[0] && (ps + qs)[1..] == ps[1..] + qs;
      JoinAfterAppend(ps[1..], qs, sep);
    }
  }

  /** Dropping trailing empty pieces loses only a run of separators. */
  lemma JoinDropped(ps: seq<JString>, sep: CodeUnit)
    requires |DropTrailingEmpty(ps)| > 0
    ensures var r := DropTrailingEmpty(ps);
      ps[0] + JoinAfter(ps[1..], sep) == r[0] + JoinAfter(r[1..], sep) + Repeat(sep, |ps| - |r|)
  {
    var r := DropTrailingEmpty(ps);
    var n := |r|;
    assert ps[1..] == r[1..] + ps[n..];
    JoinAfterAppend(r[1..], ps[n..], sep);
    AllEmptyJoin(ps[n..], sep);
  }

  /**
   * What split loses: the string is its first piece, every later piece after
   * a `sep`, and the trailing run of `sep`s whose empty pieces were removed.
   */
  lemma SplitJoin(s: JString, sep: CodeUnit)
    requires !OnlySep(s, sep)
    ensures |Split(s, sep)| > 0
    ensures exists k: nat ::
      s == Split(s, sep)[0] + JoinAfter(Split(s, sep)[1..], sep) + Repeat(sep, k)
  {
    var r := Split(s, sep);
    if sep !in s {
      SplitPieces(s, sep);
      assert s == r[0] + JoinAfter(r[1..], sep) + Repeat(sep, 0);
    } else {
      var ps := Pieces(s, sep);
      assert r == DropTrailingEmpty(ps);
      JoinDropped(ps, sep);
      assert s == r[0] + JoinAfter(r[1..], sep) + Repeat(sep, |ps| - |r|);
    }
  }
}
