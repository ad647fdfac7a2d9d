/**
 * The static half of FreebaseNode: sorting an N-Triples object token into a
 * kind by its first (and last) code unit, and normalising it according to
 * that kind.
 */
module ObjectValue {
  import opened JavaString
  import opened MqlKey

  /** FreebaseNode.RdfObjectType. */
  datatype RdfObjectType = URI | STRING | TEXT | OTHER

  /**
   * FreebaseNode.getObjectType: `<` opens a URI; `"` opens a STRING when the
   * token also ends with `"` and a TEXT (a literal with a language tag or a
   * datatype) otherwise; anything else is OTHER. `charAt(0)` needs a
   * non-empty token.
   */
  function GetObjectType(t: JString): (r: RdfObjectType)
    requires |t| > 0
    ensures r == URI <==> t[0] == LT
    ensures r == STRING <==> t[0] == QUOTE && t[|t| - 1] == QUOTE
    ensures r == TEXT <==> t[0] == QUOTE && t[|t| - 1] != QUOTE
    ensures r == OTHER <==> t[0] != LT && t[0] != QUOTE
  {
    if t[0] == LT then URI
    else if t[0] == QUOTE then (if t[|t| - 1] == QUOTE then STRING else TEXT)
    else OTHER
  }

  /** The kind depends on nothing but the first and the last code unit. */
  lemma ObjectTypeReadsEnds(t: JString, u: JString)
    requires |t| > 0 && |u| > 0
    requires t[0] == u[0] && t[|t| - 1] == u[|u| - 1]
    ensures GetObjectType(t) == GetObjectType(u)
  {
  }

  /**
   * FreebaseNode.cleanUri: a token opening with `<` loses its first and its
   * last unit (whatever that is) and is lower-cased; any other token is
   * returned as it is. `substring(1, length - 1)` needs two units.
   */
  function CleanUri(t: JString): (r: JString)
    requires |t| > 0 && (t[0] == LT ==> |t| >= 2)
    ensures t[0] == LT ==> |r| == |t| - 2 && forall i :: 0 <= i < |r| ==> r[i] == LowerUnit(t[i + 1])
    ensures t[0] == LT ==> forall i :: 0 <= i < |r| ==> !IsUpperAscii(r[i])
    ensures t[0] != LT ==> r == t
  {
    if t[0] == LT then LowerCase(t[1..|t| - 1]) else t
  }

  /** An angle-bracketed URI comes back lower-cased without its brackets. */
  lemma CleanUriBracketed(x: JString)
    ensures CleanUri([LT] + x + [GT]) == LowerCase(x)
  {
    var t := [LT] + x + [GT];
    assert t[0] == LT && t[1..|t| - 1] == x;
  }

  /**
   * Cleaning twice is cleaning once unless the cleaned URI still opens with
   * `<`: a second pass would strip another pair of units.
   */
  lemma CleanUriIdempotent(t: JString)
    requires |t| > 0 && (t[0] == LT ==> |t| >= 2)
    requires |CleanUri(t)| > 0 && CleanUri(t)[0] != LT
    ensures CleanUri(CleanUri(t)) == CleanUri(t)
  {
  }

  /** `<<a>>` cleans to `<a>`, which cleans again to `a`. */
  lemma CleanUriNotIdempotent()
    ensures CleanUri(CleanUri(Units("<<a>>"))) != CleanUri(Units("<<a>>"))
  {
    var once := CleanUri(Units("<<a>>"));
    assert once == Units("<a>");
    assert |CleanUri(once)| == 1;
  }

  /**
   * FreebaseNode.removeEnclosingQuote: a string opening with `"` loses its
   * first and last units; any other string is returned as it is.
   */
  function RemoveEnclosingQuote(s: JString): (r: JString)
    requires |s| > 0 && (s[0] == QUOTE ==> |s| >= 2)
    ensures s[0] == QUOTE ==> |r| == |s| - 2 && s == [s[0]] + r + [s[|s| - 1]]
    ensures s[0] != QUOTE ==> r == s
  {
    if s[0] == QUOTE then s[1..|s| - 1] else s
  }

  lemma RemoveQuoteOfQuoted(x: JString)
    ensures RemoveEnclosingQuote([QUOTE] + x + [QUOTE]) == x
  {
    var s := [QUOTE] + x + [QUOTE];
    assert s[0] == QUOTE && s[1..|s| - 1] == x;
  }

  /** A closing quote after `x` survives un-escaping. */
  predicate QuoteSurvives(x: JString)
  {
    Unescape(x + [QUOTE]) == Then(Unescape(x), Ok([QUOTE]))
  }

  lemma QuoteAfterCopied(x: JString)
    requires |x| > 0 && x[0] != DOLLAR && QuoteSurvives(x[1..])
    ensures QuoteSurvives(x)
  {
    assert x + [QUOTE] == [x[0]] + (x[1..] + [QUOTE]);
    assert x == [x[0]] + x[1..];
    UnescapeCons(x[0], x[1..] + [QUOTE]);
    UnescapeCons(x[0], x[1..]);
    match Unescape(x[1..])
    case Ok(v) => assert [x[0]] + (v + [QUOTE]) == ([x[0]] + v) + [QUOTE];
    case IllegalCodePoint(_) =>
  }

  lemma QuoteAfterGroup(x: JString)
    requires |x| >= 5 && x[0] == DOLLAR && ParseGroup(x[1..5]).Some?
    requires QuoteSurvives(x[5..])
    ensures QuoteSurvives(x)
  {
    var s := x + [QUOTE];
    assert s[0] == DOLLAR && s[1..][..4] == x[1..5] && s[1..][4..] == x[5..] + [QUOTE];
    assert x[1..][..4] == x[1..5] && x[1..][4..] == x[5..];
    if ParseGroup(x[1..5]).value >= 0 {
      var code: CodeUnit := ParseGroup(x[1..5]).value;
      match Unescape(x[5..])
      case Ok(v) => assert [code] + (v + [QUOTE]) == ([code] + v) + [QUOTE];
      case IllegalCodePoint(_) =>
    }
  }

  lemma QuoteAfterDropped(x: JString)
    requires |x| > 0 && x[0] == DOLLAR
    requires |x| < 5 || ParseGroup(x[1..5]).None?
    requires QuoteSurvives(x[1..])
    ensures QuoteSurvives(x)
  {
    var s := x + [QUOTE];
    assert s[0] == DOLLAR && s[1..] == x[1..] + [QUOTE];
    if |x| >= 5 {
      assert s[1..][..4] == x[1..5] && x[1..][..4] == x[1..5];
    } else if |x| == 4 {
      GroupWithout(s[1..][..4], 3, QUOTE);
    }
  }

  /**
   * Un-escaping a quoted string keeps both quotes: the opening one comes
   * before any `$`, and the closing one is no hex digit or sign, so no group
   * swallows it.
   */
  lemma {:induction false} UnescapeBeforeQuote(x: JString)
    ensures Unescape(x + [QUOTE]) == Then(Unescape(x), Ok([QUOTE]))
    decreases |x|
  {
    if x == [] {
      assert x + [QUOTE] == [QUOTE] + [];
      UnescapeCons(QUOTE, []);
    } else if x[0] != DOLLAR {
      UnescapeBeforeQuote(x[1..]);
      QuoteAfterCopied(x);
    } else if |x| >= 5 && ParseGroup(x[1..5]).Some? {
      UnescapeBeforeQuote(x[5..]);
      QuoteAfterGroup(x);
    } else {
      UnescapeBeforeQuote(x[1..]);
      QuoteAfterDropped(x);
    }
  }

  /** A quoted string un-escapes to its un-escaped content, still quoted. */
  lemma UnescapeQuoted(x: JString)
    ensures Unescape([QUOTE] + x + [QUOTE]) == Prepend([QUOTE], Then(Unescape(x), Ok([QUOTE])))
  {
    assert [QUOTE] + x + [QUOTE] == [QUOTE] + (x + [QUOTE]);
    UnescapeCons(QUOTE, x + [QUOTE]);
    UnescapeBeforeQuote(x);
  }

  /** The same, for a STRING token and its inside. */
  lemma UnescapeString(t: JString)
    requires |t| >= 2 && t[0] == QUOTE && t[|t| - 1] == QUOTE
    ensures Unescape(t[1..|t| - 1]).Ok? ==>
      Unescape(t) == Ok([QUOTE] + Unescape(t[1..|t| - 1]).value + [QUOTE])
    ensures Unescape(t[1..|t| - 1]).IllegalCodePoint? ==> Unescape(t) == Unescape(t[1..|t| - 1])
  {
    var x := t[1..|t| - 1];
    assert t == [QUOTE] + x + [QUOTE];
    UnescapeQuoted(x);
    match Unescape(x)
    case Ok(v) => assert [QUOTE] + (v + [QUOTE]) == [QUOTE] + v + [QUOTE];
    case IllegalCodePoint(_) =>
  }

  /**
   * The STRING branch of normalizeObjectValue: with a `$` the whole token is
   * un-escaped before its quotes are removed, without one the quotes are
   * removed directly.
   */
  function NormalizeString(t: JString): (r: Decoded)
    requires |t| >= 2 && t[0] == QUOTE && t[|t| - 1] == QUOTE
    ensures r == Unescape(t[1..|t| - 1])
  {
    if DOLLAR in t then
      UnescapeString(t);
      match Unescape(t)
      case Ok(u) =>
        RemoveQuoteOfQuoted(Unescape(t[1..|t| - 1]).value);
        Ok(RemoveEnclosingQuote(u))
      case IllegalCodePoint(_) => Unescape(t)
    else
      assert t == [QUOTE] + t[1..|t| - 1] + [QUOTE];
      assert DOLLAR !in t[1..|t| - 1];
      UnescapeBounds(t[1..|t| - 1]);
      Ok(RemoveEnclosingQuote(t))
  }

  /**
   * FreebaseNode.normalizeObjectValue: a URI is cleaned; a STRING has its
   * quotes removed, after un-escaping when it contains a `$`; a TEXT goes
   * whole to `unescapeText`, which stands for NTriplesUtil.unescapeString;
   * anything else is returned as it is. Only the un-escaping can fail.
   */
  function NormalizeObjectValue(t: JString, unescapeText: JString -> JString): (r: Decoded)
    requires |t| > 0 && (t[0] == LT || t[0] == QUOTE ==> |t| >= 2)
    ensures GetObjectType(t) == URI ==> r == Ok(CleanUri(t))
    ensures GetObjectType(t) == STRING ==> r == Unescape(t[1..|t| - 1])
    ensures GetObjectType(t) == TEXT ==> r == Ok(unescapeText(t))
    ensures GetObjectType(t) == OTHER ==> r == Ok(t)
    ensures r.IllegalCodePoint? ==> GetObjectType(t) == STRING && DOLLAR in t
  {
    var kind := GetObjectType(t);
    if kind == URI then Ok(CleanUri(t))
    else if kind == STRING then
      assert DOLLAR in t[1..|t| - 1] ==> DOLLAR in t;
      NormalizeString(t)
    else if kind == TEXT then Ok(unescapeText(t))
    else Ok(t)
  }

  /** A STRING without `$` loses exactly its two quotes. */
  lemma NormalizePlainString(t: JString, unescapeText: JString -> JString)
    requires |t| >= 2 && GetObjectType(t) == STRING && DOLLAR !in t
    ensures NormalizeObjectValue(t, unescapeText) == Ok(t[1..|t| - 1])
    ensures |NormalizeObjectValue(t, unescapeText).value| == |t| - 2
  {
    var x := t[1..|t| - 1];
    assert t == [QUOTE] + x + [QUOTE];
  }

  /** `"abc"` is a STRING and normalises to `abc`. */
  lemma NormalizeQuoted(x: JString, unescapeText: JString -> JString)
    requires DOLLAR !in x
    ensures GetObjectType([QUOTE] + x + [QUOTE]) == STRING
    ensures NormalizeObjectValue([QUOTE] + x + [QUOTE], unescapeText) == Ok(x)
  {
    var t := [QUOTE] + x + [QUOTE];
    assert t[1..|t| - 1] == x;
  }

  /**
   * A quoted MQL-escaped key normalises to the key it escapes: quoting,
   * escaping and `normalizeObjectValue` make a round trip.
   */
  lemma NormalizeEscapedKey(x: JString, safe: CodeUnit -> bool, unescapeText: JString -> JString)
    requires !safe(DOLLAR)
    ensures NormalizeObjectValue([QUOTE] + Escape(x, safe) + [QUOTE], unescapeText) == Ok(x)
  {
    var t := [QUOTE] + Escape(x, safe) + [QUOTE];
    assert t[1..|t| - 1] == Escape(x, safe);
    EscapeRoundTrip(x, safe);
  }

  /** `"abc"@en` and `"1"^^<type>` are TEXT, handed over whole. */
  lemma NormalizeTagged(x: JString, suffix: JString, unescapeText: JString -> JString)
    requires |suffix| > 0 && suffix[|suffix| - 1] != QUOTE
    ensures GetObjectType([QUOTE] + x + [QUOTE] + suffix) == TEXT
    ensures NormalizeObjectValue([QUOTE] + x + [QUOTE] + suffix, unescapeText)
         == Ok(unescapeText([QUOTE] + x + [QUOTE] + suffix))
  {
    var t := [QUOTE] + x + [QUOTE] + suffix;
    assert t[|t| - 1] == suffix[|suffix| - 1];
  }

  /** `<...>` is a URI and normalises to its lower-cased inside. */
  lemma NormalizeBracketed(x: JString, unescapeText: JString -> JString)
    ensures GetObjectType([LT] + x + [GT]) == URI
    ensures NormalizeObjectValue([LT] + x + [GT], unescapeText) == Ok(LowerCase(x))
  {
    CleanUriBracketed(x);
  }
}
