/**
 * The java.lang.String, Integer and Guava Splitter operations that the
 * report filter is built from, stated over Dafny strings.
 */
module Text {
  import opened Options

  /** `s.startsWith(prefix)` */
  predicate StartsWith(s: string, prefix: string) {
    |prefix| <= |s| && s[..|prefix|] == prefix
  }

  lemma StartsWithConcat(prefix: string, rest: string)
    ensures StartsWith(prefix + rest, prefix)
  {
    assert (prefix + rest)[..|prefix|] == prefix;
  }

  /** A string whose first character differs from the prefix's does not start with it. */
  lemma NotStartsWithHead(s: string, prefix: string)
    requires s != [] && prefix != [] && s[0] != prefix[0]
    ensures !StartsWith(s, prefix)
  {
  }

  lemma StartsWithExtend(s: string, prefix: string, rest: string)
    requires StartsWith(s, prefix)
    ensures StartsWith(s + rest, prefix)
  {
    assert (s + rest)[..|prefix|] == s[..|prefix|];
  }

  /** The characters `String.trim()` removes: every code point at or below U+0020. */
  predicate IsJavaTrimmable(c: char) {
    c <= ' '
  }

  /**
   * The characters of Guava's `CharMatcher.whitespace()`, which
   * `Splitter.trimResults()` removes from both ends of every piece.
   */
  predicate IsGuavaWhitespace(c: char) {
    c == ' ' || c == '\t' || c == '\n' || c == '\U{B}' || c == '\U{C}' || c == '\r'
    || c == '\U{85}' || c == '\U{A0}' || c == '\U{1680}' || ('\U{2000}' <= c <= '\U{200A}')
    || c == '\U{2028}' || c == '\U{2029}' || c == '\U{202F}' || c == '\U{205F}' || c == '\U{3000}'
  }

  /** `s` with its longest prefix of `ws` characters removed. */
  function TrimStart(s: string, ws: char -> bool): (r: string)
    ensures |r| <= |s|
  {
    if s != [] && ws(s[0]) then TrimStart(s[1..], ws) else s
  }

  lemma {:induction false} TrimStartFacts(s: string, ws: char -> bool)
    ensures var r := TrimStart(s, ws);
      && r == s[|s| - |r|..]
      && (r == [] || !ws(r[0]))
      && (forall i :: 0 <= i < |s| - |r| ==> ws(s[i]))
  {
    if s != [] && ws(s[0]) { TrimStartFacts(s[1..], ws); }
  }

  /** `s` with its longest suffix of `ws` characters removed. */
  function TrimEnd(s: string, ws: char -> bool): (r: string)
    ensures |r| <= |s|
  {
    if s != [] && ws(s[|s| - 1]) then TrimEnd(s[..|s| - 1], ws) else s
  }

  lemma {:induction false} TrimEndFacts(s: string, ws: char -> bool)
    ensures var r := TrimEnd(s, ws);
      && r == s[..|r|]
      && (r == [] || !ws(r[|r| - 1]))
      && (forall i :: |r| <= i < |s| ==> ws(s[i]))
  {
    if s != [] && ws(s[|s| - 1]) { TrimEndFacts(s[..|s| - 1], ws); }
  }

  function Trim(s: string, ws: char -> bool): (r: string)
    ensures r == [] || (!ws(r[0]) && !ws(r[|r| - 1]))
  {
    var u := TrimStart(s, ws);
    var r := TrimEnd(u, ws);
    assert u == [] || !ws(u[0]) by { TrimStartFacts(s, ws); }
    assert r == u[..|r|] && (r == [] || !ws(r[|r| - 1])) by { TrimEndFacts(u, ws); }
    assert r != [] ==> r[0] == u[0];
    r
  }

  /** A string with nothing to trim at either end is kept; one made only of trimmable characters becomes empty. */
  lemma TrimKeepsOrEmpties(s: string, ws: char -> bool)
    ensures |Trim(s, ws)| <= |s|
    ensures s == [] || (!ws(s[0]) && !ws(s[|s| - 1])) ==> Trim(s, ws) == s
    ensures (forall i :: 0 <= i < |s| ==> ws(s[i])) ==> Trim(s, ws) == []
  {
    var u := TrimStart(s, ws);
    TrimStartFacts(s, ws);
    if u != [] {
      assert u[0] == s[|s| - |u|];
    }
  }

  /** `String.trim()` */
  function JavaTrim(s: string): string {
    Trim(s, IsJavaTrimmable)
  }

  /**
   * What `String.trim()` promises: neither end of the result is a character
   * up to `' '`; a string with no such character at either end is returned
   * as it is, and one made only of such characters becomes empty.
   */
  lemma JavaTrimSpec(s: string)
    ensures var r := JavaTrim(s);
      && (r == [] || (!IsJavaTrimmable(r[0]) && !IsJavaTrimmable(r[|r| - 1])))
      && |r| <= |s|
      && (s == [] || (!IsJavaTrimmable(s[0]) && !IsJavaTrimmable(s[|s| - 1])) ==> r == s)
      && ((forall i :: 0 <= i < |s| ==> IsJavaTrimmable(s[i])) ==> r == [])
  {
    TrimKeepsOrEmpties(s, IsJavaTrimmable);
  }

  /** Past `k` trimmable characters, the first that is not one is where `String.trim()`'s result starts. */
  lemma JavaTrimFirst(s: string, k: nat)
    requires k < |s| && !IsJavaTrimmable(s[k])
    requires forall i :: 0 <= i < k ==> IsJavaTrimmable(s[i])
    ensures JavaTrim(s) != [] && JavaTrim(s)[0] == s[k]
  {
    var u := TrimStart(s, IsJavaTrimmable);
    TrimStartFacts(s, IsJavaTrimmable);
    assert |s| - |u| == k;
    TrimEndFacts(u, IsJavaTrimmable);
  }

  /** One piece of a Guava `Splitter` after `trimResults()`. */
  function GuavaTrim(s: string): string {
    Trim(s, IsGuavaWhitespace)
  }

  /**
   * What `trimResults()` does to a piece: whitespace is removed from both
   * ends, a piece without it at either end is kept as it is, and a piece of
   * whitespace only becomes empty (and `omitEmptyStrings()` then drops it).
   */
  lemma GuavaTrimSpec(s: string)
    ensures var r := GuavaTrim(s);
      && (r == [] || (!IsGuavaWhitespace(r[0]) && !IsGuavaWhitespace(r[|r| - 1])))
      && |r| <= |s|
      && (s == [] || (!IsGuavaWhitespace(s[0]) && !IsGuavaWhitespace(s[|s| - 1])) ==> r == s)
      && ((forall i :: 0 <= i < |s| ==> IsGuavaWhitespace(s[i])) ==> r == [])
  {
    TrimKeepsOrEmpties(s, IsGuavaWhitespace);
  }

  /** `s.indexOf(c)`: the first position of `c`, or -1. */
  function IndexOf(s: string, c: char): (r: int)
    ensures -1 <= r < |s|
    ensures r == -1 <==> c !in s
    ensures r >= 0 ==> s[r] == c && c !in s[..r]
  {
    if s == [] then -1
    else if s[0] == c then 0
    else
      var k := IndexOf(s[1..], c);
      assert s[1..][..if k < 0 then 0 else k] == s[1..if k < 0 then 1 else k + 1];
      if k < 0 then -1 else k + 1
  }

  /** The first `c` of `a + b`, when `a` holds none, is the first `c` of `b`. */
  lemma {:induction false} IndexOfAfter(a: string, b: string, c: char)
    requires c !in a && c in b
    ensures IndexOf(a + b, c) == |a| + IndexOf(b, c)
  {
    if a != [] {
      assert (a + b)[0] == a[0] && (a + b)[1..] == a[1..] + b;
      IndexOfAfter(a[1..], b, c);
    } else {
      assert a + b == b;
    }
  }

  /** The first `c` of `a + b`, when `a` holds one, is the first `c` of `a`. */
  lemma IndexOfBefore(a: string, b: string, c: char)
    requires c in a
    ensures IndexOf(a + b, c) == IndexOf(a, c)
  {
    var r := IndexOf(a + b, c);
    var q := IndexOf(a, c);
    assert (a + b)[..q] == a[..q] && (a + b)[q] == c;
  }

  /** `s.replace(":", "")` for a one-character target: every `c` removed. */
  function RemoveChar(s: string, c: char): (r: string)
    ensures c !in r
    ensures |r| <= |s|
    ensures c !in s ==> r == s
  {
    if s == [] then []
    else if s[0] == c then RemoveChar(s[1..], c)
    else [s[0]] + RemoveChar(s[1..], c)
  }

  /** Every piece of `s` between occurrences of `sep`, empty pieces included. */
  function Pieces(s: string, sep: char): (r: seq<string>)
    ensures |r| >= 1
    ensures |r| == 1 <==> sep !in s
    ensures sep !in s ==> r == [s]
    ensures forall i :: 0 <= i < |r| ==> sep !in r[i]
    decreases |s|
  {
    var k := IndexOf(s, sep);
    if k < 0 then [s] else [s[..k]] + Pieces(s[k + 1..], sep)
  }

  function DropTrailingEmpty(ps: seq<string>): (r: seq<string>)
    ensures |r| <= |ps| && r == ps[..|r|]
    ensures r == [] || r[|r| - 1] != []
    ensures forall i :: |r| <= i < |ps| ==> ps[i] == []
  {
    if ps != [] && ps[|ps| - 1] == [] then DropTrailingEmpty(ps[..|ps| - 1]) else ps
  }

  /**
   * `s.split(" ")` with a one-character separator: the pieces between
   * separators with the trailing empty ones dropped, or `[s]` itself when the
   * separator does not occur at all.
   */
  function JavaSplit(s: string, sep: char): seq<string> {
    var ps := Pieces(s, sep);
    if |ps| == 1 then ps else DropTrailingEmpty(ps)
  }

  /**
   * What `split` promises for a one-character separator: no piece holds the
   * separator, the pieces are the leading ones of `Pieces`, and when the
   * separator occurs no trailing piece is empty.
   */
  lemma JavaSplitSpec(s: string, sep: char)
    ensures var r := JavaSplit(s, sep);
      && (sep !in s ==> r == [s])
      && (forall i :: 0 <= i < |r| ==> sep !in r[i])
      && |r| <= |Pieces(s, sep)| && r == Pieces(s, sep)[..|r|]
      && (sep in s ==> r == [] || r[|r| - 1] != [])
  {
  }

  // ---------------------------------------------------------------------
  // Integers: Integer.parseInt and the %d conversion
  // ---------------------------------------------------------------------

  const IntMin: int := -0x8000_0000
  const IntMax: int := 0x7fff_ffff

  /** The range of a Java `int`. */
  predicate IsInt32(n: int) {
    IntMin <= n <= IntMax
  }

  predicate IsDigit(c: char) {
    '0' <= c <= '9'
  }

  predicate AllDigits(s: string) {
    forall i :: 0 <= i < |s| ==> IsDigit(s[i])
  }

  /** Whether `k` is one of the ten code points from `zero` up. */
  predicate InBlock(k: int, zero: int) {
    zero <= k < zero + 10
  }

  /**
   * The digit zero of the block of Unicode decimal digits (general category
   * Nd) that holds the code point `k`, or -1: one test per block of the Basic
   * Multilingual Plane, as Unicode 6.2 lists them.
   */
  function BlockZero(k: int): (z: int)
    ensures z == -1 || InBlock(k, z)
  {
    if InBlock(k, 0x0030) then 0x0030
    else if InBlock(k, 0x0660) then 0x0660
    else if InBlock(k, 0x06F0) then 0x06F0
    else if InBlock(k, 0x07C0) then 0x07C0
    else if InBlock(k, 0x0966) then 0x0966
    else if InBlock(k, 0x09E6) then 0x09E6
    else if InBlock(k, 0x0A66) then 0x0A66
    else if InBlock(k, 0x0AE6) then 0x0AE6
    else if InBlock(k, 0x0B66) then 0x0B66
    else if InBlock(k, 0x0BE6) then 0x0BE6
    else if InBlock(k, 0x0C66) then 0x0C66
    else if InBlock(k, 0x0CE6) then 0x0CE6
    else if InBlock(k, 0x0D66) then 0x0D66
    else if InBlock(k, 0x0E50) then 0x0E50
    else if InBlock(k, 0x0ED0) then 0x0ED0
    else if InBlock(k, 0x0F20) then 0x0F20
    else if InBlock(k, 0x1040) then 0x1040
    else if InBlock(k, 0x1090) then 0x1090
    else if InBlock(k, 0x17E0) then 0x17E0
    else if InBlock(k, 0x1810) then 0x1810
    else if InBlock(k, 0x1946) then 0x1946
    else if InBlock(k, 0x19D0) then 0x19D0
    else if InBlock(k, 0x1A80) then 0x1A80
    else if InBlock(k, 0x1A90) then 0x1A90
    else if InBlock(k, 0x1B50) then 0x1B50
    else if InBlock(k, 0x1BB0) then 0x1BB0
    else if InBlock(k, 0x1C40) then 0x1C40
    else if InBlock(k, 0x1C50) then 0x1C50
    else if InBlock(k, 0xA620) then 0xA620
    else if InBlock(k, 0xA8D0) then 0xA8D0
    else if InBlock(k, 0xA900) then 0xA900
    else if InBlock(k, 0xA9D0) then 0xA9D0
    else if InBlock(k, 0xAA50) then 0xAA50
    else if InBlock(k, 0xABF0) then 0xABF0
    else if InBlock(k, 0xFF10) then 0xFF10
    else -1
  }

  /** `Character.digit(c, 10)`: the value of a decimal digit of any script, `None` where Java gives -1. */
  function DecimalDigit(c: char): (r: Option<nat>)
    ensures r.Some? ==> r.value < 10
    ensures r.None? <==> BlockZero(c as int) == -1
  {
    var z := BlockZero(c as int);
    if z == -1 then None else Some(c as int - z)
  }

  predicate AllDecimalDigits(s: string) {
    forall i :: 0 <= i < |s| ==> DecimalDigit(s[i]).Some?
  }

  /** An ASCII digit is the decimal digit of its own value. */
  lemma AsciiDecimalDigit(c: char)
    requires IsDigit(c)
    ensures DecimalDigit(c) == Some(c as int - '0' as int)
  {
  }

  /** The value of a string of decimal digits, most significant first. */
  function DigitsValue(s: string): nat
    requires AllDecimalDigits(s)
  {
    if s == [] then 0 else DigitsValue(s[..|s| - 1]) * 10 + DecimalDigit(s[|s| - 1]).value
  }

  /**
   * `Integer.parseInt(s)`: an optional sign followed by at least one decimal
   * digit of any script (`Character.digit(c, 10)`), within the `int` range;
   * `None` where Java throws `NumberFormatException`.
   */
  function ParseInt(s: string): (r: Option<int>)
    ensures r.Some? ==> IsInt32(r.value)
    ensures s == [] ==> r.None?
  {
    if s == [] then None
    else
      var signed := s[0] == '-' || s[0] == '+';
      var digits := if signed then s[1..] else s;
      if digits == [] || !AllDecimalDigits(digits) then None
      else
        var v: int := if s[0] == '-' then -(DigitsValue(digits) as int) else DigitsValue(digits);
        if IsInt32(v) then Some(v) else None
  }

  function DigitChar(d: nat): (c: char)
    requires d < 10
    ensures IsDigit(c) && c as int - '0' as int == d
  {
    ('0' as int + d) as char
  }

  /** The decimal digits of `n`, without leading zeros. */
  function NatToString(n: nat): (r: string)
    ensures r != [] && AllDigits(r)
  {
    if n < 10 then [DigitChar(n)] else NatToString(n / 10) + [DigitChar(n % 10)]
  }

  /** `String.format("%d", n)` in a locale whose zero digit is the ASCII `0`, such as `Locale.US` */
  function IntToString(n: int): (r: string)
    ensures r != []
  {
    if n < 0 then "-" + NatToString(-n) else NatToString(n)
  }

  /** `%d` writes a minus sign exactly for a negative number, and ASCII digits after it. */
  lemma IntToStringSpec(n: int)
    ensures var r := IntToString(n);
      && (r[0] == '-' <==> n < 0)
      && AllDigits(if n < 0 then r[1..] else r)
  {
  }

  lemma AsciiDigitsAreDecimal(s: string)
    requires AllDigits(s)
    ensures AllDecimalDigits(s)
  {
    forall i | 0 <= i < |s|
      ensures DecimalDigit(s[i]).Some?
    {
      AsciiDecimalDigit(s[i]);
    }
  }

  lemma {:induction false} NatToStringValue(n: nat)
    ensures AllDecimalDigits(NatToString(n)) && DigitsValue(NatToString(n)) == n
  {
    AsciiDigitsAreDecimal(NatToString(n));
    var s := NatToString(n);
    AsciiDecimalDigit(s[|s| - 1]);
    if n >= 10 {
      var s := NatToString(n);
      assert s[..|s| - 1] == NatToString(n / 10);
      NatToStringValue(n / 10);
    }
  }

  /** A sign followed by digits of value `v` parses as `v` with that sign. */
  lemma ParseIntOfNumeral(s: string, neg: bool, d: string, v: nat)
    requires d != [] && AllDecimalDigits(d) && DigitsValue(d) == v
    requires |s| == |d| + (if neg then 1 else 0) && s[|s| - |d|..] == d
    requires if neg then s[0] == '-' else s[0] != '-' && s[0] != '+'
    requires IsInt32(if neg then -(v as int) else v as int)
    ensures ParseInt(s) == Some(if neg then -(v as int) else v as int)
  {
    var digits := if s[0] == '-' || s[0] == '+' then s[1..] else s;
    assert digits == d;
  }

  /** Digits of other scripts count as `Integer.parseInt` reads them: fullwidth `１２` and Arabic-Indic `-٧` parse. */
  lemma ParseIntOfOtherScripts()
    ensures ParseInt(['\U{FF11}', '\U{FF12}']) == Some(12)
    ensures ParseInt(['-', '\U{0667}']) == Some(-7)
    ensures ParseInt(['\U{FF11}', 'x']) == None
  {
    var d := ['\U{FF11}', '\U{FF12}'];
    assert DecimalDigit(d[0]) == Some(1) && DecimalDigit(d[1]) == Some(2);
    assert d[..1] == [d[0]];
    ParseIntOfNumeral(d, false, d, 12);
    var e := ['\U{0667}'];
    assert DecimalDigit(e[0]) == Some(7);
    ParseIntOfNumeral(['-'] + e, true, e, 7);
    assert DecimalDigit('x') == None;
  }

  /** Reading back what `%d` printed gives the same `int`. */
  lemma ParseIntOfIntToString(n: int)
    requires IsInt32(n)
    ensures ParseInt(IntToString(n)) == Some(n)
  {
    var m := if n < 0 then -n else n;
    var d := NatToString(m);
    NatToStringValue(m);
    assert IsDigit(d[0]);
    ParseIntOfNumeral(IntToString(n), n < 0, d, m);
  }

  /** The text `%d` prints holds nothing but digits and a minus sign. */
  lemma IntToStringLacks(n: int, c: char)
    requires !IsDigit(c) && c != '-'
    ensures c !in IntToString(n)
  {
    var d := NatToString(if n < 0 then -n else n);
    assert forall i :: 0 <= i < |d| ==> IsDigit(d[i]);
  }

  /** `%d` starts with a digit or the minus sign. */
  lemma IntToStringFirst(n: int)
    ensures IsDigit(IntToString(n)[0]) || IntToString(n)[0] == '-'
  {
    if n >= 0 {
      assert NatToString(n)[0] in NatToString(n);
    }
  }

  /** The text `%d` prints holds no space and no whitespace at all. */
  lemma IntToStringHasNoWhitespace(n: int)
    ensures forall i :: 0 <= i < |IntToString(n)| ==> !IsGuavaWhitespace(IntToString(n)[i])
  {
    var d := NatToString(if n < 0 then -n else n);
    assert forall i :: 0 <= i < |d| ==> IsDigit(d[i]);
  }

  /** Removing `c` from a string that ends with `c` drops that last `c` too. */
  lemma {:induction false} RemoveCharOfLast(s: string, c: char)
    ensures RemoveChar(s + [c], c) == RemoveChar(s, c)
  {
    if s != [] {
      assert (s + [c])[1..] == s[1..] + [c];
      RemoveCharOfLast(s[1..], c);
    }
  }

  function Spaces(n: nat): (r: string)
    ensures |r| == n && forall i :: 0 <= i < n ==> r[i] == ' '
  {
    if n == 0 then [] else [' '] + Spaces(n - 1)
  }

  /** A right-justified `%<width>` conversion: spaces in front up to `width`. */
  function PadLeft(s: string, width: nat): (r: string)
    ensures |r| == if |s| < width then width else |s|
    ensures r == Spaces(|r| - |s|) + s
  {
    if |s| < width then Spaces(width - |s|) + s else Spaces(0) + s
  }

  // ---------------------------------------------------------------------
  // Splitter.on(" ").omitEmptyStrings().trimResults().limit(n)
  // ---------------------------------------------------------------------

  /**
   * The pieces Guava's splitter yields for the rest `s` of a line, with
   * `limit` pieces still allowed: each piece is trimmed, empty pieces are
   * skipped without counting, and the last allowed piece runs to the end of
   * the line (trimmed again at its end).
   */
  function Fields(s: string, limit: nat): (r: seq<string>)
    requires limit >= 1
    ensures |r| <= limit
    ensures forall i :: 0 <= i < |r| ==> IsTrimmedText(r[i])
    decreases |s|
  {
    var k := IndexOf(s, ' ');
    var piece := GuavaTrim(if k < 0 then s else s[..k]);
    if piece == [] then
      (if k < 0 then [] else Fields(s[k + 1..], limit))
    else if limit == 1 then
      TrimOfPrefix(if k < 0 then s else s[..k], s, IsGuavaWhitespace);
      [GuavaTrim(s)]
    else
      var rest := if k < 0 then [] else Fields(s[k + 1..], limit - 1);
      TrimmedCons(piece, rest);
      [piece] + rest
  }

  lemma TrimmedCons(piece: string, rest: seq<string>)
    requires IsTrimmedText(piece) && forall i :: 0 <= i < |rest| ==> IsTrimmedText(rest[i])
    ensures forall i :: 0 <= i < |[piece] + rest| ==> IsTrimmedText(([piece] + rest)[i])
  {
  }

  /** Trimming leaves nothing exactly when every character is trimmable. */
  lemma TrimIsEmpty(s: string, ws: char -> bool)
    ensures Trim(s, ws) == [] <==> forall i :: 0 <= i < |s| ==> ws(s[i])
  {
    var t := TrimStart(s, ws);
    TrimStartFacts(s, ws);
    TrimEndFacts(t, ws);
    if t != [] {
      assert !ws(t[0]);
      assert TrimEnd(t, ws) != [];
      assert s[|s| - |t|] == t[0];
    }
  }

  /** A line keeps some text after trimming if a prefix of it does. */
  lemma TrimOfPrefix(p: string, s: string, ws: char -> bool)
    requires p <= s && Trim(p, ws) != []
    ensures Trim(s, ws) != []
  {
    TrimIsEmpty(p, ws);
    TrimIsEmpty(s, ws);
    var i :| 0 <= i < |p| && !ws(p[i]);
    assert s[i] == p[i];
  }

  /** A string that a splitter leaves as one piece: non-empty, no whitespace. */
  predicate IsToken(t: string) {
    t != [] && forall i :: 0 <= i < |t| ==> !IsGuavaWhitespace(t[i])
  }

  /** Printable ASCII other than the space, none of which Guava counts as whitespace. */
  predicate IsVisibleAscii(c: char) {
    '!' <= c <= '~'
  }

  lemma VisibleToken(t: string)
    requires t != [] && forall i :: 0 <= i < |t| ==> IsVisibleAscii(t[i])
    ensures IsToken(t)
  {
  }

  /** A last field that comes back unchanged: non-empty, trimmed at both ends. */
  predicate IsTrimmedText(t: string) {
    t != [] && !IsGuavaWhitespace(t[0]) && !IsGuavaWhitespace(t[|t| - 1])
  }

  lemma TrimOfUnpadded(t: string)
    requires IsTrimmedText(t)
    ensures GuavaTrim(t) == t
  {
  }

  /** A single leading space never makes a field. */
  lemma FieldsAfterSpace(s: string, limit: nat)
    requires limit >= 1
    ensures Fields([' '] + s, limit) == Fields(s, limit)
  {
    var t := [' '] + s;
    assert IndexOf(t, ' ') == 0;
    assert t[1..] == s;
    assert GuavaTrim(t[..0]) == [];
  }

  /** Leading spaces never make a field. */
  lemma {:induction false} FieldsAfterSpaces(p: string, s: string, limit: nat)
    requires limit >= 1
    requires forall i :: 0 <= i < |p| ==> p[i] == ' '
    ensures Fields(p + s, limit) == Fields(s, limit)
    decreases |p|
  {
    if p != [] {
      var rest := p[1..] + s;
      assert p + s == [' '] + rest;
      FieldsAfterSpace(rest, limit);
      FieldsAfterSpaces(p[1..], s, limit);
    } else {
      assert p + s == s;
    }
  }

  /** A token followed by a space is the next field, and splitting goes on after it. */
  lemma FieldsOfToken(t: string, s: string, limit: nat)
    requires IsToken(t) && limit >= 2
    ensures Fields(t + " " + s, limit) == [t] + Fields(s, limit - 1)
  {
    var u := t + " " + s;
    assert forall i :: 0 <= i < |t| ==> t[i] != ' ';
    assert u[|t|] == ' ';
    assert u[..|t|] == t;
    assert IndexOf(u, ' ') == |t|;
    assert u[|t| + 1..] == s;
    TrimOfToken(t);
  }

  lemma TrimOfToken(t: string)
    requires IsToken(t)
    ensures GuavaTrim(t) == t
  {
  }

  /** The cells of a formatted row, one space between neighbours. */
  function Join(cells: seq<string>): string
    requires cells != []
  {
    if |cells| == 1 then cells[0] else cells[0] + " " + Join(cells[1..])
  }

  /** A row of two or more cells starts with its first cell and a space and ends with a space and its last cell. */
  lemma {:induction false} JoinEnds(cells: seq<string>)
    requires |cells| >= 2
    ensures StartsWith(Join(cells), cells[0] + " ")
    ensures var j := Join(cells); var t := " " + cells[|cells| - 1]; |t| <= |j| && j[|j| - |t|..] == t
  {
    var rest := Join(cells[1..]);
    assert Join(cells) == (cells[0] + " ") + rest;
    StartsWithConcat(cells[0] + " ", rest);
    if |cells| > 2 {
      JoinEnds(cells[1..]);
    }
  }

  predicate IsSpace(c: char) {
    c == ' '
  }

  /** A right-justified cell without its padding. */
  function Unpad(cell: string): string {
    TrimStart(cell, IsSpace)
  }

  lemma UnpadOfPadLeft(t: string, width: nat)
    requires IsToken(t)
    ensures Unpad(PadLeft(t, width)) == t
  {
    var p := PadLeft(t, width);
    var n := |p| - |t|;
    assert p == Spaces(n) + t;
    UnpadSpaces(n, t);
  }

  lemma {:induction false} UnpadSpaces(n: nat, t: string)
    requires t == [] || !IsSpace(t[0])
    ensures TrimStart(Spaces(n) + t, IsSpace) == t
  {
    TrimStartFacts(Spaces(n) + t, IsSpace);
    if n > 0 {
      assert (Spaces(n) + t)[1..] == Spaces(n - 1) + t;
      UnpadSpaces(n - 1, t);
    } else {
      assert Spaces(n) + t == t;
    }
  }

  /**
   * Splitting a row whose cells are padded tokens, with a trimmed last cell,
   * gives back the tokens and the last cell, one field per cell.
   */
  lemma {:induction false} FieldsOfJoin(cells: seq<string>)
    requires |cells| >= 1
    requires forall i :: 0 <= i < |cells| - 1 ==> IsToken(Unpad(cells[i]))
    requires IsTrimmedText(cells[|cells| - 1])
    ensures |Fields(Join(cells), |cells|)| == |cells|
    ensures forall i :: 0 <= i < |cells| - 1 ==> Fields(Join(cells), |cells|)[i] == Unpad(cells[i])
    ensures Fields(Join(cells), |cells|)[|cells| - 1] == cells[|cells| - 1]
  {
    if |cells| == 1 {
      FieldsOfLast(cells[0]);
    } else {
      var rest := Join(cells[1..]);
      var f := Fields(Join(cells), |cells|);
      var g := Fields(rest, |cells| - 1);
      assert f == [Unpad(cells[0])] + g by {
        assert Join(cells) == cells[0] + " " + rest;
        FieldsOfCell(cells[0], rest, |cells|);
      }
      FieldsOfJoin(cells[1..]);
      FieldsOfCons(f, Unpad(cells[0]), g, cells);
    }
  }

  /** A padded token followed by a space is the next field, and splitting goes on after it. */
  lemma FieldsOfCell(c: string, rest: string, limit: nat)
    requires IsToken(Unpad(c)) && limit >= 2
    ensures Fields(c + " " + rest, limit) == [Unpad(c)] + Fields(rest, limit - 1)
  {
    var u := Unpad(c);
    var pad := c[..|c| - |u|];
    assert c == pad + u && forall i :: 0 <= i < |pad| ==> pad[i] == ' ' by {
      TrimStartFacts(c, IsSpace);
    }
    assert c + " " + rest == pad + (u + " " + rest);
    FieldsAfterSpaces(pad, u + " " + rest, limit);
    FieldsOfToken(u, rest, limit);
  }

  /** The index bookkeeping of one step of `FieldsOfJoin`. */
  lemma FieldsOfCons(f: seq<string>, u: string, g: seq<string>, cells: seq<string>)
    requires |cells| >= 2 && f == [u] + g && u == Unpad(cells[0])
    requires |g| == |cells| - 1
    requires forall i :: 0 <= i < |cells| - 2 ==> g[i] == Unpad(cells[1..][i])
    requires g[|cells| - 2] == cells[1..][|cells| - 2]
    ensures |f| == |cells|
    ensures forall i :: 0 <= i < |cells| - 1 ==> f[i] == Unpad(cells[i])
    ensures f[|cells| - 1] == cells[|cells| - 1]
  {
    forall i | 0 <= i < |cells| - 1
      ensures f[i] == Unpad(cells[i])
    {
      if i > 0 {
        assert f[i] == g[i - 1] && cells[1..][i - 1] == cells[i];
      }
    }
  }

  /** A trimmed last field with one field left comes back as it is. */
  lemma FieldsOfLast(t: string)
    requires IsTrimmedText(t)
    ensures Fields(t, 1) == [t]
  {
    var k := IndexOf(t, ' ');
    var first := if k < 0 then t else t[..k];
    assert first != [] && first[0] == t[0];
    assert GuavaTrim(first) != [] by {
      TrimStartFacts(first, IsGuavaWhitespace);
      assert TrimStart(first, IsGuavaWhitespace) == first;
      TrimEndFacts(first, IsGuavaWhitespace);
    }
  }
}

/** The standard optional value. */
module Options {
  datatype Option<+T> = None | Some(value: T)
}
