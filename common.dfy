/** Small value helpers shared by the whole model: an optional value (Java's
    nullable references and `Optional`), `Math.max`, the two trimming rules
    (Java's `String.trim` on the server, JavaScript's `String.prototype.trim`
    in the browser), ASCII case mapping, substring search and decimal
    rendering of integers. */
module Common {

  /** A nullable value: `None` stands for Java's `null` or an empty `Optional`. */
  datatype Option<+T> = None | Some(value: T) {
    /** `x != null ? x : default` */
    function GetOr(default: T): T {
      if Some? then value else default
    }
  }

  /** Shown by the response DTOs in place of an author row that is gone. */
  const WithdrawnUser: string := "탈퇴한 사용자"

  /** `Math.max` on unbounded integers. */
  function Max(a: int, b: int): int {
    if a < b then b else a
  }

  // ---------------------------------------------------------------------
  // Trimming

  /** Strips the leading characters for which `ws` holds. */
  function TrimStart(s: string, ws: char -> bool): string
    decreases |s|
  {
    if |s| > 0 && ws(s[0]) then TrimStart(s[1..], ws) else s
  }

  /** Strips the trailing characters for which `ws` holds. */
  function TrimEnd(s: string, ws: char -> bool): string
    decreases |s|
  {
    if |s| > 0 && ws(s[|s| - 1]) then TrimEnd(s[..|s| - 1], ws) else s
  }

  function Trim(s: string, ws: char -> bool): string {
    TrimEnd(TrimStart(s, ws), ws)
  }

  /** Every character of `s` is one that `ws` strips. */
  predicate AllStripped(s: string, ws: char -> bool) {
    forall i :: 0 <= i < |s| ==> ws(s[i])
  }

  lemma {:induction false} TrimStartEmptyIff(s: string, ws: char -> bool)
    ensures TrimStart(s, ws) == [] <==> AllStripped(s, ws)
    decreases |s|
  {
    if |s| > 0 && ws(s[0]) {
      TrimStartEmptyIff(s[1..], ws);
      assert AllStripped(s[1..], ws) ==> AllStripped(s, ws) by {
        if AllStripped(s[1..], ws) {
          forall i | 0 <= i < |s| ensures ws(s[i]) {
            if i > 0 { assert s[i] == s[1..][i - 1]; }
          }
        }
      }
    }
  }

  lemma {:induction false} TrimEndOfEmpty(ws: char -> bool)
    ensures TrimEnd([], ws) == []
  {
  }

  lemma {:induction false} TrimEndNonEmpty(s: string, ws: char -> bool)
    requires s != [] && !ws(s[0])
    ensures TrimEnd(s, ws) != []
    decreases |s|
  {
    if ws(s[|s| - 1]) {
      assert |s| > 1;
      TrimEndNonEmpty(s[..|s| - 1], ws);
    }
  }

  /** A string trims to nothing exactly when every one of its characters is
      stripped: `s.trim().isEmpty()` is a statement about every character. */
  lemma {:induction false} TrimEmptyIff(s: string, ws: char -> bool)
    ensures Trim(s, ws) == [] <==> AllStripped(s, ws)
  {
    var t := TrimStart(s, ws);
    TrimStartEmptyIff(s, ws);
    if t != [] {
      assert !ws(t[0]) by { TrimStartHead(s, ws); }
      TrimEndNonEmpty(t, ws);
    }
  }

  lemma {:induction false} TrimStartHead(s: string, ws: char -> bool)
    requires TrimStart(s, ws) != []
    ensures !ws(TrimStart(s, ws)[0])
    decreases |s|
  {
    if |s| > 0 && ws(s[0]) { TrimStartHead(s[1..], ws); }
  }

  /** `Character` values that `java.lang.String.trim` removes: every code
      point up to and including U+0020. */
  predicate IsJavaTrimmed(c: char) {
    c <= ' '
  }

  /** White space and line terminators that JavaScript's `trim` removes. */
  predicate IsJsWhitespace(c: char) {
    c == '\t' || c == '\n' || c == '\U{000B}' || c == '\U{000C}' || c == '\r'
    || c == ' ' || c == '\U{00A0}' || c == '\U{1680}'
    || ('\U{2000}' <= c <= '\U{200A}')
    || c == '\U{2028}' || c == '\U{2029}' || c == '\U{202F}' || c == '\U{205F}'
    || c == '\U{3000}' || c == '\U{FEFF}'
  }

  function JavaTrim(s: string): string {
    Trim(s, IsJavaTrimmed)
  }

  function JsTrim(s: string): string {
    Trim(s, IsJsWhitespace)
  }

  /** `s.trim().isEmpty()` in Java. */
  predicate JavaBlank(s: string) {
    |JavaTrim(s)| == 0
  }

  /** `s.trim().length === 0` in JavaScript. */
  predicate JsBlank(s: string) {
    |JsTrim(s)| == 0
  }

  /** `keyword != null && !keyword.trim().isEmpty()`: the services' test for
      "a search term was given". */
  predicate HasText(keyword: Option<string>) {
    keyword.Some? && !JavaBlank(keyword.value)
  }

  // ---------------------------------------------------------------------
  // Case mapping (ASCII letters only)

  function AsciiLower(c: char): char {
    if 'A' <= c <= 'Z' then (c as int + 32) as char else c
  }

  function AsciiUpper(c: char): char {
    if 'a' <= c <= 'z' then (c as int - 32) as char else c
  }

  /** SQL `LOWER(...)`. */
  function Lower(s: string): (r: string)
    ensures |r| == |s|
  {
    seq(|s|, i requires 0 <= i < |s| => AsciiLower(s[i]))
  }

  /** Java `String.toUpperCase()`. */
  function Upper(s: string): (r: string)
    ensures |r| == |s|
  {
    seq(|s|, i requires 0 <= i < |s| => AsciiUpper(s[i]))
  }

  // ---------------------------------------------------------------------
  // Substring search

  predicate IsPrefix(p: string, s: string) {
    |p| <= |s| && s[..|p|] == p
  }

  /** `s` contains `sub` somewhere: SQL `LIKE CONCAT('%', sub, '%')` for a
      `sub` without wildcard characters. */
  predicate Contains(s: string, sub: string)
    decreases |s|
  {
    IsPrefix(sub, s) || (|s| > 0 && Contains(s[1..], sub))
  }

  predicate OccursAt(s: string, sub: string, i: int) {
    0 <= i && i + |sub| <= |s| && s[i..i + |sub|] == sub
  }

  /** The recursive search finds exactly the strings that occur at some
      position. */
  lemma {:induction false} ContainsIff(s: string, sub: string)
    ensures Contains(s, sub) <==> exists i :: OccursAt(s, sub, i)
    decreases |s|
  {
    if IsPrefix(sub, s) {
      assert OccursAt(s, sub, 0);
    } else if |s| > 0 {
      ContainsIff(s[1..], sub);
      if Contains(s[1..], sub) {
        var i :| OccursAt(s[1..], sub, i);
        assert s[i + 1..i + 1 + |sub|] == s[1..][i..i + |sub|];
        assert OccursAt(s, sub, i + 1);
      } else {
        forall i ensures !OccursAt(s, sub, i) {
          if i == 0 && |sub| <= |s| {
            assert s[i..i + |sub|] == s[..|sub|];
          } else if 0 < i && i + |sub| <= |s| {
            assert !OccursAt(s[1..], sub, i - 1);
            assert s[1..][i - 1..i - 1 + |sub|] == s[i..i + |sub|];
          }
        }
      }
    } else {
      assert |sub| > 0;
    }
  }

  // ---------------------------------------------------------------------
  // Decimal rendering

  function DigitChar(d: nat): char
    requires d < 10
  {
    ('0' as int + d) as char
  }

  predicate IsDigit(c: char) {
    '0' <= c <= '9'
  }

  function DigitValue(c: char): nat
    requires IsDigit(c)
  {
    c as int - '0' as int
  }

  /** `n.toString()` for a non-negative integer. */
  function NatToString(n: nat): (s: string)
    ensures |s| >= 1 && forall i :: 0 <= i < |s| ==> IsDigit(s[i])
    decreases n
  {
    if n < 10 then [DigitChar(n)] else NatToString(n / 10) + [DigitChar(n % 10)]
  }

  /** `Long.toString` / JavaScript's number-to-string for an integer. */
  function IntToString(i: int): string {
    if i < 0 then "-" + NatToString(-i) else NatToString(i)
  }

  /** The number a string of decimal digits denotes. */
  function DecimalValue(s: string): nat
    requires forall i :: 0 <= i < |s| ==> IsDigit(s[i])
    decreases |s|
  {
    if s == [] then 0 else DecimalValue(s[..|s| - 1]) * 10 + DigitValue(s[|s| - 1])
  }

  /** Reading back a rendered number gives the number. */
  lemma {:induction false} NatToStringRoundTrip(n: nat)
    ensures DecimalValue(NatToString(n)) == n
    decreases n
  {
    if n >= 10 {
      var s := NatToString(n);
      assert s[..|s| - 1] == NatToString(n / 10);
      NatToStringRoundTrip(n / 10);
    }
  }

  lemma {:induction false} NatToStringLength(n: nat)
    ensures n < 10 ==> |NatToString(n)| == 1
    ensures 10 <= n < 100 ==> |NatToString(n)| == 2
    ensures 1000 <= n < 10000 ==> |NatToString(n)| == 4
  {
    if n >= 10 {
      NatToStringLength(n / 10);
      if n >= 1000 { NatToStringLength(n / 100); NatToStringLength(n / 1000); }
    }
  }

  /** JavaScript's `s.padStart(2, '0')`. */
  function PadStart2(s: string): (r: string)
  {
    if |s| >= 2 then s else seq(2 - |s|, _ => '0') + s
  }

  lemma {:induction false} LeadingZero(s: string)
    requires forall i :: 0 <= i < |s| ==> IsDigit(s[i])
    ensures DecimalValue("0" + s) == DecimalValue(s)
    decreases |s|
  {
    if s != [] {
      var t := "0" + s;
      assert t[..|t| - 1] == "0" + s[..|s| - 1];
      LeadingZero(s[..|s| - 1]);
    }
  }
}
