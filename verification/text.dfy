/** Text helpers: decimal rendering of numbers (as `Number.prototype.toString`
    does for integers), percent-encoding of URL components, and the small
    scanning functions the URL decoders are built from. */
module Text {
  import opened Wrappers

  predicate IsDigit(c: char) {
    '0' <= c <= '9'
  }

  predicate AllDigits(s: string) {
    forall i :: 0 <= i < |s| ==> IsDigit(s[i])
  }

  function DigitChar(d: nat): (c: char)
    requires d < 10
    ensures IsDigit(c) && DigitValue(c) == d
  {
    "0123456789"[d]
  }

  function DigitValue(c: char): nat
    requires IsDigit(c)
  {
    c as int - '0' as int
  }

  /** Decimal digits of `n`, most significant first, without leading zeros. */
  function NatToDigits(n: nat): (s: string)
    ensures |s| > 0 && AllDigits(s)
    ensures |s| > 1 ==> s[0] != '0'
  {
    if n < 10 then [DigitChar(n)] else NatToDigits(n / 10) + [DigitChar(n % 10)]
  }

  /** The number a non-empty string of decimal digits denotes. */
  function DigitsToNat(s: string): nat
    requires AllDigits(s)
  {
    if |s| == 0 then 0 else DigitsToNat(s[..|s| - 1]) * 10 + DigitValue(s[|s| - 1])
  }

  lemma {:induction false} DigitsRoundTrip(n: nat)
    ensures DigitsToNat(NatToDigits(n)) == n
  {
    if n >= 10 {
      var s := NatToDigits(n);
      assert s[..|s| - 1] == NatToDigits(n / 10);
      DigitsRoundTrip(n / 10);
    }
  }

  /** `${n}` for an integer `n`: a minus sign for negatives, then the digits. */
  function IntToString(n: int): (s: string)
    ensures |s| > 0
    ensures forall i :: 0 <= i < |s| ==> s[i] == '-' || IsDigit(s[i])
  {
    if n < 0 then "-" + NatToDigits(-n) else NatToDigits(n)
  }

  function ParseInt(s: string): Option<int> {
    if |s| > 1 && s[0] == '-' && AllDigits(s[1..]) then Some(0 - DigitsToNat(s[1..]) as int)
    else if |s| > 0 && AllDigits(s) then Some(DigitsToNat(s))
    else None
  }

  lemma {:induction false} IntRoundTrip(n: int)
    ensures ParseInt(IntToString(n)) == Some(n)
  {
    var s := IntToString(n);
    if n < 0 {
      var d := NatToDigits(-n);
      assert s == "-" + d;
      assert s[1..] == d;
      DigitsRoundTrip(-n);
    } else {
      assert IsDigit(s[0]);
      DigitsRoundTrip(n);
    }
  }

  predicate IsPrefix(p: string, s: string) {
    |p| <= |s| && s[..|p|] == p
  }

  /** Splits `s` before the first occurrence of `c`: the part without `c`,
      and the rest, which is empty or starts with `c`. */
  function SplitAt(s: string, c: char): (r: (string, string))
    ensures r.0 + r.1 == s
    ensures c !in r.0
    ensures r.1 == [] || r.1[0] == c
  {
    if |s| == 0 then ([], [])
    else if s[0] == c then ([], s)
    else
      var (a, b) := SplitAt(s[1..], c);
      ([s[0]] + a, b)
  }

  lemma {:induction false} SplitAtJoin(a: string, b: string, c: char)
    requires c !in a
    requires b == [] || b[0] == c
    ensures SplitAt(a + b, c) == (a, b)
  {
    if |a| > 0 {
      assert (a + b)[0] == a[0] && a[0] != c;
      assert (a + b)[1..] == a[1..] + b;
      SplitAtJoin(a[1..], b, c);
      assert [a[0]] + a[1..] == a;
    } else {
      assert a + b == b;
    }
  }

  /** The characters `encodeURIComponent` leaves unescaped. */
  predicate Unreserved(c: char) {
    || 'A' <= c <= 'Z' || 'a' <= c <= 'z' || '0' <= c <= '9'
    || c == '-' || c == '_' || c == '.' || c == '!' || c == '~'
    || c == '*' || c == '\'' || c == '(' || c == ')'
  }

  function HexDigit(d: nat): char
    requires d < 16
  {
    "0123456789ABCDEF"[d]
  }

  function HexValue(c: char): Option<nat> {
    if '0' <= c <= '9' then Some(c as int - '0' as int)
    else if 'A' <= c <= 'F' then Some(c as int - 'A' as int + 10)
    else if 'a' <= c <= 'f' then Some(c as int - 'a' as int + 10)
    else None
  }

  lemma HexRoundTrip(d: nat)
    requires d < 16
    ensures HexValue(HexDigit(d)) == Some(d)
  {
  }

  /** Escapes one character: unreserved characters and characters beyond
      ASCII stay as they are, every other ASCII character becomes `%XX`. */
  function EncodeChar(c: char): (r: string)
    ensures |r| == 1 || |r| == 3
    ensures '&' !in r && '#' !in r && '=' !in r && '+' !in r
    ensures |r| == 1 <==> r[0] != '%'
  {
    if Unreserved(c) || c as int >= 128 then [c]
    else ['%', HexDigit(c as int / 16), HexDigit(c as int % 16)]
  }

  /** Percent-encoding of a URL component, character by character. */
  function EncodeComponent(s: string): (r: string)
    ensures '&' !in r && '#' !in r && '=' !in r && '+' !in r
  {
    if |s| == 0 then [] else EncodeChar(s[0]) + EncodeComponent(s[1..])
  }

  /** Reads a component of a form-encoded query string: undoes `%XX`
      escapes and reads `+` as a space; any other character is kept. */
  function DecodeComponent(s: string): string
    decreases |s|
  {
    if |s| == 0 then []
    else if s[0] == '%' && |s| >= 3 && HexValue(s[1]).Some? && HexValue(s[2]).Some? then
      [(HexValue(s[1]).value * 16 + HexValue(s[2]).value) as char] + DecodeComponent(s[3..])
    else if s[0] == '+' then [' '] + DecodeComponent(s[1..])
    else [s[0]] + DecodeComponent(s[1..])
  }

  /** Decoding reads one escaped character back, whatever follows it. */
  lemma DecodeEncodedChar(c: char, rest: string)
    ensures DecodeComponent(EncodeChar(c) + rest) == [c] + DecodeComponent(rest)
  {
    var e := EncodeChar(c);
    var t := e + rest;
    if |e| == 1 {
      assert t[0] == c && t[0] != '%' && t[0] != '+';
      assert t[1..] == rest;
    } else {
      var v := c as int;
      HexRoundTrip(v / 16);
      HexRoundTrip(v % 16);
      assert t[0] == '%' && t[1] == HexDigit(v / 16) && t[2] == HexDigit(v % 16);
      assert t[3..] == rest;
    }
  }

  lemma {:induction false} ComponentRoundTrip(s: string)
    ensures DecodeComponent(EncodeComponent(s)) == s
  {
    if |s| > 0 {
      DecodeEncodedChar(s[0], EncodeComponent(s[1..]));
      ComponentRoundTrip(s[1..]);
      assert [s[0]] + s[1..] == s;
    }
  }
}
