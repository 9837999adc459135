/**
 * String helpers shared by the models: ASCII case mapping (the part of
 * JavaScript's `toLowerCase`/`toUpperCase` the models depend on), the decimal
 * rendering of a non-negative integer (what a template literal such as
 * `${Date.now()}` produces) and `Array.prototype.join`.
 */
module Text {

  predicate IsDigit(c: char) {
    '0' <= c <= '9'
  }

  predicate IsUpperAscii(c: char) {
    'A' <= c <= 'Z'
  }

  predicate IsLowerAscii(c: char) {
    'a' <= c <= 'z'
  }

  /** `c.toLowerCase()` restricted to ASCII letters; every other character is kept. */
  function LowerChar(c: char): char {
    if IsUpperAscii(c) then (c as int + 32) as char else c
  }

  /** `c.toUpperCase()` restricted to ASCII letters; every other character is kept. */
  function UpperChar(c: char): char {
    if IsLowerAscii(c) then (c as int - 32) as char else c
  }

  /** `s.toLowerCase()` on ASCII letters, character by character. */
  function Lower(s: string): (r: string)
    ensures |r| == |s|
    ensures forall i :: 0 <= i < |r| ==> !IsUpperAscii(r[i])
    ensures forall i :: 0 <= i < |s| && IsUpperAscii(s[i]) ==> IsLowerAscii(r[i]) && UpperChar(r[i]) == s[i]
    ensures forall i :: 0 <= i < |s| && !IsUpperAscii(s[i]) ==> r[i] == s[i]
  {
    seq(|s|, i requires 0 <= i < |s| => LowerChar(s[i]))
  }

  /** Lower-casing twice is lower-casing once. */
  lemma LowerIdempotent(s: string)
    ensures Lower(Lower(s)) == Lower(s)
  {
  }

  function DigitChar(d: nat): (c: char)
    requires d < 10
    ensures IsDigit(c)
  {
    ('0' as int + d) as char
  }

  predicate AllDigits(s: string) {
    forall i :: 0 <= i < |s| ==> IsDigit(s[i])
  }

  /** The decimal rendering of `n`, most significant digit first, without leading zeros. */
  function DecimalString(n: nat): (r: string)
    ensures r != [] && AllDigits(r)
    ensures |r| > 1 ==> r[0] != '0'
  {
    if n < 10 then [DigitChar(n)] else DecimalString(n / 10) + [DigitChar(n % 10)]
  }

  /** The number a string of decimal digits denotes. */
  function DigitsValue(s: string): nat
    requires AllDigits(s)
  {
    if s == [] then 0 else DigitsValue(s[..|s| - 1]) * 10 + (s[|s| - 1] as int - '0' as int)
  }

  /** Reading back a decimal rendering gives the number rendered. */
  lemma {:induction false} DecimalRoundTrip(n: nat)
    ensures DigitsValue(DecimalString(n)) == n
  {
    if n >= 10 {
      var s := DecimalString(n);
      assert s[..|s| - 1] == DecimalString(n / 10);
      DecimalRoundTrip(n / 10);
    }
  }

  /** `parts.join(sep)`: empty for no parts; otherwise it starts with the first part. */
  function Join(parts: seq<string>, sep: string): (r: string)
    ensures parts == [] ==> r == ""
    ensures parts != [] ==> |parts[0]| <= |r| && r[..|parts[0]|] == parts[0]
  {
    if parts == [] then ""
    else if |parts| == 1 then parts[0]
    else parts[0] + sep + Join(parts[1..], sep)
  }

  /** Joining one more part appends the separator and that part. */
  lemma {:induction false} JoinSnoc(parts: seq<string>, last: string, sep: string)
    requires parts != []
    ensures Join(parts + [last], sep) == Join(parts, sep) + sep + last
  {
    var ps := parts + [last];
    assert ps[0] == parts[0] && ps[1..] == parts[1..] + [last];
    if |parts| == 1 {
      assert ps[1..] == [last];
      assert Join(ps, sep) == parts[0] + sep + last;
    } else {
      JoinSnoc(parts[1..], last, sep);
      var rest := Join(parts[1..], sep);
      assert Join(ps, sep) == parts[0] + sep + (rest + sep + last);
      assert Join(parts, sep) == parts[0] + sep + rest;
      assert parts[0] + sep + (rest + sep + last) == parts[0] + sep + rest + sep + last;
    }
  }

  /** A join of at least one part ends with the last part. */
  lemma JoinEndsWithLast(parts: seq<string>, sep: string)
    requires parts != []
    ensures var r := Join(parts, sep);
            var last := parts[|parts| - 1];
            |last| <= |r| && r[|r| - |last|..] == last
  {
    var last := parts[|parts| - 1];
    if |parts| > 1 {
      var init := parts[..|parts| - 1];
      assert parts == init + [last];
      JoinSnoc(init, last, sep);
      var r := Join(init, sep) + sep + last;
      assert r[|r| - |last|..] == last;
    }
  }

  /** The length of a join: every part plus one separator between each two. */
  lemma {:induction false} JoinLength(parts: seq<string>, sep: string)
    requires parts != []
    ensures |Join(parts, sep)| == TotalLength(parts) + |sep| * (|parts| - 1)
  {
    if |parts| > 1 {
      JoinLength(parts[1..], sep);
      assert |Join(parts, sep)| == |parts[0]| + |sep| + |Join(parts[1..], sep)|;
    } else {
      assert parts[1..] == [];
    }
  }

  function TotalLength(parts: seq<string>): nat {
    if parts == [] then 0 else |parts[0]| + TotalLength(parts[1..])
  }
}
