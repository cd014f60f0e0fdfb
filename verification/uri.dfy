/** `encodeURIComponent` as the generators use it to write the
    `<dash_entry_…=…>` tags of index paths: every character outside the
    unreserved set is written as the `%XX` escapes of its UTF-8 bytes
    (section 2.1 of RFC 3986 for percent-encoding, and the
    `encodeURIComponent` algorithm of ECMA-262).
 */
module Uri {
  import opened Strs

  /** The characters `encodeURIComponent` leaves alone. */
  predicate Unreserved(c: char) {
    ('A' <= c <= 'Z') || ('a' <= c <= 'z') || ('0' <= c <= '9')
    || c == '-' || c == '_' || c == '.' || c == '!' || c == '~' || c == '*'
    || c == '\'' || c == '(' || c == ')'
  }

  predicate IsHexDigit(c: char) {
    ('0' <= c <= '9') || ('A' <= c <= 'F')
  }

  /** The upper-case hexadecimal digit of `n`. */
  function HexDigit(n: nat): (c: char)
    requires n < 16
    ensures IsHexDigit(c)
  {
    if n < 10 then ('0' as int + n) as char else ('A' as int + n - 10) as char
  }

  /** The value of a hexadecimal digit. */
  function HexValue(c: char): (n: nat)
    requires IsHexDigit(c)
    ensures n < 16 && HexDigit(n) == c
  {
    if c <= '9' then c as int - '0' as int else c as int - 'A' as int + 10
  }

  /** The UTF-8 bytes of a character (section 3 of RFC 3629): one byte
      below U+0080, two below U+0800, three below U+10000, four above; the
      lead byte announces the length and every other byte is a continuation
      byte `10xxxxxx`. */
  function Utf8(c: char): (bs: seq<nat>)
    ensures |bs| == (if c as int < 0x80 then 1 else if c as int < 0x800 then 2
                     else if c as int < 0x10000 then 3 else 4)
    ensures |bs| == 1 ==> bs[0] < 0x80
    ensures |bs| == 2 ==> 0xC2 <= bs[0] < 0xE0
    ensures |bs| == 3 ==> 0xE0 <= bs[0] < 0xF0
    ensures |bs| == 4 ==> 0xF0 <= bs[0] <= 0xF4
    ensures forall i :: 1 <= i < |bs| ==> 0x80 <= bs[i] < 0xC0
    ensures Utf8Decode(bs) == c as int
  {
    var n := c as int;
    if n < 0x80 then [n]
    else if n < 0x800 then
      Split64(n);
      [0xC0 + n / 64, 0x80 + n % 64]
    else if n < 0x10000 then
      Split64(n);
      Split64(n / 64);
      Div64Twice(n);
      [0xE0 + n / 4096, 0x80 + n / 64 % 64, 0x80 + n % 64]
    else
      Split64(n);
      Split64(n / 64);
      Split64(n / 4096);
      Div64Twice(n);
      Div64Twice(n / 64);
      Div64Twice3(n);
      [0xF0 + n / 262144, 0x80 + n / 4096 % 64, 0x80 + n / 64 % 64, 0x80 + n % 64]
  }

  /** The code point a sequence of one to four UTF-8 bytes stands for: the
      payload bits of the lead byte, then six bits per continuation byte. */
  function Utf8Decode(bs: seq<nat>): int {
    if |bs| == 1 then bs[0]
    else if |bs| == 2 then (bs[0] as int - 0xC0) * 64 + Low6(bs[1])
    else if |bs| == 3 then ((bs[0] as int - 0xE0) * 64 + Low6(bs[1])) * 64 + Low6(bs[2])
    else if |bs| == 4 then
      (((bs[0] as int - 0xF0) * 64 + Low6(bs[1])) * 64 + Low6(bs[2])) * 64 + Low6(bs[3])
    else -1
  }

  /** The payload of a continuation byte. */
  function Low6(b: nat): int {
    b as int - 0x80
  }

  lemma Split64(n: nat)
    ensures n == n / 64 * 64 + n % 64 && 0 <= n % 64 < 64
  {
  }

  lemma Div64Twice(n: nat)
    ensures n / 64 / 64 == n / 4096
  {
    var a := n / 4096;
    var b := n % 4096;
    assert n == a * 4096 + b && b < 4096;
    assert n == (a * 64 + b / 64) * 64 + b % 64;
    DivOf(n, 64, a * 64 + b / 64, b % 64);
    DivOf(a * 64 + b / 64, 64, a, b / 64);
  }

  lemma Div64Twice3(n: nat)
    ensures n / 4096 / 64 == n / 262144
  {
    var a := n / 262144;
    var b := n % 262144;
    assert n == a * 262144 + b && b < 262144;
    assert n == (a * 64 + b / 4096) * 4096 + b % 4096;
    DivOf(n, 4096, a * 64 + b / 4096, b % 4096);
    DivOf(a * 64 + b / 4096, 64, a, b / 4096);
  }

  /** The quotient is the only one whose remainder is in range. */
  lemma DivOf(n: int, m: int, q: int, r: int)
    requires 0 < m && 0 <= r < m && n == q * m + r
    ensures n / m == q
  {
    var q2, r2 := n / m, n % m;
    assert n == q2 * m + r2 && 0 <= r2 < m;
    if q > q2 {
      MulAtLeast(q - q2, m);
    } else if q < q2 {
      MulAtLeast(q2 - q, m);
    }
  }

  lemma MulAtLeast(d: int, m: int)
    requires d >= 1 && m > 0
    ensures d * m >= m
  {
  }

  /** `%XX` for each byte. */
  function Escapes(bs: seq<nat>): (r: string)
    requires forall i :: 0 <= i < |bs| ==> bs[i] < 256
    ensures |r| == 3 * |bs|
    ensures forall i :: 0 <= i < |r| ==> r[i] == '%' || IsHexDigit(r[i])
    decreases |bs|
  {
    if |bs| == 0 then ""
    else ['%', HexDigit(bs[0] / 16), HexDigit(bs[0] % 16)] + Escapes(bs[1..])
  }

  /** Each byte's escape is a `%` and two digits that read back as the
      byte's value. */
  lemma {:induction false} EscapesValues(bs: seq<nat>)
    requires forall i :: 0 <= i < |bs| ==> bs[i] < 256
    ensures var r := Escapes(bs);
            forall i :: 0 <= i < |bs| ==>
              r[3 * i] == '%' && IsHexDigit(r[3 * i + 1]) && IsHexDigit(r[3 * i + 2])
              && HexValue(r[3 * i + 1]) * 16 + HexValue(r[3 * i + 2]) == bs[i]
    decreases |bs|
  {
    if |bs| > 0 {
      var head := ['%', HexDigit(bs[0] / 16), HexDigit(bs[0] % 16)];
      var tail := Escapes(bs[1..]);
      assert Escapes(bs) == head + tail;
      EscapesValues(bs[1..]);
      HexRoundTrip(bs[0] / 16);
      HexRoundTrip(bs[0] % 16);
      var r := head + tail;
      forall i | 0 <= i < |bs|
        ensures r[3 * i] == '%' && IsHexDigit(r[3 * i + 1]) && IsHexDigit(r[3 * i + 2])
        ensures HexValue(r[3 * i + 1]) * 16 + HexValue(r[3 * i + 2]) == bs[i]
      {
        if i > 0 {
          AfterThree(head, tail, 3 * i);
          AfterThree(head, tail, 3 * i + 1);
          AfterThree(head, tail, 3 * i + 2);
          assert bs[i] == bs[1..][i - 1];
          assert 3 * (i - 1) + 1 == 3 * i - 2;
        }
      }
    }
  }

  /** Reading `%XX` escapes back into bytes, up to the first text that is
      not one. */
  function Unescape(r: string): (bs: seq<nat>)
    decreases |r|
  {
    if |r| < 3 || r[0] != '%' || !IsHexDigit(r[1]) || !IsHexDigit(r[2]) then []
    else [HexValue(r[1]) * 16 + HexValue(r[2])] + Unescape(r[3..])
  }

  /** Escaping bytes and reading them back gives the bytes. */
  lemma {:induction false} UnescapeEscapes(bs: seq<nat>)
    requires forall i :: 0 <= i < |bs| ==> bs[i] < 256
    ensures Unescape(Escapes(bs)) == bs
    decreases |bs|
  {
    if |bs| > 0 {
      var r := Escapes(bs);
      assert r[3..] == Escapes(bs[1..]);
      UnescapeEscapes(bs[1..]);
      HexRoundTrip(bs[0] / 16);
      HexRoundTrip(bs[0] % 16);
    }
  }

  /** An escaped character decodes back to itself: its escapes read back as
      its UTF-8 bytes, and those bytes as its code point. */
  lemma EncodeCharRoundTrip(c: char)
    requires !Unreserved(c)
    ensures Utf8Decode(Unescape(EncodeChar(c))) == c as int
  {
    UnescapeEscapes(Utf8(c));
  }

  lemma AfterThree(head: string, tail: string, k: int)
    requires |head| == 3 && 3 <= k < 3 + |tail|
    ensures (head + tail)[k] == tail[k - 3]
  {
  }

  /** Reading a hexadecimal digit back gives its value. */
  lemma HexRoundTrip(n: nat)
    requires n < 16
    ensures HexValue(HexDigit(n)) == n
  {
  }

  /** One character as written by `encodeURIComponent`. */
  function EncodeChar(c: char): (r: string)
    ensures Unreserved(c) ==> r == [c]
    ensures !Unreserved(c) ==> 3 <= |r| <= 12 && r[0] == '%'
    ensures forall i :: 0 <= i < |r| ==> Unreserved(r[i]) || r[i] == '%' || IsHexDigit(r[i])
  {
    if Unreserved(c) then [c] else Escapes(Utf8(c))
  }

  /** `encodeURIComponent(s)`. */
  function Encode(s: string): (r: string)
    ensures |r| >= |s|
    decreases |s|
  {
    if |s| == 0 then "" else EncodeChar(s[0]) + Encode(s[1..])
  }

  /** The encoding uses only unreserved characters, `%` and hexadecimal
      digits, so it never contains the `<`, `>` and `=` that delimit the
      `<dash_entry_…=…>` tags. */
  lemma {:induction false} EncodeAlphabet(s: string)
    ensures forall i :: 0 <= i < |Encode(s)| ==>
              Unreserved(Encode(s)[i]) || Encode(s)[i] == '%' || IsHexDigit(Encode(s)[i])
    decreases |s|
  {
    if |s| > 0 {
      EncodeAlphabet(s[1..]);
      var a, b := EncodeChar(s[0]), Encode(s[1..]);
      assert forall i :: 0 <= i < |a + b| ==> (a + b)[i] == (if i < |a| then a[i] else b[i - |a|]);
    }
  }

  /** A string comes out unchanged exactly when all its characters are
      unreserved. */
  lemma {:induction false} EncodeFixedPoint(s: string)
    ensures Encode(s) == s <==> forall i :: 0 <= i < |s| ==> Unreserved(s[i])
    decreases |s|
  {
    if |s| > 0 {
      EncodeFixedPoint(s[1..]);
      if Encode(s) == s {
        assert Unreserved(s[0]);
        assert Encode(s[1..]) == s[1..];
      }
      if forall i :: 0 <= i < |s| ==> Unreserved(s[i]) {
        assert forall i :: 0 <= i < |s[1..]| ==> Unreserved(s[1..][i]) by {
          forall i | 0 <= i < |s[1..]| ensures Unreserved(s[1..][i]) {
            assert s[1..][i] == s[i + 1];
          }
        }
      }
    }
  }
}
