/** Percent and form encoding, query assembly and decimal numbers.

Text to encode is its UTF-8 bytes; encoded text is ASCII. The decoders and the
parser are written from the formats (sections 2.1 and 2.3 of RFC 3986), not from
the encoders. */
module Encoding {
  import opened Options

  type byte = b: int | 0 <= b < 256

  type bytes = seq<byte>

  predicate IsUnreserved(c: int) {
    || 'A' as int <= c <= 'Z' as int
    || 'a' as int <= c <= 'z' as int
    || '0' as int <= c <= '9' as int
    || c in {'-' as int, '_' as int, '.' as int, '~' as int}
  }

  function HexDigit(n: int): char
    requires 0 <= n < 16
  {
    if n < 10 then (n + '0' as int) as char else (n - 10 + 'A' as int) as char
  }

  /** One byte on the wire; a form body writes a space as `+`. */
  function EncodeByte(b: byte, form: bool): string {
    if IsUnreserved(b) then [b as char]
    else if form && b == ' ' as int then "+"
    else ['%', HexDigit(b / 16), HexDigit(b % 16)]
  }

  function Encode(s: bytes, form: bool): string {
    if s == [] then "" else EncodeByte(s[0], form) + Encode(s[1..], form)
  }

  method PercentEncode(s: bytes) returns (out: string)
    ensures out == Encode(s, false)
  {
    out := "";
    for i := 0 to |s|
      invariant out == Encode(s[..i], false)
    {
      EncodePush(s, i, false);
      var b := s[i];
      if IsUnreserved(b) {
        out := out + [b as char];
      } else {
        out := out + ['%'];
        out := out + [HexDigit(b / 16)];
        out := out + [HexDigit(b % 16)];
      }
    }
    assert s[..|s|] == s;
  }

  method FormUrlEncode(s: bytes) returns (out: string)
    ensures out == Encode(s, true)
  {
    out := "";
    for i := 0 to |s|
      invariant out == Encode(s[..i], true)
    {
      EncodePush(s, i, true);
      var b := s[i];
      if IsUnreserved(b) {
        out := out + [b as char];
      } else if b == ' ' as int {
        out := out + ['+'];
      } else {
        out := out + ['%'];
        out := out + [HexDigit(b / 16)];
        out := out + [HexDigit(b % 16)];
      }
    }
    assert s[..|s|] == s;
  }

  lemma JoinedHead(head: string, rest: string, more: string)
    ensures head + (rest + more) == (head + rest) + more
  {
  }

  lemma {:induction false} EncodeConcat(a: bytes, b: bytes, form: bool)
    ensures Encode(a + b, form) == Encode(a, form) + Encode(b, form)
  {
    if a == [] {
      assert a + b == b;
    } else {
      EncodeConcat(a[1..], b, form);
      assert (a + b)[1..] == a[1..] + b;
      JoinedHead(EncodeByte(a[0], form), Encode(a[1..], form), Encode(b, form));
    }
  }

  lemma EncodePush(s: bytes, i: nat, form: bool)
    requires i < |s|
    ensures Encode(s[..i + 1], form) == Encode(s[..i], form) + EncodeByte(s[i], form)
  {
    assert s[..i + 1] == s[..i] + [s[i]];
    EncodeConcat(s[..i], [s[i]], form);
    assert Encode([s[i]], form) == EncodeByte(s[i], form) + Encode([], form);
  }

  // Decoding

  function HexValue(c: char): Option<int> {
    if '0' <= c <= '9' then Some(c as int - '0' as int)
    else if 'A' <= c <= 'F' then Some(c as int - 'A' as int + 10)
    else if 'a' <= c <= 'f' then Some(c as int - 'a' as int + 10)
    else None
  }

  /** The bytes that encoded text stands for; `None` if a `%` lacks two hex digits or
  a character is not ASCII. */
  function Decode(t: string, form: bool): Option<bytes>
    decreases |t|, 0
  {
    if t == "" then Some([])
    else if t[0] == '%' then
      if |t| < 3 || HexValue(t[1]).None? || HexValue(t[2]).None? then None
      else DecodeOnto(HexValue(t[1]).value * 16 + HexValue(t[2]).value, t[3..], form)
    else if form && t[0] == '+' then DecodeOnto(' ' as int, t[1..], form)
    else if t[0] as int < 128 then DecodeOnto(t[0] as int, t[1..], form)
    else None
  }

  function DecodeOnto(b: int, rest: string, form: bool): Option<bytes>
    decreases |rest|, 1
  {
    var tail := Decode(rest, form);
    if tail.None? || !(0 <= b < 256) then None else Some([b] + tail.value)
  }

  lemma HexRoundTrip(b: byte)
    ensures HexValue(HexDigit(b / 16)) == Some(b / 16) && HexValue(HexDigit(b % 16)) == Some(b % 16)
  {
  }

  lemma DecodeByte(b: byte, rest: string, s: bytes, form: bool)
    requires Decode(rest, form) == Some(s)
    ensures Decode(EncodeByte(b, form) + rest, form) == Some([b] + s)
  {
    var head := EncodeByte(b, form);
    assert (head + rest)[|head|..] == rest;
    if |head| == 3 {
      HexRoundTrip(b);
    }
  }

  lemma {:induction false} DecodeEncode(s: bytes, form: bool)
    ensures Decode(Encode(s, form), form) == Some(s)
  {
    if s == [] {
    } else {
      DecodeEncode(s[1..], form);
      DecodeByte(s[0], Encode(s[1..], form), s[1..], form);
      assert s == [s[0]] + s[1..];
    }
  }

  predicate IsHex(c: char) {
    '0' <= c <= '9' || 'A' <= c <= 'F'
  }

  /** Encoded text is unreserved characters and `%XX` triplets, with `+` only in forms. */
  ghost predicate WireText(t: string, form: bool)
    decreases |t|
  {
    t == "" ||
    (IsUnreserved(t[0] as int) && WireText(t[1..], form)) ||
    (form && t[0] == '+' && WireText(t[1..], form)) ||
    (|t| >= 3 && t[0] == '%' && IsHex(t[1]) && IsHex(t[2]) && WireText(t[3..], form))
  }

  lemma {:induction false} EncodeIsWireText(s: bytes, form: bool)
    ensures WireText(Encode(s, form), form)
  {
    if s == [] {
    } else {
      EncodeIsWireText(s[1..], form);
      var head, t := EncodeByte(s[0], form), Encode(s, form);
      assert t[|head|..] == Encode(s[1..], form);
    }
  }

  /** The unreserved characters of section 2.3 of RFC 3986, listed. */
  const UNRESERVED := CharsFrom('A', 26) + CharsFrom('a', 26) + CharsFrom('0', 10) + "-._~"

  function CharsFrom(first: char, n: nat): (t: string)
    requires first as int + n <= 128
    ensures |t| == n && forall i :: 0 <= i < n ==> t[i] as int == first as int + i
  {
    seq(n, i requires 0 <= i < n => (first as int + i) as char)
  }

  lemma ListedFrom(c: char, first: char, n: nat)
    requires first as int + n <= 128
    ensures c in CharsFrom(first, n) <==> first as int <= c as int < first as int + n
  {
    var t := CharsFrom(first, n);
    if first as int <= c as int < first as int + n {
      assert t[c as int - first as int] == c;
    }
  }

  lemma UnreservedIsListed(c: char)
    ensures |UNRESERVED| == 66 && (IsUnreserved(c as int) <==> c in UNRESERVED)
  {
    ListedFrom(c, 'A', 26);
    ListedFrom(c, 'a', 26);
    ListedFrom(c, '0', 10);
    assert c in "-._~" <==> c == '-' || c == '.' || c == '_' || c == '~';
  }

  /** Exactly the listed bytes stay themselves; in a form a space is `+`; any other byte is
  `%` and two upper-case hexadecimal digits that spell it. */
  lemma ByteText(b: byte, form: bool)
    ensures Encode([b], form) == [b as char] <==> b as char in UNRESERVED
    ensures form && b == 0x20 ==> Encode([b], form) == "+"
    ensures b as char !in UNRESERVED && !(form && b == 0x20) ==>
      Encode([b], form) == ['%', HEX_DIGITS[b / 16], HEX_DIGITS[b % 16]]
  {
    UnreservedIsListed(b as char);
    assert Encode([b], form) == EncodeByte(b, form) + Encode([], form) == EncodeByte(b, form);
    HexDigitIsListed(b / 16);
    HexDigitIsListed(b % 16);
    if !IsUnreserved(b) {
      var text := EncodeByte(b, form);
      assert |text| == 3 || (text == "+" && b == 0x20);
    }
  }

  const HEX_DIGITS := CharsFrom('0', 10) + CharsFrom('A', 6)

  lemma HexDigitIsListed(n: int)
    requires 0 <= n < 16
    ensures |HEX_DIGITS| == 16 && HexDigit(n) == HEX_DIGITS[n]
  {
    var digits, letters := CharsFrom('0', 10), CharsFrom('A', 6);
    assert HEX_DIGITS == digits + letters && |HEX_DIGITS| == 16;
    if n < 10 {
      assert HEX_DIGITS[n] == digits[n];
    } else {
      assert HEX_DIGITS[n] == letters[n - 10];
    }
  }

  /** Encoding is byte by byte. */
  lemma EncodesByteByByte(b: byte, s: bytes, form: bool)
    ensures Encode([], form) == "" && Encode([b] + s, form) == Encode([b], form) + Encode(s, form)
  {
    EncodeConcat([b], s, form);
  }

  predicate IsSeparator(c: char) {
    c in {'&', '=', '?'}
  }

  lemma {:induction false} WireTextHasNoSeparator(t: string, form: bool)
    requires WireText(t, form)
    ensures forall i :: 0 <= i < |t| ==> !IsSeparator(t[i])
    decreases |t|
  {
    if t == "" {
    } else {
      var n := if t[0] == '%' then 3 else 1;
      WireTextHasNoSeparator(t[n..], form);
      forall i | 0 <= i < |t| ensures !IsSeparator(t[i]) {
        if i >= n {
          assert t[i] == t[n..][i - n];
        }
      }
    }
  }

  lemma EncodeHasNoSeparator(s: bytes, form: bool)
    ensures '&' !in Encode(s, form) && '=' !in Encode(s, form)
  {
    EncodeIsWireText(s, form);
    WireTextHasNoSeparator(Encode(s, form), form);
    forall c | c in Encode(s, form) ensures !IsSeparator(c) {
      var i :| 0 <= i < |Encode(s, form)| && Encode(s, form)[i] == c;
    }
  }

  // Text that is sent as it stands

  predicate IsPlain(t: string) {
    forall i :: 0 <= i < |t| ==> IsUnreserved(t[i] as int)
  }

  function Ascii(t: string): (s: bytes)
    requires IsPlain(t)
    ensures |s| == |t|
  {
    seq(|t|, i requires 0 <= i < |t| => t[i] as int)
  }

  lemma {:induction false} PlainEncodesAsItself(t: string, form: bool)
    requires IsPlain(t)
    ensures Encode(Ascii(t), form) == t
  {
    if t == "" {
    } else {
      PlainEncodesAsItself(t[1..], form);
      assert Ascii(t)[1..] == Ascii(t[1..]);
      assert t == [t[0]] + t[1..];
    }
  }

  function Decimal(n: nat): string {
    var digit := [(n % 10 + '0' as int) as char];
    if n < 10 then digit else Decimal(n / 10) + digit
  }

  function DecimalValue(t: string): int {
    if t == "" then 0
    else DecimalValue(t[..|t| - 1]) * 10 + (t[|t| - 1] as int - '0' as int)
  }

  lemma {:induction false} DecimalRoundTrip(n: nat)
    ensures DecimalValue(Decimal(n)) == n
    ensures forall i :: 0 <= i < |Decimal(n)| ==> '0' <= Decimal(n)[i] <= '9'
    ensures Decimal(n) != "" && (n > 0 ==> Decimal(n)[0] != '0')
    ensures IsPlain(Decimal(n))
  {
    if n >= 10 {
      DecimalRoundTrip(n / 10);
      assert Decimal(n)[..|Decimal(n)| - 1] == Decimal(n / 10);
      assert Decimal(n)[0] == Decimal(n / 10)[0];
    } else {
      assert Decimal(n)[..0] == "";
    }
  }
}
