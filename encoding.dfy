/** Textual encodings the core relies on: PHP's decimal rendering of integer IDs,
    `bin2hex` for redemption secrets, and `urlencode`/`urldecode` for query strings. */
module Encoding {
  import opened Common

  type Byte = b: int | 0 <= b < 256

  // ---------------------------------------------------------------- decimal

  predicate IsDigit(c: char)
  {
    '0' <= c <= '9'
  }

  predicate AllDigits(s: string)
  {
    forall i :: 0 <= i < |s| ==> IsDigit(s[i])
  }

  function DigitChar(d: nat): (c: char)
    requires d < 10
    ensures IsDigit(c) && DigitValue(c) == d
  {
    (48 + d) as char
  }

  function DigitValue(c: char): (d: nat)
    requires IsDigit(c)
    ensures d < 10
  {
    c as int - 48
  }

  /** The decimal rendering PHP gives an integer ID when it is concatenated or
      placed in a query string. */
  function NatToString(n: nat): (s: string)
    ensures |s| >= 1 && AllDigits(s)
    ensures |s| > 1 ==> s[0] != '0'
    decreases n
  {
    if n < 10 then [DigitChar(n)] else NatToString(n / 10) + [DigitChar(n % 10)]
  }

  function DigitsValue(s: string): nat
    requires AllDigits(s)
  {
    if s == [] then 0 else 10 * DigitsValue(s[..|s| - 1]) + DigitValue(s[|s| - 1])
  }

  /** The integer a request parameter denotes when it is compared with an ID column:
      a non-empty run of decimal digits, or nothing. */
  function ParseNat(s: string): (r: Option<nat>)
    ensures r.Some? <==> |s| > 0 && AllDigits(s)
  {
    if |s| > 0 && AllDigits(s) then Some(DigitsValue(s)) else None
  }

  /** Reading back a rendered ID gives the ID. */
  lemma {:induction false} ParseNatToString(n: nat)
    ensures ParseNat(NatToString(n)) == Some(n)
  {
    var s := NatToString(n);
    if n < 10 {
      assert s == [DigitChar(n)];
      assert s[..0] == [];
      assert DigitsValue(s) == 10 * DigitsValue([]) + DigitValue(s[0]);
    } else {
      ParseNatToString(n / 10);
      assert s[..|s| - 1] == NatToString(n / 10);
    }
  }

  /** Different IDs render differently. */
  lemma NatToStringInjective(m: nat, n: nat)
    requires NatToString(m) == NatToString(n)
    ensures m == n
  {
    ParseNatToString(m);
    ParseNatToString(n);
  }

  // ---------------------------------------------------------------- hex

  predicate IsLowerHexChar(c: char)
  {
    '0' <= c <= '9' || 'a' <= c <= 'f'
  }

  predicate IsLowerHex(s: string)
  {
    forall i :: 0 <= i < |s| ==> IsLowerHexChar(s[i])
  }

  /** A hex digit in either case, as `urldecode` and `hex2bin` accept. */
  predicate IsHexChar(c: char)
  {
    '0' <= c <= '9' || 'a' <= c <= 'f' || 'A' <= c <= 'F'
  }

  function HexValue(c: char): (v: nat)
    requires IsHexChar(c)
    ensures v < 16
  {
    if '0' <= c <= '9' then c as int - 48
    else if 'a' <= c <= 'f' then c as int - 87
    else c as int - 55
  }

  function LowerHexChar(d: nat): (c: char)
    requires d < 16
    ensures IsLowerHexChar(c) && HexValue(c) == d
  {
    if d < 10 then (48 + d) as char else (87 + d) as char
  }

  function UpperHexChar(d: nat): (c: char)
    requires d < 16
    ensures IsHexChar(c) && HexValue(c) == d
    ensures c != '%' && c != '+' && c != '&' && c != '='
  {
    if d < 10 then (48 + d) as char else (55 + d) as char
  }

  /** PHP `bin2hex`: two lower-case hex digits per byte, high nibble first. */
  function HexEncode(bs: seq<Byte>): (s: string)
    ensures |s| == 2 * |bs| && IsLowerHex(s)
  {
    if bs == [] then []
    else [LowerHexChar(bs[0] / 16), LowerHexChar(bs[0] % 16)] + HexEncode(bs[1..])
  }

  /** PHP `hex2bin`: None for an odd length or a non-hex character. */
  function HexDecode(s: string): Option<seq<Byte>>
    decreases |s|
  {
    if s == [] then Some([])
    else if |s| < 2 || !IsHexChar(s[0]) || !IsHexChar(s[1]) then None
    else match HexDecode(s[2..])
      case None => None
      case Some(rest) => Some([(16 * HexValue(s[0]) + HexValue(s[1])) as Byte] + rest)
  }

  /** `hex2bin(bin2hex(b)) == b`: the secret determines the random bytes it was made from. */
  lemma {:induction false} HexRoundTrip(bs: seq<Byte>)
    ensures HexDecode(HexEncode(bs)) == Some(bs)
  {
    if bs != [] {
      HexRoundTrip(bs[1..]);
      var s := HexEncode(bs);
      assert s[2..] == HexEncode(bs[1..]);
      assert 16 * (bs[0] / 16) + bs[0] % 16 == bs[0];
      assert [bs[0]] + bs[1..] == bs;
    }
  }

  // ---------------------------------------------------------------- url

  /** Characters `urlencode` leaves as they are. */
  predicate IsUnreserved(c: char)
  {
    'a' <= c <= 'z' || 'A' <= c <= 'Z' || '0' <= c <= '9' || c == '-' || c == '_' || c == '.'
  }

  /** `urlencode` of one character: unreserved ones stay, a space becomes '+', every other
      byte becomes '%' and two upper-case hex digits. PHP strings are byte strings, so a
      character above 255 never reaches it; such a character is passed through. */
  function UrlEncodeChar(c: char): string
  {
    if IsUnreserved(c) then [c]
    else if c == ' ' then "+"
    else if c as int < 256 then ['%', UpperHexChar(c as int / 16), UpperHexChar(c as int % 16)]
    else [c]
  }

  function UrlEncode(s: string): (r: string)
    ensures forall i :: 0 <= i < |r| ==> r[i] != '&' && r[i] != '='
  {
    if s == [] then [] else UrlEncodeChar(s[0]) + UrlEncode(s[1..])
  }

  /** `urldecode`: '+' is a space, '%' with two hex digits is that byte, anything else stays. */
  function UrlDecode(s: string): string
    decreases |s|
  {
    if s == [] then []
    else if s[0] == '+' then [' '] + UrlDecode(s[1..])
    else if s[0] == '%' && |s| >= 3 && IsHexChar(s[1]) && IsHexChar(s[2]) then
      [(16 * HexValue(s[1]) + HexValue(s[2])) as char] + UrlDecode(s[3..])
    else [s[0]] + UrlDecode(s[1..])
  }

  lemma UrlDecodeEncodedChar(c: char, rest: string)
    ensures UrlDecode(UrlEncodeChar(c) + rest) == [c] + UrlDecode(rest)
  {
    var e := UrlEncodeChar(c);
    if IsUnreserved(c) || c == ' ' || c as int >= 256 {
      assert (e + rest)[1..] == rest;
    } else {
      assert (e + rest)[3..] == rest;
      assert (16 * (c as int / 16) + c as int % 16) as char == c;
    }
  }

  /** `urldecode(urlencode(s)) == s` for every string. */
  lemma {:induction false} UrlRoundTrip(s: string)
    ensures UrlDecode(UrlEncode(s)) == s
  {
    if s != [] {
      UrlRoundTrip(s[1..]);
      UrlDecodeEncodedChar(s[0], UrlEncode(s[1..]));
    }
  }

  /** A string with no '%' and no '+' decodes to itself. */
  lemma {:induction false} UrlDecodePlain(s: string)
    requires forall i :: 0 <= i < |s| ==> s[i] != '%' && s[i] != '+'
    ensures UrlDecode(s) == s
  {
    if s != [] {
      UrlDecodePlain(s[1..]);
    }
  }

  /** A string of unreserved characters, such as a hex secret, is its own encoding. */
  lemma {:induction false} UrlEncodeUnreserved(s: string)
    requires forall i :: 0 <= i < |s| ==> IsUnreserved(s[i])
    ensures UrlEncode(s) == s
  {
    if s != [] {
      UrlEncodeUnreserved(s[1..]);
    }
  }
}
