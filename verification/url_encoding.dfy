/**
 * PHP `urlencode` over the UTF-8 bytes of a string, and the decoding that
 * undoes it. Letters, digits, '-', '_' and '.' stand for themselves, a
 * space becomes '+', every other byte becomes '%' and two upper-case hex
 * digits.
 */
module UrlEncoding {
  import opened Optional

  type Byte = b: int | 0 <= b < 256

  /** UTF-8 encoding of one code point. */
  function CharUtf8(c: char): (bs: seq<Byte>)
    ensures 1 <= |bs| <= 4
  {
    var n := c as int;
    if n < 0x80 then [n]
    else if n < 0x800 then [0xC0 + n / 64, 0x80 + n % 64]
    else if n < 0x10000 then [0xE0 + n / 4096, 0x80 + (n / 64) % 64, 0x80 + n % 64]
    else
      assert n / 262144 <= 4;
      [0xF0 + n / 262144, 0x80 + (n / 4096) % 64, 0x80 + (n / 64) % 64, 0x80 + n % 64]
  }

  /** The bytes PHP holds for a string. */
  function Utf8(s: string): seq<Byte> {
    if |s| == 0 then [] else CharUtf8(s[0]) + Utf8(s[1..])
  }

  predicate IsUnreserved(b: Byte) {
    (0x30 <= b <= 0x39) || (0x41 <= b <= 0x5A) || (0x61 <= b <= 0x7A)
    || b == 0x2D || b == 0x5F || b == 0x2E
  }

  function HexDigit(n: nat): char
    requires n < 16
  {
    "0123456789ABCDEF"[n]
  }

  function EncodeByte(b: Byte): (t: string)
    ensures 1 <= |t| <= 3
  {
    if IsUnreserved(b) then [b as char]
    else if b == 0x20 then "+"
    else ['%', HexDigit(b / 16), HexDigit(b % 16)]
  }

  function EncodeBytes(bs: seq<Byte>): string {
    if |bs| == 0 then "" else EncodeByte(bs[0]) + EncodeBytes(bs[1..])
  }

  /** PHP `urlencode($s)`. */
  function UrlEncode(s: string): string {
    EncodeBytes(Utf8(s))
  }

  /** The characters `urlencode` can produce. */
  predicate IsEncodedChar(c: char) {
    ('0' <= c <= '9') || ('A' <= c <= 'Z') || ('a' <= c <= 'z')
    || c == '-' || c == '_' || c == '.' || c == '+' || c == '%'
  }

  lemma {:induction false} EncodeBytesAlphabet(bs: seq<Byte>)
    ensures forall i :: 0 <= i < |EncodeBytes(bs)| ==> IsEncodedChar(EncodeBytes(bs)[i])
  {
    if |bs| > 0 {
      EncodeBytesAlphabet(bs[1..]);
      var head := EncodeByte(bs[0]);
      var t := EncodeBytes(bs);
      assert t == head + EncodeBytes(bs[1..]);
      forall i | 0 <= i < |t| ensures IsEncodedChar(t[i]) {
        if i >= |head| {
          assert t[i] == EncodeBytes(bs[1..])[i - |head|];
        }
      }
    }
  }

  /** An encoded key never contains a query-string delimiter. */
  lemma UrlEncodeHasNoDelimiter(s: string)
    ensures '&' !in UrlEncode(s) && '=' !in UrlEncode(s) && '#' !in UrlEncode(s)
  {
    EncodeBytesAlphabet(Utf8(s));
  }

  function HexValue(c: char): Option<nat> {
    if '0' <= c <= '9' then Some(c as int - '0' as int)
    else if 'A' <= c <= 'F' then Some(c as int - 'A' as int + 10)
    else if 'a' <= c <= 'f' then Some(c as int - 'a' as int + 10)
    else None
  }

  function Cons(b: Byte, rest: Option<seq<Byte>>): Option<seq<Byte>> {
    match rest
    case Some(bs) => Some([b] + bs)
    case None => None
  }

  /** PHP `urldecode` for well-formed input; `None` for a dangling '%' or a non-byte character. */
  function UrlDecode(t: string): Option<seq<Byte>>
    decreases |t|
  {
    if |t| == 0 then Some([])
    else if t[0] == '+' then Cons(0x20, UrlDecode(t[1..]))
    else if t[0] == '%' then
      if |t| >= 3 && HexValue(t[1]).Some? && HexValue(t[2]).Some?
         && HexValue(t[1]).value * 16 + HexValue(t[2]).value < 256
      then Cons(HexValue(t[1]).value * 16 + HexValue(t[2]).value, UrlDecode(t[3..]))
      else None
    else if t[0] as int < 256 then Cons(t[0] as int, UrlDecode(t[1..]))
    else None
  }

  lemma DecodeOneByte(b: Byte, rest: string)
    ensures UrlDecode(EncodeByte(b) + rest) == Cons(b, UrlDecode(rest))
  {
    var t := EncodeByte(b) + rest;
    if IsUnreserved(b) {
      assert t[1..] == rest;
    } else if b == 0x20 {
      assert t[1..] == rest;
    } else {
      assert HexValue(HexDigit(b / 16)) == Some(b / 16);
      assert HexValue(HexDigit(b % 16)) == Some(b % 16);
      assert t[3..] == rest;
    }
  }

  /** Decoding undoes the encoding, byte for byte. */
  lemma {:induction false} UrlDecodeEncodeBytes(bs: seq<Byte>)
    ensures UrlDecode(EncodeBytes(bs)) == Some(bs)
  {
    if |bs| > 0 {
      UrlDecodeEncodeBytes(bs[1..]);
      DecodeOneByte(bs[0], EncodeBytes(bs[1..]));
      assert [bs[0]] + bs[1..] == bs;
    }
  }

  /** `urldecode(urlencode($s))` gives back the bytes of `$s`. */
  lemma UrlDecodeEncode(s: string)
    ensures UrlDecode(UrlEncode(s)) == Some(Utf8(s))
  {
    UrlDecodeEncodeBytes(Utf8(s));
  }
}
