/** Hex (section 8 of RFC 4648) and unpadded base64url (section 5 of RFC 4648), as Go's
    encoding/hex and base64.RawURLEncoding read and write them. */
module Codecs {
  import opened Wrappers
  import opened Text

  type Byte = x: int | 0 <= x < 256

  // ---- Hex --------------------------------------------------------------------------

  type Nibble = x: int | 0 <= x < 16

  function HexDigit(n: Nibble): char {
    if n < 10 then (n + '0' as int) as char else (n - 10 + 'a' as int) as char
  }

  function HexValue(c: char): Option<Nibble> {
    if '0' <= c <= '9' then Some(c as int - '0' as int)
    else if 'a' <= c <= 'f' then Some(c as int - 'a' as int + 10)
    else if 'A' <= c <= 'F' then Some(c as int - 'A' as int + 10)
    else None
  }

  function HexEncode(bytes: seq<Byte>): string {
    if bytes == [] then ""
    else [HexDigit(bytes[0] / 16), HexDigit(bytes[0] % 16)] + HexEncode(bytes[1..])
  }

  /** An odd length or a character outside the alphabet is an error. */
  function HexDecode(s: string): Option<seq<Byte>> {
    if s == "" then Some([])
    else if |s| == 1 then None
    else
      match (HexValue(s[0]), HexValue(s[1]), HexDecode(s[2..]))
      case (Some(hi), Some(lo), Some(rest)) =>
        var b: int := 16 * (hi as int) + lo as int;
        Some([b] + rest)
      case _ => None
  }

  lemma {:induction false} HexRoundTrip(bytes: seq<Byte>)
    ensures HexDecode(HexEncode(bytes)) == Some(bytes)
  {
    if bytes != [] {
      HexRoundTrip(bytes[1..]);
      assert HexEncode(bytes)[2..] == HexEncode(bytes[1..]);
      assert bytes == [bytes[0]] + bytes[1..];
    }
  }

  lemma HexDigitNormal(c: char)
    requires HexValue(c).Some?
    ensures HexDigit(HexValue(c).value) == LowerChar(c)
  {
  }

  /** Re-encoding decoded hex gives its lower-case spelling: only that spelling is a stored key. */
  lemma {:induction false} HexNormalForm(s: string)
    requires HexDecode(s).Some?
    ensures HexEncode(HexDecode(s).value) == Lower(s)
  {
    if s != "" {
      HexNormalForm(s[2..]);
      HexDigitNormal(s[0]);
      HexDigitNormal(s[1]);
      var b := HexDecode(s).value;
      assert b[1..] == HexDecode(s[2..]).value;
      assert b[0] / 16 == HexValue(s[0]).value && b[0] % 16 == HexValue(s[1]).value;
      assert Lower(s) == [LowerChar(s[0]), LowerChar(s[1])] + Lower(s[2..]);
    }
  }

  lemma {:induction false} HexIsPlain(s: string, i: nat)
    requires HexDecode(s).Some? && i < |s|
    ensures HexValue(s[i]).Some?
  {
    if i >= 2 {
      HexIsPlain(s[2..], i - 2);
    }
  }

  /** The digits of section 8 of RFC 4648. */
  lemma HexSpelled(bytes: seq<Byte>, i: nat)
    requires i < |bytes|
    ensures |HexEncode(bytes)| == 2 * |bytes|
    ensures HexEncode(bytes)[2 * i] == "0123456789abcdef"[bytes[i] / 16]
    ensures HexEncode(bytes)[2 * i + 1] == "0123456789abcdef"[bytes[i] % 16]
    decreases |bytes|
  {
    HexDigitSpelled(bytes[0] / 16);
    HexDigitSpelled(bytes[0] % 16);
    if i > 0 {
      HexSpelled(bytes[1..], i - 1);
    } else if |bytes| > 1 {
      HexSpelled(bytes[1..], 0);
    }
  }

  lemma HexDigitSpelled(n: Nibble)
    ensures HexDigit(n) == "0123456789abcdef"[n]
  {
  }

  predicate HexChar(c: char) { '0' <= c <= '9' || 'a' <= c <= 'f' || 'A' <= c <= 'F' }

  /** What decodes: pairs of hex digits of either case. */
  lemma {:induction false} HexAccepts(s: string)
    ensures HexDecode(s).Some? <==> |s| % 2 == 0 && forall i :: 0 <= i < |s| ==> HexChar(s[i])
  {
    if |s| >= 2 {
      HexAccepts(s[2..]);
      assert forall i :: 2 <= i < |s| ==> s[i] == s[2..][i - 2];
      assert s[2..] != [] ==> forall i :: 0 <= i < |s[2..]| ==> s[2..][i] == s[i + 2];
    }
  }

  // ---- Base64url ---------------------------------------------------------------------

  type Sextet = x: int | 0 <= x < 64

  function Digit64(n: Sextet): char {
    if n < 26 then (n + 'A' as int) as char
    else if n < 52 then (n - 26 + 'a' as int) as char
    else if n < 62 then (n - 52 + '0' as int) as char
    else if n == 62 then '-' else '_'
  }

  function Value64(c: char): Option<Sextet> {
    if 'A' <= c <= 'Z' then Some(c as int - 'A' as int)
    else if 'a' <= c <= 'z' then Some(c as int - 'a' as int + 26)
    else if '0' <= c <= '9' then Some(c as int - '0' as int + 52)
    else if c == '-' then Some(62) else if c == '_' then Some(63)
    else None
  }

  function Base64Encode(b: seq<Byte>): string {
    if |b| == 0 then ""
    else if |b| == 1 then [Digit64(b[0] / 4), Digit64(b[0] % 4 * 16)]
    else if |b| == 2 then [Digit64(b[0] / 4), Digit64(b[0] % 4 * 16 + b[1] / 16), Digit64(b[1] % 16 * 4)]
    else
      [Digit64(b[0] / 4), Digit64(b[0] % 4 * 16 + b[1] / 16), Digit64(b[1] % 16 * 4 + b[2] / 64), Digit64(b[2] % 64)]
      + Base64Encode(b[3..])
  }

  function DecodeDigits(s: string): Option<seq<Byte>> {
    if |s| == 0 then Some([])
    else if |s| == 1 then None
    else
      match (Value64(s[0]), Value64(s[1]))
      case (Some(x), Some(y)) =>
        var first := x * 4 + y / 16;
        if |s| == 2 then Some([first])
        else
          (match Value64(s[2])
           case None => None
           case Some(z) =>
             var second := y % 16 * 16 + z / 4;
             if |s| == 3 then Some([first, second])
             else
               (match (Value64(s[3]), DecodeDigits(s[4..]))
                case (Some(w), Some(rest)) => Some([first, second, z % 4 * 64 + w] + rest)
                case _ => None))
      case _ => None
  }

  /** The decoder skips line breaks. */
  function StripBreaks(s: string): string {
    if s == "" then "" else (if s[0] in "\r\n" then "" else [s[0]]) + StripBreaks(s[1..])
  }

  function Base64Decode(s: string): Option<seq<Byte>> { DecodeDigits(StripBreaks(s)) }

  lemma DigitRoundTrip(n: Sextet)
    ensures Value64(Digit64(n)) == Some(n) && Digit64(n) !in "\r\n"
  {
  }

  lemma {:induction false} NoBreaks(s: string)
    requires AllDigits(s)
    ensures StripBreaks(s) == s
  {
    if s != "" {
      NoBreaks(s[1..]);
      assert s == [s[0]] + s[1..];
    }
  }

  predicate AllDigits(s: string) {
    forall i :: 0 <= i < |s| ==> Value64(s[i]).Some?
  }

  lemma TailOfOne(a: Byte)
    ensures AllDigits(Base64Encode([a])) && DecodeDigits(Base64Encode([a])) == Some([a])
  {
    DigitRoundTrip(a / 4);
    DigitRoundTrip(a % 4 * 16);
  }

  lemma TailOfTwo(a: Byte, b: Byte)
    ensures AllDigits(Base64Encode([a, b])) && DecodeDigits(Base64Encode([a, b])) == Some([a, b])
  {
    var y := a % 4 * 16 + b / 16;
    DigitRoundTrip(a / 4);
    DigitRoundTrip(y);
    DigitRoundTrip(b % 16 * 4);
    assert y / 16 == a % 4 && y % 16 == b / 16;
    assert Base64Encode([a, b]) == [Digit64(a / 4), Digit64(y), Digit64(b % 16 * 4)];
  }

  lemma GroupOfThree(a: Byte, b: Byte, c: Byte, rest: string, tail: seq<Byte>)
    requires AllDigits(rest) && DecodeDigits(rest) == Some(tail)
    ensures var s := [Digit64(a / 4), Digit64(a % 4 * 16 + b / 16), Digit64(b % 16 * 4 + c / 64),
      Digit64(c % 64)] + rest;
            AllDigits(s) && DecodeDigits(s) == Some([a, b, c] + tail)
  {
    var y, z := a % 4 * 16 + b / 16, b % 16 * 4 + c / 64;
    DigitRoundTrip(a / 4);
    DigitRoundTrip(y);
    DigitRoundTrip(z);
    DigitRoundTrip(c % 64);
    assert y / 16 == a % 4 && y % 16 == b / 16;
    assert z / 4 == b % 16 && z % 4 == c / 64;
    var s := [Digit64(a / 4), Digit64(y), Digit64(z), Digit64(c % 64)] + rest;
    assert s[4..] == rest;
  }

  lemma {:induction false} EncodedDigits(b: seq<Byte>)
    ensures AllDigits(Base64Encode(b)) && DecodeDigits(Base64Encode(b)) == Some(b)
  {
    if |b| == 1 {
      assert b == [b[0]];
      TailOfOne(b[0]);
    } else if |b| == 2 {
      assert b == [b[0], b[1]];
      TailOfTwo(b[0], b[1]);
    } else if |b| > 2 {
      EncodedDigits(b[3..]);
      GroupOfThree(b[0], b[1], b[2], Base64Encode(b[3..]), b[3..]);
      assert b == [b[0], b[1], b[2]] + b[3..];
    }
  }

  lemma Base64RoundTrip(b: seq<Byte>)
    ensures Base64Decode(Base64Encode(b)) == Some(b)
  {
    EncodedDigits(b);
    NoBreaks(Base64Encode(b));
  }

  /** The digits of section 5 of RFC 4648. */
  lemma Digit64Spelled(n: Sextet)
    ensures n < 26 ==> Digit64(n) == "ABCDEFGHIJKLMNOPQRSTUVWXYZ"[n]
    ensures 26 <= n < 52 ==> Digit64(n) == "abcdefghijklmnopqrstuvwxyz"[n - 26]
    ensures 52 <= n ==> Digit64(n) == "0123456789-_"[n - 52]
  {
    if n < 26 {
      UpperLetter(n);
    } else if n < 52 {
      LowerLetter(n - 26);
    }
  }

  lemma UpperLetter(n: int)
    requires 0 <= n < 26
    ensures "ABCDEFGHIJKLMNOPQRSTUVWXYZ"[n] == (n + 'A' as int) as char
  {
    if n < 13 {
      assert "ABCDEFGHIJKLMNOPQRSTUVWXYZ"[n] == "ABCDEFGHIJKLM"[n];
    } else {
      assert "ABCDEFGHIJKLMNOPQRSTUVWXYZ"[n] == "NOPQRSTUVWXYZ"[n - 13];
    }
  }

  lemma LowerLetter(n: int)
    requires 0 <= n < 26
    ensures "abcdefghijklmnopqrstuvwxyz"[n] == (n + 'a' as int) as char
  {
    if n < 13 {
      assert "abcdefghijklmnopqrstuvwxyz"[n] == "abcdefghijklm"[n];
    } else {
      assert "abcdefghijklmnopqrstuvwxyz"[n] == "nopqrstuvwxyz"[n - 13];
    }
  }

  /** Four digits spell the number of 24 bits that three bytes hold, both most significant first. */
  predicate SameBits(d: seq<Sextet>, a: int, b: int, c: int) {
    && |d| == 4
    && var d0: int, d1: int, d2: int, d3: int := d[0], d[1], d[2], d[3];
       d0 * 262144 + d1 * 4096 + d2 * 64 + d3 == a * 65536 + b * 256 + c
  }

  lemma SplitBits(a: Byte, b: Byte, c: Byte)
    ensures SameBits([a / 4, a % 4 * 16 + b / 16, b % 16 * 4 + c / 64, c % 64], a, b, c)
  {
  }

  /** Three bytes give the four digits of their 24 bits; a shorter end is padded with zero bits, and
      the digits that would hold padding alone are left out. */
  lemma Base64Spelled(bytes: seq<Byte>) returns (d: seq<Sextet>)
    requires bytes != []
    ensures SameBits(d, bytes[0], if |bytes| > 1 then bytes[1] else 0, if |bytes| > 2 then bytes[2] else 0)
    ensures |bytes| == 1 ==> Base64Encode(bytes) == [Digit64(d[0]), Digit64(d[1])]
    ensures |bytes| == 2 ==> Base64Encode(bytes) == [Digit64(d[0]), Digit64(d[1]), Digit64(d[2])]
    ensures |bytes| > 2 ==>
      Base64Encode(bytes) == [Digit64(d[0]), Digit64(d[1]), Digit64(d[2]), Digit64(d[3])] + Base64Encode(bytes[3..])
  {
    var a: Byte := bytes[0];
    var b: Byte := if |bytes| > 1 then bytes[1] else 0;
    var c: Byte := if |bytes| > 2 then bytes[2] else 0;
    SplitBits(a, b, c);
    d := [a / 4, a % 4 * 16 + b / 16, b % 16 * 4 + c / 64, c % 64];
  }

  /** What decodes once line breaks are dropped: digits of the alphabet, not one more than whole quanta. */
  lemma Base64Accepts(s: string)
    ensures DecodeDigits(s).Some? <==> |s| % 4 != 1 && AllDigits(s)
  {
    var decodes := (t: string) => DecodeDigits(t).Some?;
    forall t: string | |t| < 4 ensures decodes(t) <==> |t| != 1 && AllDigits(t) {
      TailAccepts(t);
    }
    forall t: string {:trigger FirstFour(t)} | |t| >= 4 ensures decodes(t) <==> FirstFour(t) && decodes(t[4..]) {
      GroupAccepts(t);
    }
    AcceptsByGroups(decodes, s);
  }

  lemma {:induction false} AcceptsByGroups(decodes: string -> bool, s: string)
    requires forall t: string :: |t| < 4 ==> (decodes(t) <==> |t| != 1 && AllDigits(t))
    requires forall t: string {:trigger FirstFour(t)} :: |t| >= 4 ==> (decodes(t) <==> FirstFour(t) && decodes(t[4..]))
    ensures decodes(s) <==> |s| % 4 != 1 && AllDigits(s)
  {
    if |s| >= 4 {
      AcceptsByGroups(decodes, s[4..]);
      GroupDigits(s);
    }
  }

  /** A line break anywhere makes no difference. */
  lemma BreaksIgnored(a: string, b: string)
    ensures Base64Decode(a + "\n" + b) == Base64Decode(a + b) == Base64Decode(a + "\r" + b)
  {
    Stripped(a, "\n", b);
    Stripped(a, "\r", b);
  }

  lemma {:induction false} StripAppend(a: string, b: string)
    ensures StripBreaks(a + b) == StripBreaks(a) + StripBreaks(b)
  {
    if a == "" {
      assert a + b == b;
    } else {
      assert (a + b)[1..] == a[1..] + b;
      StripAppend(a[1..], b);
    }
  }

  lemma Stripped(a: string, br: string, b: string)
    requires br == "\n" || br == "\r"
    ensures StripBreaks(a + br + b) == StripBreaks(a + b)
  {
    StripAppend(a + br, b);
    StripAppend(a, br);
    StripAppend(a, b);
    assert br[1..] == "";
    assert StripBreaks(br) == "";
    assert StripBreaks(a) + "" == StripBreaks(a);
  }

  lemma TailAccepts(s: string)
    requires |s| < 4
    ensures DecodeDigits(s).Some? <==> |s| != 1 && AllDigits(s)
  {
  }

  predicate FirstFour(s: string)
    requires |s| >= 4
  {
    Value64(s[0]).Some? && Value64(s[1]).Some? && Value64(s[2]).Some? && Value64(s[3]).Some?
  }

  lemma GroupAccepts(s: string)
    requires |s| >= 4
    ensures DecodeDigits(s).Some? <==> FirstFour(s) && DecodeDigits(s[4..]).Some?
  {
  }

  lemma GroupDigits(s: string)
    requires |s| >= 4
    ensures AllDigits(s) <==> FirstFour(s) && AllDigits(s[4..])
  {
    if FirstFour(s) && AllDigits(s[4..]) {
      forall i | 0 <= i < |s| ensures Value64(s[i]).Some? {
        if i >= 4 {
          assert s[i] == s[4..][i - 4];
        }
      }
    }
  }
}
