/** Rendering of the 20-byte digest as upper-case hexadecimal, its split
    into the range prefix sent to the lookup service and the suffix kept
    locally, and a decoder that inverts the rendering. */
module Hex {
  import opened Wrappers

  newtype byte = x: int | 0 <= x < 256

  /** A SHA-1 digest is twenty bytes long. */
  const DigestLength: nat := 20

  /** The digits `Number.prototype.toString(16)` uses. */
  function LowerDigit(d: nat): (c: char)
    requires d < 16
  {
    if d < 10 then ('0' as int + d) as char else ('a' as int + d - 10) as char
  }

  /** `n.toString(16)` for a non-negative integer: no leading zeros, "0" for zero. */
  function ToStringRadix16(n: nat): (r: string)
    ensures 1 <= |r|
    ensures n < 16 ==> r == [LowerDigit(n)]
    ensures 16 <= n < 256 ==> r == [LowerDigit(n / 16), LowerDigit(n % 16)]
    decreases n
  {
    if n < 16 then [LowerDigit(n)] else ToStringRadix16(n / 16) + [LowerDigit(n % 16)]
  }

  /** `s.padStart(width, fill)` with a one-character fill. */
  function PadStart(s: string, width: nat, fill: char): (r: string)
    ensures |r| == if |s| < width then width else |s|
    ensures r[|r| - |s|..] == s
    ensures forall i :: 0 <= i < |r| - |s| ==> r[i] == fill
  {
    if |s| < width then seq(width - |s|, _ => fill) + s else s
  }

  /** `b.toString(16).padStart(2, '0')`, as the component writes it. */
  function PaddedHex(b: byte): string {
    PadStart(ToStringRadix16(b as nat), 2, '0')
  }

  /** One byte as two lower-case hex digits, high nibble first. */
  function ByteToHex(b: byte): string {
    [LowerDigit(b as nat / 16), LowerDigit(b as nat % 16)]
  }

  /** The component's padded rendering is exactly the two-nibble rendering. */
  lemma PaddedHexIsByteToHex(b: byte)
    ensures PaddedHex(b) == ByteToHex(b)
  {
  }

  /** `hashArray.map(...).join('')`, with each byte rendered by `ByteToHex`
      (equal to the padded form by `PaddedHexIsByteToHex`). */
  function JoinHex(bytes: seq<byte>): (r: string)
    ensures |r| == 2 * |bytes|
  {
    if bytes == [] then "" else ByteToHex(bytes[0]) + JoinHex(bytes[1..])
  }

  /** Byte `k` occupies positions `2k` and `2k + 1` of the joined string. */
  lemma {:induction false} JoinHexAt(bytes: seq<byte>, k: nat)
    requires k < |bytes|
    ensures JoinHex(bytes)[2 * k] == ByteToHex(bytes[k])[0]
    ensures JoinHex(bytes)[2 * k + 1] == ByteToHex(bytes[k])[1]
    decreases k
  {
    var head := ByteToHex(bytes[0]);
    var rest := JoinHex(bytes[1..]);
    assert JoinHex(bytes) == head + rest;
    if k > 0 {
      var j := k - 1;
      JoinHexAt(bytes[1..], j);
      assert bytes[1..][j] == bytes[k];
      assert (head + rest)[2 * j + 2] == rest[2 * j];
      assert (head + rest)[2 * j + 3] == rest[2 * j + 1];
    }
  }

  /** `String.prototype.toUpperCase` restricted to the ASCII letters. */
  function UpperAscii(c: char): char {
    if 'a' <= c <= 'z' then (c as int - 'a' as int + 'A' as int) as char else c
  }

  function ToUpperCase(s: string): (r: string)
    ensures |r| == |s|
    ensures forall i :: 0 <= i < |s| ==> r[i] == UpperAscii(s[i])
  {
    seq(|s|, i requires 0 <= i < |s| => UpperAscii(s[i]))
  }

  /** The upper-case hex digit the rendering ends up with for a nibble. */
  function UpperDigit(d: nat): (c: char)
    requires d < 16
    ensures IsUpperHexDigit(c)
  {
    UpperAscii(LowerDigit(d))
  }

  predicate IsUpperHexDigit(c: char) {
    '0' <= c <= '9' || 'A' <= c <= 'F'
  }

  /** The digest as the service expects it: `JoinHex` then `toUpperCase`. */
  function HashHex(digest: seq<byte>): (r: string)
    ensures |r| == 2 * |digest|
  {
    ToUpperCase(JoinHex(digest))
  }

  /** Byte `k` becomes the upper-case digits of its high and low nibble at `2k`, `2k + 1`. */
  lemma HashHexAt(digest: seq<byte>, k: nat)
    requires k < |digest|
    ensures HashHex(digest)[2 * k] == UpperDigit(digest[k] as nat / 16)
    ensures HashHex(digest)[2 * k + 1] == UpperDigit(digest[k] as nat % 16)
  {
    JoinHexAt(digest, k);
    var pair := ByteToHex(digest[k]);
    assert pair[0] == LowerDigit(digest[k] as nat / 16);
    assert pair[1] == LowerDigit(digest[k] as nat % 16);
  }

  /** The rendering uses only the sixteen characters `0-9A-F`. */
  lemma HashHexIsUpperHex(digest: seq<byte>)
    ensures forall i :: 0 <= i < |HashHex(digest)| ==> IsUpperHexDigit(HashHex(digest)[i])
  {
    forall i | 0 <= i < |HashHex(digest)|
      ensures IsUpperHexDigit(HashHex(digest)[i])
    {
      HashHexDigitAt(digest, i);
    }
  }

  lemma HashHexDigitAt(digest: seq<byte>, i: nat)
    requires i < 2 * |digest|
    ensures IsUpperHexDigit(HashHex(digest)[i])
  {
    var k := i / 2;
    HashHexAt(digest, k);
    if i % 2 == 0 {
      assert i == 2 * k;
    } else {
      assert i == 2 * k + 1;
    }
  }

  lemma ToUpperCaseConcat(a: string, b: string)
    ensures ToUpperCase(a + b) == ToUpperCase(a) + ToUpperCase(b)
  {
  }

  /** Rendering a digest renders its first byte and then the rest. */
  lemma HashHexCons(digest: seq<byte>)
    requires digest != []
    ensures HashHex(digest) == ToUpperCase(ByteToHex(digest[0])) + HashHex(digest[1..])
  {
    ToUpperCaseConcat(ByteToHex(digest[0]), JoinHex(digest[1..]));
  }

  /** The value of an upper-case hex digit. */
  function DigitValue(c: char): (d: Option<nat>)
    ensures d.Some? <==> IsUpperHexDigit(c)
    ensures d.Some? ==> d.value < 16
  {
    if '0' <= c <= '9' then Some(c as int - '0' as int)
    else if 'A' <= c <= 'F' then Some(c as int - 'A' as int + 10)
    else None
  }

  lemma DigitValueOfUpperDigit(d: nat)
    requires d < 16
    ensures DigitValue(UpperDigit(d)) == Some(d)
  {
  }

  /** Reads pairs of upper-case hex digits back into bytes. */
  function ParseHex(s: string): (r: Option<seq<byte>>)
    ensures r.Some? ==> 2 * |r.value| == |s|
    decreases |s|
  {
    if s == [] then Some([])
    else if |s| == 1 then None
    else match (DigitValue(s[0]), DigitValue(s[1]), ParseHex(s[2..]))
      case (Some(hi), Some(lo), Some(rest)) => Some([(hi * 16 + lo) as byte] + rest)
      case _ => None
  }

  /** Decoding inverts the rendering, for digests of any length. */
  lemma {:induction false} ParseHashHex(digest: seq<byte>)
    ensures ParseHex(HashHex(digest)) == Some(digest)
    decreases |digest|
  {
    if digest != [] {
      var s := HashHex(digest);
      var b := digest[0];
      var hi, lo := b as nat / 16, b as nat % 16;
      HashHexCons(digest);
      HashHexAt(digest, 0);
      var head := ToUpperCase(ByteToHex(b));
      assert |head| == 2;
      assert s[2..] == HashHex(digest[1..]);
      DigitValueOfUpperDigit(hi);
      DigitValueOfUpperDigit(lo);
      ParseHashHex(digest[1..]);
      ParseHexCons(s, hi, lo, digest[1..]);
      assert (hi * 16 + lo) as byte == b;
      assert [b] + digest[1..] == digest;
    }
  }

  /** One step of decoding: two good digits followed by a decodable rest. */
  lemma ParseHexCons(s: string, hi: nat, lo: nat, rest: seq<byte>)
    requires |s| >= 2 && hi < 16 && lo < 16
    requires DigitValue(s[0]) == Some(hi) && DigitValue(s[1]) == Some(lo)
    requires ParseHex(s[2..]) == Some(rest)
    ensures ParseHex(s) == Some([(hi * 16 + lo) as byte] + rest)
  {
  }

  /** Different digests render differently. */
  lemma HashHexInjective(d1: seq<byte>, d2: seq<byte>)
    requires HashHex(d1) == HashHex(d2)
    ensures d1 == d2
  {
    ParseHashHex(d1);
    ParseHashHex(d2);
  }

  /** `hashHex.substring(0, 5)` and `hashHex.substring(5)`, clamped as in JavaScript. */
  function SplitRange(hex: string): (r: (string, string))
    ensures r.0 + r.1 == hex
    ensures |hex| >= 5 ==> |r.0| == 5
  {
    var cut := if |hex| < 5 then |hex| else 5;
    (hex[..cut], hex[cut..])
  }

  /** For a SHA-1 digest the prefix is 5 digits and the suffix the other 35. */
  lemma DigestSplitSizes(digest: seq<byte>)
    requires |digest| == DigestLength
    ensures |SplitRange(HashHex(digest)).0| == 5
    ensures |SplitRange(HashHex(digest)).1| == 35
  {
  }
}
