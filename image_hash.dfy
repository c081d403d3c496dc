/**
 * The image-hash helper of QuickHelper: the MD5 digest of an encoded bitmap,
 * formatted as a lower-case hexadecimal string (two characters per byte, the
 * .NET "x2" format). MD5 itself (RFC 1321) is foreign to this model: it is
 * passed in as an uninterpreted function from bytes to a 16-byte digest.
 */
module ImageHash {

  newtype byte = x: int | 0 <= x < 256

  /** An MD5 digest: 16 bytes (section 3.5 of RFC 1321). */
  type Digest = d: seq<byte> | |d| == 16 witness seq(16, _ => 0 as byte)

  predicate IsLowerHexDigit(c: char) {
    '0' <= c <= '9' || 'a' <= c <= 'f'
  }

  /** The lower-case hexadecimal digit of a nibble. */
  function HexDigit(n: int): (c: char)
    requires 0 <= n < 16
    ensures IsLowerHexDigit(c)
    ensures n < 10 ==> c as int == '0' as int + n
    ensures 10 <= n ==> c as int == 'a' as int + (n - 10)
  {
    if n < 10 then ('0' as int + n) as char else ('a' as int + n - 10) as char
  }

  /** The value of a lower-case hexadecimal digit (0 for any other character). */
  function DigitValue(c: char): (n: int)
    ensures 0 <= n < 16
  {
    if '0' <= c <= '9' then c as int - '0' as int
    else if 'a' <= c <= 'f' then c as int - 'a' as int + 10
    else 0
  }

  lemma DigitValueOfHexDigit(n: int)
    requires 0 <= n < 16
    ensures DigitValue(HexDigit(n)) == n
  {
  }

  /** `b.ToString("x2")`: the high nibble's digit, then the low nibble's. */
  function ByteHex(b: byte): (s: string)
    ensures |s| == 2 && IsLowerHexDigit(s[0]) && IsLowerHexDigit(s[1])
    ensures 16 * DigitValue(s[0]) + DigitValue(s[1]) == b as int
  {
    DigitValueOfHexDigit((b / 16) as int);
    DigitValueOfHexDigit((b % 16) as int);
    [HexDigit((b / 16) as int), HexDigit((b % 16) as int)]
  }

  /** The string the StringBuilder holds after appending every byte of `d` in order. */
  function Hex(d: seq<byte>): (s: string)
    ensures |s| == 2 * |d|
  {
    if d == [] then "" else Hex(d[..|d| - 1]) + ByteHex(d[|d| - 1])
  }

  /** Byte `k` of the digest is rendered at positions 2k and 2k+1, high nibble first. */
  lemma {:induction false} HexAt(d: seq<byte>, k: int)
    requires 0 <= k < |d|
    ensures Hex(d)[2 * k] == HexDigit((d[k] / 16) as int)
    ensures Hex(d)[2 * k + 1] == HexDigit((d[k] % 16) as int)
  {
    var p := d[..|d| - 1];
    assert Hex(d) == Hex(p) + ByteHex(d[|d| - 1]);
    if k < |d| - 1 {
      HexAt(p, k);
      assert p[k] == d[k];
    }
  }

  /** Every character of the encoding is a lower-case hexadecimal digit. */
  lemma HexIsLowerHex(d: seq<byte>)
    ensures forall i :: 0 <= i < |Hex(d)| ==> IsLowerHexDigit(Hex(d)[i])
  {
    forall i | 0 <= i < |Hex(d)|
      ensures IsLowerHexDigit(Hex(d)[i])
    {
      HexAt(d, i / 2);
    }
  }

  /** Decodes pairs of hexadecimal digits back to bytes; the inverse of Hex. */
  function Unhex(s: string): (d: seq<byte>)
    ensures |d| == |s| / 2
  {
    if |s| < 2 then []
    else Unhex(s[..|s| - 2]) + [(16 * DigitValue(s[|s| - 2]) + DigitValue(s[|s| - 1])) as byte]
  }

  lemma {:induction false} HexRoundTrip(d: seq<byte>)
    ensures Unhex(Hex(d)) == d
  {
    if d != [] {
      var p, b := d[..|d| - 1], d[|d| - 1];
      var s := Hex(d);
      assert s == Hex(p) + ByteHex(b);
      assert s[..|s| - 2] == Hex(p);
      HexRoundTrip(p);
      DigitValueOfHexDigit((b / 16) as int);
      DigitValueOfHexDigit((b % 16) as int);
      assert d == p + [b];
    }
  }

  /** Distinct digests give distinct strings: comparing hash strings is comparing digests. */
  lemma HexInjective(a: seq<byte>, b: seq<byte>)
    ensures Hex(a) == Hex(b) <==> a == b
  {
    HexRoundTrip(a);
    HexRoundTrip(b);
  }

  /**
   * `ImageHash.GetMD5Hash`: hashes `buffer` and appends the two-digit rendering of
   * every digest byte in order.
   */
  method GetMD5Hash(md5: seq<byte> -> Digest, buffer: seq<byte>) returns (hash: string)
    ensures hash == Hex(md5(buffer))
    ensures |hash| == 32
  {
    var data := md5(buffer);
    hash := "";
    for i := 0 to |data|
      invariant hash == Hex(data[..i])
    {
      assert data[..i + 1][..i] == data[..i];
      hash := hash + ByteHex(data[i]);
    }
    assert data[..|data|] == data;
  }
}
