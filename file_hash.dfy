/**
 * The text form of a file fingerprint (FileSystemUtils.GetFileHash). The digest itself
 * (SHA-256, FIPS 180-4) is an opaque function supplied to the filesystem model; here is
 * only how its bytes are rendered: `BitConverter.ToString(hash).Replace("-", "").ToLower()`.
 */
module FileHash {
  import opened Text
  import opened Wrappers

  type byte = x: int | 0 <= x < 256
  type Bytes = seq<byte>

  /** A SHA-256 digest is 32 bytes long. */
  const DigestSize := 32
  type Digest = s: Bytes | |s| == DigestSize witness seq(DigestSize, _ => 0)

  function UpperDigit(n: int): char
    requires 0 <= n < 16
  {
    if n < 10 then ('0' as int + n) as char else ('A' as int + n - 10) as char
  }

  function LowerDigit(n: int): char
    requires 0 <= n < 16
  {
    if n < 10 then ('0' as int + n) as char else ('a' as int + n - 10) as char
  }

  predicate IsLowerHexDigit(c: char) {
    '0' <= c <= '9' || 'a' <= c <= 'f'
  }

  lemma LowerDigitIsHex(n: int)
    requires 0 <= n < 16
    ensures IsLowerHexDigit(LowerDigit(n)) && DigitValue(LowerDigit(n)) == n
  {
  }

  function DigitValue(c: char): (n: int)
    requires IsLowerHexDigit(c)
    ensures 0 <= n < 16 && LowerDigit(n) == c
  {
    if c <= '9' then c as int - '0' as int else c as int - 'a' as int + 10
  }

  /** The two upper-case digits `BitConverter` writes for one byte. */
  function UpperPair(b: byte): string {
    [UpperDigit(b / 16), UpperDigit(b % 16)]
  }

  /** `BitConverter.ToString(bytes)`: upper-case digit pairs separated by dashes, as in "0A-FF-3C". */
  function BitConverterToString(bytes: Bytes): (r: string)
    ensures |bytes| == 0 ==> r == ""
    ensures |bytes| > 0 ==> |r| == 3 * |bytes| - 1
  {
    if |bytes| == 0 then ""
    else if |bytes| == 1 then UpperPair(bytes[0])
    else UpperPair(bytes[0]) + "-" + BitConverterToString(bytes[1..])
  }

  /** Behind a three-character head, the characters of `rest` sit three places further on. */
  lemma ShiftPast(head: string, rest: string, j: int)
    requires |head| == 3 && 0 <= j && j + 2 <= |rest|
    ensures (head + rest)[j + 3..j + 5] == rest[j..j + 2]
    ensures j + 2 < |rest| ==> (head + rest)[j + 5] == rest[j + 2]
  {
    var a, b := (head + rest)[j + 3..j + 5], rest[j..j + 2];
    assert |a| == 2 == |b| && a[0] == b[0] && a[1] == b[1];
  }

  /**
   * Where `BitConverter.ToString` puts each byte: its two upper-case digits at 3i and 3i + 1,
   * and a dash at 3i + 2 unless it is the last byte.
   */
  lemma {:induction false} BitConverterLayout(bytes: Bytes, i: int)
    requires 0 <= i < |bytes|
    ensures BitConverterToString(bytes)[3 * i..3 * i + 2] == UpperPair(bytes[i])
    ensures i < |bytes| - 1 ==> BitConverterToString(bytes)[3 * i + 2] == '-'
  {
    if |bytes| > 1 {
      var head, rest := UpperPair(bytes[0]) + "-", BitConverterToString(bytes[1..]);
      assert BitConverterToString(bytes) == head + rest && |head| == 3;
      if i > 0 {
        BitConverterLayout(bytes[1..], i - 1);
        ShiftPast(head, rest, 3 * (i - 1));
      }
    }
  }

  /** `s.Replace("-", "")`. */
  function RemoveDashes(s: string): (r: string)
    ensures '-' !in r
  {
    if s == [] then [] else (if s[0] == '-' then [] else [s[0]]) + RemoveDashes(s[1..])
  }

  /**
   * The string `GetFileHash` returns for a digest: two lower-case hexadecimal digits per byte,
   * which read back to the digest.
   */
  function Render(digest: Bytes): (r: string)
    ensures r == LowerHex(digest)
    ensures ParseLowerHex(r) == Some(digest)
  {
    RenderIsLowerHex(digest);
    LowerHexRoundTrip(digest);
    ToLower(RemoveDashes(BitConverterToString(digest)))
  }

  /** Reference rendering: two lower-case hexadecimal digits per byte, high nibble first. */
  function LowerHex(bytes: Bytes): string {
    if bytes == [] then [] else [LowerDigit(bytes[0] / 16), LowerDigit(bytes[0] % 16)] + LowerHex(bytes[1..])
  }

  /** Reads back a reference rendering; `None` for odd length or a character outside [0-9a-f]. */
  function ParseLowerHex(s: string): Option<Bytes> {
    if s == [] then Some([])
    else if |s| == 1 || !IsLowerHexDigit(s[0]) || !IsLowerHexDigit(s[1]) then None
    else match ParseLowerHex(s[2..])
      case None => None
      case Some(rest) => Some([DigitValue(s[0]) * 16 + DigitValue(s[1])] + rest)
  }

  /** A string without a dash is left as it is. */
  lemma {:induction false} RemoveDashesKeeps(s: string)
    requires '-' !in s
    ensures RemoveDashes(s) == s
  {
    if s != [] {
      assert '-' !in s[1..] by {
        forall k | 0 <= k < |s[1..]| ensures s[1..][k] != '-' {
          assert s[1..][k] == s[k + 1];
        }
      }
      RemoveDashesKeeps(s[1..]);
      assert [s[0]] + s[1..] == s;
    }
  }

  lemma {:induction false} RemoveDashesAppend(a: string, b: string)
    ensures RemoveDashes(a + b) == RemoveDashes(a) + RemoveDashes(b)
  {
    if a == [] {
      assert a + b == b;
    } else {
      var h := if a[0] == '-' then [] else [a[0]];
      assert (a + b)[0] == a[0] && (a + b)[1..] == a[1..] + b;
      assert RemoveDashes(a + b) == h + RemoveDashes(a[1..] + b);
      RemoveDashesAppend(a[1..], b);
      assert RemoveDashes(a) == h + RemoveDashes(a[1..]);
    }
  }

  lemma UpperPairLowered(b: byte)
    ensures RemoveDashes(UpperPair(b)) == UpperPair(b)
    ensures ToLower(UpperPair(b)) == [LowerDigit(b / 16), LowerDigit(b % 16)]
  {
    var p := UpperPair(b);
    assert p[1..][1..] == [];
    assert RemoveDashes(p[1..]) == [p[1]];
  }

  /** The dash-stripping, lower-casing pipeline of `GetFileHash` yields the reference rendering. */
  lemma {:induction false} RenderIsLowerHex(bytes: Bytes)
    ensures ToLower(RemoveDashes(BitConverterToString(bytes))) == LowerHex(bytes)
  {
    if |bytes| == 1 {
      UpperPairLowered(bytes[0]);
      assert LowerHex(bytes[1..]) == [];
    } else if |bytes| > 1 {
      var head, tail := UpperPair(bytes[0]), BitConverterToString(bytes[1..]);
      RemoveDashesAppend(head + "-", tail);
      RemoveDashesAppend(head, "-");
      UpperPairLowered(bytes[0]);
      assert RemoveDashes("-") == [];
      ToLowerAppend(head, RemoveDashes(tail));
      RenderIsLowerHex(bytes[1..]);
    }
  }

  /** Two characters per byte, every one of them in [0-9a-f]. */
  lemma {:induction false} LowerHexShape(bytes: Bytes)
    ensures |LowerHex(bytes)| == 2 * |bytes|
    ensures forall i :: 0 <= i < |LowerHex(bytes)| ==> IsLowerHexDigit(LowerHex(bytes)[i])
  {
    if bytes != [] {
      LowerHexShape(bytes[1..]);
    }
  }

  lemma {:induction false} LowerHexRoundTrip(bytes: Bytes)
    ensures ParseLowerHex(LowerHex(bytes)) == Some(bytes)
  {
    if bytes != [] {
      var s := LowerHex(bytes);
      assert s[2..] == LowerHex(bytes[1..]);
      LowerHexRoundTrip(bytes[1..]);
      LowerDigitIsHex(bytes[0] / 16);
      LowerDigitIsHex(bytes[0] % 16);
      assert [bytes[0]] + bytes[1..] == bytes;
    }
  }

  /** Rendering is injective: hash strings agree exactly when the digests agree. */
  lemma RenderInjective(a: Bytes, b: Bytes)
    ensures Render(a) == Render(b) <==> a == b
  {
  }

  /** A rendered SHA-256 digest is 64 lower-case hexadecimal characters. */
  lemma RenderedDigestShape(d: Digest)
    ensures |Render(d)| == 2 * DigestSize
    ensures forall i :: 0 <= i < |Render(d)| ==> IsLowerHexDigit(Render(d)[i])
  {
    LowerHexShape(d);
  }
}
