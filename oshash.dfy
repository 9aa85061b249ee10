/**
 * The OpenSubtitles content hash (subgetter.py `MovieFile.__hash`), reduced to
 * its arithmetic over the bytes of the file: the file size plus the first and
 * the last 64 KiB read as little-endian signed 64-bit words, summed modulo
 * 2^64 and printed as 16 lower-case hexadecimal digits.
 */
module OsHash {

  /** One byte of the file, as Python's `bytes` gives it. */
  newtype Byte = b: int | 0 <= b < 256

  /** Bytes hashed at each end of the file. */
  const BlockSize: nat := 65536
  /** `struct.calcsize('q')`: the bytes of one word. */
  const WordBytes: nat := 8
  /** Words read from each end: `65536 // bytesize`. */
  const WordCount: nat := BlockSize / WordBytes
  /** Files smaller than this get the "SizeError" result. */
  const MinSize: nat := 2 * BlockSize
  /** 2^64; `x & 0xFFFFFFFFFFFFFFFF` is `x % Modulus` for every integer x. */
  const Modulus: nat := 0x1_0000_0000_0000_0000
  const SignBit: nat := 0x8000_0000_0000_0000

  const SizeError: string := "SizeError"

  /** The eight bytes at offset `i`, least significant first, as an unsigned number. */
  function UnsignedWord(s: seq<Byte>, i: nat): (w: nat)
    requires i + WordBytes <= |s|
    ensures w < Modulus
  {
    s[i] as int
    + 0x100 * s[i + 1] as int
    + 0x1_0000 * s[i + 2] as int
    + 0x100_0000 * s[i + 3] as int
    + 0x1_0000_0000 * s[i + 4] as int
    + 0x100_0000_0000 * s[i + 5] as int
    + 0x1_0000_0000_0000 * s[i + 6] as int
    + 0x100_0000_0000_0000 * s[i + 7] as int
  }

  /** `struct.unpack('q', buffer)` for little-endian bytes: the two's-complement reading. */
  function SignedWord(s: seq<Byte>, i: nat): (w: int)
    requires i + WordBytes <= |s|
    ensures -(SignBit as int) <= w < SignBit
    ensures w == UnsignedWord(s, i) || w == UnsignedWord(s, i) - Modulus
  {
    var u := UnsignedWord(s, i);
    if u >= SignBit then u - Modulus else u
  }

  /** The sum of the `n` signed words that start at byte `start`. */
  function SumWords(s: seq<Byte>, start: nat, n: nat): int
    requires start + WordBytes * n <= |s|
  {
    if n == 0 then 0 else SumWords(s, start, n - 1) + SignedWord(s, start + WordBytes * (n - 1))
  }

  /** The same sum over the unsigned readings of the words. */
  function SumUnsignedWords(s: seq<Byte>, start: nat, n: nat): int
    requires start + WordBytes * n <= |s|
  {
    if n == 0 then 0 else SumUnsignedWords(s, start, n - 1) + UnsignedWord(s, start + WordBytes * (n - 1))
  }

  /** The hash value of a file at least `MinSize` bytes long. */
  function HashValue(s: seq<Byte>): nat
    requires |s| >= MinSize
  {
    (|s| + SumWords(s, 0, WordCount) + SumWords(s, |s| - BlockSize, WordCount)) % Modulus
  }

  const HexChars: string := "0123456789abcdef"

  predicate IsLowerHex(c: char) { '0' <= c <= '9' || 'a' <= c <= 'f' }

  function Pow16(n: nat): (p: nat)
    ensures p >= 1
  {
    if n == 0 then 1 else 16 * Pow16(n - 1)
  }

  /** The lowest `n` hexadecimal digits of `h`, most significant first, zeros in front. */
  function HexDigits(h: nat, n: nat): (r: string)
    ensures |r| == n
    ensures forall i :: 0 <= i < n ==> IsLowerHex(r[i])
  {
    if n == 0 then "" else HexDigits(h / 16, n - 1) + [HexChars[h % 16]]
  }

  /** `"%016x" % h` for a 64-bit value. */
  function Hex16(h: nat): string
    requires h < Modulus
  {
    HexDigits(h, 16)
  }

  function HexValue(c: char): nat
    requires IsLowerHex(c)
  {
    if c <= '9' then c as int - '0' as int else c as int - 'a' as int + 10
  }

  /** Reads a string of lower-case hexadecimal digits. */
  function ParseHex(r: string): nat
    requires forall i :: 0 <= i < |r| ==> IsLowerHex(r[i])
  {
    if |r| == 0 then 0 else ParseHex(r[..|r| - 1]) * 16 + HexValue(r[|r| - 1])
  }

  /** `n` hexadecimal digits represent every value below 16^n without loss. */
  lemma {:induction false} ParseHexDigits(h: nat, n: nat)
    requires h < Pow16(n)
    ensures ParseHex(HexDigits(h, n)) == h
  {
    if n > 0 {
      assert h / 16 < Pow16(n - 1);
      ParseHexDigits(h / 16, n - 1);
      var r := HexDigits(h, n);
      assert r[..n - 1] == HexDigits(h / 16, n - 1);
      assert HexValue(HexChars[h % 16]) == h % 16;
    }
  }

  /** A successful hash is exactly 16 lower-case hex digits that read back as the value. */
  lemma Hex16RoundTrip(h: nat)
    requires h < Modulus
    ensures |Hex16(h)| == 16
    ensures forall i :: 0 <= i < 16 ==> IsLowerHex(Hex16(h)[i])
    ensures ParseHex(Hex16(h)) == h
  {
    assert Pow16(2) == 0x100;
    assert Pow16(4) == 0x1_0000;
    assert Pow16(6) == 0x100_0000;
    assert Pow16(8) == 0x1_0000_0000;
    assert Pow16(10) == 0x100_0000_0000;
    assert Pow16(12) == 0x1_0000_0000_0000;
    assert Pow16(14) == 0x100_0000_0000_0000;
    assert Pow16(16) == Modulus;
    ParseHexDigits(h, 16);
  }

  /** A value below 16^k keeps the zero padding: all but its last k digits are '0'. */
  lemma {:induction false} HexDigitsZeroPadded(h: nat, n: nat, k: nat)
    requires k <= n && h < Pow16(k)
    ensures forall i :: 0 <= i < n - k ==> HexDigits(h, n)[i] == '0'
  {
    if n > 0 {
      var r := HexDigits(h, n);
      assert r[..n - 1] == HexDigits(h / 16, n - 1);
      if k == 0 {
        assert h == 0;
        HexDigitsZeroPadded(0, n - 1, 0);
        assert r[n - 1] == HexChars[0];
      } else {
        assert h / 16 < Pow16(k - 1);
        HexDigitsZeroPadded(h / 16, n - 1, k - 1);
      }
      forall i | 0 <= i < n - k
        ensures r[i] == '0'
      {
        if i < n - 1 {
          assert r[i] == r[..n - 1][i];
        }
      }
    }
  }

  /** `(a % Modulus + b) % Modulus == (a + b) % Modulus`: masking early changes nothing. */
  lemma ModAddLeft(a: int, b: int)
    ensures (a % Modulus + b) % Modulus == (a + b) % Modulus
  {
    var q := a / Modulus;
    assert a == q * Modulus + a % Modulus;
    ModShift(a % Modulus + b, q);
  }

  /** One masked step of the accumulator keeps it in range and congruent to the running sum. */
  lemma MaskStep(hash: int, sum: int, value: int)
    requires hash == sum || hash == sum % Modulus
    ensures 0 <= (hash + value) % Modulus < Modulus
    ensures (hash + value) % Modulus == (sum + value) % Modulus
  {
    ModAddLeft(sum, value);
  }

  lemma ModShift(x: int, k: int)
    ensures (x + k * Modulus) % Modulus == x % Modulus
  {
    var q, r := x / Modulus, x % Modulus;
    assert x == q * Modulus + r && 0 <= r < Modulus;
    assert x + k * Modulus == (q + k) * Modulus + r;
  }

  /**
   * One of the two hashing loops of `MovieFile.__hash`: reads the 8192 words
   * starting at byte `start` and adds each to the accumulator, masking to
   * 64 bits after every addition. The result is the masked sum.
   */
  method AddWords(content: seq<Byte>, start: nat, hash0: int) returns (hash: int)
    requires start + BlockSize <= |content|
    ensures 0 <= hash < Modulus
    ensures hash == (hash0 + SumWords(content, start, WordCount)) % Modulus
  {
    hash := hash0;
    var x := 0;
    while x < WordCount
      invariant 0 <= x <= WordCount
      invariant hash == if x == 0 then hash0 else (hash0 + SumWords(content, start, x)) % Modulus
    {
      var value := SignedWord(content, start + WordBytes * x);
      MaskStep(hash, hash0 + SumWords(content, start, x), value);
      hash := hash + value;
      hash := hash % Modulus;
      x := x + 1;
    }
  }

  /**
   * `MovieFile.__hash` over the given file content (its size is the length of
   * the content): "SizeError" below 128 KiB, otherwise the 64-bit sum of the
   * size and the 8192 words at each end, in hexadecimal.
   */
  method ComputeHash(content: seq<Byte>) returns (r: string)
    ensures r == SizeError <==> |content| < MinSize
    ensures |content| >= MinSize ==> r == Hex16(HashValue(content))
    ensures |content| >= MinSize ==> |r| == 16 && forall i :: 0 <= i < 16 ==> IsLowerHex(r[i])
  {
    var filesize := |content|;
    var hash: int := filesize;

    if filesize < 65536 * 2 {
      return SizeError;
    }

    hash := AddWords(content, 0, hash);
    var offset := if filesize - BlockSize > 0 then filesize - BlockSize else 0;
    hash := AddWords(content, offset, hash);
    assert offset == filesize - BlockSize;
    ModAddLeft(filesize + SumWords(content, 0, WordCount), SumWords(content, offset, WordCount));
    assert hash == HashValue(content);
    r := Hex16(hash);
    Hex16NotSizeError(hash);
    Hex16RoundTrip(hash);
  }

  /** No hexadecimal rendering is mistaken for the "SizeError" marker. */
  lemma Hex16NotSizeError(h: nat)
    requires h < Modulus
    ensures Hex16(h) != SizeError
  {
    assert IsLowerHex(Hex16(h)[0]) && !IsLowerHex(SizeError[0]);
  }

  /** Summing the signed words agrees, modulo 2^64, with summing their unsigned readings. */
  lemma {:induction false} SignedSumCongruent(s: seq<Byte>, start: nat, n: nat)
    requires start + WordBytes * n <= |s|
    ensures SumWords(s, start, n) % Modulus == SumUnsignedWords(s, start, n) % Modulus
  {
    if n > 0 {
      SignedSumCongruent(s, start, n - 1);
      var i := start + WordBytes * (n - 1);
      var a, a' := SumWords(s, start, n - 1), SumUnsignedWords(s, start, n - 1);
      var w, w' := SignedWord(s, i), UnsignedWord(s, i);
      ModAddLeft(a, w);
      ModAddLeft(a', w);
      if w != w' {
        ModShift(a' + w, 1);
      }
    }
  }

  /**
   * The reference definition of the hash uses unsigned 64-bit words; reading
   * them as signed, as `struct` format 'q' does, gives the same value.
   */
  lemma HashValueUnsigned(s: seq<Byte>)
    requires |s| >= MinSize
    ensures HashValue(s) ==
      (|s| + SumUnsignedWords(s, 0, WordCount) + SumUnsignedWords(s, |s| - BlockSize, WordCount)) % Modulus
  {
    var a, a' := SumWords(s, 0, WordCount), SumUnsignedWords(s, 0, WordCount);
    var b, b' := SumWords(s, |s| - BlockSize, WordCount), SumUnsignedWords(s, |s| - BlockSize, WordCount);
    SignedSumCongruent(s, 0, WordCount);
    SignedSumCongruent(s, |s| - BlockSize, WordCount);
    ModAddLeft(a, |s| + b);
    ModAddLeft(a', |s| + b);
    ModAddLeft(b, |s| + a');
    ModAddLeft(b', |s| + a');
  }
}
