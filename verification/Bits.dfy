/** Big-endian bit strings, bytes and unsigned integers. */
module Bits {
  import opened Prelude

  const TWO_TO_32: nat := 0x1_0000_0000
  const TWO_TO_64: nat := 0x1_0000000000000000
  const TWO_TO_256: nat := 0x1_0000000000000000_0000000000000000_0000000000000000_0000000000000000

  type Byte = b: int | 0 <= b < 256
  type Uint32 = n: nat | n < TWO_TO_32
  type Uint64 = n: nat | n < TWO_TO_64
  type Uint256 = n: nat | n < TWO_TO_256

  function ToBits(n: nat, width: nat): (bits: seq<bool>)
    ensures |bits| == width
    decreases width, n
  {
    if width == 0 then [] else ToBits(n / 2, width - 1) + [n % 2 == 1]
  }

  function FromBits(bits: seq<bool>): nat {
    if bits == [] then 0
    else 2 * FromBits(bits[..|bits| - 1]) + if bits[|bits| - 1] then 1 else 0
  }

  /** A number is read back from enough bits. */
  lemma {:induction false} FromToBits(n: nat, width: nat)
    requires n < Pow2(width)
    ensures FromBits(ToBits(n, width)) == n
    decreases width
  {
    if width == 0 {
    } else {
      FromToBits(n / 2, width - 1);
      var bits := ToBits(n, width);
      assert bits[..width - 1] == ToBits(n / 2, width - 1);
    }
  }

  /** Bits are written as they were read. */
  lemma {:induction false} ToFromBits(bits: seq<bool>)
    ensures ToBits(FromBits(bits), |bits|) == bits
  {
    if bits == [] {
    } else {
      var n := |bits| - 1;
      ToFromBits(bits[..n]);
      assert FromBits(bits) / 2 == FromBits(bits[..n]);
      assert bits == bits[..n] + [bits[n]];
    }
  }

  /** Bits in front weigh more. */
  lemma {:induction false} FromBitsConcat(a: seq<bool>, b: seq<bool>)
    ensures FromBits(a + b) == FromBits(a) * Pow2(|b|) + FromBits(b)
    decreases |b|
  {
    if b == [] {
      assert a + b == a;
    } else {
      var rest, last := b[..|b| - 1], b[|b| - 1];
      assert (a + b)[..|a + b| - 1] == a + rest && (a + b)[|a + b| - 1] == last;
      FromBitsConcat(a, rest);
      assert Pow2(|b|) == 2 * Pow2(|rest|);
      DoubleProduct(FromBits(a), Pow2(|rest|), Pow2(|b|));
    }
  }

  lemma {:induction false} DoubleProduct(x: nat, p: nat, q: nat)
    requires q == 2 * p
    ensures x * q == 2 * (x * p)
  {
  }

  lemma {:induction false} FromBitsBound(bits: seq<bool>)
    ensures FromBits(bits) < Pow2(|bits|)
  {
    if bits == [] {
    } else {
      FromBitsBound(bits[..|bits| - 1]);
    }
  }

  lemma {:induction false} ByteRange()
    ensures Pow2(8) == 256
  {
    assert Pow2(4) == 16;
    assert Pow2(8) == 2 * Pow2(7);
    assert Pow2(7) == 2 * Pow2(6);
    assert Pow2(6) == 2 * Pow2(5);
    assert Pow2(5) == 2 * Pow2(4);
  }

  lemma {:induction false} Pow2Doubles(j: nat)
    ensures Pow2(2 * j) == Pow2(j) * Pow2(j)
  {
    Pow2Adds(j, j);
  }

  lemma {:induction false} Pow2Adds(j: nat, k: nat)
    ensures Pow2(j + k) == Pow2(j) * Pow2(k)
    decreases j
  {
    if j == 0 {
    } else {
      Pow2Adds(j - 1, k);
      calc {
        Pow2(j + k);
        2 * Pow2(j - 1 + k);
        2 * (Pow2(j - 1) * Pow2(k));
        (2 * Pow2(j - 1)) * Pow2(k);
      }
    }
  }

  lemma {:induction false} Width32()
    ensures Pow2(32) == TWO_TO_32 && Pow2(16) == 0x1_0000
  {
    ByteRange();
    Pow2Doubles(8);
    assert Pow2(16) == 0x1_0000;
    Pow2Doubles(16);
  }

  lemma {:induction false} Width64()
    ensures Pow2(64) == TWO_TO_64
  {
    Width32();
    Pow2Doubles(32);
  }

  lemma {:induction false} Width256()
    ensures Pow2(256) == TWO_TO_256
  {
    Width64();
    Pow2Doubles(64);
    Pow2Doubles(128);
  }

  function BytesToBits(bytes: seq<Byte>): (bits: seq<bool>)
    ensures |bits| == 8 * |bytes|
  {
    if bytes == [] then [] else ToBits(bytes[0], 8) + BytesToBits(bytes[1..])
  }

  function ByteOf(bits: seq<bool>): (b: Byte)
    requires |bits| == 8
  {
    FromBitsBound(bits);
    ByteRange();
    FromBits(bits)
  }

  /** Whole bytes; an incomplete last byte is padded with zero bits. */
  function BitsToBytes(bits: seq<bool>): seq<Byte> {
    if bits == [] then []
    else if |bits| < 8 then [ByteOf(bits + seq(8 - |bits|, _ => false))]
    else [ByteOf(bits[..8])] + BitsToBytes(bits[8..])
  }

  /** The bytes hold the bits, padded with zero bits up to a whole number of bytes. */
  lemma {:induction false} BytesHoldBits(bits: seq<bool>)
    ensures |BitsToBytes(bits)| == (|bits| + 7) / 8
    ensures BytesToBits(BitsToBytes(bits)) == bits + seq(8 * ((|bits| + 7) / 8) - |bits|, _ => false)
    decreases |bits|
  {
    if bits == [] {
    } else if |bits| < 8 {
      var padded := bits + seq(8 - |bits|, _ => false);
      ToFromBits(padded);
      assert BytesToBits([ByteOf(padded)]) == ToBits(ByteOf(padded), 8) + BytesToBits([]);
    } else {
      BytesHoldBits(bits[8..]);
      ToFromBits(bits[..8]);
      var rest := BitsToBytes(bits[8..]);
      assert ([ByteOf(bits[..8])] + rest)[1..] == rest;
      assert bits == bits[..8] + bits[8..];
    }
  }

  /** Bytes are read back from their bits. */
  lemma {:induction false} BytesRoundTrip(bytes: seq<Byte>)
    ensures BitsToBytes(BytesToBits(bytes)) == bytes
  {
    if bytes == [] {
    } else {
      BytesRoundTrip(bytes[1..]);
      ByteRange();
      FromToBits(bytes[0], 8);
      var bits := BytesToBits(bytes);
      assert bits[..8] == ToBits(bytes[0], 8) && bits[8..] == BytesToBits(bytes[1..]);
    }
  }

  /** The value of bytes read as one unsigned integer, most significant byte first. */
  function BigEndian(bytes: seq<Byte>): nat {
    FromBits(BytesToBits(bytes))
  }

  lemma {:induction false} BigEndianStep(bytes: seq<Byte>)
    requires bytes != []
    ensures BigEndian(bytes) == bytes[0] * Pow2(8 * (|bytes| - 1)) + BigEndian(bytes[1..])
  {
    ByteRange();
    FromToBits(bytes[0], 8);
    FromBitsConcat(ToBits(bytes[0], 8), BytesToBits(bytes[1..]));
  }
}
