/**
 * The specification the windowed rotator is measured against: the whole file
 * read as one bit string, most significant bit of byte 0 first, rotated
 * circularly by one bit.
 */
module GlobalRotation {
  import opened ByteRotate

  /** The direction token selected on the command line. */
  datatype Direction = Left | Right

  /** The file as a bit string: byte-major, most significant bit first. */
  function Bits(s: seq<Byte>): (r: seq<bool>)
    ensures |r| == 8 * |s|
  {
    seq(8 * |s|, p requires 0 <= p < 8 * |s| => Bit(s[p / 8], p % 8))
  }

  /** Index of the byte after `j` in a circular file of `n` bytes: `(j + 1) mod n`. */
  function Succ(j: nat, n: nat): (r: nat)
    requires j < n
    ensures r < n
  {
    if j + 1 < n then j + 1 else 0
  }

  /** Index of the byte before `j` in a circular file of `n` bytes: `(j - 1 + n) mod n`. */
  function Pred(j: nat, n: nat): (r: nat)
    requires j < n
    ensures r < n
  {
    if j > 0 then j - 1 else n - 1
  }

  /** Byte `j` of a left-rotated file combines input bytes `j` and `(j + 1) mod N`. */
  function RotateLeftAll(s: seq<Byte>): (r: seq<Byte>)
    ensures |r| == |s|
  {
    seq(|s|, j requires 0 <= j < |s| => RotateLeftByte(s[j], s[Succ(j, |s|)]))
  }

  /** Byte `j` of a right-rotated file combines input bytes `j` and `(j - 1 + N) mod N`. */
  function RotateRightAll(s: seq<Byte>): (r: seq<Byte>)
    ensures |r| == |s|
  {
    seq(|s|, j requires 0 <= j < |s| => RotateRightByte(s[j], s[Pred(j, |s|)]))
  }

  function RotateAll(d: Direction, s: seq<Byte>): (r: seq<Byte>)
    ensures |r| == |s|
  {
    match d
    case Left => RotateLeftAll(s)
    case Right => RotateRightAll(s)
  }

  /** Bit `8 * j + k` of the bit string is bit `k` of byte `j`. */
  lemma BitsIndex(s: seq<Byte>, j: nat, k: nat)
    requires j < |s| && k < 8
    ensures Bits(s)[8 * j + k] == Bit(s[j], k)
  {
    var p := 8 * j + k;
    assert p / 8 == j && p % 8 == k;
  }

  /** Equal bits of two byte strings sit at the corresponding positions of their bit strings. */
  lemma BitTransfer(o: seq<Byte>, j: nat, k: nat, s: seq<Byte>, j': nat, k': nat)
    requires j < |o| && k < 8 && j' < |s| && k' < 8
    requires Bit(o[j], k) == Bit(s[j'], k')
    ensures Bits(o)[8 * j + k] == Bits(s)[8 * j' + k']
  {
    BitsIndex(o, j, k);
    BitsIndex(s, j', k');
  }

  /** The bits of byte `j` of a left rotation, in terms of input bytes `j` and `(j + 1) mod N`. */
  lemma LeftByteBits(s: seq<Byte>, j: nat)
    requires j < |s|
    ensures forall k | 0 <= k < 7 :: Bit(RotateLeftAll(s)[j], k) == Bit(s[j], k + 1)
    ensures Bit(RotateLeftAll(s)[j], 7) == Bit(s[Succ(j, |s|)], 0)
  {
  }

  /** The bits of byte `j` of a right rotation, in terms of input bytes `j` and `(j - 1 + N) mod N`. */
  lemma RightByteBits(s: seq<Byte>, j: nat)
    requires j < |s|
    ensures Bit(RotateRightAll(s)[j], 0) == Bit(s[Pred(j, |s|)], 7)
    ensures forall k | 1 <= k < 8 :: Bit(RotateRightAll(s)[j], k) == Bit(s[j], k - 1)
  {
  }

  /** Within a byte, a left-rotated bit comes from the next bit of the same input byte. */
  lemma LeftBitWithin(s: seq<Byte>, j: nat, k: nat)
    requires j < |s| && k < 7
    ensures Bits(RotateLeftAll(s))[8 * j + k] == Bits(s)[8 * j + k + 1]
  {
    LeftByteBits(s, j);
    BitTransfer(RotateLeftAll(s), j, k, s, j, k + 1);
  }

  /** The last bit of a left-rotated byte is the first bit of the circularly next input byte. */
  lemma LeftBitAcross(s: seq<Byte>, j: nat)
    requires j < |s|
    ensures Bits(RotateLeftAll(s))[8 * j + 7] == Bits(s)[8 * Succ(j, |s|)]
  {
    LeftByteBits(s, j);
    BitTransfer(RotateLeftAll(s), j, 7, s, Succ(j, |s|), 0);
  }

  /** Within a byte, a right-rotated bit comes from the previous bit of the same input byte. */
  lemma RightBitWithin(s: seq<Byte>, j: nat, k: nat)
    requires j < |s| && 0 < k < 8
    ensures Bits(RotateRightAll(s))[8 * j + k] == Bits(s)[8 * j + k - 1]
  {
    RightByteBits(s, j);
    BitTransfer(RotateRightAll(s), j, k, s, j, k - 1);
  }

  /** The first bit of a right-rotated byte is the last bit of the circularly previous input byte. */
  lemma RightBitAcross(s: seq<Byte>, j: nat)
    requires j < |s|
    ensures Bits(RotateRightAll(s))[8 * j] == Bits(s)[8 * Pred(j, |s|) + 7]
  {
    RightByteBits(s, j);
    BitTransfer(RotateRightAll(s), j, 0, s, Pred(j, |s|), 7);
  }

  /** A bit position splits into its byte and its bit within the byte. */
  lemma SplitPosition(p: nat) returns (j: nat, k: nat)
    ensures p == 8 * j + k && k < 8 && j == p / 8 && k == p % 8
  {
    j, k := p / 8, p % 8;
  }

  /** A left-rotated bit that is not the last of its byte is the next input bit. */
  lemma LeftBitInside(s: seq<Byte>, p: nat)
    requires p < 8 * |s| && p % 8 < 7
    ensures Bits(RotateLeftAll(s))[p] == Bits(s)[p + 1]
  {
    var j, k := SplitPosition(p);
    LeftBitWithin(s, j, k);
    assert 8 * j + k == p;
  }

  /** The last bit of a left-rotated byte comes from the first bit of the next byte, wrapping. */
  lemma LeftBitLast(s: seq<Byte>, p: nat)
    requires p < 8 * |s| && p % 8 == 7
    ensures Bits(RotateLeftAll(s))[p] == Bits(s)[Succ(p, 8 * |s|)]
  {
    var j, k := SplitPosition(p);
    LeftBitAcross(s, j);
    assert 8 * j + 7 == p;
    if j + 1 < |s| {
      assert Succ(j, |s|) == j + 1;
      assert Succ(p, 8 * |s|) == 8 * Succ(j, |s|);
    } else {
      assert Succ(j, |s|) == 0;
      assert Succ(p, 8 * |s|) == 0;
    }
  }

  /** Bit p of the left rotation is the circularly next bit of the input. */
  lemma LeftBitAt(s: seq<Byte>, p: nat)
    requires p < 8 * |s|
    ensures Bits(RotateLeftAll(s))[p] == Bits(s)[Succ(p, 8 * |s|)]
  {
    if p % 8 < 7 {
      LeftBitInside(s, p);
      assert Succ(p, 8 * |s|) == p + 1;
    } else {
      LeftBitLast(s, p);
    }
  }

  /** A right-rotated bit that is not the first of its byte is the previous input bit. */
  lemma RightBitInside(s: seq<Byte>, p: nat)
    requires p < 8 * |s| && p % 8 > 0
    ensures Bits(RotateRightAll(s))[p] == Bits(s)[p - 1]
  {
    var j, k := SplitPosition(p);
    RightBitWithin(s, j, k);
    assert 8 * j + k == p;
  }

  /** The first bit of a right-rotated byte comes from the last bit of the previous byte, wrapping. */
  lemma RightBitFirst(s: seq<Byte>, p: nat)
    requires p < 8 * |s| && p % 8 == 0
    ensures Bits(RotateRightAll(s))[p] == Bits(s)[Pred(p, 8 * |s|)]
  {
    var j, k := SplitPosition(p);
    RightBitAcross(s, j);
    assert 8 * j == p;
    if j > 0 {
      assert Pred(j, |s|) == j - 1;
      assert Pred(p, 8 * |s|) == 8 * Pred(j, |s|) + 7;
    } else {
      assert Pred(j, |s|) == |s| - 1;
      assert Pred(p, 8 * |s|) == 8 * Pred(j, |s|) + 7;
    }
  }

  /** Bit p of the right rotation is the circularly previous bit of the input. */
  lemma RightBitAt(s: seq<Byte>, p: nat)
    requires p < 8 * |s|
    ensures Bits(RotateRightAll(s))[p] == Bits(s)[Pred(p, 8 * |s|)]
  {
    if p % 8 > 0 {
      RightBitInside(s, p);
      assert Pred(p, 8 * |s|) == p - 1;
    } else {
      RightBitFirst(s, p);
    }
  }

  /** Left rotation of the bytes is left rotation of the bit string by exactly one bit. */
  lemma RotateLeftAllIsBitRotation(s: seq<Byte>)
    requires |s| > 0
    ensures Bits(RotateLeftAll(s)) == Bits(s)[1..] + Bits(s)[..1]
  {
    var b := Bits(s);
    var want := b[1..] + b[..1];
    forall p | 0 <= p < 8 * |s|
      ensures Bits(RotateLeftAll(s))[p] == want[p]
    {
      LeftBitAt(s, p);
      assert want[p] == b[Succ(p, 8 * |s|)];
    }
  }

  /** Right rotation of the bytes is right rotation of the bit string by exactly one bit. */
  lemma RotateRightAllIsBitRotation(s: seq<Byte>)
    requires |s| > 0
    ensures Bits(RotateRightAll(s)) == Bits(s)[8 * |s| - 1..] + Bits(s)[..8 * |s| - 1]
  {
    var b := Bits(s);
    var last := 8 * |s| - 1;
    var want := b[last..] + b[..last];
    forall p | 0 <= p < 8 * |s|
      ensures Bits(RotateRightAll(s))[p] == want[p]
    {
      RightBitAt(s, p);
      assert want[p] == b[Pred(p, 8 * |s|)];
    }
  }

  /** Rotating left and then right restores the file, and so does the other order. */
  lemma RotateLeftThenRight(s: seq<Byte>)
    ensures RotateRightAll(RotateLeftAll(s)) == s
    ensures RotateLeftAll(RotateRightAll(s)) == s
  {
    var n := |s|;
    var l, r := RotateLeftAll(s), RotateRightAll(s);
    forall j | 0 <= j < n
      ensures RotateRightAll(l)[j] == s[j] && RotateLeftAll(r)[j] == s[j]
    {
      RotateByteInverse(s[Pred(j, n)], s[j], s[Succ(j, n)]);
      assert Succ(Pred(j, n), n) == j && Pred(Succ(j, n), n) == j;
    }
  }

  /** One byte is its own neighbour on both sides: 0x01 becomes 0x02 leftwards and 0x80 rightwards. */
  lemma SingleByteExample()
    ensures RotateLeftAll([0x01]) == [0x02]
    ensures RotateRightAll([0x01]) == [0x80]
  {
  }

  /** Bits 10000001 00000001 00000000 rotated left by one are 00000010 00000010 00000001. */
  lemma ThreeByteExample()
    ensures RotateLeftAll([0x81, 0x01, 0x00]) == [0x02, 0x02, 0x01]
    ensures RotateRightAll([0x02, 0x02, 0x01]) == [0x81, 0x01, 0x00]
  {
  }
}
