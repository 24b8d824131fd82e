/** Reads bits from a byte string, most significant bit of each byte first. */
module BitSources {
  import opened Arith
  import opened BitStrings
  import opened Bits
  import opened Errors
  import opened Words

  class BitSource {
    const bytes: array<Byte>
    var byteOffset: nat
    var bitOffset: nat

    ghost predicate Valid()
      reads this
    {
      byteOffset <= bytes.Length && bitOffset < 8 && (bitOffset > 0 ==> byteOffset < bytes.Length)
    }

    /** How many bits have been read. */
    ghost function Position(): nat
      reads this
    {
      8 * byteOffset + bitOffset
    }

    ghost function Stream(): seq<bool>
      reads bytes
    {
      StreamOf(bytes[..])
    }

    constructor (bytes: array<Byte>)
      ensures Valid() && Position() == 0 && this.bytes == bytes
    {
      this.bytes := bytes;
      byteOffset, bitOffset := 0, 0;
    }

    function Available(): (r: nat)
      requires Valid()
      reads this, bytes
      ensures r == |Stream()| - Position()
    {
      8 * (bytes.Length - byteOffset) - bitOffset
    }

    /** The next `numBits` bits as a number. */
    method ReadBits(numBits: int) returns (o: Outcome, result: Word)
      requires Valid()
      modifies this
      ensures Valid()
      ensures o == if 0 <= numBits <= 32 && numBits <= old(Available()) then Ok else Threw(BadArgument)
      ensures o.Threw? ==> Position() == old(Position())
      ensures o.Ok? ==> Position() == old(Position()) + numBits
                        && result == FromMsb(Stream()[old(Position())..Position()])
    {
      if numBits < 0 || numBits > 32 || numBits > Available() {
        return Threw(BadArgument), 0;
      }
      ghost var p := Position();
      var left;
      result, left := FinishByte(numBits);
      if left > 0 {
        result := ReadAligned(result, left, p);
      }
      return Ok, result;
    }

    /** Reads what is wanted from the rest of a byte already begun. */
    method FinishByte(numBits: nat) returns (result: Word, left: nat)
      requires Valid() && numBits <= Available()
      modifies this
      ensures Valid() && left <= numBits && Position() == old(Position()) + (numBits - left)
      ensures left > 0 ==> bitOffset == 0
      ensures result == FromMsb(Stream()[old(Position())..Position()])
    {
      hide StreamOf, FromMsb, MsbFirst;
      result, left := 0, numBits;
      NothingRead(Stream(), Position());
      if bitOffset > 0 {
        var bitsLeft := 8 - bitOffset;
        var toRead := if left < bitsLeft then left else bitsLeft;
        var bitsToNotRead := bitsLeft - toRead;
        result := MaskedByte(bytes[byteOffset], toRead, bitsToNotRead);
        SliceOfStream(bytes[..], byteOffset, bitOffset, bitOffset + toRead);
        left := left - toRead;
        bitOffset := bitOffset + toRead;
        if bitOffset == 8 {
          bitOffset := 0;
          byteOffset := byteOffset + 1;
        }
      }
    }

    /** Reads whole bytes and then part of one; `p` is where the result so far began. */
    method ReadAligned(start: Word, numBits: nat, ghost p: nat) returns (result: Word)
      requires Valid() && bitOffset == 0 && numBits <= Available() && p <= Position() && Position() + numBits - p <= 32
      requires start == FromMsb(Stream()[p..Position()])
      modifies this
      ensures Valid() && Position() == old(Position()) + numBits
      ensures result == FromMsb(Stream()[p..Position()])
    {
      hide StreamOf, FromMsb, MsbFirst, WordOr, WordShl, WordAnd, Low, Shr;
      var left := numBits;
      result := start;
      while left >= 8
        modifies this`byteOffset
        invariant 0 <= left <= numBits && Position() == old(Position()) + (numBits - left)
        invariant result == FromMsb(Stream()[p..Position()])
      {
        SliceOfStream(bytes[..], byteOffset, 0, 8);
        WholeByte(bytes[byteOffset]);
        MoreRead(Stream(), p, Position(), 8);
        result := WordOr(WordShl(result, 8), WordAnd(bytes[byteOffset], 0xFF));
        byteOffset := byteOffset + 1;
        left := left - 8;
      }
      if left > 0 {
        var bitsToNotRead := 8 - left;
        SliceOfStream(bytes[..], byteOffset, 0, left);
        MoreRead(Stream(), p, Position(), left);
        result := WordOr(WordShl(result, left), MaskedByte(bytes[byteOffset], left, bitsToNotRead));
        bitOffset := bitOffset + left;
      }
    }
  }

  /** `(b & mask) >> bitsToNotRead`, with the mask of `toRead` bits above those not read. */
  function MaskedByte(b: Byte, toRead: nat, bitsToNotRead: nat): (r: Word)
    requires toRead + bitsToNotRead <= 8
    ensures r == Low(Shr(b, bitsToNotRead), toRead) < 256
  {
    MaskedByteBits(b, toRead, bitsToNotRead);
    Shr(And(b, Shl(Shr(0xFF, 8 - toRead), bitsToNotRead)), bitsToNotRead)
  }

  lemma MaskedByteBits(b: Byte, toRead: nat, bitsToNotRead: nat)
    requires toRead + bitsToNotRead <= 8
    ensures var r := Shr(And(b, Shl(Shr(0xFF, 8 - toRead), bitsToNotRead)), bitsToNotRead);
            r == Low(Shr(b, bitsToNotRead), toRead) < 256
  {
    assert Pow2(8) == 256;
    var mask := Shl(Shr(0xFF, 8 - toRead), bitsToNotRead);
    var r, t := Shr(And(b, mask), bitsToNotRead), Low(Shr(b, bitsToNotRead), toRead);
    forall i: nat ensures Bit(r, i) <==> Bit(t, i) {
      BitShr(And(b, mask), bitsToNotRead, i);
      BitAnd(b, mask, i + bitsToNotRead);
      BitShl(Shr(0xFF, 8 - toRead), bitsToNotRead, i + bitsToNotRead);
      BitShr(0xFF, 8 - toRead, i);
      BitOfOnes(8, i + 8 - toRead);
      BitTruncate(Shr(b, bitsToNotRead), toRead, i);
      BitShr(b, bitsToNotRead, i);
    }
    BitsDetermine(r, t);
    LowBound(Shr(b, bitsToNotRead), toRead);
    Pow2Monotone(toRead, 8);
  }

  lemma NothingRead(s: seq<bool>, p: nat)
    requires p <= |s|
    ensures FromMsb(s[p..p]) == 0
  {
  }

  /** Part of a byte, found in the stream. */
  lemma SliceOfStream(bytes: seq<Byte>, i: nat, a: nat, b: nat)
    requires i < |bytes| && a <= b <= 8
    ensures FromMsb(StreamOf(bytes)[8 * i + a..8 * i + b]) == Low(Shr(bytes[i], 8 - b), b - a)
  {
    hide *;
    StreamOfByte(bytes, i);
    SliceOfNumber(bytes[i], 8, a, b);
    var lo := 8 * i;
    SliceOfSlice(StreamOf(bytes), lo, 8, a, b);
    assert StreamOf(bytes)[lo..lo + 8][a..b] == MsbFirst(bytes[i], 8)[a..b];
  }

  lemma SliceOfSlice(s: seq<bool>, lo: nat, n: nat, a: nat, b: nat)
    requires lo + n <= |s| && a <= b <= n
    ensures s[lo..lo + n][a..b] == s[lo + a..lo + b]
  {
    var t, u := s[lo..lo + n][a..b], s[lo + a..lo + b];
    assert forall k :: 0 <= k < b - a ==> t[k] == s[lo..lo + n][a + k] == s[lo + a + k] == u[k];
  }

  lemma WholeByte(b: Byte)
    ensures WordAnd(b, 0xFF) == Low(Shr(b, 0), 8)
  {
    assert Pow2(8) == 256;
    ShrSteps(b, 0);
    LowBound(b, 8);
    forall i: nat ensures Bit(And(b, 0xFF), i) <==> Bit(b, i) {
      BitAnd(b, 0xFF, i);
      BitOfOnes(8, i);
      if i >= 8 {
        BitTooHigh(b, 8, i);
      }
    }
    BitsDetermine(And(b, 0xFF), b);
  }

  /** Shifting the result left and adding `n` more bits. */
  lemma MoreRead(s: seq<bool>, p: nat, q: nat, n: nat)
    requires p <= q && q + n <= |s| && q + n - p <= 32
    ensures FromMsb(s[p..q]) < 0x1_0000_0000 && FromMsb(s[q..q + n]) < 0x1_0000_0000
    ensures WordOr(WordShl(FromMsb(s[p..q]), n), FromMsb(s[q..q + n])) == FromMsb(s[p..q + n])
  {
    hide *;
    assert s[p..q + n] == s[p..q] + s[q..q + n];
    FromMsbAppend(s[p..q], s[q..q + n]);
    FromMsbBound(s[p..q]);
    FromMsbBound(s[q..q + n]);
    FromMsbBound(s[p..q + n]);
    Pow2Of32();
    Pow2Monotone(q - p, 32);
    Pow2Monotone(n, 32);
    Pow2Monotone(q + n - p, 32);
    OrOfShifted(FromMsb(s[p..q]), FromMsb(s[q..q + n]), n);
  }

  lemma OrOfShifted(x: Word, y: Word, n: nat)
    requires y < Pow2(n) && Shl(x, n) + y < 0x1_0000_0000
    ensures WordOr(WordShl(x, n), y) == Shl(x, n) + y
  {
    Pow2Of32();
    LowBound(Shl(x, n), 32);
    OrBelow(x, y, n);
  }
}
