/** A growable array of bits packed into words, lowest bit first. */
module BitArrays {
  import opened Arith
  import opened BitStrings
  import opened Bits
  import opened Errors
  import opened Words

  /** Bit `k` of the packed words; beyond the last word there are only zeros. */
  predicate At(ws: seq<Word>, k: nat) {
    k / 32 < |ws| && Bit(ws[k / 32], k % 32)
  }

  /** Bit `k` lies in word `k / 32`, at the place `2^(k % 32)`; there is none beyond the words. */
  lemma AtMeans(ws: seq<Word>, k: nat)
    ensures At(ws, k) <==> k < 32 * |ws| && ws[k / 32] / Pow2(k % 32) % 2 == 1
  {
    if k < 32 * |ws| {
      BitMeans(ws[k / 32], k % 32);
    }
  }

  function BitsOf(ws: seq<Word>, n: nat): seq<bool> {
    seq(n, k requires 0 <= k => At(ws, k))
  }

  class BitArray {
    var size: nat
    var bits: array<Word>

    ghost predicate Sound()
      reads this
    {
      size <= 32 * bits.Length
    }

    ghost function Contents(): seq<bool>
      reads this, bits
    {
      BitsOf(bits[..], size)
    }

    /** No bit is set above `size`. */
    ghost predicate Clean()
      reads this, bits
    {
      Sound() && forall k: nat :: k >= size ==> !At(bits[..], k)
    }

    constructor ()
      ensures Clean() && Contents() == [] && size == 0 && bits.Length == 1 && fresh(bits)
    {
      size := 0;
      bits := new Word[1];
      new;
      bits[0] := 0;
      ZerosAreClear(bits[..]);
    }

    constructor OfSize(size_: nat)
      ensures Clean() && size == size_ && bits.Length == (size_ + 31) / 32 && fresh(bits)
      ensures forall k: nat :: !At(bits[..], k)
    {
      size := size_;
      bits := new Word[(size_ + 31) / 32];
      new;
      var i := 0;
      while i < bits.Length
        modifies bits
        invariant i <= bits.Length && forall j :: 0 <= j < i ==> bits[j] == 0
      {
        bits[i] := 0;
        i := i + 1;
      }
      ZerosAreClear(bits[..]);
    }

    function Get(i: nat): (r: bool)
      requires i / 32 < bits.Length
      reads this, bits
      ensures r <==> At(bits[..], i)
    {
      TestWord(bits[i / 32], i % 32);
      WordAnd(bits[i / 32], WordShl(1, i % 32)) != 0
    }

    method Set(i: nat)
      requires i / 32 < bits.Length
      modifies bits
      ensures forall k: nat :: At(bits[..], k) <==> k == i || At(old(bits[..]), k)
    {
      ghost var ws := bits[..];
      bits[i / 32] := WordOr(bits[i / 32], WordShl(1, i % 32));
      assert bits[..] == ws[i / 32 := bits[i / 32]];
      forall k: nat ensures At(bits[..], k) <==> k == i || At(ws, k) {
        BitOfMask(i % 32, k % 32);
        BitOr(ws[i / 32], WordShl(1, i % 32), k % 32);
      }
    }

    method Flip(i: nat)
      requires i / 32 < bits.Length
      modifies bits
      ensures forall k: nat :: At(bits[..], k) <==> if k == i then !At(old(bits[..]), k) else At(old(bits[..]), k)
    {
      ghost var ws := bits[..];
      bits[i / 32] := WordXor(bits[i / 32], WordShl(1, i % 32));
      assert bits[..] == ws[i / 32 := bits[i / 32]];
      forall k: nat ensures At(bits[..], k) <==> if k == i then !At(ws, k) else At(ws, k) {
        BitOfMask(i % 32, k % 32);
        BitXor(ws[i / 32], WordShl(1, i % 32), k % 32);
      }
    }

    /** Makes room for `size` bits; the new words are zero. */
    method EnsureCapacity(n: nat)
      modifies this`bits
      ensures n <= 32 * bits.Length && bits.Length >= old(bits.Length) && (bits == old(bits) || fresh(bits))
      ensures forall k: nat :: At(bits[..], k) <==> At(old(bits[..]), k)
    {
      if n > bits.Length * 32 {
        var newBits := new Word[(n + 31) / 32];
        var i := 0;
        while i < newBits.Length
          modifies newBits
          invariant i <= newBits.Length && forall j :: 0 <= j < i ==> newBits[j] == 0
        {
          newBits[i] := 0;
          i := i + 1;
        }
        i := 0;
        while i < bits.Length
          modifies newBits
          invariant i <= bits.Length && newBits[..i] == bits[..i]
          invariant forall j :: i <= j < newBits.Length ==> newBits[j] == 0
        {
          newBits[i] := bits[i];
          i := i + 1;
        }
        ZeroWordsAdded(bits[..], newBits[..]);
        bits := newBits;
      } else {
        assert bits[..] == old(bits[..]);
      }
    }

    /** Appends one bit. A bit already set just above `size` would show through. */
    method AppendBit(bit: bool)
      requires Sound()
      modifies this, bits
      ensures Sound() && size == old(size) + 1 && (bits == old(bits) || fresh(bits))
      ensures Contents() == old(Contents()) + [bit || old(At(bits[..], size))]
      ensures forall k: nat :: k > old(size) ==> (At(bits[..], k) <==> old(At(bits[..], k)))
      ensures old(Clean()) ==> Clean()
    {
      hide At;
      ghost var ws := bits[..];
      EnsureCapacity(size + 1);
      if bit {
        Set(size);
      }
      BitsGrow(ws, bits[..], size, bit);
      size := size + 1;
    }

    /** Appends the lowest `numBits` bits of `value`, most significant first; bits already set just above `size`
        show through. */
    method AppendBits(value: Word, numBits: int) returns (r: Outcome)
      requires Sound()
      modifies this, bits
      ensures r == if 0 <= numBits <= 32 then Ok else Threw(BadArgument)
      ensures Sound() && (bits == old(bits) || fresh(bits))
      ensures r.Threw? ==> size == old(size) && Contents() == old(Contents())
      ensures r.Ok? ==> size == old(size) + numBits
      ensures r.Ok? ==> Contents() == old(Contents()) + Over(old(bits[..]), old(size), MsbFirst(value, numBits))
      ensures r.Ok? && old(Clean()) ==> Clean() && Contents() == old(Contents()) + MsbFirst(value, numBits)
    {
      if numBits < 0 || numBits > 32 {
        return Threw(BadArgument);
      }
      AppendLowBits(value, numBits);
      if old(Clean()) {
        NothingShowsThrough(old(bits[..]), old(size), MsbFirst(value, numBits));
      }
      return Ok;
    }

    method AppendLowBits(value: Word, numBits: nat)
      requires Sound() && numBits <= 32
      modifies this, bits
      ensures Sound() && (bits == old(bits) || fresh(bits)) && size == old(size) + numBits
      ensures old(Clean()) ==> Clean()
      ensures Contents() == old(Contents()) + Over(old(bits[..]), old(size), MsbFirst(value, numBits))
    {
      hide At, BitsOf, Over;
      ghost var ws := bits[..];
      EnsureCapacity(size + numBits);
      SameBits(ws, bits[..], size);
      var numBitsLeft := numBits;
      while numBitsLeft > 0
        invariant 0 <= numBitsLeft <= numBits && size == old(size) + numBits - numBitsLeft
        invariant Sound() && (bits == old(bits) || fresh(bits))
        invariant forall k: nat :: k >= size ==> (At(bits[..], k) <==> At(ws, k))
        invariant old(Clean()) ==> Clean()
        invariant Contents() + Over(ws, size, MsbFirst(value, numBitsLeft))
                  == old(Contents()) + Over(ws, old(size), MsbFirst(value, numBits))
      {
        TestShifted(value, numBitsLeft - 1);
        OverNext(ws, size, value, numBitsLeft, Contents());
        AppendBit(WordAnd(WordSar(value, numBitsLeft - 1), 1) == 1);
        numBitsLeft := numBitsLeft - 1;
      }
      NothingLeft(ws, size, value, Contents());
    }

    /** Does every bit from `start` up to `end` equal `value`? */
    method IsRange(start: int, end: int, value: bool) returns (o: Outcome, r: bool)
      requires end > start ==> 0 <= start && end <= 32 * bits.Length
      ensures o == if end < start then Threw(BadArgument) else Ok
      ensures o.Ok? ==> (r <==> forall k: nat :: start <= k < end ==> At(bits[..], k) == value)
    {
      if end < start {
        return Threw(BadArgument), false;
      }
      if end == start {
        return Ok, true;
      }
      hide WordSub, WordShl, WordAnd, At, RangeHolds;
      var last := end - 1;
      var firstInt, lastInt := start / 32, last / 32;
      var i := firstInt;
      while i <= lastInt
        invariant firstInt <= i <= lastInt + 1
        invariant forall k: nat :: start <= k < end && k < 32 * i ==> At(bits[..], k) == value
      {
        var firstBit := if i > firstInt then 0 else start % 32;
        var lastBit := if i < lastInt then 31 else last % 32;
        var mask := WordSub(WordShl(2, lastBit), WordShl(1, firstBit));
        RangeCovered(bits[..], i, start, end, value);
        RangeInWord(bits[..], i, firstBit, lastBit, value);
        if WordAnd(bits[i], mask) != if value then mask else 0 {
          return Ok, false;
        }
        i := i + 1;
      }
      return Ok, true;
    }

    /** The first set bit from `from` on, or `size`. */
    method GetNextSet(from: nat) returns (r: nat)
      requires Sound()
      ensures NextBit(bits[..], from, size, true, r)
    {
      r := NextWith(from, true);
    }

    /** The first unset bit from `from` on, or `size`. */
    method GetNextUnset(from: nat) returns (r: nat)
      requires Sound()
      ensures NextBit(bits[..], from, size, false, r)
    {
      r := NextWith(from, false);
    }

    /** The scan of both searches, over the words or over their complements. */
    method NextWith(from: nat, value: bool) returns (r: nat)
      requires Sound()
      ensures NextBit(bits[..], from, size, value, r)
    {
      if from >= size {
        return size;
      }
      var bitsOffset := from / 32;
      var currentBits: Word := WordAnd(if value then bits[bitsOffset] else WordNot(bits[bitsOffset]),
                                 WordNot(WordSub(WordShl(1, from % 32), 1)));
      ScanStarts(bits[..], from, value);
      while currentBits == 0
        invariant bitsOffset < bits.Length && Scanning(bits[..], from, value, bitsOffset, currentBits)
        decreases bits.Length - bitsOffset
      {
        ScanPasses(bits[..], from, value, bitsOffset);
        bitsOffset := bitsOffset + 1;
        if bitsOffset == bits.Length {
          return size;
        }
        currentBits := if value then bits[bitsOffset] else WordNot(bits[bitsOffset]);
        ScanContinues(bits[..], from, value, bitsOffset);
      }
      var zeros := NumberOfTrailingZeros(currentBits);
      ScanFinds(bits[..], from, value, bitsOffset, currentBits, zeros);
      var result := bitsOffset * 32 + zeros;
      return if result > size then size else result;
    }

    /** Bit `i` becomes bit `size - 1 - i`; whatever lies above `size` is dropped. */
    method Reverse()
      requires Sound() && size >= 1
      modifies this`bits
      ensures Clean() && size == old(size) && fresh(bits) && bits.Length == old(bits.Length)
      ensures Contents() == Reversed(old(Contents()))
    {
      hide At, ReverseWord, Reversed, ReversedWords, ShiftedDown;
      ghost var ws := bits[..];
      var newBits := new Word[bits.Length];
      var len := (size - 1) / 32;
      var oldBitsLen := len + 1;
      var i := 0;
      while i < newBits.Length
        modifies newBits
        invariant i <= newBits.Length && forall j :: 0 <= j < i ==> newBits[j] == 0
      {
        newBits[i] := 0;
        i := i + 1;
      }
      i := 0;
      while i < oldBitsLen
        modifies newBits
        invariant i <= oldBitsLen
        invariant forall j :: len - i < j <= len ==> newBits[j] == ReverseWord(ws[len - j])
        invariant forall j :: oldBitsLen <= j < newBits.Length ==> newBits[j] == 0
      {
        newBits[len - i] := ReverseWord(bits[i]);
        i := i + 1;
      }
      ghost var reversed := newBits[..];
      WordsReversed(ws, reversed, oldBitsLen);
      var leftOffset := oldBitsLen * 32 - size;
      if size != oldBitsLen * 32 {
        ShiftDown(newBits, oldBitsLen, leftOffset, ws);
      } else {
        NotShifted(ws, reversed, oldBitsLen);
      }
      bits := newBits;
      ReversalComplete(ws, reversed, bits[..], oldBitsLen, size);
    }

    /** Packs `numBytes` bytes from bit `bitOffset` on, each most significant bit first, into `arr`
        from `offset` on; `arr` grows if it is too short. */
    method ToBytes(bitOffset: nat, arr: seq<Byte>, offset: nat, numBytes: nat) returns (out: seq<Byte>)
      requires bitOffset + 8 * numBytes <= 32 * bits.Length
      ensures |out| == if |arr| < numBytes + offset then numBytes + offset else |arr|
      ensures forall i :: 0 <= i < numBytes ==> out[offset + i] == PackedByte(bits[..], bitOffset + 8 * i)
      ensures forall i :: 0 <= i < |out| && !(offset <= i < offset + numBytes) ==>
                out[i] == if i < |arr| then arr[i] else 0
    {
      out := arr;
      if |arr| < numBytes + offset {
        out := arr + seq(numBytes + offset - |arr|, _ => 0);
      }
      ghost var start := out;
      var next := bitOffset;
      var i := 0;
      while i < numBytes
        invariant i <= numBytes && next == bitOffset + 8 * i && |out| == |start|
        invariant forall k :: 0 <= k < i ==> out[offset + k] == PackedByte(bits[..], bitOffset + 8 * k)
        invariant forall k :: 0 <= k < |out| && !(offset <= k < offset + i) ==> out[k] == start[k]
      {
        var theByte := 0;
        var j := 0;
        PackStart(bits[..], next);
        while j < 8
          invariant j <= 8 && theByte == Packed(bits[..], next, j)
        {
          PackStep(bits[..], next, j);
          if Get(next + j) {
            theByte := Or(theByte, Shl(1, 7 - j));
          }
          j := j + 1;
        }
        next := next + 8;
        PackEnd(bits[..], next - 8);
        out := out[offset + i := theByte];
        i := i + 1;
      }
    }
  }

  /** Bits written over what the words hold from bit `k` on. */
  function Over(ws: seq<Word>, k: nat, s: seq<bool>): seq<bool> {
    seq(|s|, i requires 0 <= i < |s| => s[i] || At(ws, k + i))
  }

  lemma NothingShowsThrough(ws: seq<Word>, k: nat, s: seq<bool>)
    requires forall i: nat :: i >= k ==> !At(ws, i)
    ensures Over(ws, k, s) == s
  {
  }

  lemma OverNext(ws: seq<Word>, k: nat, value: nat, n: nat, c: seq<bool>)
    requires n > 0
    ensures c + Over(ws, k, MsbFirst(value, n)) ==
            c + [Bit(value, n - 1) || At(ws, k)] + Over(ws, k + 1, MsbFirst(value, n - 1))
  {
    hide At;
    var s, t := Over(ws, k, MsbFirst(value, n)), Over(ws, k + 1, MsbFirst(value, n - 1));
    assert s == [Bit(value, n - 1) || At(ws, k)] + t;
  }

  lemma NothingLeft(ws: seq<Word>, k: nat, value: nat, c: seq<bool>)
    ensures c + Over(ws, k, MsbFirst(value, 0)) == c
  {
  }

  lemma SameBits(ws: seq<Word>, ws': seq<Word>, n: nat)
    requires forall k: nat :: At(ws', k) <==> At(ws, k)
    ensures BitsOf(ws', n) == BitsOf(ws, n)
  {
  }

  /** The test `(value >> n) & 1`. */
  lemma TestShifted(value: Word, n: nat)
    requires n < 32
    ensures WordAnd(WordSar(value, n), 1) == 1 <==> Bit(value, n)
  {
    TestWord(WordSar(value, n), 0);
    BitWordSar(value, n, 0);
    ShlOfOne(0);
    AndAtMost(WordSar(value, n), 1);
  }

  /** Bits `k` to `k + n` as a list. */
  function Slice(ws: seq<Word>, k: nat, n: nat): seq<bool> {
    seq(n, i requires 0 <= i => At(ws, k + i))
  }

  /** Eight bits from `k` on as a byte. */
  ghost function PackedByte(ws: seq<Word>, k: nat): nat {
    FromMsb(Slice(ws, k, 8))
  }

  /** The byte with its first `j` bits in place. */
  ghost function Packed(ws: seq<Word>, k: nat, j: nat): nat
    requires j <= 8
  {
    Shl(FromMsb(Slice(ws, k, j)), 8 - j)
  }

  lemma PackStart(ws: seq<Word>, k: nat)
    ensures Packed(ws, k, 0) == 0
  {
  }

  lemma PackStep(ws: seq<Word>, k: nat, j: nat)
    requires j < 8
    ensures Packed(ws, k, j + 1) == if At(ws, k + j) then Or(Packed(ws, k, j), Shl(1, 7 - j)) else Packed(ws, k, j)
  {
    var s := Slice(ws, k, j);
    assert Slice(ws, k, j + 1) == s + [At(ws, k + j)];
    assert (s + [At(ws, k + j)])[..j] == s;
    var v := FromMsb(s);
    ShlStep(v, 7 - j);
    MulAssociative(v, 2, Pow2(7 - j));
    MulDistributes(2 * v, 1, Pow2(7 - j));
    OrCommutes(Packed(ws, k, j), Pow2(7 - j));
    OrDisjoint(Pow2(7 - j), v, 8 - j);
  }

  lemma PackEnd(ws: seq<Word>, k: nat)
    ensures Packed(ws, k, 8) == PackedByte(ws, k) < 256
  {
    FromMsbBound(Slice(ws, k, 8));
    ShlStep(PackedByte(ws, k), 0);
    assert Pow2(8) == 256;
  }

  lemma BitsGrow(ws: seq<Word>, ws': seq<Word>, n: nat, bit: bool)
    requires forall k: nat :: At(ws', k) <==> At(ws, k) || (bit && k == n)
    ensures BitsOf(ws', n + 1) == BitsOf(ws, n) + [bit || At(ws, n)]
  {
  }

  lemma ZerosAreClear(ws: seq<Word>)
    requires forall j :: 0 <= j < |ws| ==> ws[j] == 0
    ensures forall k: nat :: !At(ws, k)
  {
    forall k: nat ensures !At(ws, k) {
      BitZero(k % 32);
    }
  }

  lemma ZeroWordsAdded(ws: seq<Word>, ws': seq<Word>)
    requires |ws| <= |ws'| && ws'[..|ws|] == ws && forall j :: |ws| <= j < |ws'| ==> ws'[j] == 0
    ensures forall k: nat :: At(ws', k) <==> At(ws, k)
  {
    forall k: nat ensures At(ws', k) <==> At(ws, k) {
      BitZero(k % 32);
      if k / 32 < |ws| {
        assert ws'[..|ws|][k / 32] == ws[k / 32];
      }
    }
  }

  lemma BitOfMask(n: nat, i: nat)
    requires n < 32
    ensures Bit(WordShl(1, n), i) <==> i == n
  {
    ShlOfOne(n);
    BitPow2(n, i);
  }

  lemma TestWord(w: Word, n: nat)
    requires n < 32
    ensures WordAnd(w, WordShl(1, n)) != 0 <==> Bit(w, n)
  {
    ShlOfOne(n);
    AndPow2(w, n);
  }

  // ----- ranges and searches -----

  lemma RangeInWord(ws: seq<Word>, i: nat, first: nat, last: nat, value: bool)
    requires i < |ws| && first <= last < 32
    ensures var mask := WordSub(WordShl(2, last), WordShl(1, first));
            WordAnd(ws[i], mask) == (if value then mask else 0) <==> RangeHolds(ws, i, first, last, value)
  {
    var mask := WordSub(WordShl(2, last), WordShl(1, first));
    MaskedBits(ws[i], mask, value);
    forall b: nat ensures Bit(mask, b) <==> first <= b <= last {
      RangeMask(first, last, b);
    }
    hide WordSub, WordShl, WordAnd, Bit, At;
    if Uniform(ws[i], mask, value) {
      forall k: nat | 32 * i + first <= k <= 32 * i + last ensures At(ws, k) == value {
        AtInWord(ws, i, k - 32 * i);
        assert Bit(mask, k - 32 * i);
      }
    }
    if RangeHolds(ws, i, first, last, value) {
      forall b: nat | Bit(mask, b) ensures Bit(ws[i], b) == value {
        AtInWord(ws, i, b);
        assert At(ws, 32 * i + b) == value;
      }
    }
  }

  lemma AtInWord(ws: seq<Word>, i: nat, b: nat)
    requires i < |ws| && b < 32
    ensures At(ws, 32 * i + b) <==> Bit(ws[i], b)
  {
    assert (32 * i + b) / 32 == i && (32 * i + b) % 32 == b;
  }

  ghost predicate RangeHolds(ws: seq<Word>, i: nat, first: nat, last: nat, value: bool) {
    forall k: nat :: 32 * i + first <= k <= 32 * i + last ==> At(ws, k) == value
  }

  /** The words of a range cover it. */
  lemma RangeCovered(ws: seq<Word>, i: nat, start: nat, end: nat, value: bool)
    requires start < end && start / 32 <= i <= (end - 1) / 32
    requires forall k: nat :: start <= k < end && k < 32 * i ==> At(ws, k) == value
    ensures var first := if i > start / 32 then 0 else start % 32;
            var last := if i < (end - 1) / 32 then 31 else (end - 1) % 32;
            first <= last &&
            (RangeHolds(ws, i, first, last, value) <==>
             forall k: nat :: start <= k < end && k < 32 * (i + 1) ==> At(ws, k) == value)
  {
    var first := if i > start / 32 then 0 else start % 32;
    var last := if i < (end - 1) / 32 then 31 else (end - 1) % 32;
    hide At;
  }

  /** `r` is the least index from `from` on whose bit has the value, or `size`. */
  ghost predicate NextBit(ws: seq<Word>, from: nat, size: nat, value: bool, r: nat) {
    && r <= size && (from >= size ==> r == size) && (from < size ==> from <= r)
    && (forall k: nat :: from <= k < r ==> At(ws, k) != value)
    && (r < size ==> At(ws, r) == value)
  }

  /** The words before `off` hold nothing; `current` is word `off` without the bits before `from`. */
  ghost predicate Scanning(ws: seq<Word>, from: nat, value: bool, off: nat, current: Word) {
    && (forall k: nat :: from <= k < 32 * off ==> At(ws, k) != value)
    && (forall b: nat :: b < 32 ==> (Bit(current, b) <==> 32 * off + b >= from && At(ws, 32 * off + b) == value))
  }

  lemma ScanStarts(ws: seq<Word>, from: nat, value: bool)
    requires from / 32 < |ws|
    ensures Scanning(ws, from, value, from / 32, StartWord(ws[from / 32], from % 32, value))
  {
    hide *;
    QuotientAndRest(from);
    ScanStartsIn(ws, from / 32, from % 32, value);
    FromIsThere(ws, from / 32, from % 32, value);
  }

  lemma QuotientAndRest(from: nat)
    ensures from == 32 * (from / 32) + from % 32 && from % 32 < 32
  {
  }

  /** The word of the start without the bits before it. */
  function StartWord(word: Word, n: nat, value: bool): Word
    requires n < 32
  {
    WordAnd(if value then word else WordNot(word), WordNot(WordSub(WordShl(1, n), 1)))
  }

  lemma ScanStartsIn(ws: seq<Word>, off: nat, n: nat, value: bool)
    requires off < |ws| && n < 32
    ensures forall b: nat :: b < 32 ==>
              (Bit(StartWord(ws[off], n, value), b) <==> 32 * off + b >= 32 * off + n && At(ws, 32 * off + b) == value)
  {
    hide Bit, At, StartWord;
    forall b: nat | b < 32
      ensures Bit(StartWord(ws[off], n, value), b) <==> 32 * off + b >= 32 * off + n && At(ws, 32 * off + b) == value
    {
      ScanStartsAt(ws[off], n, value, b);
      AtInWord(ws, off, b);
    }
  }

  lemma FromIsThere(ws: seq<Word>, off: nat, n: nat, value: bool)
    requires off < |ws| && n < 32
    requires forall b: nat :: b < 32 ==>
               (Bit(StartWord(ws[off], n, value), b) <==> 32 * off + b >= 32 * off + n && At(ws, 32 * off + b) == value)
    ensures Scanning(ws, 32 * off + n, value, off, StartWord(ws[off], n, value))
  {
    hide Bit, At, StartWord;
  }

  /** Bit `b` of a word, or of its complement, without the lowest `n` bits. */
  lemma ScanStartsAt(word: Word, n: nat, value: bool, b: nat)
    requires n < 32 && b < 32
    ensures Bit(StartWord(word, n, value), b) <==> b >= n && Bit(word, b) == value
  {
    var low := WordSub(WordShl(1, n), 1);
    assert low == Pow2(n) - 1 by { ShlOfOne(n); }
    hide Bit, WordSub, WordShl;
    BitAnd(if value then word else WordNot(word), WordNot(low), b);
    BitWordNot(low, b);
    BitOfOnes(n, b);
    BitWordNot(word, b);
  }

  lemma ScanPasses(ws: seq<Word>, from: nat, value: bool, off: nat)
    requires Scanning(ws, from, value, off, 0)
    ensures forall k: nat :: from <= k < 32 * (off + 1) ==> At(ws, k) != value
  {
    forall k: nat | from <= k < 32 * (off + 1) ensures At(ws, k) != value {
      if k >= 32 * off {
        BitZero(k - 32 * off);
        assert !Bit(0, k - 32 * off);
      }
    }
  }

  lemma ScanContinues(ws: seq<Word>, from: nat, value: bool, off: nat)
    requires off < |ws| && from < 32 * off && forall k: nat :: from <= k < 32 * off ==> At(ws, k) != value
    ensures Scanning(ws, from, value, off, if value then ws[off] else WordNot(ws[off]))
  {
    var w: Word := if value then ws[off] else WordNot(ws[off]);
    forall b: nat | b < 32 ensures Bit(w, b) <==> At(ws, 32 * off + b) == value {
      BitWordNot(ws[off], b);
    }
  }

  lemma ScanFinds(ws: seq<Word>, from: nat, value: bool, off: nat, current: Word, zeros: nat)
    requires Scanning(ws, from, value, off, current) && zeros < 32 && Lowest(current, zeros)
    ensures var r := 32 * off + zeros;
            r >= from && At(ws, r) == value && forall k: nat :: from <= k < r ==> At(ws, k) != value
  {
    forall k: nat | from <= k < 32 * off + zeros ensures At(ws, k) != value {
      if k >= 32 * off {
        assert !Bit(current, k - 32 * off);
      }
    }
  }

  /** Bit `t` is the lowest one bit. */
  ghost predicate Lowest(w: Word, t: nat) {
    Bit(w, t) && forall k: nat :: k < t ==> !Bit(w, k)
  }

  /** Halving steps look for the lowest one bit (Figure 5-14 of Hacker's Delight). */
  method NumberOfTrailingZeros(word: Word) returns (r: nat)
    ensures if word == 0 then r == 32 else r < 32 && Lowest(word, r)
  {
    if word == 0 {
      return 32;
    }
    hide *;
    ghost var t := LowestInWord(word);
    var i, n := Halve(word, 31, 16, t);
    i, n := Halve(i, n, 8, t);
    i, n := Halve(i, n, 4, t);
    i, n := Halve(i, n, 2, t);
    LastStep(i, t + 31 - n);
    return n - Shr(WordShl(i, 1), 31);
  }

  /** One halving step: `i` is the word shifted up until its lowest one bit `t` is at `t + 31 - n`. */
  method Halve(i: Word, n: nat, s: nat, ghost t: nat) returns (i': Word, n': nat)
    requires s <= n <= 31 && 32 - 2 * s <= t + 31 - n < 32 && Lowest(i, t + 31 - n)
    ensures n - s <= n' <= n && 32 - s <= t + 31 - n' < 32 && Lowest(i', t + 31 - n')
  {
    hide *;
    ShiftLowest(i, t + 31 - n, s);
    var y := WordShl(i, s);
    if y != 0 {
      return y, n - s;
    }
    return i, n;
  }

  lemma LowestInWord(w: Word) returns (t: nat)
    requires w != 0
    ensures t < 32 && Lowest(w, t)
  {
    t := LowestExists(w);
    if t >= 32 {
      WordHasNoMoreBits(w, t);
    }
  }

  lemma LowestExists(w: nat) returns (t: nat)
    requires w != 0
    ensures Bit(w, t) && forall k: nat :: k < t ==> !Bit(w, k)
  {
    if w % 2 == 1 {
      t := 0;
    } else {
      t := LowestExists(w / 2);
      t := t + 1;
    }
  }

  lemma ShiftLowest(w: Word, p: nat, s: nat)
    requires Lowest(w, p) && p < 32
    ensures if p + s < 32 then WordShl(w, s) != 0 && Lowest(WordShl(w, s), p + s) else WordShl(w, s) == 0
  {
    var y := WordShl(w, s);
    forall k: nat ensures Bit(y, k) <==> s <= k < 32 && Bit(w, k - s) {
      BitWordShl(w, s, k);
    }
    BitZero(p + s);
    if p + s >= 32 {
      forall k: nat ensures Bit(y, k) <==> Bit(0, k) {
        BitZero(k);
      }
      BitsDetermine(y, 0);
    }
  }

  lemma LastStep(w: Word, p: nat)
    requires Lowest(w, p) && 30 <= p < 32
    ensures Shr(WordShl(w, 1), 31) == 31 - p
  {
    var y := WordShl(w, 1);
    BitWordShl(w, 1, 31);
    SignBit(y);
    Pow2Of32();
    assert Pow2(31) == 0x8000_0000;
    if y < 0x8000_0000 {
      DivModUnique(y, Pow2(31), 0, y);
    } else {
      DivModUnique(y, Pow2(31), 1, y - 0x8000_0000);
    }
  }

  // ----- reversal -----

  function Reversed(s: seq<bool>): (r: seq<bool>)
    ensures |r| == |s| && forall i :: 0 <= i < |s| ==> r[i] == s[|s| - 1 - i]
  {
    if s == [] then [] else Reversed(s[1..]) + [s[0]]
  }

  /** Reversing twice restores the bits. */
  lemma ReversedTwice(s: seq<bool>)
    ensures Reversed(Reversed(s)) == s
  {
  }

  /** The first `n` words, taken together, are reversed. */
  ghost predicate ReversedWords(ws: seq<Word>, rs: seq<Word>, n: nat) {
    && (forall m: nat :: m < 32 * n ==> (At(rs, m) <==> At(ws, 32 * n - 1 - m)))
    && forall m: nat :: m >= 32 * n ==> !At(rs, m)
  }

  lemma WordsReversed(ws: seq<Word>, rs: seq<Word>, n: nat)
    requires 0 < n <= |ws| == |rs| && forall j :: 0 <= j < n ==> rs[j] == ReverseWord(ws[n - 1 - j])
    requires forall j :: n <= j < |rs| ==> rs[j] == 0
    ensures ReversedWords(ws, rs, n)
  {
    hide ReverseWord, Bit;
    forall m: nat | m < 32 * n ensures At(rs, m) <==> At(ws, 32 * n - 1 - m) {
      var j, k := m / 32, m % 32;
      BitOfReverseWord(ws[n - 1 - j], k);
      AtInWord(ws, n - 1 - j, 31 - k);
      assert 32 * n - 1 - m == 32 * (n - 1 - j) + (31 - k);
    }
    forall m: nat | m >= 32 * n ensures !At(rs, m) {
      BitZero(m % 32);
    }
  }

  /** `ts` is `rs` moved down by `off` bits within the first `n` words, zeros coming in at the top. */
  ghost predicate ShiftedDown(rs: seq<Word>, ts: seq<Word>, n: nat, off: nat) {
    forall m: nat :: At(ts, m) <==> m + off < 32 * n && At(rs, m + off)
  }

  lemma NotShifted(ws: seq<Word>, rs: seq<Word>, n: nat)
    requires ReversedWords(ws, rs, n)
    ensures ShiftedDown(rs, rs, n, 0)
  {
    hide At;
  }

  /** Reversing for a while: the array is reversed by the constructor and again by the destructor. */
  method ReverseAndBack(a: BitArray)
    requires a.Sound() && a.size >= 1
    modifies a`bits
    ensures a.Clean() && a.size == old(a.size) && a.Contents() == old(a.Contents())
  {
    hide At, Reversed;
    ghost var before := a.Contents();
    a.Reverse();
    a.Reverse();
    ReversedTwice(before);
  }

  /** Corrects for a size that is not a multiple of 32. */
  method ShiftDown(words: array<Word>, n: nat, leftOffset: nat, ghost ws: seq<Word>)
    requires 0 < n <= words.Length && 0 < leftOffset < 32
    requires ReversedWords(ws, words[..], n)
    modifies words
    ensures ShiftedDown(old(words[..]), words[..], n, leftOffset)
  {
    hide *;
    ghost var rs := words[..];
    var mask := LowMask(31 - leftOffset);
    var currentInt := WordAnd(WordSar(words[0], leftOffset), mask);
    LowPart(rs, 0, leftOffset, mask);
    var i := 1;
    while i < n
      invariant 1 <= i <= n && words[i..] == rs[i..] && IsLowPart(rs, i - 1, leftOffset, currentInt)
      invariant forall j :: 0 <= j < i - 1 ==> IsMovedWord(rs, j, leftOffset, words[j])
    {
      assert words[i] == words[i..][0] == rs[i];
      var nextInt := words[i];
      HighPart(rs, i, leftOffset, currentInt);
      currentInt := WordOr(currentInt, WordShl(nextInt, 32 - leftOffset));
      ghost var rest := words[i + 1..];
      words[i - 1] := currentInt;
      assert words[i + 1..] == rest;
      currentInt := WordAnd(WordSar(nextInt, leftOffset), mask);
      LowPart(rs, i, leftOffset, mask);
      i := i + 1;
    }
    ghost var rest := words[n..];
    words[n - 1] := currentInt;
    assert words[n..] == rest;
    MovedWordsAreShifted(ws, rs, words[..], n, leftOffset);
  }

  /** A mask of `count + 1` ones, built one at a time. */
  method LowMask(count: nat) returns (mask: Word)
    requires count < 31
    ensures mask == Pow2(count + 1) - 1
  {
    hide WordOr, WordShl;
    mask := 1;
    OnesGrow(0);
    var i := 0;
    while i < count
      invariant i <= count && mask == Pow2(i + 1) - 1
    {
      OnesGrow(i);
      mask := WordOr(WordShl(mask, 1), 1);
      i := i + 1;
    }
  }

  /** `w` holds the bits of word `j` from `off` on. */
  ghost predicate IsLowPart(rs: seq<Word>, j: nat, off: nat, w: Word)
    requires j < |rs|
  {
    forall b: nat :: b < 32 ==> (Bit(w, b) <==> b + off < 32 && Bit(rs[j], b + off))
  }

  /** `w` holds the 32 bits that start `off` bits into word `j`. */
  ghost predicate IsMovedWord(rs: seq<Word>, j: nat, off: nat, w: Word) {
    forall b: nat :: b < 32 ==> (Bit(w, b) <==> At(rs, 32 * j + b + off))
  }

  lemma OnesGrow(i: nat)
    requires i <= 30
    ensures Pow2(1) - 1 == 1 && Pow2(i + 1) - 1 < 0x1_0000_0000
    ensures WordOr(WordShl(Pow2(i + 1) - 1, 1), 1) == Pow2(i + 2) - 1
  {
    OnesFit(i + 1);
    assert 1 == Pow2(1) - 1;
    hide *;
    var grown := WordOr(WordShl(Pow2(i + 1) - 1, 1), 1);
    forall b: nat ensures Bit(grown, b) <==> Bit(Pow2(i + 2) - 1, b) {
      OnesGrowAt(i, b);
    }
    BitsDetermine(grown, Pow2(i + 2) - 1);
  }

  lemma OnesFit(i: nat)
    requires i <= 32
    ensures 0 <= Pow2(i) - 1 < 0x1_0000_0000
  {
    Pow2Of32();
    Pow2Monotone(i, 32);
  }

  lemma OnesGrowAt(i: nat, b: nat)
    requires i <= 30 && 0 <= Pow2(i + 1) - 1 < 0x1_0000_0000 && 1 == Pow2(1) - 1
    ensures Bit(WordOr(WordShl(Pow2(i + 1) - 1, 1), 1), b) <==> Bit(Pow2(i + 2) - 1, b)
  {
    hide Bit, Or, WordShl, Pow2;
    var mask: Word := Pow2(i + 1) - 1;
    BitOr(WordShl(mask, 1), 1, b);
    BitWordShl(mask, 1, b);
    BitOfOnes(1, b);
    BitOfOnes(i + 2, b);
    if b > 0 {
      BitOfOnes(i + 1, b - 1);
    }
  }

  lemma LowPart(rs: seq<Word>, j: nat, off: nat, mask: Word)
    requires j < |rs| && 0 < off < 32 && mask == Pow2(32 - off) - 1
    ensures IsLowPart(rs, j, off, WordAnd(WordSar(rs[j], off), mask))
  {
    hide Bit, WordSar;
    forall b: nat | b < 32
      ensures Bit(WordAnd(WordSar(rs[j], off), mask), b) <==> b + off < 32 && Bit(rs[j], b + off)
    {
      BitAnd(WordSar(rs[j], off), mask, b);
      BitWordSar(rs[j], off, b);
      BitOfOnes(32 - off, b);
    }
  }

  lemma HighPart(rs: seq<Word>, i: nat, off: nat, current: Word)
    requires 0 < i < |rs| && 0 < off < 32 && IsLowPart(rs, i - 1, off, current)
    ensures IsMovedWord(rs, i - 1, off, WordOr(current, WordShl(rs[i], 32 - off)))
  {
    hide Bit, WordShl, At;
    var w := WordOr(current, WordShl(rs[i], 32 - off));
    forall b: nat | b < 32 ensures Bit(w, b) <==> At(rs, 32 * (i - 1) + b + off) {
      BitOr(current, WordShl(rs[i], 32 - off), b);
      BitWordShl(rs[i], 32 - off, b);
      if b + off < 32 {
        AtInWord(rs, i - 1, b + off);
        assert 32 * (i - 1) + (b + off) == 32 * (i - 1) + b + off;
      } else {
        AtInWord(rs, i, b + off - 32);
        assert 32 * i + (b + off - 32) == 32 * (i - 1) + b + off;
      }
    }
  }

  lemma MovedWordsAreShifted(ws: seq<Word>, rs: seq<Word>, ts: seq<Word>, n: nat, off: nat)
    requires 0 < n <= |rs| == |ts| && 0 < off < 32 && ts[n..] == rs[n..] && ReversedWords(ws, rs, n)
    requires forall j :: 0 <= j < n - 1 ==> IsMovedWord(rs, j, off, ts[j])
    requires IsLowPart(rs, n - 1, off, ts[n - 1])
    ensures ShiftedDown(rs, ts, n, off)
  {
    hide Bit, At, IsMovedWord, IsLowPart;
    forall m: nat ensures At(ts, m) <==> m + off < 32 * n && At(rs, m + off) {
      var j, b := m / 32, m % 32;
      assert m == 32 * j + b;
      if j < n - 1 {
        MovedAt(rs, ts, j, off, b);
      } else if j == n - 1 {
        LastMovedAt(rs, ts, n, off, b);
      } else {
        AboveIsClear(ws, rs, ts, n, m);
      }
    }
  }

  lemma MovedAt(rs: seq<Word>, ts: seq<Word>, j: nat, off: nat, b: nat)
    requires j < |ts| && b < 32 && IsMovedWord(rs, j, off, ts[j])
    ensures At(ts, 32 * j + b) <==> At(rs, 32 * j + b + off)
  {
    hide Bit, At;
    AtInWord(ts, j, b);
  }

  lemma LastMovedAt(rs: seq<Word>, ts: seq<Word>, n: nat, off: nat, b: nat)
    requires 0 < n <= |rs| == |ts| && b < 32 && IsLowPart(rs, n - 1, off, ts[n - 1])
    ensures At(ts, 32 * (n - 1) + b) <==> b + off < 32 && At(rs, 32 * (n - 1) + b + off)
  {
    hide Bit, At;
    AtInWord(ts, n - 1, b);
    if b + off < 32 {
      AtInWord(rs, n - 1, b + off);
      assert 32 * (n - 1) + (b + off) == 32 * (n - 1) + b + off;
    }
  }

  lemma AboveIsClear(ws: seq<Word>, rs: seq<Word>, ts: seq<Word>, n: nat, m: nat)
    requires n <= |rs| == |ts| && ts[n..] == rs[n..] && ReversedWords(ws, rs, n) && m >= 32 * n
    ensures !At(ts, m)
  {
    hide Bit;
    assert !At(rs, m);
    if m / 32 < |ts| {
      assert ts[n..][m / 32 - n] == rs[n..][m / 32 - n];
    }
  }

  lemma ReversalComplete(ws: seq<Word>, rs: seq<Word>, ts: seq<Word>, n: nat, size: nat)
    requires ReversedWords(ws, rs, n) && size <= 32 * n && ShiftedDown(rs, ts, n, 32 * n - size)
    ensures BitsOf(ts, size) == Reversed(BitsOf(ws, size)) && forall k: nat :: k >= size ==> !At(ts, k)
  {
    hide At, Reversed;
    var off := 32 * n - size;
    forall k: nat | k < size ensures At(ts, k) <==> At(ws, size - 1 - k) {
      assert At(ts, k) <==> At(rs, k + off);
      assert At(rs, k + off) <==> At(ws, 32 * n - 1 - (k + off));
    }
    var b, r := BitsOf(ws, size), Reversed(BitsOf(ws, size));
    assert forall i :: 0 <= i < size ==> BitsOf(ts, size)[i] == r[i];
  }
}
