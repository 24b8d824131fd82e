/** Bit strings, most significant bit first, and the numbers they spell. */
module BitStrings {
  import opened Arith
  import opened Bits

  type Byte = b: nat | b < 256

  /** The lowest `n` bits of `value`, most significant first. */
  function MsbFirst(value: nat, n: nat): (s: seq<bool>)
    ensures |s| == n
  {
    if n == 0 then [] else [Bit(value, n - 1)] + MsbFirst(value, n - 1)
  }

  function FromMsb(s: seq<bool>): nat {
    if s == [] then 0 else 2 * FromMsb(s[..|s| - 1]) + if s[|s| - 1] then 1 else 0
  }

  /** The bits of a byte string, byte after byte. */
  function StreamOf(bytes: seq<Byte>): (s: seq<bool>)
    ensures |s| == 8 * |bytes|
  {
    if bytes == [] then [] else MsbFirst(bytes[0], 8) + StreamOf(bytes[1..])
  }

  lemma {:induction false} MsbFirstAt(value: nat, n: nat, k: nat)
    requires k < n
    ensures MsbFirst(value, n)[k] == Bit(value, n - 1 - k)
  {
    if k > 0 {
      MsbFirstAt(value, n - 1, k - 1);
    }
  }

  lemma {:induction false} FromMsbBound(s: seq<bool>)
    ensures FromMsb(s) < Pow2(|s|)
  {
    if s != [] {
      FromMsbBound(s[..|s| - 1]);
    }
  }

  lemma {:induction false} FromMsbAppend(s: seq<bool>, t: seq<bool>)
    ensures FromMsb(s + t) == Shl(FromMsb(s), |t|) + FromMsb(t)
  {
    if t == [] {
      assert s + t == s;
      ShlStep(FromMsb(s), 0);
    } else {
      var n := |t| - 1;
      FromMsbAppend(s, t[..n]);
      assert (s + t)[..|s + t| - 1] == s + t[..n];
      ShlStep(FromMsb(s), n);
      hide Shl;
    }
  }

  /** Writing `n` bits and reading them back keeps the lowest `n` bits. */
  lemma {:induction false} ReadBack(value: nat, n: nat)
    ensures FromMsb(MsbFirst(value, n)) == Low(value, n)
  {
    if n == 0 {
      LowBound(value, 0);
    } else {
      var b := [Bit(value, n - 1)];
      assert b[..0] == [];
      assert FromMsb(b) == if Bit(value, n - 1) then 1 else 0;
      FromMsbAppend(b, MsbFirst(value, n - 1));
      ReadBack(value, n - 1);
      TruncateSuccessor(value, n - 1);
      assert Shl(FromMsb(b), n - 1) == if Bit(value, n - 1) then Pow2(n - 1) else 0;
    }
  }

  lemma {:induction false} BitOfFromMsb(s: seq<bool>, k: nat)
    ensures Bit(FromMsb(s), k) <==> k < |s| && s[|s| - 1 - k]
    decreases |s|
  {
    if s == [] {
      BitZero(k);
    } else {
      var t := s[..|s| - 1];
      assert FromMsb(s) / 2 == FromMsb(t) && (FromMsb(s) % 2 == 1 <==> s[|s| - 1]);
      if k > 0 {
        BitOfFromMsb(t, k - 1);
      }
    }
  }

  /** Reading bits and writing them again gives the same bits. */
  lemma WriteBack(s: seq<bool>)
    ensures MsbFirst(FromMsb(s), |s|) == s
  {
    hide *;
    forall k | 0 <= k < |s| ensures MsbFirst(FromMsb(s), |s|)[k] == s[k] {
      MsbFirstAt(FromMsb(s), |s|, k);
      BitOfFromMsb(s, |s| - 1 - k);
    }
  }

  /** Bits `a` to `b`, from the left, of an `n` bit number. */
  lemma SliceOfNumber(v: nat, n: nat, a: nat, b: nat)
    requires a <= b <= n
    ensures FromMsb(MsbFirst(v, n)[a..b]) == Low(Shr(v, n - b), b - a)
  {
    var s, t := MsbFirst(v, n)[a..b], MsbFirst(Shr(v, n - b), b - a);
    forall k | 0 <= k < |s| ensures s[k] == t[k] {
      MsbFirstAt(v, n, a + k);
      MsbFirstAt(Shr(v, n - b), b - a, k);
      BitShr(v, n - b, b - a - 1 - k);
    }
    assert s == t;
    ReadBack(Shr(v, n - b), b - a);
  }

  lemma {:induction false} StreamOfByte(bytes: seq<Byte>, i: nat)
    requires i < |bytes|
    ensures StreamOf(bytes)[8 * i..8 * i + 8] == MsbFirst(bytes[i], 8)
  {
    if i > 0 {
      StreamOfByte(bytes[1..], i - 1);
      var s := StreamOf(bytes);
      assert s[8..] == StreamOf(bytes[1..]);
      assert s[8 * i..8 * i + 8] == s[8..][8 * (i - 1)..8 * (i - 1) + 8];
    }
  }
}
