/** The bit writer, the byte extractor and the bit reader undo each other. */
module BitRoundTrip {
  import opened BitArrays
  import opened BitSources
  import opened BitStrings
  import opened Bits
  import opened Errors
  import opened Words

  /** A value and how many of its low bits are wanted. */
  datatype Field = Field(value: Word, width: nat)

  ghost predicate Writable(fields: seq<Field>) {
    forall i :: 0 <= i < |fields| ==> fields[i].width <= 32
  }

  /** The bits of all fields, one after the other. */
  ghost function Written(fields: seq<Field>): seq<bool> {
    if fields == [] then []
    else Written(fields[..|fields| - 1]) + MsbFirst(fields[|fields| - 1].value, fields[|fields| - 1].width)
  }

  lemma WrittenNext(fields: seq<Field>, i: nat)
    requires i < |fields|
    ensures Written(fields[..i + 1]) == Written(fields[..i]) + MsbFirst(fields[i].value, fields[i].width)
  {
    assert fields[..i + 1][..i] == fields[..i];
  }

  lemma {:induction false} WrittenIsPrefix(fields: seq<Field>, i: nat)
    requires i <= |fields|
    ensures |Written(fields[..i])| <= |Written(fields)|
    ensures Written(fields)[..|Written(fields[..i])|] == Written(fields[..i])
    decreases |fields| - i
  {
    if i == |fields| {
      assert fields[..i] == fields;
    } else {
      WrittenNext(fields, i);
      WrittenIsPrefix(fields, i + 1);
      var a, b := |Written(fields[..i])|, |Written(fields[..i + 1])|;
      assert Written(fields)[..b][..a] == Written(fields)[..a];
    }
  }

  /** Bytes packed from the bits spell those bits again. */
  lemma StreamOfPackedBytes(ws: seq<Word>, bytes: seq<Byte>)
    requires forall i :: 0 <= i < |bytes| ==> bytes[i] == PackedByte(ws, 8 * i)
    ensures StreamOf(bytes) == BitsOf(ws, 8 * |bytes|)
  {
    hide *;
    var s, t := StreamOf(bytes), BitsOf(ws, 8 * |bytes|);
    LengthOfBits(ws, 8 * |bytes|);
    forall m | 0 <= m < |s| ensures s[m] == t[m] {
      BitOfPackedByte(ws, bytes, m / 8, m % 8);
    }
  }

  lemma LengthOfBits(ws: seq<Word>, n: nat)
    ensures |BitsOf(ws, n)| == n
  {
  }

  lemma BitOfPackedByte(ws: seq<Word>, bytes: seq<Byte>, i: nat, j: nat)
    requires i < |bytes| && j < 8 && bytes[i] == PackedByte(ws, 8 * i)
    ensures StreamOf(bytes)[8 * i + j] == At(ws, 8 * i + j) == BitsOf(ws, 8 * |bytes|)[8 * i + j]
  {
    hide StreamOf, MsbFirst, FromMsb, At;
    StreamOfByte(bytes, i);
    WriteBack(Slice(ws, 8 * i, 8));
    assert StreamOf(bytes)[8 * i..8 * i + 8][j] == Slice(ws, 8 * i, 8)[j];
  }

  /** The part of the stream that holds field `i` spells the low bits of its value. */
  lemma FieldInStream(fields: seq<Field>, stream: seq<bool>, i: nat)
    requires i < |fields|
    requires |Written(fields)| <= |stream| && stream[..|Written(fields)|] == Written(fields)
    ensures var p, q := |Written(fields[..i])|, |Written(fields[..i + 1])|;
            q == p + fields[i].width && q <= |stream| && FromMsb(stream[p..q]) == Low(fields[i].value, fields[i].width)
  {
    hide MsbFirst, FromMsb, Low;
    WrittenNext(fields, i);
    WrittenIsPrefix(fields, i + 1);
    ReadBack(fields[i].value, fields[i].width);
    var p, q := |Written(fields[..i])|, |Written(fields[..i + 1])|;
    assert stream[..|Written(fields)|][..q] == stream[..q];
    assert stream[..q][p..q] == stream[p..q];
    assert Written(fields[..i + 1])[p..q] == MsbFirst(fields[i].value, fields[i].width);
  }

  /** Writes all fields into a fresh array and packs it into as few bytes as hold it. */
  method WriteAll(fields: seq<Field>) returns (out: seq<Byte>)
    requires Writable(fields)
    ensures |out| == (|Written(fields)| + 7) / 8
    ensures StreamOf(out)[..|Written(fields)|] == Written(fields)
    ensures forall k :: |Written(fields)| <= k < |StreamOf(out)| ==> !StreamOf(out)[k]
  {
    hide *;
    var a := WriteBits(fields);
    out := Pack(a);
    PaddedWithZeros(a, out);
  }

  /** As many bytes as hold the bits of `a`. */
  method Pack(a: BitArray) returns (out: seq<Byte>)
    requires a.Clean()
    ensures |out| == (a.size + 7) / 8 && StreamOf(out) == BitsOf(a.bits[..], 8 * |out|)
  {
    hide At, StreamOf, PackedByte, BitsOf;
    BytesFit(a.size, a.bits.Length);
    out := a.ToBytes(0, [], 0, (a.size + 7) / 8);
    StreamOfPackedBytes(a.bits[..], out);
  }

  lemma BytesFit(size: nat, words: nat)
    requires size <= 32 * words
    ensures 8 * ((size + 7) / 8) <= 32 * words
  {
    var n := (size + 7) / 8;
    assert 8 * n <= size + 7;
    assert n < 4 * words + 1;
  }

  /** The fields, one after the other, in a fresh array. */
  method WriteBits(fields: seq<Field>) returns (a: BitArray)
    requires Writable(fields)
    ensures fresh(a) && fresh(a.bits) && a.Clean() && a.Contents() == Written(fields)
  {
    hide At, MsbFirst, Written;
    a := new BitArray();
    NothingWritten();
    var i := 0;
    while i < |fields|
      invariant i <= |fields| && a.Clean() && fresh(a) && fresh(a.bits)
      invariant a.Contents() == Written(fields[..i])
    {
      var _ := a.AppendBits(fields[i].value, fields[i].width);
      WrittenNext(fields, i);
      i := i + 1;
    }
    assert fields[..i] == fields;
  }

  lemma PaddedWithZeros(a: BitArray, out: seq<Byte>)
    requires a.Clean() && |out| == (a.size + 7) / 8 && StreamOf(out) == BitsOf(a.bits[..], 8 * |out|)
    ensures StreamOf(out)[..a.size] == a.Contents()
    ensures forall k :: a.size <= k < |StreamOf(out)| ==> !StreamOf(out)[k]
    ensures |a.Contents()| == a.size
  {
    hide At, StreamOf;
  }

  lemma NothingWritten()
    ensures Written([]) == []
  {
  }

  /** What `WriteAll` wrote is read back field by field; `left[i]` is what is available before field `i`. */
  method ReadAll(bytes: array<Byte>, ghost fields: seq<Field>, widths: seq<nat>)
    returns (values: seq<Word>, left: seq<nat>)
    requires Writable(fields) && |widths| == |fields| && forall i :: 0 <= i < |fields| ==> widths[i] == fields[i].width
    requires |Written(fields)| <= |StreamOf(bytes[..])| && StreamOf(bytes[..])[..|Written(fields)|] == Written(fields)
    ensures |values| == |fields| && |left| == |fields| + 1 && left[0] == 8 * bytes.Length
    ensures forall i :: 0 <= i < |fields| ==> values[i] == Low(fields[i].value, fields[i].width)
    ensures forall i :: 0 <= i < |fields| ==> left[i + 1] == left[i] - fields[i].width
  {
    hide Low, FromMsb, StreamOf, Written;
    NothingWritten();
    var source := new BitSource(bytes);
    values, left := [], [source.Available()];
    while |values| < |widths|
      invariant |values| <= |widths| && source.Valid() && fresh(source) && source.bytes == bytes
      invariant source.Position() == |Written(fields[..|values|])|
      invariant forall i :: 0 <= i < |values| ==> values[i] == Low(fields[i].value, fields[i].width)
      invariant |left| == |values| + 1 && left[0] == 8 * bytes.Length && left[|values|] == source.Available()
      invariant forall i :: 0 <= i < |values| ==> left[i + 1] == left[i] - fields[i].width
    {
      FieldInStream(fields, StreamOf(bytes[..]), |values|);
      var o, v := source.ReadBits(widths[|values|]);
      assert o.Ok?;
      values, left := values + [v], left + [source.Available()];
    }
  }

  /** Writing fields, packing them into bytes and reading them back yields the low bits of each. */
  method WriteThenRead(fields: seq<Field>) returns (values: seq<Word>)
    requires Writable(fields)
    ensures |values| == |fields|
    ensures forall i :: 0 <= i < |fields| ==> values[i] == Low(fields[i].value, fields[i].width)
  {
    hide Low, FromMsb, StreamOf, Written;
    var out := WriteAll(fields);
    var bytes := new Byte[|out|](i requires 0 <= i < |out| => out[i]);
    assert bytes[..] == out;
    var widths := seq(|fields|, i requires 0 <= i < |fields| => fields[i].width);
    var left;
    values, left := ReadAll(bytes, fields, widths);
  }
}
