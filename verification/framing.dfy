/** The artifact's byte framing: the compressor pads the bit stream to a
    byte boundary, appends a trailer byte holding the pad length and cuts
    the stream into bytes (huffman_coding.py, lines 160-187); the
    decompressor renders each byte back into eight bits (line 209). */
module Framing {
  import opened Bits

  /** Bytes rendered eight bits each, most significant bit first, as the
      compressor's `convert_to_binary_string(b, 8)` emissions. */
  function Serialize(bs: seq<Byte>): (r: seq<Bit>)
    ensures |r| == 8 * |bs|
  {
    if |bs| == 0 then [] else ToBinary(bs[0], 8) + Serialize(bs[1..])
  }

  lemma {:induction false} SerializeAppend(a: seq<Byte>, b: seq<Byte>)
    ensures Serialize(a + b) == Serialize(a) + Serialize(b)
  {
    if |a| == 0 {
      assert a + b == b;
    } else {
      assert (a + b)[1..] == a[1..] + b;
      SerializeAppend(a[1..], b);
    }
  }

  /** `padding_count` (line 165): the zeros that bring a stream of `n` bits
      to a byte boundary. */
  function PaddingCount(n: nat): (p: nat)
    ensures p < 8
    ensures (n + p) % 8 == 0
    ensures n % 8 == 0 <==> p == 0
  {
    (8 - n % 8) % 8
  }

  /** `total_binary` once padded and given its trailer (lines 165-177). The
      test `padding_count < 8` always holds and the later `% 8` changes
      nothing, so neither appears here. */
  function Frame(total: seq<Bit>): (r: seq<Bit>)
    ensures |r| % 8 == 0
    ensures |total| + 8 <= |r| <= |total| + 15
    ensures total <= r
  {
    var p := PaddingCount(|total|);
    total + Zeros(p) + ToBinary(p, 8)
  }

  /** A stream whose padding is `p` is framed by `p` zeros and the
      rendering of `p`. */
  lemma FrameOf(total: seq<Bit>, p: nat)
    requires PaddingCount(|total|) == p
    ensures Frame(total) == total + (Zeros(p) + ToBinary(p, 8))
  {
  }

  /** Adding a multiple of eight keeps the remainder modulo eight. */
  lemma {:induction false} ModShift(h: nat, c: nat)
    requires h % 8 == 0
    ensures (h + c) % 8 == c % 8
    decreases h
  {
    if h > 0 {
      EightStep(h);
      ModShift(h - 8, c);
      assert (h + c) % 8 == (h - 8 + c) % 8;
    }
  }

  /** A byte-aligned front does not change the padding. */
  lemma PaddingShift(h: nat, c: nat)
    requires h % 8 == 0
    ensures PaddingCount(h + c) == PaddingCount(c)
  {
    ModShift(h, c);
  }

  /** Behind a byte-aligned front the padding depends on the rest alone. */
  lemma FrameAfter(head: seq<Bit>, comp: seq<Bit>)
    requires |head| % 8 == 0
    ensures var p := PaddingCount(|comp|);
      Frame(head + comp) == head + ((comp + Zeros(p)) + ToBinary(p, 8))
  {
    var p := PaddingCount(|comp|);
    PaddingShift(|head|, |comp|);
    FrameOf(head + comp, p);
    var z, t := Zeros(p), ToBinary(p, 8);
    assert (head + comp) + (z + t) == head + ((comp + z) + t);
  }

  /** The chunking loop (lines 179-187): `int(total_binary[x:x+8], 2)` for
      x = 0, 8, 16, ...; Python's slice makes the last chunk shorter when
      the length is no multiple of eight. */
  function Pack(bits: seq<Bit>): (r: seq<Byte>)
    decreases |bits|
  {
    if |bits| == 0 then []
    else
      var n := if |bits| < 8 then |bits| else 8;
      ValueBound(bits[..n]);
      Pow2Monotone(n, 8);
      assert Pow2(8) == 256;
      [Value(bits[..n])] + Pack(bits[n..])
  }

  /** A positive multiple of eight less eight is a multiple of eight. */
  lemma EightStep(n: nat)
    requires n % 8 == 0 && n > 0
    ensures n >= 8 && (n - 8) % 8 == 0
  {
  }

  /** One byte per eight bits, the last one possibly short. */
  lemma {:induction false} PackLength(bits: seq<Bit>)
    ensures |bits| <= 8 * |Pack(bits)| < |bits| + 8
    decreases |bits|
  {
    if |bits| > 0 {
      var n := if |bits| < 8 then |bits| else 8;
      PackLength(bits[n..]);
    }
  }

  /** Cutting a rendering of bytes gives the bytes back. */
  lemma {:induction false} PackSerialize(bs: seq<Byte>)
    ensures Pack(Serialize(bs)) == bs
  {
    if |bs| > 0 {
      var s := Serialize(bs);
      assert s[..8] == ToBinary(bs[0], 8) && s[8..] == Serialize(bs[1..]);
      assert Pow2(8) == 256;
      ValueOfToBinary(bs[0], 8);
      PackSerialize(bs[1..]);
    }
  }

  /** Rendering the bytes of a byte-aligned stream gives the stream back. */
  lemma {:induction false} SerializePack(bits: seq<Bit>)
    requires |bits| % 8 == 0
    ensures Serialize(Pack(bits)) == bits
    decreases |bits|
  {
    if |bits| > 0 {
      EightStep(|bits|);
      var head := bits[..8];
      ToBinaryOfValue(head);
      SerializePack(bits[8..]);
      assert bits == head + bits[8..];
    }
  }

  /** A stream of eight bits or more starts with a full byte. */
  lemma PackUnfold(bits: seq<Bit>)
    requires |bits| >= 8
    ensures Pack(bits) == [Value(bits[..8])] + Pack(bits[8..])
  {
  }

  /** A front of eight bits or more gives the first byte of the whole. */
  lemma PackCons(a: seq<Bit>, b: seq<Bit>)
    requires |a| >= 8
    ensures Pack(a + b) == [Value(a[..8])] + Pack(a[8..] + b)
  {
    var ab := a + b;
    PackUnfold(ab);
    assert ab[..8] == a[..8];
    assert ab[8..] == a[8..] + b;
  }

  /** Cutting a byte-aligned front separately from the rest changes nothing. */
  lemma {:induction false} PackAppend(a: seq<Bit>, b: seq<Bit>)
    requires |a| % 8 == 0
    ensures Pack(a + b) == Pack(a) + Pack(b)
    decreases |a|
  {
    if |a| == 0 {
      assert a + b == b;
    } else {
      EightStep(|a|);
      PackCons(a, b);
      PackUnfold(a);
      PackAppend(a[8..], b);
      var x := Value(a[..8]);
      assert [x] + (Pack(a[8..]) + Pack(b)) == ([x] + Pack(a[8..])) + Pack(b);
    }
  }

  /** A list of items of eight bits each. */
  ghost predicate Bytewise(items: seq<seq<Bit>>)
  {
    forall i :: 0 <= i < |items| ==> |items[i]| == 8
  }

  /** The decompressor's `binary_list` (lines 203-211): each byte of the
      file rendered as `bin(b)[2:].zfill(8)`. */
  function Items(file: seq<Byte>): (items: seq<seq<Bit>>)
    ensures |items| == |file|
    ensures forall i :: 0 <= i < |file| ==> items[i] == ToBinary(file[i], 8)
    ensures Bytewise(items)
  {
    AllBytesAgree();
    seq(|file|, i requires 0 <= i < |file| => ByteToBits(file[i]))
  }

  lemma ItemsAppend(a: seq<Byte>, b: seq<Byte>)
    ensures Items(a + b) == Items(a) + Items(b)
  {
    assert forall i :: 0 <= i < |a + b| ==> Items(a + b)[i] == (Items(a) + Items(b))[i];
  }

  /** The items joined into one bit string (lines 249-251). */
  function Flatten(items: seq<seq<Bit>>): seq<Bit>
  {
    if |items| == 0 then [] else items[0] + Flatten(items[1..])
  }

  lemma {:induction false} FlattenAppend(a: seq<seq<Bit>>, b: seq<seq<Bit>>)
    ensures Flatten(a + b) == Flatten(a) + Flatten(b)
  {
    if |a| == 0 {
      assert a + b == b;
    } else {
      assert (a + b)[1..] == a[1..] + b;
      FlattenAppend(a[1..], b);
    }
  }

  /** The decompressor's items, joined, are the compressor's rendering of
      the same bytes. */
  lemma {:induction false} FlattenItems(bs: seq<Byte>)
    ensures Flatten(Items(bs)) == Serialize(bs)
  {
    if |bs| > 0 {
      assert Items(bs)[1..] == Items(bs[1..]);
      FlattenItems(bs[1..]);
    }
  }
}
