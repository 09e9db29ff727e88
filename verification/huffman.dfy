/** The compressor and the decompressor end to end (huffman_coding.py,
    lines 49-265, without the file access and the diagnostics). */
module Huffman {
  import opened Bits
  import opened Results
  import opened Frequency
  import opened HuffmanTree
  import opened CodeBook
  import opened Framing
  import opened KeyTable
  import opened Decoder

  /** The root of the tree `compress` builds for a non-empty text (lines
      58-107): it names every distinct character once and weighs the
      length of the text. */
  function Tree(text: seq<Octet>): (root: Node)
    requires |text| > 0
    ensures multiset(Name(root)) == multiset(Syms(InitialOrder(text)))
    ensures root.value == |text|
    ensures WellFormed(root)
  {
    var order := InitialOrder(text);
    assert text[0] in Syms(order);
    InitialNodesSpec(order);
    BuildSpec(InitialNodes(order));
    Build(InitialNodes(order))
  }

  /** `binary_characters` (line 111): one code per distinct character of
      the text, forming a prefix code. */
  function Codes(text: seq<Octet>): (cs: seq<Code>)
    requires |text| > 0
    ensures NoDup(CodeSyms(cs))
    ensures forall c :: c in CodeSyms(cs) <==> c in text
    ensures PrefixFree(cs)
  {
    var root := Tree(text);
    GenerateBinaryPrefixFree(root, []);
    var cs := GenerateBinary(root, []);
    var order := InitialOrder(text);
    assert forall c :: c in CodeSyms(cs) <==> c in multiset(Syms(order));
    cs
  }

  /** A sequence holding two different values has two elements or more. */
  lemma TwoSyms(s: seq<Octet>, x: Octet, y: Octet)
    requires x in s && y in s && x != y
    ensures |s| >= 2
  {
  }

  /** A text with two distinct characters sorts into two entries or more. */
  lemma {:induction false} TwoEntries(text: seq<Octet>, i: int, j: int)
    requires 0 <= i < |text| && 0 <= j < |text| && text[i] != text[j]
    ensures |InitialOrder(text)| >= 2
  {
    var order := InitialOrder(text);
    assert text[i] in text && text[j] in text;
    TwoSyms(Syms(order), text[i], text[j]);
  }

  /** With two distinct characters or more every code is non-empty. */
  lemma {:induction false} CodesNonEmpty(text: seq<Octet>, i: int, j: int)
    requires 0 <= i < |text| && 0 <= j < |text| && text[i] != text[j]
    ensures forall k :: 0 <= k < |Codes(text)| ==> |Codes(text)[k].bits| >= 1
  {
    TwoEntries(text, i, j);
    var order := InitialOrder(text);
    InitialNodesSpec(order);
    BuildMerged(InitialNodes(order));
  }

  /** A duplicate-free list of entries all for one character has one entry. */
  lemma {:induction false} LoneOrder(order: seq<Entry>, c: Octet)
    requires NoDup(Syms(order)) && c in Syms(order)
    requires forall x :: x in Syms(order) ==> x == c
    ensures |order| == 1 && order[0].sym == c
  {
    var s := Syms(order);
    assert s[0] in s;
    if |order| >= 2 {
      assert s[1] in s;
      NoDupDistinct(s, 0, 1);
    }
  }

  /** A text of one repeated character gets the single code "" (line 111
      on a lone leaf). */
  lemma {:induction false} CodesLone(text: seq<Octet>)
    requires |text| > 0 && forall k :: 0 <= k < |text| ==> text[k] == text[0]
    ensures Codes(text) == [Code(text[0], [])]
  {
    var order := InitialOrder(text);
    assert text[0] in text;
    LoneOrder(order, text[0]);
    assert InitialNodes(order) == [Leaf(order[0].sym, order[0].count)];
  }

  /** A prefix code of non-empty codes whose characters are no marker
      characters can be carried by the table. */
  lemma TransmittableCodes(cs: seq<Code>, text: seq<Octet>)
    requires PrefixFree(cs)
    requires forall k :: 0 <= k < |cs| ==> |cs[k].bits| >= 1
    requires forall c :: c in CodeSyms(cs) ==> c in text
    requires forall c :: c in text ==> !Reserved(c)
    ensures Transmittable(cs)
  {
    forall k | 0 <= k < |cs|
      ensures !Reserved(cs[k].sym)
    {
      assert cs[k].sym == CodeSyms(cs)[k];
    }
  }

  /** The codes of a text with two distinct characters or more and no
      marker character can be carried by the table. */
  lemma {:induction false} CodesTransmittable(text: seq<Octet>, i: int, j: int)
    requires 0 <= i < |text| && 0 <= j < |text| && text[i] != text[j]
    requires forall c :: c in text ==> !Reserved(c)
    ensures Transmittable(Codes(text))
  {
    CodesNonEmpty(text, i, j);
    TransmittableCodes(Codes(text), text);
  }

  /** `compress` (lines 49-198) without the file access: the table, the
      terminator byte and the encoded text, padded, given the trailer and
      cut into bytes. An empty text fails at `nodes[0]` (line 107). */
  function Compress(text: seq<Octet>): (r: Result<seq<Byte>>)
    ensures r.Err? <==> |text| == 0
    ensures r.Err? ==> r.error == EmptyText
    ensures r.Ok? ==> |r.value| >= 2
  {
    if |text| == 0 then Err(EmptyText)
    else
      var cs := Codes(text);
      var framed := Frame(BinaryKey(cs) + Zeros(8) + EncodeText(ToDict(cs), text));
      PackLength(framed);
      Ok(Pack(framed))
  }

  lemma ModEight(m: nat, c: nat)
    ensures (8 * m + c) % 8 == c % 8
  {
  }

  /** The terminator is the rendering of the zero byte. */
  lemma ZerosAreZeroByte()
    ensures Zeros(8) == Serialize([0])
  {
    ZeroItemBits();
    assert Serialize([0]) == ToBinary(0, 8) + Serialize([]);
  }

  /** The table's rendering and the zero byte's form the byte-aligned
      front of the stream, so the padding depends on the payload alone. */
  lemma {:induction false} FrontAligned(kb: seq<Byte>, comp: seq<Bit>)
    ensures Serialize(kb) + Zeros(8) + comp == Serialize(kb + [0]) + comp
    ensures PaddingCount(|Serialize(kb) + Zeros(8) + comp|) == PaddingCount(|comp|)
  {
    ZerosAreZeroByte();
    SerializeAppend(kb, [0]);
    ModEight(|kb| + 1, |comp|);
  }

  /** Cutting an aligned front, a payload padded to alignment and a trailer
      byte into bytes. */
  lemma {:induction false} PackFramed(front: seq<Byte>, body: seq<Bit>, p: Byte)
    requires |body| % 8 == 0
    ensures Pack(Serialize(front) + (body + ToBinary(p, 8))) == front + Pack(body) + [p]
  {
    var trailer := ToBinary(p, 8);
    PackAppend(Serialize(front), body + trailer);
    PackSerialize(front);
    PackAppend(body, trailer);
    assert trailer == Serialize([p]) by {
      assert Serialize([p]) == ToBinary(p, 8) + Serialize([]);
    }
    PackSerialize([p]);
  }

  /** Padding, trailer and chunking of a byte-aligned table, the zero byte
      and a payload give the table's bytes, the zero byte, the padded
      payload's bytes and the pad count. */
  lemma {:induction false} FramedFile(kb: seq<Byte>, comp: seq<Bit>)
    ensures var p := PaddingCount(|comp|);
      Pack(Frame(Serialize(kb) + Zeros(8) + comp)) == kb + [0] + Pack(comp + Zeros(p)) + [p]
  {
    var p := PaddingCount(|comp|);
    var head := Serialize(kb + [0]);
    assert Serialize(kb) + Zeros(8) + comp == head + comp by {
      FrontAligned(kb, comp);
    }
    FrameAfter(head, comp);
    PackFramed(kb + [0], comp + Zeros(p), p);
  }

  /** The file the compressor writes for codes `cs` and payload `comp`:
      the table, the zero byte, the payload padded to a byte boundary, and
      the pad count. */
  function Layout(cs: seq<Code>, comp: seq<Bit>): (file: seq<Byte>)
    ensures KeyBytes(cs) + [0] <= file
  {
    var p := PaddingCount(|comp|);
    KeyBytes(cs) + [0] + Pack(comp + Zeros(p)) + [p]
  }

  /** The bytes `compress` writes, for a text with two distinct characters
      or more. */
  lemma {:induction false} CompressLayout(text: seq<Octet>, i: int, j: int)
    requires 0 <= i < |text| && 0 <= j < |text| && text[i] != text[j]
    ensures Compress(text) == Ok(Layout(Codes(text), EncodeText(ToDict(Codes(text)), text)))
  {
    var cs := Codes(text);
    CodesNonEmpty(text, i, j);
    KeyShape(cs);
    FramedFile(KeyBytes(cs), EncodeText(ToDict(cs), text));
  }

  /** What the decompressor makes of such a file: it finds the table,
      pops the trailer, strips the padding and walks the rest. */
  lemma {:induction false} DecompressLayout(cs: seq<Code>, body: seq<Bit>, p: nat, asWritten: bool)
    requires Transmittable(cs) && |cs| >= 1
    requires |body| >= 1 && |body| % 8 == 0 && p < 8
    ensures var file := KeyBytes(cs) + [0] + Pack(body) + [p];
      var t := ParseKey(Items(file));
      && t.boundary == |KeyBytes(cs)|
      && (forall i :: 0 <= i < |cs| ==> cs[i].bits in t.dict && t.dict[cs[i].bits] == [cs[i].sym])
      && (forall key :: key in t.dict ==> key == [] || exists i :: 0 <= i < |cs| && key == cs[i].bits)
      && DecompressBy(file, asWritten) == Ok(Walk(t.dict, Unpad(Items(Pack(body)), p, asWritten), []))
  {
    var kb := KeyBytes(cs);
    var tail := Pack(body) + [p];
    var file := kb + [0] + tail;
    assert KeyBytes(cs) + [0] + Pack(body) + [p] == file;
    ParseKeyOfTable(cs, tail);
    var items := Items(file);
    ItemsAppend(kb + [0], tail);
    ItemsAppend(Pack(body), [p]);
    var payload := items[|kb| + 1..];
    assert payload == Items(Pack(body)) + Items([p]);
    assert Pow2(8) == 256;
    ValueOfToBinary(p, 8);
    assert payload[..|payload| - 1] == Items(Pack(body));
  }

  /** No shorter non-empty prefix of a code of a prefix code is a key of a
      table whose keys are the codes and the empty code. */
  lemma NoShorterKey(cs: seq<Code>, dict: map<seq<Bit>, seq<Octet>>, i: int)
    requires PrefixFree(cs) && 0 <= i < |cs|
    requires forall key :: key in dict ==> key == [] || exists m :: 0 <= m < |cs| && key == cs[m].bits
    ensures forall j :: 1 <= j < |cs[i].bits| ==> cs[i].bits[..j] !in dict
  {
    var w := cs[i].bits;
    forall j | 1 <= j < |w|
      ensures w[..j] !in dict
    {
      forall m | 0 <= m < |cs|
        ensures w[..j] != cs[m].bits
      {
        if m != i {
          assert !(cs[m].bits <= cs[i].bits);
        }
      }
    }
  }

  /** The decoder's table and the encoder's table fit together. */
  lemma CodesDecodable(cs: seq<Code>, dict: map<seq<Bit>, seq<Octet>>)
    requires PrefixFree(cs) && NoDup(CodeSyms(cs))
    requires forall i :: 0 <= i < |cs| ==> |cs[i].bits| >= 1
    requires forall i :: 0 <= i < |cs| ==> cs[i].bits in dict && dict[cs[i].bits] == [cs[i].sym]
    requires forall key :: key in dict ==> key == [] || exists i :: 0 <= i < |cs| && key == cs[i].bits
    ensures Decodable(dict, ToDict(cs))
  {
    var enc := ToDict(cs);
    ToDictDistinct(cs);
    forall c | c in enc
      ensures |enc[c]| >= 1 && enc[c] in dict && dict[enc[c]] == [c]
      ensures forall j :: 1 <= j < |enc[c]| ==> enc[c][..j] !in dict
    {
      var i :| 0 <= i < |cs| && CodeSyms(cs)[i] == c;
      assert enc[c] == cs[i].bits;
      NoShorterKey(cs, dict, i);
    }
  }

  /** The encoder's table covers the text with non-empty codes, so the
      encoding is at least as long as the text. */
  lemma {:induction false} EncodeCovered(cs: seq<Code>, text: seq<Octet>)
    requires Transmittable(cs) && NoDup(CodeSyms(cs))
    requires forall c :: c in text ==> c in CodeSyms(cs)
    ensures forall c :: c in text ==> c in ToDict(cs) && |ToDict(cs)[c]| >= 1
    ensures |EncodeText(ToDict(cs), text)| >= |text|
  {
    var enc := ToDict(cs);
    ToDictDistinct(cs);
    forall c | c in text
      ensures |enc[c]| >= 1
    {
      var k :| 0 <= k < |cs| && CodeSyms(cs)[k] == c;
    }
    EncodeTextLength(enc, text);
  }

  /** The parse of such a file recovers the table of `cs`. */
  lemma {:induction false} LayoutKeys(cs: seq<Code>, comp: seq<Bit>)
    requires Transmittable(cs) && |cs| >= 1
    ensures var t := ParseKey(Items(Layout(cs, comp)));
      && (forall i :: 0 <= i < |cs| ==> cs[i].bits in t.dict && t.dict[cs[i].bits] == [cs[i].sym])
      && (forall key :: key in t.dict ==> key == [] || exists i :: 0 <= i < |cs| && key == cs[i].bits)
  {
    var p := PaddingCount(|comp|);
    var rest := Pack(comp + Zeros(p)) + [p];
    assert Layout(cs, comp) == KeyBytes(cs) + [0] + rest;
    ParseKeyOfTable(cs, rest);
  }

  /** The corrected decompressor on such a file walks exactly the payload. */
  lemma {:induction false} LayoutWalk(cs: seq<Code>, comp: seq<Bit>)
    requires Transmittable(cs) && |cs| >= 1 && |comp| >= 1
    ensures DecompressCorrected(Layout(cs, comp)) == Ok(Walk(ParseKey(Items(Layout(cs, comp))).dict, comp, []))
  {
    var p := PaddingCount(|comp|);
    DecompressLayout(cs, comp + Zeros(p), p, false);
    UnpadPacked(comp, p);
  }

  /** A file holding the table of a prefix code (non-marker characters,
      non-empty codes), the zero byte, and the padded encoding of a
      non-empty text with its pad count decompresses, with the corrected
      strip, to the text. */
  lemma {:induction false} FileRoundTrip(cs: seq<Code>, text: seq<Octet>)
    requires Transmittable(cs) && PrefixFree(cs) && NoDup(CodeSyms(cs))
    requires |text| >= 1 && forall c :: c in text ==> c in CodeSyms(cs)
    ensures DecompressCorrected(Layout(cs, EncodeText(ToDict(cs), text))) == Ok(text)
  {
    var comp := EncodeText(ToDict(cs), text);
    assert text[0] in CodeSyms(cs);
    EncodeCovered(cs, text);
    LayoutWalk(cs, comp);
    LayoutKeys(cs, comp);
    var t := ParseKey(Items(Layout(cs, comp)));
    CodesDecodable(cs, t.dict);
    WalkText(t.dict, ToDict(cs), text);
  }

  /** Decompressing what the compressor writes with the corrected strip
      gives the text back, for a text with two distinct characters or more
      none of which is a marker character. */
  lemma {:induction false} RoundTrip(text: seq<Octet>, i: int, j: int)
    requires 0 <= i < |text| && 0 <= j < |text| && text[i] != text[j]
    requires forall c :: c in text ==> !Reserved(c)
    ensures Compress(text).Ok?
    ensures DecompressCorrected(Compress(text).value) == Ok(text)
  {
    CodesTransmittable(text, i, j);
    CompressLayout(text, i, j);
    FileRoundTrip(Codes(text), text);
  }

  /** Encoding with nothing but empty codes gives no bits. */
  lemma {:induction false} EncodeTextEmpty(enc: map<Octet, seq<Bit>>, text: seq<Octet>)
    requires forall c :: c in text ==> c in enc && enc[c] == []
    ensures EncodeText(enc, text) == []
  {
    if |text| > 0 {
      EncodeTextEmpty(enc, text[1..]);
    }
  }

  /** A table followed by an empty payload is framed as the table, the
      zero byte and the trailer 0. */
  lemma {:induction false} LoneFrame(kb: seq<Byte>)
    ensures Pack(Frame(Serialize(kb) + Zeros(8) + [])) == kb + [0] + [0]
  {
    FramedFile(kb, []);
    assert [] + Zeros(0) == [];
  }

  /** Once the trailer of such a file is popped no payload item is left. */
  lemma {:induction false} LoneDecompress(kb: seq<Byte>)
    requires 0 !in kb
    ensures Decompress(kb + [0] + [0]) == Err(NoPayload)
    ensures DecompressCorrected(kb + [0] + [0]) == Err(NoPayload)
  {
    var file := kb + [0] + [0];
    ScanItems(file, Start);
    ScanStops(kb, [0], Start);
    assert Items(file)[|kb| + 1..] == [Items(file)[|kb| + 1]];
  }

  /** The table bytes written for a lone character with the empty code:
      the character alone, or `:` and the divider when it is `:`. */
  function LoneKeyBytes(c: Octet): (kb: seq<Byte>)
    ensures c as int != 0 ==> 0 !in kb
  {
    if c == ':' then [':' as int, Divider] else [c as int]
  }

  /** A text of one repeated character encodes to no bits at all. */
  lemma {:induction false} LonePayload(text: seq<Octet>)
    requires |text| > 0 && forall k :: 0 <= k < |text| ==> text[k] == text[0]
    ensures Codes(text) == [Code(text[0], [])]
    ensures EncodeText(ToDict(Codes(text)), text) == []
  {
    CodesLone(text);
    LoneDict(text[0]);
    EncodeTextEmpty(map[text[0] := []], text);
  }

  lemma LoneDict(c: Octet)
    ensures ToDict([Code(c, [])]) == map[c := []]
  {
    assert [Code(c, [])][..0] == [];
  }

  /** The table of a lone character with the empty code renders its lone
      table bytes. */
  lemma {:induction false} LoneBinaryKey(c: Octet)
    ensures BinaryKey([Code(c, [])]) == Serialize(LoneKeyBytes(c))
  {
    LoneKey(c);
  }

  /** The file for a text of one repeated character: its lone table entry,
      the zero byte and the trailer 0, with no payload between. */
  lemma {:induction false} LoneCompress(text: seq<Octet>)
    requires |text| > 0 && forall k :: 0 <= k < |text| ==> text[k] == text[0]
    ensures Compress(text) == Ok(LoneKeyBytes(text[0]) + [0] + [0])
  {
    LonePayload(text);
    LoneBinaryKey(text[0]);
    LoneFrame(LoneKeyBytes(text[0]));
  }

  /** A text of one repeated character other than `chr(0)` gets the empty
      code and an empty payload: after the trailer is popped no item is
      left (line 245), whichever strip is used. */
  lemma {:induction false} SingleSymbolFails(text: seq<Octet>)
    requires |text| > 0 && forall k :: 0 <= k < |text| ==> text[k] == text[0]
    requires text[0] as int != 0
    ensures Compress(text).Ok?
    ensures Decompress(Compress(text).value) == Err(NoPayload)
    ensures DecompressCorrected(Compress(text).value) == Err(NoPayload)
  {
    LoneCompress(text);
    LoneDecompress(LoneKeyBytes(text[0]));
  }

  /** A table without a non-empty code emits nothing, whatever the bits. */
  lemma {:induction false} WalkNoCodes(dict: map<seq<Bit>, seq<Octet>>, bits: seq<Bit>, curr: seq<Bit>)
    requires forall key :: key in dict ==> key == []
    ensures Walk(dict, bits, curr) == []
    decreases |bits|
  {
    if |bits| > 0 {
      assert curr + [bits[0]] !in dict;
      WalkNoCodes(dict, bits[1..], curr + [bits[0]]);
    }
  }

  lemma FlattenOne(x: seq<Bit>)
    ensures Flatten([x]) == x
  {
  }

  /** The file [0, 0, 0] renders as three zero items, and its table ends
      at the first one, holding only the empty code. */
  lemma {:induction false} ZeroFileTable()
    ensures Items([0, 0, 0]) == [ZeroItem, ZeroItem, ZeroItem]
    ensures ParseKey(Items([0, 0, 0])) == Table(map[[] := []], 0)
  {
    var file: seq<Byte> := [0, 0, 0];
    ZeroItemBits();
    ScanItems(file, Start);
    ScanStops([], [0, 0], Start);
    assert [] + [0] + [0, 0] == file;
  }

  /** The file [0, 0, 0]: the first byte ends the table at once, the last
      is the trailer 0, and the one payload item walks to nothing under
      either strip, so both decompressors return the empty text. */
  lemma {:induction false} ZeroFileDecodes()
    ensures Decompress([0, 0, 0]) == Ok([])
    ensures DecompressCorrected([0, 0, 0]) == Ok([])
  {
    ZeroFileTable();
    var items := Items([0, 0, 0]);
    assert items[1..] == [ZeroItem, ZeroItem];
    assert Value(ZeroItem) == 0 by {
      ZeroItemBits();
      ValueOfToBinary(0, 8);
    }
    WalkNoCodes(map[[] := []], ZeroItem, []);
    assert Unpad([ZeroItem], 0, true) == [] by {
      assert [ZeroItem][..0] + [[]] == [[]];
      FlattenOne([]);
    }
    assert Unpad([ZeroItem], 0, false) == ZeroItem by {
      assert [ZeroItem][..0] + [ZeroItem] == [ZeroItem];
      FlattenOne(ZeroItem);
    }
  }

  /** The table of `chr(0)` is the byte 0 itself. */
  lemma ZeroKeyFile(c: Octet)
    requires c as int == 0
    ensures LoneKeyBytes(c) + [0] + [0] == [0, 0, 0]
  {
  }

  /** A text made only of `chr(0)` does not fail: its table byte is itself
      the terminator, and the file [0, 0, 0] silently decompresses to the
      empty text. */
  lemma {:induction false} ZeroTextDecodesEmpty(text: seq<Octet>)
    requires |text| > 0 && forall k :: 0 <= k < |text| ==> text[k] == text[0]
    requires text[0] as int == 0
    ensures Compress(text) == Ok([0, 0, 0])
    ensures Decompress(Compress(text).value) == Ok([])
    ensures DecompressCorrected(Compress(text).value) == Ok([])
  {
    LoneCompress(text);
    ZeroKeyFile(text[0]);
    ZeroFileDecodes();
  }

  /** The decompressor as written on such a file whose payload needed no
      padding: `[:-0]` empties the last payload item, so the walk sees the
      payload without its last eight bits. */
  lemma {:induction false} LayoutWalkAsWritten(cs: seq<Code>, comp: seq<Bit>)
    requires Transmittable(cs) && |cs| >= 1 && |comp| >= 8 && |comp| % 8 == 0
    ensures Decompress(Layout(cs, comp)) == Ok(Walk(ParseKey(Items(Layout(cs, comp))).dict, comp[..|comp| - 8], []))
  {
    assert comp + Zeros(0) == comp;
    DecompressLayout(cs, comp, 0, true);
    UnpadAligned(comp);
  }

  /** A table the parse recovered from a prefix code walks any prefix of
      the encoding of a text into a prefix of the text, a proper one
      unless the walk sees every bit. */
  lemma {:induction false} DecodedPrefix(cs: seq<Code>, text: seq<Octet>, dict: map<seq<Bit>, seq<Octet>>, m: nat)
    requires Transmittable(cs) && PrefixFree(cs) && NoDup(CodeSyms(cs))
    requires forall c :: c in text ==> c in CodeSyms(cs)
    requires forall i :: 0 <= i < |cs| ==> cs[i].bits in dict && dict[cs[i].bits] == [cs[i].sym]
    requires forall key :: key in dict ==> key == [] || exists i :: 0 <= i < |cs| && key == cs[i].bits
    requires m < |EncodeText(ToDict(cs), text)|
    ensures Walk(dict, EncodeText(ToDict(cs), text)[..m], []) < text
  {
    CodesDecodable(cs, dict);
    WalkPrefix(dict, ToDict(cs), text, m);
  }

  /** The payload of a non-empty text is at least one byte long when it is
      byte-aligned. */
  lemma {:induction false} AlignedPayload(cs: seq<Code>, text: seq<Octet>)
    requires Transmittable(cs) && NoDup(CodeSyms(cs))
    requires |text| >= 1 && forall c :: c in text ==> c in CodeSyms(cs)
    requires |EncodeText(ToDict(cs), text)| % 8 == 0
    ensures |EncodeText(ToDict(cs), text)| >= 8
    ensures |cs| >= 1
  {
    assert text[0] in CodeSyms(cs);
    EncodeCovered(cs, text);
  }

  /** The decompressor as written, on the file for a non-empty text whose
      encoding is a multiple of eight bits long, walks the encoding without
      its last eight bits. */
  lemma {:induction false} FileAsWritten(cs: seq<Code>, text: seq<Octet>)
    requires Transmittable(cs) && PrefixFree(cs) && NoDup(CodeSyms(cs))
    requires |text| >= 1 && forall c :: c in text ==> c in CodeSyms(cs)
    requires |EncodeText(ToDict(cs), text)| % 8 == 0
    ensures var comp := EncodeText(ToDict(cs), text);
      && |comp| >= 8
      && Decompress(Layout(cs, comp)) == Ok(Walk(ParseKey(Items(Layout(cs, comp))).dict, comp[..|comp| - 8], []))
  {
    AlignedPayload(cs, text);
    LayoutWalkAsWritten(cs, EncodeText(ToDict(cs), text));
  }

  /** That walk emits a proper prefix of the text. */
  lemma {:induction false} FileAsWrittenPrefix(cs: seq<Code>, text: seq<Octet>)
    requires Transmittable(cs) && PrefixFree(cs) && NoDup(CodeSyms(cs))
    requires |text| >= 1 && forall c :: c in text ==> c in CodeSyms(cs)
    requires |EncodeText(ToDict(cs), text)| % 8 == 0
    ensures var comp := EncodeText(ToDict(cs), text);
      && |comp| >= 8
      && Walk(ParseKey(Items(Layout(cs, comp))).dict, comp[..|comp| - 8], []) < text
  {
    var comp := EncodeText(ToDict(cs), text);
    var dict := ParseKey(Items(Layout(cs, comp))).dict;
    assert |comp| >= 8 && |cs| >= 1 by {
      AlignedPayload(cs, text);
    }
    assert Walk(dict, comp[..|comp| - 8], []) < text by {
      LayoutKeys(cs, comp);
      DecodedPrefix(cs, text, dict, |comp| - 8);
    }
  }

  /** Together: the decompressor as written returns a proper prefix of
      the text. */
  lemma {:induction false} FileLosesText(cs: seq<Code>, text: seq<Octet>)
    requires Transmittable(cs) && PrefixFree(cs) && NoDup(CodeSyms(cs))
    requires |text| >= 1 && forall c :: c in text ==> c in CodeSyms(cs)
    requires |EncodeText(ToDict(cs), text)| % 8 == 0
    ensures Decompress(Layout(cs, EncodeText(ToDict(cs), text))).Ok?
    ensures Decompress(Layout(cs, EncodeText(ToDict(cs), text))).value < text
  {
    FileAsWritten(cs, text);
    FileAsWrittenPrefix(cs, text);
  }

  /** The decompressor as written loses text whenever the encoded text is
      a multiple of eight bits long: it returns a proper prefix of the
      text, where the corrected one returns the text itself. */
  lemma {:induction false} AsWrittenLosesText(text: seq<Octet>, i: int, j: int)
    requires 0 <= i < |text| && 0 <= j < |text| && text[i] != text[j]
    requires forall c :: c in text ==> !Reserved(c)
    requires |EncodeText(ToDict(Codes(text)), text)| % 8 == 0
    ensures Compress(text).Ok?
    ensures Decompress(Compress(text).value).Ok?
    ensures Decompress(Compress(text).value).value < text
  {
    CodesTransmittable(text, i, j);
    CompressLayout(text, i, j);
    FileLosesText(Codes(text), text);
  }

  /** On such a file whose payload needed padding the two strips agree,
      so the decompressor as written returns what the corrected one does. */
  lemma {:induction false} LayoutUnaligned(cs: seq<Code>, comp: seq<Bit>)
    requires |comp| % 8 != 0
    ensures Decompress(Layout(cs, comp)) == DecompressCorrected(Layout(cs, comp))
  {
    DecompressAgree(Layout(cs, comp));
  }

  /** The program as written round-trips a text with two distinct
      characters or more, none of them a marker, whenever its encoding is
      no multiple of eight bits long. */
  lemma {:induction false} RoundTripAsWritten(text: seq<Octet>, i: int, j: int)
    requires 0 <= i < |text| && 0 <= j < |text| && text[i] != text[j]
    requires forall c :: c in text ==> !Reserved(c)
    requires |EncodeText(ToDict(Codes(text)), text)| % 8 != 0
    ensures Compress(text).Ok?
    ensures Decompress(Compress(text).value) == Ok(text)
  {
    var cs := Codes(text);
    RoundTrip(text, i, j);
    CodesTransmittable(text, i, j);
    CompressLayout(text, i, j);
    assert text[i] in CodeSyms(cs);
    LayoutUnaligned(cs, EncodeText(ToDict(cs), text));
  }

  /** For such a text the program as written returns the text exactly when
      its encoding is no multiple of eight bits long. */
  lemma {:induction false} AsWrittenRoundTripIff(text: seq<Octet>, i: int, j: int)
    requires 0 <= i < |text| && 0 <= j < |text| && text[i] != text[j]
    requires forall c :: c in text ==> !Reserved(c)
    ensures Compress(text).Ok?
    ensures Decompress(Compress(text).value) == Ok(text) <==> |EncodeText(ToDict(Codes(text)), text)| % 8 != 0
  {
    if |EncodeText(ToDict(Codes(text)), text)| % 8 == 0 {
      AsWrittenLosesText(text, i, j);
    } else {
      RoundTripAsWritten(text, i, j);
    }
  }

  /** A duplicate-free list of entries for exactly two characters has two
      entries. */
  lemma {:induction false} TwoOrder(order: seq<Entry>, x: Octet, y: Octet)
    requires NoDup(Syms(order)) && x in Syms(order) && y in Syms(order) && x != y
    requires forall z :: z in Syms(order) ==> z == x || z == y
    ensures |order| == 2
  {
    var s := Syms(order);
    TwoSyms(s, x, y);
    if |order| >= 3 {
      assert s[0] in s && s[1] in s && s[2] in s;
      NoDupDistinct(s, 0, 1);
      NoDupDistinct(s, 0, 2);
      NoDupDistinct(s, 1, 2);
    }
  }

  /** A leaf yields its character with the code built so far. */
  lemma LeafCode(n: Node, start: seq<Bit>)
    requires n.Leaf?
    ensures GenerateBinary(n, start) == [Code(n.sym, start)]
  {
  }

  /** Two leaves merge into one node whose two codes are one bit long. */
  lemma {:induction false} TwoLeavesCodes(nodes: seq<Node>)
    requires |nodes| == 2 && nodes[0].Leaf? && nodes[1].Leaf?
    ensures forall k :: 0 <= k < |GenerateBinary(Build(nodes), [])| ==> |GenerateBinary(Build(nodes), [])[k].bits| == 1
  {
    var merged := Merge(nodes[1], nodes[0]);
    assert Step(nodes) == [merged];
    assert Build(nodes) == Build([merged]) == merged;
    LeafCode(nodes[1], [] + ['0']);
    LeafCode(nodes[0], [] + ['1']);
    assert GenerateBinary(merged, []) == [Code(nodes[1].sym, [] + ['0']), Code(nodes[0].sym, [] + ['1'])];
  }

  /** With exactly two distinct characters both codes are one bit long. */
  lemma {:induction false} TwoSymbolCodes(text: seq<Octet>, x: Octet, y: Octet)
    requires x != y && x in text && y in text
    requires forall c :: c in text ==> c == x || c == y
    ensures forall k :: 0 <= k < |Codes(text)| ==> |Codes(text)[k].bits| == 1
  {
    var order := InitialOrder(text);
    TwoOrder(order, x, y);
    TwoLeavesCodes(InitialNodes(order));
  }

  /** A text with exactly three distinct characters sorts into three entries. */
  lemma {:induction false} ThreeOrder(order: seq<Entry>, x: Octet, y: Octet, z: Octet)
    requires NoDup(Syms(order)) && x in Syms(order) && y in Syms(order) && z in Syms(order)
    requires x != y && x != z && y != z
    requires forall w :: w in Syms(order) ==> w == x || w == y || w == z
    ensures |order| == 3
  {
    var s := Syms(order);
    var i :| 0 <= i < |s| && s[i] == x;
    var j :| 0 <= j < |s| && s[j] == y;
    var k :| 0 <= k < |s| && s[k] == z;
    if |order| >= 4 {
      assert s[0] in s && s[1] in s && s[2] in s && s[3] in s;
      NoDupDistinct(s, 0, 1);
      NoDupDistinct(s, 0, 2);
      NoDupDistinct(s, 0, 3);
      NoDupDistinct(s, 1, 2);
      NoDupDistinct(s, 1, 3);
      NoDupDistinct(s, 2, 3);
    }
  }

  /** Three leaves: the two last merge first, so the first leaf's code is
      one bit long and the other two codes two bits long, wherever the
      merged node is inserted (lines 96-104). */
  lemma {:induction false} ThreeLeavesCodes(nodes: seq<Node>)
    requires |nodes| == 3 && nodes[0].Leaf? && nodes[1].Leaf? && nodes[2].Leaf?
    requires nodes[0].sym != nodes[1].sym && nodes[0].sym != nodes[2].sym
    ensures var cs := GenerateBinary(Build(nodes), []);
      forall k :: 0 <= k < |cs| ==> |cs[k].bits| == (if cs[k].sym == nodes[0].sym then 1 else 2)
  {
    var a, b, c := nodes[0], nodes[1], nodes[2];
    var m := Merge(c, b);
    assert nodes[..1] == [a];
    assert Step(nodes) == Insert([a], m);
    if a.value <= m.value {
      assert Step(nodes) == [m, a];
      var root := Merge(a, m);
      assert Step([m, a]) == [root];
      assert Build(nodes) == Build([m, a]) == Build([root]) == root;
      LeafCode(a, [] + ['0']);
      LeafCode(c, ([] + ['1']) + ['0']);
      LeafCode(b, ([] + ['1']) + ['1']);
      assert GenerateBinary(root, []) == [Code(a.sym, [] + ['0']), Code(c.sym, ([] + ['1']) + ['0']), Code(b.sym, ([] + ['1']) + ['1'])];
    } else {
      assert Step(nodes) == [a, m];
      var root := Merge(m, a);
      assert Step([a, m]) == [root];
      assert Build(nodes) == Build([a, m]) == Build([root]) == root;
      LeafCode(c, ([] + ['0']) + ['0']);
      LeafCode(b, ([] + ['0']) + ['1']);
      LeafCode(a, [] + ['1']);
      assert GenerateBinary(root, []) == [Code(c.sym, ([] + ['0']) + ['0']), Code(b.sym, ([] + ['0']) + ['1']), Code(a.sym, [] + ['1'])];
    }
  }

  /** The first entry of the sorted list is a most frequent character. */
  lemma MostFrequentFirst(text: seq<Octet>)
    requires |text| > 0
    ensures |InitialOrder(text)| > 0
    ensures forall c :: multiset(text)[c] <= multiset(text)[InitialOrder(text)[0].sym]
  {
    var order := InitialOrder(text);
    assert text[0] in Syms(order);
    forall c | c in text
      ensures multiset(text)[c] <= multiset(text)[order[0].sym]
    {
      var i :| 0 <= i < |order| && Syms(order)[i] == c;
      assert order[i] in order && order[0] in order;
      if i > 0 {
        assert Above(order[0], order[i]);
      }
    }
  }

  /** The code list of a text is read off the tree built from its sorted
      entries. */
  lemma CodesOfOrder(text: seq<Octet>)
    requires |text| > 0
    ensures Codes(text) == GenerateBinary(Build(InitialNodes(InitialOrder(text))), [])
  {
  }

  /** Three sorted entries: the first one's code is one bit long, the
      others' two bits long. */
  lemma {:induction false} ThreeOrderCodes(order: seq<Entry>, x: Octet, y: Octet, z: Octet)
    requires NoDup(Syms(order)) && x in Syms(order) && y in Syms(order) && z in Syms(order)
    requires x != y && x != z && y != z
    requires forall w :: w in Syms(order) ==> w == x || w == y || w == z
    ensures |order| == 3
    ensures var cs := GenerateBinary(Build(InitialNodes(order)), []);
      forall k :: 0 <= k < |cs| ==>
        && (cs[k].sym == order[0].sym ==> |cs[k].bits| == 1)
        && (cs[k].sym != order[0].sym ==> |cs[k].bits| == 2)
  {
    ThreeOrder(order, x, y, z);
    NoDupDistinct(Syms(order), 0, 1);
    NoDupDistinct(Syms(order), 0, 2);
    ThreeLeavesCodes(InitialNodes(order));
  }

  /** A text of exactly three distinct characters has them as the
      characters of its sorted list. */
  lemma ThreeSymsOfText(text: seq<Octet>, x: Octet, y: Octet, z: Octet)
    requires x in text && y in text && z in text
    requires forall c :: c in text ==> c == x || c == y || c == z
    ensures var s := Syms(InitialOrder(text));
      && NoDup(s) && x in s && y in s && z in s
      && forall w :: w in s ==> w == x || w == y || w == z
  {
  }

  /** Codes of one bit for a most frequent character and of two bits for
      every other one are never longer for the more frequent character. */
  lemma CodeLengthsByFrequency(cs: seq<Code>, first: Octet, text: seq<Octet>)
    requires forall k :: 0 <= k < |cs| ==>
      && (cs[k].sym == first ==> |cs[k].bits| == 1)
      && (cs[k].sym != first ==> |cs[k].bits| == 2)
    requires forall c :: multiset(text)[c] <= multiset(text)[first]
    ensures forall k :: 0 <= k < |cs| ==> 1 <= |cs[k].bits| <= 2
    ensures forall k, l ::
      && 0 <= k < |cs| && 0 <= l < |cs|
      && multiset(text)[cs[k].sym] > multiset(text)[cs[l].sym]
      ==> |cs[k].bits| <= |cs[l].bits|
  {
  }

  /** With exactly three distinct characters the first sorted character
      is a most frequent one, its code is one bit long and the other codes
      two bits long. */
  lemma {:induction false} ThreeSymbolFacts(text: seq<Octet>, x: Octet, y: Octet, z: Octet)
    requires x in text && y in text && z in text && x != y && x != z && y != z
    requires forall c :: c in text ==> c == x || c == y || c == z
    ensures |InitialOrder(text)| > 0
    ensures forall c :: multiset(text)[c] <= multiset(text)[InitialOrder(text)[0].sym]
    ensures forall k :: 0 <= k < |Codes(text)| ==>
      && (Codes(text)[k].sym == InitialOrder(text)[0].sym ==> |Codes(text)[k].bits| == 1)
      && (Codes(text)[k].sym != InitialOrder(text)[0].sym ==> |Codes(text)[k].bits| == 2)
  {
    ThreeSymsOfText(text, x, y, z);
    ThreeOrderCodes(InitialOrder(text), x, y, z);
    CodesOfOrder(text);
    MostFrequentFirst(text);
  }

  /** With exactly three distinct characters the most frequent one gets a
      one-bit code and the other two get two-bit codes, so no character
      gets a longer code than a rarer one. */
  lemma {:induction false} ThreeSymbolCodes(text: seq<Octet>, x: Octet, y: Octet, z: Octet)
    requires x in text && y in text && z in text && x != y && x != z && y != z
    requires forall c :: c in text ==> c == x || c == y || c == z
    ensures forall k :: 0 <= k < |Codes(text)| ==> 1 <= |Codes(text)[k].bits| <= 2
    ensures forall k, l ::
      && 0 <= k < |Codes(text)| && 0 <= l < |Codes(text)|
      && multiset(text)[Codes(text)[k].sym] > multiset(text)[Codes(text)[l].sym]
      ==> |Codes(text)[k].bits| <= |Codes(text)[l].bits|
  {
    ThreeSymbolFacts(text, x, y, z);
    CodeLengthsByFrequency(Codes(text), InitialOrder(text)[0].sym, text);
  }

  /** With codes of at most `m` bits the encoding is at most `m` bits per
      character. */
  lemma {:induction false} EncodeTextBound(enc: map<Octet, seq<Bit>>, text: seq<Octet>, m: nat)
    requires forall c :: c in text ==> c in enc && |enc[c]| <= m
    ensures |EncodeText(enc, text)| <= m * |text|
  {
    if |text| > 0 {
      EncodeTextBound(enc, text[1..], m);
    }
  }

  /** The code dictionary of a list with distinct characters keeps the
      lists' bounds and its order by frequency. */
  lemma {:induction false} CodeLengthsDict(cs: seq<Code>, text: seq<Octet>)
    requires NoDup(CodeSyms(cs)) && forall c :: c in text ==> c in CodeSyms(cs)
    requires forall k :: 0 <= k < |cs| ==> |cs[k].bits| <= 2
    requires forall k, l ::
      && 0 <= k < |cs| && 0 <= l < |cs|
      && multiset(text)[cs[k].sym] > multiset(text)[cs[l].sym]
      ==> |cs[k].bits| <= |cs[l].bits|
    ensures forall c :: c in text ==> c in ToDict(cs) && |ToDict(cs)[c]| <= 2
    ensures forall c, d :: c in text && d in text && multiset(text)[c] > multiset(text)[d] ==>
      |ToDict(cs)[c]| <= |ToDict(cs)[d]|
  {
    var enc := ToDict(cs);
    ToDictDistinct(cs);
    forall c | c in text
      ensures c in enc && |enc[c]| <= 2
    {
      var k :| 0 <= k < |cs| && CodeSyms(cs)[k] == c;
    }
    forall c, d | c in text && d in text && multiset(text)[c] > multiset(text)[d]
      ensures |enc[c]| <= |enc[d]|
    {
      var k :| 0 <= k < |cs| && CodeSyms(cs)[k] == c;
      var l :| 0 <= l < |cs| && CodeSyms(cs)[l] == d;
    }
  }

  /** For three distinct characters the code dictionary gives a more
      frequent character a code no longer than a rarer one's. */
  lemma {:induction false} ThreeSymbolDict(text: seq<Octet>, x: Octet, y: Octet, z: Octet)
    requires x in text && y in text && z in text && x != y && x != z && y != z
    requires forall c :: c in text ==> c == x || c == y || c == z
    ensures forall c :: c in text ==> c in ToDict(Codes(text))
    ensures forall c, d :: c in text && d in text && multiset(text)[c] > multiset(text)[d] ==>
      |ToDict(Codes(text))[c]| <= |ToDict(Codes(text))[d]|
  {
    ThreeSymbolCodes(text, x, y, z);
    CodeLengthsDict(Codes(text), text);
  }

  /** With exactly three distinct characters the encoding takes at most two
      bits per character. */
  lemma {:induction false} ThreeSymbolPayload(text: seq<Octet>, x: Octet, y: Octet, z: Octet)
    requires x in text && y in text && z in text && x != y && x != z && y != z
    requires forall c :: c in text ==> c == x || c == y || c == z
    ensures |EncodeText(ToDict(Codes(text)), text)| <= 2 * |text|
  {
    ThreeSymbolCodes(text, x, y, z);
    CodeLengthsDict(Codes(text), text);
    EncodeTextBound(ToDict(Codes(text)), text, 2);
  }

  /** `n` copies of `c`. */
  function Repeat(c: Octet, n: nat): (s: seq<Octet>)
    ensures |s| == n && forall i :: 0 <= i < n ==> s[i] == c
  {
    seq(n, _ => c)
  }

  /** `n` copies of `c` hold `c` exactly `n` times and nothing else. */
  lemma {:induction false} RepeatCount(c: Octet, n: nat)
    ensures forall d :: multiset(Repeat(c, n))[d] == if d == c then n else 0
  {
    if n > 0 {
      RepeatCount(c, n - 1);
      assert Repeat(c, n) == Repeat(c, n - 1) + [c];
    }
  }

  /** The text "aaaaaaaabbbbcc". */
  function SanityText(): (t: seq<Octet>)
    ensures |t| == 14
  {
    Repeat('a', 8) + Repeat('b', 4) + Repeat('c', 2)
  }

  /** It is the literal text. */
  lemma SanityLiteral()
    ensures SanityText() == "aaaaaaaabbbbcc"
  {
    var t := SanityText();
    assert forall i :: 0 <= i < 8 ==> t[i] == 'a';
    assert forall i :: 8 <= i < 12 ==> t[i] == 'b';
    assert forall i :: 12 <= i < 14 ==> t[i] == 'c';
  }

  /** Its characters and their counts. */
  lemma {:induction false} SanityCounts()
    ensures 'a' in SanityText() && 'b' in SanityText() && 'c' in SanityText()
    ensures forall ch :: ch in SanityText() ==> ch == 'a' || ch == 'b' || ch == 'c'
    ensures multiset(SanityText())['a'] == 8 && multiset(SanityText())['c'] == 2
  {
    var t := SanityText();
    var ra, rb, rc := Repeat('a', 8), Repeat('b', 4), Repeat('c', 2);
    RepeatCount('a', 8);
    RepeatCount('b', 4);
    RepeatCount('c', 2);
    assert multiset(t) == multiset(ra) + multiset(rb) + multiset(rc);
    forall ch | ch in t
      ensures ch == 'a' || ch == 'b' || ch == 'c'
    {
      assert multiset(t)[ch] > 0;
    }
    assert t[0] == 'a' && t[8] == 'b' && t[12] == 'c';
  }

  /** On "aaaaaaaabbbbcc" (`SanityLiteral`) the most frequent character's
      code is no longer than the rarest one's, and the payload is within 42
      bits. */
  lemma {:induction false} CompressionSanity()
    ensures var enc := ToDict(Codes(SanityText()));
      'a' in enc && 'c' in enc && |enc['a']| <= |enc['c']|
    ensures |EncodeText(ToDict(Codes(SanityText())), SanityText())| <= 42
  {
    SanityCounts();
    ThreeSymbolDict(SanityText(), 'a', 'b', 'c');
    ThreeSymbolPayload(SanityText(), 'a', 'b', 'c');
  }

  /** With one-bit codes the encoding has one bit per character. */
  lemma {:induction false} EncodeTextUnit(enc: map<Octet, seq<Bit>>, text: seq<Octet>)
    requires forall c :: c in text ==> c in enc && |enc[c]| == 1
    ensures |EncodeText(enc, text)| == |text|
  {
    if |text| > 0 {
      EncodeTextUnit(enc, text[1..]);
    }
  }

  /** The payload of eight characters with one-bit codes is one byte. */
  lemma {:induction false} EightOfTwoPayload(text: seq<Octet>, x: Octet, y: Octet)
    requires |text| == 8 && x != y && x in text && y in text
    requires forall c :: c in text ==> c == x || c == y
    ensures |EncodeText(ToDict(Codes(text)), text)| == 8
  {
    var cs := Codes(text);
    var enc := ToDict(cs);
    TwoSymbolCodes(text, x, y);
    ToDictDistinct(cs);
    forall c | c in text
      ensures c in enc && |enc[c]| == 1
    {
      var k :| 0 <= k < |cs| && CodeSyms(cs)[k] == c;
    }
    EncodeTextUnit(enc, text);
  }

  /** On a file whose payload is one byte the decompressor as written
      walks nothing. */
  lemma {:induction false} FileOneByte(cs: seq<Code>, text: seq<Octet>)
    requires Transmittable(cs) && PrefixFree(cs) && NoDup(CodeSyms(cs))
    requires |text| >= 1 && forall c :: c in text ==> c in CodeSyms(cs)
    requires |EncodeText(ToDict(cs), text)| == 8
    ensures Decompress(Layout(cs, EncodeText(ToDict(cs), text))) == Ok([])
  {
    var comp := EncodeText(ToDict(cs), text);
    FileAsWritten(cs, text);
    assert comp[..|comp| - 8] == [];
  }

  /** The decompressor as written returns the empty text for a text of
      eight characters drawn from two non-marker characters. */
  lemma {:induction false} EightOfTwoAsWritten(text: seq<Octet>, i: int, j: int)
    requires |text| == 8 && 0 <= i < 8 && 0 <= j < 8 && text[i] != text[j]
    requires forall c :: c in text ==> c == text[i] || c == text[j]
    requires forall c :: c in text ==> !Reserved(c)
    ensures Compress(text).Ok?
    ensures Decompress(Compress(text).value) == Ok([])
  {
    EightOfTwoPayload(text, text[i], text[j]);
    CodesTransmittable(text, i, j);
    CompressLayout(text, i, j);
    FileOneByte(Codes(text), text);
  }

  /** A text of eight characters drawn from two non-marker characters, as
      "abababab", needs no padding: the decompressor as written returns
      the empty text for it, the corrected one the text itself. */
  lemma {:induction false} EightOfTwo(text: seq<Octet>, i: int, j: int)
    requires |text| == 8 && 0 <= i < 8 && 0 <= j < 8 && text[i] != text[j]
    requires forall k :: 0 <= k < 8 ==> text[k] == text[i] || text[k] == text[j]
    requires !Reserved(text[i]) && !Reserved(text[j])
    ensures Compress(text).Ok?
    ensures Decompress(Compress(text).value) == Ok([])
    ensures DecompressCorrected(Compress(text).value) == Ok(text)
  {
    assert forall c :: c in text ==> c == text[i] || c == text[j];
    assert forall c :: c in text ==> !Reserved(c);
    EightOfTwoAsWritten(text, i, j);
    RoundTrip(text, i, j);
  }

  /** The text "abababab" is such a text. */
  lemma PaddingZeroExample()
    ensures Compress("abababab").Ok?
    ensures Decompress(Compress("abababab").value) == Ok([])
    ensures DecompressCorrected(Compress("abababab").value) == Ok("abababab")
  {
    EightOfTwo("abababab", 0, 1);
  }
}
