/** The decompressor (huffman_coding.py, lines 213-265): it parses the code
    table off the front of the item list, strips the trailer and the
    padding, and walks the payload bits greedily through the table. */
module Decoder {
  import opened Bits
  import opened Results
  import opened CodeBook
  import opened Framing
  import opened KeyTable

  /** The items the table parse tests for (lines 219-228). */
  const ZeroItem: seq<Bit> := "00000000"
  const DigitZero: seq<Bit> := "00110000"
  const DigitOne: seq<Bit> := "00110001"
  const DividerItem: seq<Bit> := "10000000"

  lemma ZeroItemBits()
    ensures ToBinary(0, 8) == ZeroItem
  {
  }

  lemma DigitZeroBits()
    ensures ToBinary(48, 8) == DigitZero
  {
  }

  lemma DigitOneBits()
    ensures ToBinary(49, 8) == DigitOne
  {
  }

  lemma DividerItemBits()
    ensures ToBinary(128, 8) == DividerItem
  {
  }

  /** What the parse makes of an item (lines 219-236). */
  datatype ItemKind = Terminator | Digit(bit: Bit) | Separator | Symbol(c: Octet)

  /** The parse's tests on an item, in the program's order; any other item
      is the character `chr(int(item, 2))`. */
  function Classify(item: seq<Bit>): ItemKind
    requires |item| == 8
  {
    if item == ZeroItem then Terminator
    else if item == DigitZero then Digit('0')
    else if item == DigitOne then Digit('1')
    else if item == DividerItem then Separator
    else
      ValueBound(item);
      assert Pow2(8) == 256;
      Symbol(Value(item) as char)
  }

  /** The same classification, read off the byte an item renders. */
  function ByteKind(b: Byte): ItemKind
  {
    if b == 0 then Terminator
    else if b == 48 then Digit('0')
    else if b == 49 then Digit('1')
    else if b == 128 then Separator
    else Symbol(b as char)
  }

  /** Classifying a file byte's item is classifying the byte: the four
      marker items render the bytes 0, `ord('0')`, `ord('1')` and 128 and
      no other byte, and every other item reads back as its byte. */
  lemma ClassifyItem(b: Byte)
    ensures Classify(ToBinary(b, 8)) == ByteKind(b)
  {
    assert Pow2(8) == 256;
    ZeroItemBits();
    DigitZeroBits();
    DigitOneBits();
    DividerItemBits();
    ToBinaryInjective(b, 0, 8);
    ToBinaryInjective(b, 48, 8);
    ToBinaryInjective(b, 49, 8);
    ToBinaryInjective(b, 128, 8);
    ValueOfToBinary(b, 8);
  }

  /** The characters the table parse would take for a marker. */
  predicate Reserved(c: Octet)
  {
    !ByteKind(c as int).Symbol?
  }

  /** The parse's variables: `key_dict`, `binary_repr` and `value`. */
  datatype KeyState = KeyState(dict: map<seq<Bit>, seq<Octet>>, repr: seq<Bit>, value: seq<Octet>)

  const Start := KeyState(map[], [], [])

  /** One pass of the parse loop body (lines 221-236) on an item that is
      not the terminator: a digit extends the code, the divider is skipped,
      a character first files the pending pair, if any. */
  function Apply(st: KeyState, k: ItemKind): KeyState
  {
    match k
    case Terminator => st
    case Digit(b) => st.(repr := st.repr + [b])
    case Separator => st
    case Symbol(c) =>
      if st.value != [] then KeyState(st.dict[st.repr := st.value], [], [c])
      else st.(value := [c])
  }

  /** The parse loop (lines 218-237): it stops at the first terminator item
      and returns the state with `data_boundary_index`. */
  function Scan(items: seq<seq<Bit>>, st: KeyState): (r: (KeyState, nat))
    requires Bytewise(items)
    ensures r.1 <= |items|
    ensures r.1 < |items| ==> items[r.1] == ZeroItem
    ensures forall i :: 0 <= i < r.1 ==> items[i] != ZeroItem
  {
    if |items| == 0 || Classify(items[0]) == Terminator then (st, 0)
    else
      var r := Scan(items[1..], Apply(st, Classify(items[0])));
      (r.0, r.1 + 1)
  }

  /** The table as parsed: `key_dict` and `data_boundary_index`. */
  datatype Table = Table(dict: map<seq<Bit>, seq<Octet>>, boundary: nat)

  /** Lines 213-238: the loop, then the last pair filed. The boundary is
      the index of the first terminator item, or the item count when there
      is none. */
  function ParseKey(items: seq<seq<Bit>>): (t: Table)
    requires Bytewise(items)
    ensures t.boundary <= |items|
    ensures t.boundary < |items| ==> items[t.boundary] == ZeroItem
    ensures forall i :: 0 <= i < t.boundary ==> items[i] != ZeroItem
  {
    var r := Scan(items, Start);
    Table(r.0.dict[r.0.repr := r.0.value], r.1)
  }

  /** The parse loop read off the file's bytes. */
  function ScanBytes(bs: seq<Byte>, st: KeyState): (r: (KeyState, nat))
  {
    if |bs| == 0 || bs[0] == 0 then (st, 0)
    else
      var r := ScanBytes(bs[1..], Apply(st, ByteKind(bs[0])));
      (r.0, r.1 + 1)
  }

  /** Parsing the items of a file is parsing its bytes. */
  lemma {:induction false} ScanItems(bs: seq<Byte>, st: KeyState)
    ensures Bytewise(Items(bs))
    ensures Scan(Items(bs), st) == ScanBytes(bs, st)
  {
    if |bs| > 0 {
      ClassifyItem(bs[0]);
      assert Items(bs)[1..] == Items(bs[1..]);
      ScanItems(bs[1..], Apply(st, ByteKind(bs[0])));
    }
  }

  /** The parse loop over bytes none of which is the terminator. */
  function Fold(bs: seq<Byte>, st: KeyState): KeyState
  {
    if |bs| == 0 then st else Fold(bs[1..], Apply(st, ByteKind(bs[0])))
  }

  lemma {:induction false} FoldAppend(a: seq<Byte>, b: seq<Byte>, st: KeyState)
    ensures Fold(a + b, st) == Fold(b, Fold(a, st))
  {
    if |a| == 0 {
      assert a + b == b;
    } else {
      assert (a + b)[1..] == a[1..] + b;
      FoldAppend(a[1..], b, Apply(st, ByteKind(a[0])));
    }
  }

  /** Up to the first terminator the parse is the plain loop. */
  lemma {:induction false} ScanStops(a: seq<Byte>, b: seq<Byte>, st: KeyState)
    requires 0 !in a
    ensures ScanBytes(a + [0] + b, st) == (Fold(a, st), |a|)
  {
    if |a| == 0 {
      assert a + [0] + b == [0] + b;
    } else {
      assert (a + [0] + b)[1..] == a[1..] + [0] + b;
      ScanStops(a[1..], b, Apply(st, ByteKind(a[0])));
    }
  }

  /** Without a terminator the parse runs to the end of the file. */
  lemma {:induction false} ScanRunsOut(bs: seq<Byte>, st: KeyState)
    requires 0 !in bs
    ensures ScanBytes(bs, st).1 == |bs|
  {
    if |bs| > 0 {
      ScanRunsOut(bs[1..], Apply(st, ByteKind(bs[0])));
    }
  }

  /** A file without a zero byte has no table boundary. */
  lemma NoTerminator(file: seq<Byte>)
    ensures Bytewise(Items(file))
    ensures 0 !in file ==> ParseKey(Items(file)).boundary == |file|
  {
    ScanItems(file, Start);
    if 0 !in file {
      ScanRunsOut(file, Start);
    }
  }

  /** Digit bytes append their bits to the code being read. */
  lemma {:induction false} FoldDigits(st: KeyState, bits: seq<Bit>)
    ensures 0 !in CodeBytes(bits)
    ensures Fold(CodeBytes(bits), st) == st.(repr := st.repr + bits)
    decreases |bits|
  {
    if |bits| > 0 {
      var bs := CodeBytes(bits);
      assert bs[1..] == CodeBytes(bits[1..]);
      assert ByteKind(bs[0]) == Digit(bits[0]);
      var st' := st.(repr := st.repr + [bits[0]]);
      FoldDigits(st', bits[1..]);
      assert st'.repr + bits[1..] == st.repr + bits;
    }
  }

  /** The bytes of one entry: its character, the divider, its digits. */
  lemma {:induction false} FoldEntry(st: KeyState, e: Code)
    requires !Reserved(e.sym)
    ensures 0 !in EntryBytes(e)
    ensures Fold(EntryBytes(e), st)
         == if st.value != [] then KeyState(st.dict[st.repr := st.value], e.bits, [e.sym])
            else KeyState(st.dict, st.repr + e.bits, [e.sym])
  {
    var head := [e.sym as int, Divider];
    assert EntryBytes(e) == head + CodeBytes(e.bits);
    FoldAppend(head, CodeBytes(e.bits), st);
    assert head[1..] == [Divider] && head[1..][1..] == [];
    FoldDigits(Apply(st, ByteKind(e.sym as int)), e.bits);
  }

  /** Codes a table can carry: characters that are no marker, codes that
      are non-empty and pairwise different. */
  ghost predicate Transmittable(cs: seq<Code>)
  {
    && (forall i :: 0 <= i < |cs| ==> !Reserved(cs[i].sym) && |cs[i].bits| >= 1)
    && (forall i, j :: 0 <= i < j < |cs| ==> cs[i].bits != cs[j].bits)
  }

  /** The parse state once the first `k` entries are read: the k-th pair is
      pending, the earlier pairs are filed, and every other key is the
      empty code. */
  ghost predicate ReadUpTo(st: KeyState, cs: seq<Code>, k: nat)
  {
    && 1 <= k <= |cs|
    && st.repr == cs[k - 1].bits && st.value == [cs[k - 1].sym]
    && (forall i :: 0 <= i < k - 1 ==> cs[i].bits in st.dict && st.dict[cs[i].bits] == [cs[i].sym])
    && (forall key :: key in st.dict ==> key == [] || exists i :: 0 <= i < k - 1 && key == cs[i].bits)
  }

  lemma {:induction false} KeyBytesSnoc(ds: seq<Code>, e: Code)
    requires |ds| >= 1
    ensures KeyBytes(ds + [e]) == KeyBytes(ds) + [',' as int] + EntryBytes(e)
  {
    assert (ds + [e])[0] == ds[0] && (ds + [e])[1..] == ds[1..] + [e];
    if |ds| == 1 {
      assert ds[1..] + [e] == [e];
    } else {
      KeyBytesSnoc(ds[1..], e);
    }
  }

  /** A comma files the pending pair and leaves `,` pending, which the next
      character files under the empty code: the parse's spurious
      `key_dict[""]` entry. */
  lemma {:induction false} NextEntry(st: KeyState, cs: seq<Code>, k: nat)
    requires Transmittable(cs) && ReadUpTo(st, cs, k) && k < |cs|
    ensures 0 !in [',' as int] + EntryBytes(cs[k])
    ensures ReadUpTo(Fold([',' as int] + EntryBytes(cs[k]), st), cs, k + 1)
  {
    var mid := Apply(st, Symbol(','));
    assert Fold([',' as int], st) == mid;
    FoldEntry(mid, cs[k]);
    FoldAppend([',' as int], EntryBytes(cs[k]), st);
    var r := Fold([',' as int] + EntryBytes(cs[k]), st);
    assert r.dict == st.dict[cs[k - 1].bits := [cs[k - 1].sym]][[] := [',']];
    forall key | key in r.dict
      ensures key == [] || exists i :: 0 <= i < k && key == cs[i].bits
    {
      if key != [] && key != cs[k - 1].bits {
        assert key in st.dict;
      }
    }
  }

  /** Reading the table of the first `k` entries. */
  lemma {:induction false} ReadTable(cs: seq<Code>, k: nat)
    requires Transmittable(cs) && 1 <= k <= |cs|
    ensures 0 !in KeyBytes(cs[..k])
    ensures ReadUpTo(Fold(KeyBytes(cs[..k]), Start), cs, k)
  {
    if k == 1 {
      assert cs[..1] == [cs[0]];
      FoldEntry(Start, cs[0]);
    } else {
      var front := KeyBytes(cs[..k - 1]);
      var back := [',' as int] + EntryBytes(cs[k - 1]);
      assert KeyBytes(cs[..k]) == front + back by {
        assert cs[..k] == cs[..k - 1] + [cs[k - 1]];
        KeyBytesSnoc(cs[..k - 1], cs[k - 1]);
      }
      ReadTable(cs, k - 1);
      NextEntry(Fold(front, Start), cs, k - 1);
      assert Fold(front + back, Start) == Fold(back, Fold(front, Start)) by {
        FoldAppend(front, back, Start);
      }
    }
  }

  /** The parse recovers the table the compressor wrote: it stops at the
      terminator, maps every code to its character, and holds no key other
      than the codes and the empty code. */
  lemma ParseKeyOfTable(cs: seq<Code>, rest: seq<Byte>)
    requires Transmittable(cs) && |cs| >= 1
    ensures var t := ParseKey(Items(KeyBytes(cs) + [0] + rest));
      && t.boundary == |KeyBytes(cs)|
      && (forall i :: 0 <= i < |cs| ==> cs[i].bits in t.dict && t.dict[cs[i].bits] == [cs[i].sym])
      && (forall key :: key in t.dict ==> key == [] || exists i :: 0 <= i < |cs| && key == cs[i].bits)
  {
    assert cs[..|cs|] == cs;
    ReadTable(cs, |cs|);
    ScanItems(KeyBytes(cs) + [0] + rest, Start);
    ScanStops(KeyBytes(cs), rest, Start);
  }

  /** The decoding loop (lines 255-265): add the next bit to `curr_repr`;
      once it is a key, emit the key's value and start afresh. Bits left
      over at the end emit nothing. */
  function Walk(dict: map<seq<Bit>, seq<Octet>>, bits: seq<Bit>, curr: seq<Bit>): seq<Octet>
    decreases |bits|
  {
    if |bits| == 0 then []
    else
      var next := curr + [bits[0]];
      if next in dict then dict[next] + Walk(dict, bits[1..], [])
      else Walk(dict, bits[1..], next)
  }

  /** The decoder's table `dict` and the encoder's table `enc` fit together:
      every code is non-empty, is a key of `dict` mapping back to its
      character, and has no shorter non-empty prefix that is a key. */
  ghost predicate Decodable(dict: map<seq<Bit>, seq<Octet>>, enc: map<Octet, seq<Bit>>)
  {
    forall c :: c in enc ==>
      && |enc[c]| >= 1 && enc[c] in dict && dict[enc[c]] == [c]
      && forall j :: 1 <= j < |enc[c]| ==> enc[c][..j] !in dict
  }

  /** Walking through one code from any point inside it emits its
      character and resets `curr_repr`. */
  lemma {:induction false} WalkCode(dict: map<seq<Bit>, seq<Octet>>, w: seq<Bit>, k: nat, rest: seq<Bit>)
    requires k < |w| && w in dict
    requires forall j :: 1 <= j < |w| ==> w[..j] !in dict
    ensures Walk(dict, w[k..] + rest, w[..k]) == dict[w] + Walk(dict, rest, [])
    decreases |w| - k
  {
    var bits := w[k..] + rest;
    assert bits[0] == w[k] && bits[1..] == w[k + 1..] + rest;
    assert w[..k] + [w[k]] == w[..k + 1];
    if k + 1 == |w| {
      assert w[..k + 1] == w && w[k + 1..] + rest == rest;
    } else {
      WalkCode(dict, w, k + 1, rest);
    }
  }

  /** The greedy walk over the encoding of a text emits exactly the text. */
  lemma {:induction false} WalkText(dict: map<seq<Bit>, seq<Octet>>, enc: map<Octet, seq<Bit>>, s: seq<Octet>)
    requires Decodable(dict, enc) && forall c :: c in s ==> c in enc
    ensures Walk(dict, EncodeText(enc, s), []) == s
  {
    if |s| > 0 {
      var w := enc[s[0]];
      WalkCode(dict, w, 0, EncodeText(enc, s[1..]));
      assert w[0..] == w && w[..0] == [];
      WalkText(dict, enc, s[1..]);
    }
  }

  /** Walking the bits of a code short of its end emits nothing: no
      non-empty proper prefix of the code is a key. */
  lemma {:induction false} WalkPartialCode(dict: map<seq<Bit>, seq<Octet>>, w: seq<Bit>, k: nat, m: nat)
    requires k <= m < |w|
    requires forall j :: 1 <= j < |w| ==> w[..j] !in dict
    ensures Walk(dict, w[k..m], w[..k]) == []
    decreases m - k
  {
    if k < m {
      var bits := w[k..m];
      assert bits[0] == w[k] && bits[1..] == w[k + 1..m];
      assert w[..k] + [w[k]] == w[..k + 1];
      WalkPartialCode(dict, w, k + 1, m);
    }
  }

  /** The greedy walk over the first `m` bits of the encoding of a text
      emits a prefix of the text, a proper one unless it sees every bit. */
  lemma {:induction false} WalkPrefix(dict: map<seq<Bit>, seq<Octet>>, enc: map<Octet, seq<Bit>>, s: seq<Octet>, m: nat)
    requires Decodable(dict, enc) && forall c :: c in s ==> c in enc
    requires m <= |EncodeText(enc, s)|
    ensures Walk(dict, EncodeText(enc, s)[..m], []) <= s
    ensures m < |EncodeText(enc, s)| ==> Walk(dict, EncodeText(enc, s)[..m], []) < s
  {
    if |s| > 0 {
      var w := enc[s[0]];
      var rest := EncodeText(enc, s[1..]);
      assert EncodeText(enc, s) == w + rest;
      if m < |w| {
        assert (w + rest)[..m] == w[0..m];
        WalkPartialCode(dict, w, 0, m);
        assert w[..0] == [];
      } else {
        var tail := rest[..m - |w|];
        assert (w + rest)[..m] == w[0..] + tail;
        WalkCode(dict, w, 0, tail);
        assert w[..0] == [];
        WalkPrefix(dict, enc, s[1..], m - |w|);
        assert s == [s[0]] + s[1..];
      }
    }
  }

  /** `binary_list[-1][:(padding * -1)]` (line 245) as Python evaluates it:
      a slice `[:-p]` drops the last p bits, and everything when p is at
      least the length; `[:-0]` is `[:0]`, which drops everything. */
  function StripPaddingAsWritten(item: seq<Bit>, padding: nat): (r: seq<Bit>)
    ensures r <= item
    ensures padding == 0 ==> r == []
  {
    if padding == 0 || padding >= |item| then [] else item[..|item| - padding]
  }

  /** The strip the line evidently means: drop the `padding` pad bits, and
      none when there are none. */
  function StripPadding(item: seq<Bit>, padding: nat): (r: seq<Bit>)
    ensures r <= item
    ensures |r| == if padding >= |item| then 0 else |item| - padding
  {
    if padding == 0 then item else StripPaddingAsWritten(item, padding)
  }

  /** The two strips part exactly when there is no padding. */
  lemma StripsAgree(item: seq<Bit>, padding: nat)
    requires |item| > 0
    ensures StripPaddingAsWritten(item, padding) == StripPadding(item, padding) <==> padding != 0
  {
  }

  /** The payload items once the trailer is popped and the padding stripped
      from the new last item, joined (lines 244-251). */
  function Unpad(body: seq<seq<Bit>>, padding: nat, asWritten: bool): seq<Bit>
    requires |body| > 0
  {
    var last := body[|body| - 1];
    var stripped := if asWritten then StripPaddingAsWritten(last, padding) else StripPadding(last, padding);
    Flatten(body[..|body| - 1] + [stripped])
  }

  /** Joining items with one more item appends that item's bits. */
  lemma FlattenSnoc(items: seq<seq<Bit>>, s: seq<Bit>)
    ensures Flatten(items + [s]) == Flatten(items) + s
  {
    FlattenAppend(items, [s]);
    assert Flatten([s]) == s + Flatten([]);
  }

  /** The items of a non-empty byte list: the front joined, then the last
      item of eight bits, render the bytes. */
  lemma {:induction false} SplitLast(bs: seq<Byte>)
    requires |bs| >= 1
    ensures var body := Items(bs);
      && Flatten(body[..|body| - 1]) + body[|body| - 1] == Serialize(bs)
      && |body[|body| - 1]| == 8
  {
    var body := Items(bs);
    var n := |body|;
    FlattenItems(bs);
    assert body == body[..n - 1] + [body[n - 1]];
    FlattenSnoc(body[..n - 1], body[n - 1]);
  }

  /** Stripping the pad bits from the packed, padded payload gives back the
      payload bits. */
  lemma {:induction false} UnpadPacked(bits: seq<Bit>, p: nat)
    requires |bits| >= 1 && p < 8 && (|bits| + p) % 8 == 0
    ensures |Items(Pack(bits + Zeros(p)))| >= 1
    ensures Unpad(Items(Pack(bits + Zeros(p))), p, false) == bits
  {
    var padded := bits + Zeros(p);
    assert |Pack(padded)| >= 1 by {
      PackLength(padded);
    }
    var body := Items(Pack(padded));
    var n := |body|;
    var front, last := Flatten(body[..n - 1]), body[n - 1];
    assert padded == front + last && |last| == 8 by {
      SerializePack(padded);
      SplitLast(Pack(padded));
    }
    assert Unpad(body, p, false) == front + StripPadding(last, p) by {
      FlattenSnoc(body[..n - 1], StripPadding(last, p));
    }
    if p > 0 {
      assert front + StripPadding(last, p) == padded[..|padded| - p];
    }
    assert padded[..|bits|] == bits;
  }

  /** The strip as written, on a byte-aligned payload that needed no
      padding, loses the payload's last eight bits. */
  lemma {:induction false} UnpadAligned(bits: seq<Bit>)
    requires |bits| >= 8 && |bits| % 8 == 0
    ensures |Items(Pack(bits))| >= 1
    ensures Unpad(Items(Pack(bits)), 0, true) == bits[..|bits| - 8]
  {
    assert |Pack(bits)| >= 1 by {
      PackLength(bits);
    }
    var body := Items(Pack(bits));
    var n := |body|;
    var front, last := Flatten(body[..n - 1]), body[n - 1];
    assert bits == front + last && |last| == 8 by {
      SerializePack(bits);
      SplitLast(Pack(bits));
    }
    assert Unpad(body, 0, true) == front by {
      FlattenSnoc(body[..n - 1], []);
      assert front + [] == front;
    }
    assert bits[..|bits| - 8] == front;
  }

  /** Lines 200-265 without the file access: the table parse, the trailer
      pop, the strip, the walk. The strip is the corrected one unless
      `asWritten` is set. A missing trailer (`pop()` on an empty list) and a
      missing payload item (`binary_list[-1]` once the trailer is popped)
      are the two failures. */
  function DecompressBy(file: seq<Byte>, asWritten: bool): (r: Result<seq<Octet>>)
    ensures 0 !in file ==> r == Err(NoTrailer)
  {
    var items := Items(file);
    NoTerminator(file);
    var t := ParseKey(items);
    var payload := if t.boundary + 1 <= |items| then items[t.boundary + 1..] else [];
    if |payload| == 0 then Err(NoTrailer)
    else
      var padding := Value(payload[|payload| - 1]);
      var body := payload[..|payload| - 1];
      if |body| == 0 then Err(NoPayload)
      else Ok(Walk(t.dict, Unpad(body, padding, asWritten), []))
  }

  /** On a file whose last byte, the pad count, is not zero the two strips
      agree, so the program as written and the corrected one decode alike. */
  lemma {:induction false} DecompressAgree(file: seq<Byte>)
    requires |file| >= 1 && file[|file| - 1] != 0
    ensures DecompressBy(file, true) == DecompressBy(file, false)
  {
    var items := Items(file);
    NoTerminator(file);
    var t := ParseKey(items);
    var payload := if t.boundary + 1 <= |items| then items[t.boundary + 1..] else [];
    if |payload| > 0 {
      var body := payload[..|payload| - 1];
      var pad := file[|file| - 1];
      assert items[|items| - 1] == ToBinary(pad, 8);
      assert payload[|payload| - 1] == items[|items| - 1];
      assert Pow2(8) == 256;
      ValueOfToBinary(pad, 8);
      if |body| > 0 {
        assert body[|body| - 1] == items[t.boundary + |body|];
        StripsAgree(body[|body| - 1], pad);
        assert Unpad(body, pad, true) == Unpad(body, pad, false);
      }
    }
  }

  /** `decompress` as written, line 245's strip included. */
  function Decompress(file: seq<Byte>): (r: Result<seq<Octet>>)
    ensures 0 !in file ==> r == Err(NoTrailer)
  {
    DecompressBy(file, true)
  }

  /** `decompress` with the strip of line 245 corrected: no bits are
      dropped when the padding is zero. */
  function DecompressCorrected(file: seq<Byte>): (r: Result<seq<Octet>>)
    ensures 0 !in file ==> r == Err(NoTrailer)
  {
    DecompressBy(file, false)
  }
}
