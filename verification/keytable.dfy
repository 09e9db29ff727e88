/** The code table as the compressor writes it in front of the payload
    (huffman_coding.py, lines 128-149): the text `c:code,c:code,...` is
    turned into bytes, each `:` separator becoming the divider byte. */
module KeyTable {
  import opened Bits
  import opened CodeBook
  import opened Framing

  /** The divider byte `10000000` that stands for a separator. */
  const Divider: Byte := 128

  /** `character + ":" + value` for one pair (line 132). */
  function EntryText(c: Code): seq<Octet>
  {
    [c.sym, ':'] + c.bits
  }

  /** `total_key` before its last character is cut (lines 130-132): every
      entry followed by a comma. */
  function EntriesText(cs: seq<Code>): (t: seq<Octet>)
    ensures |cs| > 0 ==> |t| > 0
  {
    if |cs| == 0 then [] else EntryText(cs[0]) + [','] + EntriesText(cs[1..])
  }

  /** `total_key[:-1]` (line 135): the entries joined by commas. */
  function KeyText(cs: seq<Code>): seq<Octet>
  {
    var t := EntriesText(cs);
    if |t| == 0 then [] else t[..|t| - 1]
  }

  /** The emission loop (lines 136-149), run from the state `pending` of
      `char_might_be_semicolon`, as the bytes whose eight-bit renderings it
      appends to `binary_key`. A `:` is held back: the next character
      decides whether it was a separator (emit the divider) or, after a
      held `:`, the key character `:` itself (emit `:` and the divider).
      A `:` still held when the text ends is never emitted. */
  function EncodeKey(s: seq<Octet>, pending: bool): seq<Byte>
  {
    if |s| == 0 then []
    else if s[0] == ':' then
      if pending then [':' as int, Divider] + EncodeKey(s[1..], false)
      else EncodeKey(s[1..], true)
    else (if pending then [Divider] else []) + [s[0] as int] + EncodeKey(s[1..], false)
  }

  /** `binary_key` (lines 136-149). */
  function BinaryKey(cs: seq<Code>): (bits: seq<Bit>)
    ensures |bits| % 8 == 0
  {
    Serialize(EncodeKey(KeyText(cs), false))
  }

  /** The divider the loop writes as the literal `10000000` (lines 141 and
      147) is the rendering of byte 128. */
  lemma DividerBits()
    ensures ToBinary(Divider, 8) == "10000000"
  {
  }

  /** The bytes `ord('0')` and `ord('1')` of a code's digits. */
  function CodeBytes(bits: seq<Bit>): (r: seq<Byte>)
    ensures |r| == |bits|
    ensures forall i :: 0 <= i < |bits| ==> r[i] == if bits[i] == '0' then 48 else 49
  {
    seq(|bits|, i requires 0 <= i < |bits| => if bits[i] == '0' then 48 else 49)
  }

  /** The bytes of one entry: the character, the divider, the digits. */
  function EntryBytes(c: Code): seq<Byte>
  {
    [c.sym as int, Divider] + CodeBytes(c.bits)
  }

  /** The bytes of the entries, joined by the comma byte. */
  function KeyBytes(cs: seq<Code>): seq<Byte>
  {
    if |cs| == 0 then []
    else if |cs| == 1 then EntryBytes(cs[0])
    else EntryBytes(cs[0]) + [',' as int] + KeyBytes(cs[1..])
  }

  lemma {:induction false} KeyTextSplit(cs: seq<Code>)
    requires |cs| >= 1
    ensures KeyText(cs) == if |cs| == 1 then EntryText(cs[0]) else EntryText(cs[0]) + [','] + KeyText(cs[1..])
  {
    var rest := EntriesText(cs[1..]);
    var t := EntriesText(cs);
    assert t == EntryText(cs[0]) + [','] + rest;
    if |cs| == 1 {
      assert rest == [];
    } else {
      assert t[..|t| - 1] == EntryText(cs[0]) + [','] + rest[..|rest| - 1];
    }
  }

  /** Code digits are emitted one byte each. */
  lemma {:induction false} EncodeDigits(bits: seq<Bit>, rest: seq<Octet>)
    ensures EncodeKey(bits + rest, false) == CodeBytes(bits) + EncodeKey(rest, false)
  {
    if |bits| == 0 {
      assert bits + rest == rest;
    } else {
      var s := bits + rest;
      assert s[0] == bits[0] && s[1..] == bits[1..] + rest;
      EncodeDigits(bits[1..], rest);
      assert CodeBytes(bits) == [CodeBytes(bits)[0]] + CodeBytes(bits[1..]);
    }
  }

  /** A held `:` followed by anything but `:` is emitted as the divider. */
  lemma HeldSeparator(s: seq<Octet>)
    requires |s| > 0 && s[0] != ':'
    ensures EncodeKey(s, true) == [Divider] + EncodeKey(s, false)
  {
  }

  /** An entry with a non-empty code is emitted as its character, the
      divider and its digits, the character `:` included. */
  lemma {:induction false} EncodeEntry(c: Code, rest: seq<Octet>)
    requires |c.bits| >= 1
    ensures EncodeKey(EntryText(c) + rest, false) == EntryBytes(c) + EncodeKey(rest, false)
  {
    var s := EntryText(c) + rest;
    var tail := c.bits + rest;
    assert s[0] == c.sym && s[1..] == [':'] + tail;
    assert ([':'] + tail)[0] == ':' && ([':'] + tail)[1..] == tail;
    EncodeDigits(c.bits, rest);
    if c.sym == ':' {
      assert EncodeKey(s, false) == EncodeKey([':'] + tail, true);
    } else {
      assert EncodeKey(s, false) == [c.sym as int] + EncodeKey([':'] + tail, false);
      assert tail[0] == c.bits[0];
      HeldSeparator(tail);
    }
  }

  /** With non-empty codes, `binary_key` is the rendering of the entries'
      bytes joined by commas: every separator became a divider and a key
      character `:` became `:` followed by the divider. */
  lemma {:induction false} KeyShape(cs: seq<Code>)
    requires forall i :: 0 <= i < |cs| ==> |cs[i].bits| >= 1
    ensures EncodeKey(KeyText(cs), false) == KeyBytes(cs)
    ensures BinaryKey(cs) == Serialize(KeyBytes(cs))
  {
    if |cs| == 1 {
      KeyTextSplit(cs);
      EncodeEntry(cs[0], []);
      assert EntryText(cs[0]) + [] == EntryText(cs[0]);
    } else if |cs| > 1 {
      KeyTextSplit(cs);
      var rest := KeyText(cs[1..]);
      assert KeyText(cs) == EntryText(cs[0]) + ([','] + rest);
      EncodeEntry(cs[0], [','] + rest);
      assert ([','] + rest)[1..] == rest;
      KeyShape(cs[1..]);
    }
  }

  /** A lone character with the empty code: the held `:` is dropped, so
      only the character reaches the key, unless the character is `:`. */
  lemma {:induction false} LoneKey(c: Octet)
    ensures EncodeKey(KeyText([Code(c, [])]), false) == if c == ':' then [':' as int, Divider] else [c as int]
  {
    KeyTextSplit([Code(c, [])]);
    assert KeyText([Code(c, [])]) == [c, ':'];
    assert [c, ':'][1..] == [':'];
    assert [':'][1..] == [];
  }
}
