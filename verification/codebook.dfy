/** The code of every character, read off the tree, and the encoding of the
    text with those codes (huffman_coding.py, lines 20-30 and 110-124). */
module CodeBook {
  import opened Bits
  import opened Frequency
  import opened HuffmanTree

  /** One pair `(character, code)` of the list `generate_binary` returns. */
  datatype Code = Code(sym: Octet, bits: seq<Bit>)

  function CodeSyms(cs: seq<Code>): (r: seq<Octet>)
    ensures |r| == |cs|
    ensures forall i :: 0 <= i < |cs| ==> r[i] == cs[i].sym
  {
    seq(|cs|, i requires 0 <= i < |cs| => cs[i].sym)
  }

  /** `generate_binary(start)`: a leaf yields its character with the code
      built so far; a merged node yields the codes under `child1`, extended
      by '0', followed by those under `child2`, extended by '1'. */
  function GenerateBinary(n: Node, start: seq<Bit>): (cs: seq<Code>)
    ensures CodeSyms(cs) == Name(n)
    ensures forall i :: 0 <= i < |cs| ==> start <= cs[i].bits
    ensures n.Internal? ==> forall i :: 0 <= i < |cs| ==> |cs[i].bits| > |start|
  {
    match n
    case Leaf(c, _) => [Code(c, start)]
    case Internal(_, a, b) =>
      var left, right := GenerateBinary(a, start + ['0']), GenerateBinary(b, start + ['1']);
      assert CodeSyms(left + right) == CodeSyms(left) + CodeSyms(right);
      left + right
  }

  /** No code is a prefix of another code of the list. */
  ghost predicate PrefixFree(cs: seq<Code>)
  {
    forall i, j :: 0 <= i < |cs| && 0 <= j < |cs| && i != j ==> !(cs[i].bits <= cs[j].bits)
  }

  /** The codes under `child1` carry '0' right after the starting code, the
      codes under `child2` carry '1' there. */
  lemma {:induction false} GenerateBinaryBranches(n: Node, start: seq<Bit>)
    requires n.Internal?
    ensures var left := GenerateBinary(n.child1, start + ['0']);
      && GenerateBinary(n, start) == left + GenerateBinary(n.child2, start + ['1'])
      && forall i :: 0 <= i < |GenerateBinary(n, start)| ==>
           GenerateBinary(n, start)[i].bits[|start|] == if i < |left| then '0' else '1'
  {
  }

  /** The codes `generate_binary` derives form a prefix code. */
  lemma {:induction false} GenerateBinaryPrefixFree(n: Node, start: seq<Bit>)
    ensures PrefixFree(GenerateBinary(n, start))
  {
    if n.Internal? {
      var left, right := GenerateBinary(n.child1, start + ['0']), GenerateBinary(n.child2, start + ['1']);
      var cs := GenerateBinary(n, start);
      GenerateBinaryPrefixFree(n.child1, start + ['0']);
      GenerateBinaryPrefixFree(n.child2, start + ['1']);
      GenerateBinaryBranches(n, start);
      forall i, j | 0 <= i < |cs| && 0 <= j < |cs| && i != j
        ensures !(cs[i].bits <= cs[j].bits)
      {
        if i < |left| && j < |left| {
          assert cs[i] == left[i] && cs[j] == left[j];
        } else if i >= |left| && j >= |left| {
          assert cs[i] == right[i - |left|] && cs[j] == right[j - |left|];
        } else {
          assert cs[i].bits[|start|] != cs[j].bits[|start|];
        }
      }
    }
  }

  /** `binary_characters_dict` (lines 112-117): the pairs entered in order,
      so a later pair for a character overrides an earlier one. */
  function ToDict(cs: seq<Code>): (d: map<Octet, seq<Bit>>)
    ensures forall c :: c in d <==> c in CodeSyms(cs)
  {
    if |cs| == 0 then map[]
    else
      assert CodeSyms(cs) == CodeSyms(cs[..|cs| - 1]) + [cs[|cs| - 1].sym];
      ToDict(cs[..|cs| - 1])[cs[|cs| - 1].sym := cs[|cs| - 1].bits]
  }

  /** A character is mapped to the code of its last pair. */
  lemma {:induction false} ToDictLookup(cs: seq<Code>, i: int)
    requires 0 <= i < |cs| && cs[i].sym !in CodeSyms(cs[i + 1..])
    ensures ToDict(cs)[cs[i].sym] == cs[i].bits
  {
    var n := |cs|;
    if i < n - 1 {
      var front := cs[..n - 1];
      assert cs[n - 1].sym == CodeSyms(cs[i + 1..])[n - 2 - i];
      assert CodeSyms(front[i + 1..]) == CodeSyms(cs[i + 1..])[..n - 2 - i];
      ToDictLookup(front, i);
    }
  }

  /** With distinct characters every pair is found in the dictionary. */
  lemma {:induction false} ToDictDistinct(cs: seq<Code>)
    requires NoDup(CodeSyms(cs))
    ensures forall i :: 0 <= i < |cs| ==> ToDict(cs)[cs[i].sym] == cs[i].bits
  {
    forall i | 0 <= i < |cs|
      ensures ToDict(cs)[cs[i].sym] == cs[i].bits
    {
      if cs[i].sym in CodeSyms(cs[i + 1..]) {
        var k :| 0 <= k < |cs| - i - 1 && CodeSyms(cs[i + 1..])[k] == cs[i].sym;
        NoDupDistinct(CodeSyms(cs), i, i + 1 + k);
      }
      ToDictLookup(cs, i);
    }
  }

  /** `compressed_text` (lines 122-124): the codes of the text's characters,
      concatenated. */
  function EncodeText(d: map<Octet, seq<Bit>>, text: seq<Octet>): (bits: seq<Bit>)
    requires forall c :: c in text ==> c in d
  {
    if |text| == 0 then [] else d[text[0]] + EncodeText(d, text[1..])
  }

  /** Encoding distributes over concatenation of texts. */
  lemma {:induction false} EncodeTextAppend(d: map<Octet, seq<Bit>>, a: seq<Octet>, b: seq<Octet>)
    requires forall c :: c in a + b ==> c in d
    ensures EncodeText(d, a + b) == EncodeText(d, a) + EncodeText(d, b)
  {
    if |a| > 0 {
      assert (a + b)[1..] == a[1..] + b;
      EncodeTextAppend(d, a[1..], b);
    } else {
      assert a + b == b;
    }
  }

  /** When every code is non-empty the encoding is at least as long as the text. */
  lemma {:induction false} EncodeTextLength(d: map<Octet, seq<Bit>>, text: seq<Octet>)
    requires forall c :: c in text ==> c in d && |d[c]| >= 1
    ensures |EncodeText(d, text)| >= |text|
  {
    if |text| > 0 {
      EncodeTextLength(d, text[1..]);
    }
  }
}
