/** Bit strings and bytes as the compressor handles them. A bit string is a
    text of the characters '0' and '1', most significant bit first; the
    compressor renders values into such texts and reads them back. */
module Bits {

  /** One character of a bit string. */
  type Bit = c: char | c == '0' || c == '1' witness '0'

  /** A character of a byte string: the compressor reads its input as bytes. */
  type Octet = c: char | c as int < 256

  /** A byte value as it is written to, or read from, the artifact file. */
  type Byte = b: int | 0 <= b < 256

  function Pow2(n: nat): (r: nat)
    ensures r >= 1
  {
    if n == 0 then 1 else 2 * Pow2(n - 1)
  }

  lemma {:induction false} Pow2Monotone(a: nat, b: nat)
    requires a <= b
    ensures Pow2(a) <= Pow2(b)
    decreases b
  {
    if a < b {
      Pow2Monotone(a, b - 1);
    }
  }

  function BitValue(b: Bit): nat
  {
    if b == '1' then 1 else 0
  }

  /** The number `int(s, 2)` reads from a bit string (Horner's rule). */
  function Value(s: seq<Bit>): nat
  {
    if |s| == 0 then 0 else 2 * Value(s[..|s| - 1]) + BitValue(s[|s| - 1])
  }

  /** `n` zero bits. */
  function Zeros(n: nat): (r: seq<Bit>)
    ensures |r| == n
    ensures forall i :: 0 <= i < n ==> r[i] == '0'
  {
    seq(n, i => '0')
  }

  /** `convert_to_binary_string(value, width)`: subtract the weight of the
      leading position when it fits, emit '1', otherwise emit '0'. */
  function ToBinary(value: int, width: nat): (r: seq<Bit>)
    ensures |r| == width
  {
    if width == 0 then []
    else if value - Pow2(width - 1) >= 0 then ['1'] + ToBinary(value - Pow2(width - 1), width - 1)
    else ['0'] + ToBinary(value, width - 1)
  }

  lemma {:induction false} ValueBound(s: seq<Bit>)
    ensures Value(s) < Pow2(|s|)
  {
    if |s| > 0 {
      ValueBound(s[..|s| - 1]);
    }
  }

  /** The leading bit of a text weighs 2^(number of bits after it). */
  lemma {:induction false} ValueCons(b: Bit, s: seq<Bit>)
    ensures Value([b] + s) == (if b == '1' then Pow2(|s|) else 0) + Value(s)
    decreases |s|
  {
    if |s| == 0 {
      assert ([b] + s)[..0] == [];
    } else {
      var s' := s[..|s| - 1];
      assert ([b] + s)[..|s|] == [b] + s';
      ValueCons(b, s');
    }
  }

  /** Leading zeros do not change the value. */
  lemma {:induction false} ValueZerosPrefix(n: nat, s: seq<Bit>)
    ensures Value(Zeros(n) + s) == Value(s)
  {
    if n > 0 {
      assert Zeros(n) == ['0'] + Zeros(n - 1);
      assert Zeros(n) + s == ['0'] + (Zeros(n - 1) + s);
      ValueCons('0', Zeros(n - 1) + s);
      ValueZerosPrefix(n - 1, s);
    } else {
      assert Zeros(n) + s == s;
    }
  }

  /** Rendering a value that fits into `width` bits and reading it back
      gives the value again. */
  lemma {:induction false} ValueOfToBinary(value: int, width: nat)
    requires 0 <= value < Pow2(width)
    ensures Value(ToBinary(value, width)) == value
  {
    if width > 0 {
      var half := Pow2(width - 1);
      if value - half >= 0 {
        ValueOfToBinary(value - half, width - 1);
        ValueCons('1', ToBinary(value - half, width - 1));
      } else {
        ValueOfToBinary(value, width - 1);
        ValueCons('0', ToBinary(value, width - 1));
      }
    }
  }

  /** Reading a bit string and rendering it at its own width gives the
      same bit string: `ToBinary` is onto the bit strings of a width. */
  lemma {:induction false} ToBinaryOfValue(w: seq<Bit>)
    ensures ToBinary(Value(w), |w|) == w
  {
    if |w| > 0 {
      var tail := w[1..];
      assert w == [w[0]] + tail;
      ValueCons(w[0], tail);
      ValueBound(tail);
      ToBinaryOfValue(tail);
    }
  }

  /** Two in-range values render to the same bits exactly when they are equal. */
  lemma ToBinaryInjective(a: int, b: int, width: nat)
    requires 0 <= a < Pow2(width) && 0 <= b < Pow2(width)
    ensures ToBinary(a, width) == ToBinary(b, width) <==> a == b
  {
    ValueOfToBinary(a, width);
    ValueOfToBinary(b, width);
  }

  /** `convert_to_char_from_binary`: position i weighs 2^(7 - i), so the
      text is read as if zero-filled on the right to eight bits. */
  method CharFromBinary(binary: seq<Bit>) returns (value: int)
    requires |binary| <= 8
    ensures value == Value(binary + Zeros(8 - |binary|))
    ensures 0 <= value < 256
    ensures |binary| == 8 ==> value == Value(binary)
  {
    value := 0;
    var i := 0;
    ValueZerosPrefix(8, []);
    assert binary[..0] + Zeros(8) == Zeros(8) + [];
    while i < |binary|
      invariant 0 <= i <= |binary|
      invariant value == Value(binary[..i] + Zeros(8 - i))
    {
      ReadOneMore(binary, i);
      value := value + BitValue(binary[i]) * Pow2(7 - i);
      i := i + 1;
    }
    assert binary[..i] == binary;
    ValueBound(binary + Zeros(8 - |binary|));
    assert Pow2(8) == 256;
    assert binary + Zeros(0) == binary;
  }

  /** One step of the loop in `CharFromBinary`. */
  lemma ReadOneMore(binary: seq<Bit>, i: nat)
    requires i < |binary| <= 8
    ensures Value(binary[..i + 1] + Zeros(7 - i))
         == Value(binary[..i] + Zeros(8 - i)) + BitValue(binary[i]) * Pow2(7 - i)
  {
    var p, z := binary[..i], Zeros(7 - i);
    assert binary[..i + 1] + z == p + [binary[i]] + z;
    assert binary[..i] + Zeros(8 - i) == p + ['0'] + z;
    FlipBit(p, binary[i], z);
  }

  /** Setting one bit adds its weight. */
  lemma {:induction false} FlipBit(p: seq<Bit>, b: Bit, z: seq<Bit>)
    ensures Value(p + [b] + z) == Value(p + ['0'] + z) + (if b == '1' then Pow2(|z|) else 0)
    decreases |z|
  {
    if |z| == 0 {
      assert (p + [b] + z)[..|p|] == p;
      assert (p + ['0'] + z)[..|p|] == p;
    } else {
      var z' := z[..|z| - 1];
      assert (p + [b] + z)[..|p| + |z|] == p + [b] + z';
      assert (p + ['0'] + z)[..|p| + |z|] == p + ['0'] + z';
      FlipBit(p, b, z');
    }
  }

  /** `bin(n)[2:]`: the binary digits of n without leading zeros ("0" for zero). */
  function MinimalBinary(n: nat): (r: seq<Bit>)
    decreases n
  {
    if n < 2 then [if n == 1 then '1' else '0']
    else MinimalBinary(n / 2) + [if n % 2 == 1 then '1' else '0']
  }

  lemma {:induction false} MinimalBinaryValue(n: nat, k: nat)
    requires 1 <= k && n < Pow2(k)
    ensures Value(MinimalBinary(n)) == n
    ensures |MinimalBinary(n)| <= k
    decreases n
  {
    var r := MinimalBinary(n);
    if n < 2 {
      assert r[..0] == [];
    } else {
      assert k >= 2;
      MinimalBinaryValue(n / 2, k - 1);
      assert r[..|r| - 1] == MinimalBinary(n / 2);
    }
  }

  /** `s.zfill(width)`: left-pad with zeros up to `width` characters. */
  function ZFill(s: seq<Bit>, width: nat): (r: seq<Bit>)
  {
    if |s| >= width then s else Zeros(width - |s|) + s
  }

  /** The decompressor's rendering of one file byte: `bin(b)[2:].zfill(8)`. */
  function ByteToBits(b: Byte): seq<Bit>
  {
    ZFill(MinimalBinary(b), 8)
  }

  /** The decompressor's `bin(..).zfill(8)` and the compressor's
      `convert_to_binary_string(.., 8)` render every byte identically. */
  lemma ByteToBitsAgrees(b: Byte)
    ensures ByteToBits(b) == ToBinary(b, 8)
  {
    assert Pow2(8) == 256;
    MinimalBinaryValue(b, 8);
    var m := MinimalBinary(b);
    var w := ByteToBits(b);
    if |m| < 8 {
      ValueZerosPrefix(8 - |m|, m);
    }
    assert |w| == 8 && Value(w) == b;
    ToBinaryOfValue(w);
  }

  lemma AllBytesAgree()
    ensures forall b: Byte :: ByteToBits(b) == ToBinary(b, 8)
  {
    forall b: Byte
      ensures ByteToBits(b) == ToBinary(b, 8)
    {
      ByteToBitsAgrees(b);
    }
  }
}
