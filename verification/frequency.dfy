/** The character dictionary of `compress` and its descending ordering
    (huffman_coding.py, lines 58-69). */
module Frequency {
  import opened Bits

  /** One (character, count) pair of the character dictionary. */
  datatype Entry = Entry(sym: Octet, count: nat)

  function Syms(es: seq<Entry>): (r: seq<Octet>)
    ensures |r| == |es|
    ensures forall i :: 0 <= i < |es| ==> r[i] == es[i].sym
  {
    if |es| == 0 then [] else [es[0].sym] + Syms(es[1..])
  }

  /** The sum of the counts. */
  function Total(es: seq<Entry>): nat
  {
    if |es| == 0 then 0 else es[0].count + Total(es[1..])
  }

  /** No element occurs twice. */
  ghost predicate NoDup<T(!new)>(s: seq<T>)
  {
    forall x :: multiset(s)[x] <= 1
  }

  lemma NoDupDistinct<T(!new)>(s: seq<T>, i: int, j: int)
    requires NoDup(s) && 0 <= i < j < |s|
    ensures s[i] != s[j]
  {
    var x, front, back := s[i], s[..j], s[j..];
    assert s == front + back;
    assert x in front;
    assert multiset(s)[x] == multiset(front)[x] + multiset(back)[x];
    assert multiset(back)[x] == 0;
    assert s[j] in back;
  }

  lemma NoDupTail<T(!new)>(s: seq<T>)
    requires NoDup(s) && |s| > 0
    ensures NoDup(s[1..]) && s[0] !in s[1..]
  {
    assert s == [s[0]] + s[1..];
    forall x
      ensures multiset(s[1..])[x] <= 1
    {
      assert multiset(s)[x] == multiset([s[0]])[x] + multiset(s[1..])[x];
    }
    assert multiset(s)[s[0]] == 1 + multiset(s[1..])[s[0]];
  }

  /** The count the dictionary holds for `c`, zero when `c` is no key. */
  function CountOf(es: seq<Entry>, c: Octet): nat
  {
    if |es| == 0 then 0 else if es[0].sym == c then es[0].count else CountOf(es[1..], c)
  }

  lemma CountOfMember(es: seq<Entry>, e: Entry)
    requires NoDup(Syms(es)) && e in es
    ensures CountOf(es, e.sym) == e.count
  {
    if es[0] != e {
      assert Syms(es)[1..] == Syms(es[1..]);
      NoDupTail(Syms(es));
      var k :| 0 <= k < |es| && es[k] == e;
      assert k > 0 && es[1..][k - 1] == e;
      if es[0].sym == e.sym {
        NoDupDistinct(Syms(es), 0, k);
      }
      CountOfMember(es[1..], e);
    }
  }

  /** One step of the counting loop: `chars[c] += 1` for a known key, a
      new key `chars[c] = 1` otherwise (lines 61-64). */
  function Bump(es: seq<Entry>, c: Octet): (r: seq<Entry>)
    ensures forall x :: CountOf(r, x) == CountOf(es, x) + (if x == c then 1 else 0)
    ensures forall x :: x in Syms(r) <==> x in Syms(es) || x == c
    ensures multiset(Syms(r)) == if c in Syms(es) then multiset(Syms(es)) else multiset(Syms(es)) + multiset{c}
    ensures Total(r) == Total(es) + 1
  {
    if |es| == 0 then [Entry(c, 1)]
    else
      assert Syms(es) == [es[0].sym] + Syms(es[1..]);
      if es[0].sym == c then
        var r := [Entry(c, es[0].count + 1)] + es[1..];
        assert r[1..] == es[1..];
        assert Syms(r) == [c] + Syms(es[1..]);
        r
      else
        var rest := Bump(es[1..], c);
        var r := [es[0]] + rest;
        assert r[1..] == rest;
        assert Syms(r) == [es[0].sym] + Syms(rest);
        r
  }

  /** The character dictionary `chars` after the counting loop, as an
      association list in order of first occurrence. */
  function Tally(text: seq<Octet>): (es: seq<Entry>)
    ensures forall x :: CountOf(es, x) == multiset(text)[x]
    ensures forall x :: x in Syms(es) <==> x in text
    ensures NoDup(Syms(es))
    ensures Total(es) == |text|
  {
    if |text| == 0 then []
    else
      var front, last := text[..|text| - 1], text[|text| - 1];
      assert text == front + [last];
      Bump(Tally(front), last)
  }

  /** Every entry of the dictionary holds the number of occurrences of its
      character, which is at least one. */
  lemma TallyCounts(text: seq<Octet>)
    ensures forall e :: e in Tally(text) ==> e.count == multiset(text)[e.sym] >= 1
  {
    var es := Tally(text);
    forall e | e in es
      ensures e.count == multiset(text)[e.sym] >= 1
    {
      CountOfMember(es, e);
      var k :| 0 <= k < |es| && es[k] == e;
      assert e.sym in Syms(es);
    }
  }

  /** `a` sorts before `b` under `key=(count, char), reverse=True`. */
  predicate Above(a: Entry, b: Entry)
  {
    a.count > b.count || (a.count == b.count && a.sym > b.sym)
  }

  ghost predicate Descending(es: seq<Entry>)
  {
    forall i, j :: 0 <= i < j < |es| ==> Above(es[i], es[j])
  }

  /** Inserts `e` in front of the first entry it sorts before. */
  function InsertEntry(e: Entry, es: seq<Entry>): (r: seq<Entry>)
    ensures multiset(r) == multiset(es) + multiset{e}
  {
    if |es| == 0 || Above(e, es[0]) then [e] + es
    else
      assert es == [es[0]] + es[1..];
      [es[0]] + InsertEntry(e, es[1..])
  }

  /** Inserting adds the entry's character and count. */
  lemma {:induction false} InsertEntrySyms(e: Entry, es: seq<Entry>)
    ensures multiset(Syms(InsertEntry(e, es))) == multiset(Syms(es)) + multiset{e.sym}
    ensures Total(InsertEntry(e, es)) == Total(es) + e.count
  {
    var r := InsertEntry(e, es);
    if |es| == 0 || Above(e, es[0]) {
      assert r[1..] == es;
      assert Syms(r) == [e.sym] + Syms(es);
    } else {
      var rest := InsertEntry(e, es[1..]);
      InsertEntrySyms(e, es[1..]);
      assert r[1..] == rest;
      assert Syms(r) == [es[0].sym] + Syms(rest);
      assert Syms(es) == [es[0].sym] + Syms(es[1..]);
    }
  }

  lemma ConsDescending(top: Entry, rest: seq<Entry>)
    requires Descending(rest)
    requires forall x :: x in rest ==> Above(top, x)
    ensures Descending([top] + rest)
  {
    var r := [top] + rest;
    forall i, j | 0 <= i < j < |r|
      ensures Above(r[i], r[j])
    {
      assert r[j] == rest[j - 1];
      if i > 0 {
        assert r[i] == rest[i - 1];
      }
    }
  }

  lemma InsertEntryBelow(top: Entry, e: Entry, es: seq<Entry>)
    requires Above(top, e)
    requires forall x :: x in es ==> Above(top, x)
    ensures forall x :: x in InsertEntry(e, es) ==> Above(top, x)
  {
    var r := InsertEntry(e, es);
    forall x | x in r
      ensures Above(top, x)
    {
      assert x in multiset(r);
      if x != e {
        assert x in multiset(es);
      }
    }
  }

  /** The first entry of a descending list sorts before all the others. */
  lemma HeadAboveRest(es: seq<Entry>)
    requires Descending(es) && |es| > 0
    ensures forall x :: x in es[1..] ==> Above(es[0], x)
  {
    forall x | x in es[1..]
      ensures Above(es[0], x)
    {
      var k :| 0 <= k < |es| - 1 && es[1..][k] == x;
      assert es[k + 1] == x;
    }
  }

  /** Inserting an entry with a new character keeps the list descending. */
  lemma {:induction false} InsertEntryDescending(e: Entry, es: seq<Entry>)
    requires Descending(es) && e.sym !in Syms(es)
    ensures Descending(InsertEntry(e, es))
  {
    if |es| == 0 {
      ConsDescending(e, es);
    } else {
      var tail := es[1..];
      assert es == [es[0]] + tail;
      HeadAboveRest(es);
      if Above(e, es[0]) {
        assert forall x :: x in es ==> x == es[0] || x in tail;
        ConsDescending(e, es);
      } else {
        assert Syms(es) == [es[0].sym] + Syms(tail);
        InsertEntryDescending(e, tail);
        InsertEntryBelow(es[0], e, tail);
        ConsDescending(es[0], InsertEntry(e, tail));
      }
    }
  }

  /** `sorted(..., key=(count, char), reverse=True)`, as an insertion sort. */
  function SortEntries(es: seq<Entry>): (r: seq<Entry>)
    ensures multiset(r) == multiset(es)
  {
    if |es| == 0 then []
    else
      assert es == [es[0]] + es[1..];
      InsertEntry(es[0], SortEntries(es[1..]))
  }

  /** Sorting keeps the characters. */
  lemma {:induction false} SortEntriesSyms(es: seq<Entry>)
    ensures multiset(Syms(SortEntries(es))) == multiset(Syms(es))
  {
    if |es| > 0 {
      SortEntriesSyms(es[1..]);
      InsertEntrySyms(es[0], SortEntries(es[1..]));
      assert multiset(Syms(es)) == multiset{es[0].sym} + multiset(Syms(es[1..])) by {
        assert Syms(es) == [es[0].sym] + Syms(es[1..]);
      }
    }
  }

  /** Sorting keeps the sum of the counts. */
  lemma {:induction false} SortEntriesTotal(es: seq<Entry>)
    ensures Total(SortEntries(es)) == Total(es)
  {
    if |es| > 0 {
      SortEntriesTotal(es[1..]);
      InsertEntrySyms(es[0], SortEntries(es[1..]));
    }
  }

  lemma {:induction false} SortEntriesDescending(es: seq<Entry>)
    requires NoDup(Syms(es))
    ensures Descending(SortEntries(es))
  {
    if |es| > 0 {
      var rest := SortEntries(es[1..]);
      assert Syms(es)[1..] == Syms(es[1..]);
      NoDupTail(Syms(es));
      SortEntriesDescending(es[1..]);
      SortEntriesSyms(es[1..]);
      assert es[0].sym !in Syms(rest) by {
        assert es[0].sym !in multiset(Syms(es[1..]));
      }
      InsertEntryDescending(es[0], rest);
    }
  }

  /** The list `sorted_list` of `compress` (lines 58-69): one entry per
      distinct character of the text, holding its number of occurrences,
      strictly descending by (count, character), the counts summing to the
      length of the text. */
  function InitialOrder(text: seq<Octet>): (r: seq<Entry>)
    ensures Descending(r)
    ensures NoDup(Syms(r))
    ensures forall x :: x in Syms(r) <==> x in text
    ensures forall e :: e in r ==> e.count == multiset(text)[e.sym] >= 1
    ensures Total(r) == |text|
  {
    TallyCounts(text);
    SortEntriesSyms(Tally(text));
    SortEntriesTotal(Tally(text));
    SortEntriesDescending(Tally(text));
    var r := SortEntries(Tally(text));
    assert forall e :: e in r ==> e in multiset(r);
    assert forall x :: x in Syms(r) <==> x in multiset(Syms(r));
    assert forall x :: x in Syms(Tally(text)) <==> x in multiset(Syms(Tally(text)));
    r
  }

  lemma HeadIsTop(s: seq<Entry>, k: int)
    requires Descending(s) && 0 <= k < |s|
    ensures s[0] == s[k] || Above(s[0], s[k])
  {
  }

  /** Two descending arrangements of one collection start alike. */
  lemma SameHead(a: seq<Entry>, b: seq<Entry>)
    requires Descending(a) && Descending(b) && multiset(a) == multiset(b) && |a| > 0
    ensures |b| > 0 && a[0] == b[0]
  {
    assert a[0] in multiset(b) && a[0] in b;
    var i :| 0 <= i < |b| && b[i] == a[0];
    assert b[0] in multiset(a) && b[0] in a;
    var j :| 0 <= j < |a| && a[j] == b[0];
    HeadIsTop(b, i);
    HeadIsTop(a, j);
  }

  /** Removing the same first element from two arrangements of one
      collection leaves arrangements of one collection. */
  lemma SameTail(a: seq<Entry>, b: seq<Entry>)
    requires multiset(a) == multiset(b) && |a| > 0 && |b| > 0 && a[0] == b[0]
    ensures multiset(a[1..]) == multiset(b[1..])
  {
    assert a == [a[0]] + a[1..] && b == [b[0]] + b[1..];
    assert multiset(a) == multiset{a[0]} + multiset(a[1..]);
    assert multiset(b) == multiset{b[0]} + multiset(b[1..]);
    forall y
      ensures multiset(a[1..])[y] == multiset(b[1..])[y]
    {
      assert multiset(a)[y] == multiset{a[0]}[y] + multiset(a[1..])[y];
      assert multiset(b)[y] == multiset{b[0]}[y] + multiset(b[1..])[y];
    }
  }

  /** A strictly descending arrangement of a collection is unique, so the
      insertion sort above yields exactly the list Python's `sorted` builds. */
  lemma {:induction false} DescendingUnique(a: seq<Entry>, b: seq<Entry>)
    requires Descending(a) && Descending(b) && multiset(a) == multiset(b)
    ensures a == b
  {
    if |a| > 0 {
      SameHead(a, b);
      SameTail(a, b);
      DescendingUnique(a[1..], b[1..]);
      assert a == [a[0]] + a[1..] && b == [b[0]] + b[1..];
    } else {
      assert |b| == |multiset(b)| == |multiset(a)| == 0;
    }
  }
}
