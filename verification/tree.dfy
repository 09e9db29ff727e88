/** The Huffman tree of `compress` and the loop that builds it
    (huffman_coding.py, lines 5-10 and 72-107). */
module HuffmanTree {
  import opened Bits
  import opened Frequency

  /** A node of the tree. The program tells a leaf by its one-character
      name; here the two kinds are told apart by constructor, and `Name`
      recovers the program's name. */
  datatype Node =
    | Leaf(sym: Octet, value: nat)
    | Internal(value: nat, child1: Node, child2: Node)

  /** `name`: a leaf is named by its character, a merged node by the
      concatenation of its children's names (line 90). */
  function Name(n: Node): seq<Octet>
  {
    match n
    case Leaf(c, _) => [c]
    case Internal(_, a, b) => Name(a) + Name(b)
  }

  /** The program's leaf test `len(self.name) == 1` (line 23) holds of
      exactly the leaves. */
  lemma {:induction false} LeafIffShortName(n: Node)
    ensures |Name(n)| >= 1
    ensures n.Leaf? <==> |Name(n)| == 1
  {
    if n.Internal? {
      LeafIffShortName(n.child1);
      LeafIffShortName(n.child2);
    }
  }

  /** Every merged node's value is the sum of its children's values. */
  ghost predicate WellFormed(n: Node)
  {
    match n
    case Leaf(_, _) => true
    case Internal(v, a, b) => v == a.value + b.value && WellFormed(a) && WellFormed(b)
  }

  /** The names of a node list, concatenated. */
  function Names(nodes: seq<Node>): seq<Octet>
  {
    if |nodes| == 0 then [] else Name(nodes[0]) + Names(nodes[1..])
  }

  /** The sum of the values of a node list. */
  function Weight(nodes: seq<Node>): nat
  {
    if |nodes| == 0 then 0 else nodes[0].value + Weight(nodes[1..])
  }

  lemma {:induction false} NamesAppend(a: seq<Node>, b: seq<Node>)
    ensures Names(a + b) == Names(a) + Names(b)
    ensures Weight(a + b) == Weight(a) + Weight(b)
  {
    if |a| == 0 {
      assert a + b == b;
    } else {
      assert (a + b)[1..] == a[1..] + b;
      NamesAppend(a[1..], b);
    }
  }

  ghost predicate NonIncreasing(nodes: seq<Node>)
  {
    forall i, j :: 0 <= i < j < |nodes| ==> nodes[i].value >= nodes[j].value
  }

  ghost predicate AllWellFormed(nodes: seq<Node>)
  {
    forall k :: 0 <= k < |nodes| ==> WellFormed(nodes[k])
  }

  /** The initial node list (lines 73-78): one leaf per entry of the sorted
      character list, in the same order. */
  function InitialNodes(order: seq<Entry>): (nodes: seq<Node>)
    ensures |nodes| == |order|
    ensures forall k :: 0 <= k < |order| ==> nodes[k] == Leaf(order[k].sym, order[k].count)
  {
    seq(|order|, k requires 0 <= k < |order| => Leaf(order[k].sym, order[k].count))
  }

  /** The initial node list is non-increasing by value, consists of leaves,
      and carries the characters and counts of the sorted list. */
  lemma {:induction false} InitialNodesSpec(order: seq<Entry>)
    requires Descending(order)
    ensures NonIncreasing(InitialNodes(order))
    ensures AllWellFormed(InitialNodes(order))
    ensures Names(InitialNodes(order)) == Syms(order)
    ensures Weight(InitialNodes(order)) == Total(order)
  {
    var nodes := InitialNodes(order);
    forall i, j | 0 <= i < j < |nodes|
      ensures nodes[i].value >= nodes[j].value
    {
      assert Above(order[i], order[j]);
    }
    if |order| > 0 {
      assert InitialNodes(order)[1..] == InitialNodes(order[1..]);
      assert Descending(order[1..]) by {
        forall i, j | 0 <= i < j < |order[1..]|
          ensures Above(order[1..][i], order[1..][j])
        {
          assert Above(order[i + 1], order[j + 1]);
        }
      }
      InitialNodesSpec(order[1..]);
    }
  }

  /** The merged node of one loop iteration (lines 89-93): `child1` is the
      first node popped, `child2` the second. */
  function Merge(first: Node, second: Node): (n: Node)
  {
    Internal(first.value + second.value, first, second)
  }

  /** The index the search at lines 96-101 stops at: the first node whose
      value is at most `v`, or the end of the list when there is none. */
  function InsertionPoint(nodes: seq<Node>, v: nat): (i: nat)
    ensures i <= |nodes|
    ensures forall j :: 0 <= j < i ==> nodes[j].value > v
    ensures i < |nodes| ==> nodes[i].value <= v
  {
    if |nodes| == 0 then 0
    else if nodes[0].value <= v then 0
    else 1 + InsertionPoint(nodes[1..], v)
  }

  /** `nodes.insert(i, new_node)`, or `nodes.append(new_node)` when the
      search found no place (lines 96-104). */
  function Insert(nodes: seq<Node>, n: Node): (r: seq<Node>)
    ensures |r| == |nodes| + 1
  {
    var i := InsertionPoint(nodes, n.value);
    nodes[..i] + [n] + nodes[i..]
  }

  /** Inserting at the search's index keeps the list non-increasing. */
  lemma {:induction false} InsertKeepsOrder(nodes: seq<Node>, n: Node)
    requires NonIncreasing(nodes)
    ensures NonIncreasing(Insert(nodes, n))
  {
  }

  /** Inserting adds the new node's value and name. */
  lemma {:induction false} InsertContents(nodes: seq<Node>, n: Node)
    ensures Weight(Insert(nodes, n)) == Weight(nodes) + n.value
    ensures multiset(Names(Insert(nodes, n))) == multiset(Names(nodes)) + multiset(Name(n))
  {
    var i := InsertionPoint(nodes, n.value);
    var front, back := nodes[..i], nodes[i..];
    assert nodes == front + back;
    assert Insert(nodes, n) == front + ([n] + back);
    NamesAppend(front, back);
    NamesAppend(front, [n] + back);
    assert ([n] + back)[1..] == back;
    assert Names([n] + back) == Name(n) + Names(back);
    assert Weight([n] + back) == n.value + Weight(back);
  }

  /** Inserting keeps every other node and adds the new one. */
  lemma {:induction false} InsertMembers(nodes: seq<Node>, n: Node)
    ensures forall x :: x in Insert(nodes, n) <==> x in nodes || x == n
  {
  }

  /** One iteration of the build loop (lines 85-104): pop the last two
      nodes, merge them, insert the merged node. */
  function Step(nodes: seq<Node>): (r: seq<Node>)
    requires |nodes| >= 2
    ensures |r| == |nodes| - 1
  {
    var first, second := nodes[|nodes| - 1], nodes[|nodes| - 2];
    Insert(nodes[..|nodes| - 2], Merge(first, second))
  }

  /** An iteration conserves the total value and the characters named,
      and its merged node is in the new list. */
  lemma {:induction false} StepContents(nodes: seq<Node>)
    requires |nodes| >= 2
    ensures Merge(nodes[|nodes| - 1], nodes[|nodes| - 2]) in Step(nodes)
    ensures Weight(Step(nodes)) == Weight(nodes)
    ensures multiset(Names(Step(nodes))) == multiset(Names(nodes))
  {
    var first, second := nodes[|nodes| - 1], nodes[|nodes| - 2];
    var front := nodes[..|nodes| - 2];
    InsertContents(front, Merge(first, second));
    InsertMembers(front, Merge(first, second));
    SplitLastTwo(nodes);
  }

  lemma SplitLastTwo(nodes: seq<Node>)
    requires |nodes| >= 2
    ensures var front, second, first := nodes[..|nodes| - 2], nodes[|nodes| - 2], nodes[|nodes| - 1];
      && Names(nodes) == Names(front) + Name(second) + Name(first)
      && Weight(nodes) == Weight(front) + second.value + first.value
  {
    var front, second, first := nodes[..|nodes| - 2], nodes[|nodes| - 2], nodes[|nodes| - 1];
    assert nodes == front + [second, first];
    NamesAppend(front, [second, first]);
    assert [second, first][1..] == [first];
    assert [first][1..] == [];
    assert Names([first]) == Name(first);
    assert Names([second, first]) == Name(second) + Name(first);
    assert Weight([first]) == first.value;
    assert Weight([second, first]) == second.value + first.value;
  }

  /** On a non-increasing list the two nodes an iteration pops hold the
      least values, and the list it leaves is non-increasing again. */
  lemma StepKeepsOrder(nodes: seq<Node>)
    requires |nodes| >= 2 && NonIncreasing(nodes)
    ensures forall k :: 0 <= k < |nodes| - 2 ==>
      nodes[k].value >= nodes[|nodes| - 2].value >= nodes[|nodes| - 1].value
    ensures NonIncreasing(Step(nodes))
  {
  }

  /** An iteration keeps every node well-formed. */
  lemma {:induction false} StepWellFormed(nodes: seq<Node>)
    requires |nodes| >= 2 && AllWellFormed(nodes)
    ensures AllWellFormed(Step(nodes))
  {
  }

  /** The build loop (lines 83-107) run to the end: the root of the tree. */
  function Build(nodes: seq<Node>): (root: Node)
    requires |nodes| >= 1
    decreases |nodes|
  {
    if |nodes| == 1 then nodes[0] else Build(Step(nodes))
  }

  /** The root carries the total value of the initial list and names every
      character of it. */
  lemma {:induction false} BuildSpec(nodes: seq<Node>)
    requires |nodes| >= 1
    ensures Build(nodes).value == Weight(nodes)
    ensures multiset(Name(Build(nodes))) == multiset(Names(nodes))
    ensures AllWellFormed(nodes) ==> WellFormed(Build(nodes))
    decreases |nodes|
  {
    if |nodes| == 1 {
      assert nodes[1..] == [];
      assert Names(nodes) == Name(nodes[0]);
    } else {
      StepContents(nodes);
      if AllWellFormed(nodes) {
        StepWellFormed(nodes);
      }
      BuildSpec(Step(nodes));
    }
  }

  /** With two or more nodes the root is a merged node. */
  lemma {:induction false} BuildMerged(nodes: seq<Node>)
    requires |nodes| >= 2
    ensures Build(nodes).Internal?
  {
    var root := Build(nodes);
    BuildSpec(nodes);
    NamesLength(nodes);
    LeafIffShortName(root);
    assert |Name(root)| == |multiset(Name(root))| == |multiset(Names(nodes))| == |Names(nodes)|;
  }

  lemma {:induction false} NamesLength(nodes: seq<Node>)
    ensures |Names(nodes)| >= |nodes|
  {
    if |nodes| > 0 {
      LeafIffShortName(nodes[0]);
      NamesLength(nodes[1..]);
    }
  }
}
