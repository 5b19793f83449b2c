/** The Huffman tree and its construction (project.py:7-39): the queue is
    seeded with one leaf per table entry, and while it holds more than one
    node the two lightest are popped and replaced by a new internal node
    whose weight is their sum; the last node left is the root. */
module HuffmanTree {
  import opened Seqs
  import opened Results
  import opened Frequencies

  /** A `HuffmanNode`. A leaf carries a key of the frequency table and its
      count; an internal node has no key (`char` is None) and always two
      children, the first popped on the left. */
  datatype Tree =
    | Leaf(sym: Symbol, weight: nat)
    | Node(weight: nat, left: Tree, right: Tree)

  /** Every internal node weighs what its two children weigh together. */
  predicate WellWeighted(t: Tree)
  {
    match t
    case Leaf(_, _) => true
    case Node(w, l, r) => w == l.weight + r.weight && WellWeighted(l) && WellWeighted(r)
  }

  /** The leaves, left to right, as table entries. */
  function Leaves(t: Tree): seq<Entry>
  {
    match t
    case Leaf(s, w) => [Entry(s, w)]
    case Node(_, l, r) => Leaves(l) + Leaves(r)
  }

  /** The keys at the leaves, left to right. */
  function LeafSyms(t: Tree): seq<Symbol>
  {
    match t
    case Leaf(s, _) => [s]
    case Node(_, l, r) => LeafSyms(l) + LeafSyms(r)
  }

  /** The number of internal nodes, i.e. of merges that built the tree. */
  function InternalCount(t: Tree): nat
  {
    match t
    case Leaf(_, _) => 0
    case Node(_, l, r) => 1 + InternalCount(l) + InternalCount(r)
  }

  /** The sum of the weights of the internal nodes: what the merges cost. */
  function MergeCost(t: Tree): nat
  {
    match t
    case Leaf(_, _) => 0
    case Node(w, l, r) => w + MergeCost(l) + MergeCost(r)
  }

  lemma {:induction false} LeafSymsAreKeys(t: Tree)
    ensures LeafSyms(t) == Syms(Leaves(t))
  {
    match t
    case Leaf(s, w) =>
      Cons(Entry(s, w), []);
      assert [Entry(s, w)] + [] == [Entry(s, w)];
    case Node(_, l, r) =>
      LeafSymsAreKeys(l);
      LeafSymsAreKeys(r);
      FlattenConcat(Leaves(l), Leaves(r), SymOf);
  }

  lemma {:induction false} LeafEntryKey(t: Tree, e: Entry)
    requires e in Leaves(t)
    ensures e.sym in LeafSyms(t)
  {
    match t
    case Leaf(_, _) =>
    case Node(_, l, r) =>
      if e in Leaves(l) {
        LeafEntryKey(l, e);
      } else {
        LeafEntryKey(r, e);
      }
  }

  /** Every internal node has exactly two children, so a tree with n leaves
      has n - 1 internal nodes. */
  lemma {:induction false} LeafCount(t: Tree)
    ensures |Leaves(t)| == InternalCount(t) + 1
  {
    match t
    case Leaf(_, _) =>
    case Node(_, l, r) =>
      LeafCount(l);
      LeafCount(r);
  }

  /** The weight of a well-weighted tree is the total count of its leaves. */
  lemma {:induction false} WeightIsLeafTotal(t: Tree)
    requires WellWeighted(t)
    ensures t.weight == Total(Leaves(t))
  {
    match t
    case Leaf(s, w) =>
      Cons(Entry(s, w), []);
      assert [Entry(s, w)] + [] == [Entry(s, w)];
    case Node(_, l, r) =>
      WeightIsLeafTotal(l);
      WeightIsLeafTotal(r);
      SumConcat(Leaves(l), Leaves(r), CountOf);
  }

  // ---------------------------------------------------------------------
  // The priority queue

  /** A queued node with the sequence number that breaks weight ties: the
      leaves are numbered in table order, merged nodes after them in the
      order they are created. */
  datatype Item = Item(tree: Tree, seqNo: nat)

  /** The extraction order: lighter first, and among equal weights the one
      queued earlier. `HuffmanNode.__lt__` compares weights only and leaves
      ties to the heap; this fixes one total order in its place. */
  predicate Precedes(a: Item, b: Item)
  {
    a.tree.weight < b.tree.weight || (a.tree.weight == b.tree.weight && a.seqNo <= b.seqNo)
  }

  /** The position of the item `heappop` returns. */
  function MinIndex(q: seq<Item>): (i: nat)
    requires q != []
    ensures i < |q|
    ensures forall j :: 0 <= j < |q| ==> Precedes(q[i], q[j])
  {
    if |q| == 1 then 0
    else
      var k := MinIndex(q[1..]) + 1;
      if Precedes(q[0], q[k]) then 0 else k
  }

  /** Two consecutive `heappop`s: the first and second items taken and what
      stays queued. */
  datatype Extraction = Extraction(first: Item, second: Item, rest: seq<Item>)

  /** The greedy choice: the two items popped come before, and so weigh no
      more than, every item left in the queue, and nothing is lost or made up. */
  function PopTwo(q: seq<Item>): (x: Extraction)
    requires |q| >= 2
    ensures multiset(q) == multiset(x.rest) + multiset{x.first, x.second}
    ensures |x.rest| == |q| - 2
    ensures Precedes(x.first, x.second)
    ensures forall y :: y in x.rest ==> Precedes(x.first, y) && Precedes(x.second, y)
    ensures forall y :: y in x.rest ==> x.first.tree.weight <= y.tree.weight && x.second.tree.weight <= y.tree.weight
  {
    var i := MinIndex(q);
    var q1 := RemoveAt(q, i);
    var j := MinIndex(q1);
    var rest := RemoveAt(q1, j);
    PopOrder(q, q1, rest, i, j);
    Extraction(q[i], q1[j], rest)
  }

  /** Whatever stays queued after the two pops comes after both popped items. */
  lemma PopOrder(q: seq<Item>, q1: seq<Item>, rest: seq<Item>, i: nat, j: nat)
    requires i < |q| && j < |q1|
    requires forall k :: 0 <= k < |q| ==> Precedes(q[i], q[k])
    requires forall k :: 0 <= k < |q1| ==> Precedes(q1[j], q1[k])
    requires multiset(q1) + multiset{q[i]} == multiset(q)
    requires multiset(rest) + multiset{q1[j]} == multiset(q1)
    ensures Precedes(q[i], q1[j])
    ensures forall y :: y in rest ==> Precedes(q[i], y) && Precedes(q1[j], y)
  {
    assert q1[j] in multiset(q1);
    assert q1[j] in multiset(q);
    var k :| 0 <= k < |q| && q[k] == q1[j];
    assert Precedes(q[i], q[k]);
    forall y | y in rest
      ensures Precedes(q[i], y) && Precedes(q1[j], y)
    {
      assert y in multiset(rest);
      assert y in multiset(q1);
      assert y in multiset(q);
      var a :| 0 <= a < |q| && q[a] == y;
      var b :| 0 <= b < |q1| && q1[b] == y;
      assert Precedes(q[i], q[a]) && Precedes(q1[j], q1[b]);
    }
  }

  /** The node built from two popped items (project.py:31-33). */
  function Combine(a: Item, b: Item, seqNo: nat): Item
  {
    Item(Node(a.tree.weight + b.tree.weight, a.tree, b.tree), seqNo)
  }

  /** One iteration of the loop: pop two, push their combination. */
  function Merge(q: seq<Item>, next: nat): (r: seq<Item>)
    requires |q| >= 2
    ensures |r| == |q| - 1
  {
    var x := PopTwo(q);
    x.rest + [Combine(x.first, x.second, next)]
  }

  function ItemWeight(x: Item): nat { x.tree.weight }
  function ItemInternal(x: Item): nat { InternalCount(x.tree) }
  function ItemLeaves(x: Item): seq<Entry> { Leaves(x.tree) }

  /** The combined weight of the queue. */
  function QueueWeight(q: seq<Item>): nat { Sum(q, ItemWeight) }

  /** The number of internal nodes in all queued trees. */
  function QueueInternal(q: seq<Item>): nat { Sum(q, ItemInternal) }

  /** The leaves of all queued trees. */
  function QueueLeaves(q: seq<Item>): seq<Entry> { Flatten(q, ItemLeaves) }

  predicate AllWellWeighted(q: seq<Item>)
  {
    forall x :: x in q ==> WellWeighted(x.tree)
  }

  /** An iteration keeps the total weight and the leaves of the queue, and
      adds exactly one internal node. */
  lemma MergeStep(q: seq<Item>, next: nat)
    requires |q| >= 2
    ensures AllWellWeighted(q) ==> AllWellWeighted(Merge(q, next))
    ensures QueueWeight(Merge(q, next)) == QueueWeight(q)
    ensures multiset(QueueLeaves(Merge(q, next))) == multiset(QueueLeaves(q))
    ensures QueueInternal(Merge(q, next)) == QueueInternal(q) + 1
  {
    MergeWeight(q, next);
    MergeInternal(q, next);
    MergeLeaves(q, next);
    MergeKeepsWellWeighted(q, next);
  }

  lemma MergeKeepsWellWeighted(q: seq<Item>, next: nat)
    requires |q| >= 2
    ensures AllWellWeighted(q) ==> AllWellWeighted(Merge(q, next))
  {
    var x := PopTwo(q);
    var r := Merge(q, next);
    if AllWellWeighted(q) {
      assert x.first in multiset(q) && x.second in multiset(q);
      forall y | y in r
        ensures WellWeighted(y.tree)
      {
        if y in x.rest {
          assert y in multiset(x.rest);
          assert y in multiset(q);
        } else {
          assert y == Combine(x.first, x.second, next);
        }
      }
    }
  }

  lemma MergeWeight(q: seq<Item>, next: nat)
    requires |q| >= 2
    ensures QueueWeight(Merge(q, next)) == QueueWeight(q)
  {
    var x := PopTwo(q);
    var popped := [x.first, x.second];
    var z := Combine(x.first, x.second, next);
    MergeParts(q, next);
    SumPermutation(q, x.rest + popped, ItemWeight);
    SumPair(x.first, x.second, ItemWeight);
    SumConcat(x.rest, popped, ItemWeight);
    SumConcat(x.rest, [z], ItemWeight);
    SumSingleton(z, ItemWeight);
  }

  lemma MergeInternal(q: seq<Item>, next: nat)
    requires |q| >= 2
    ensures QueueInternal(Merge(q, next)) == QueueInternal(q) + 1
  {
    var x := PopTwo(q);
    var popped := [x.first, x.second];
    var z := Combine(x.first, x.second, next);
    MergeParts(q, next);
    SumPermutation(q, x.rest + popped, ItemInternal);
    SumPair(x.first, x.second, ItemInternal);
    SumConcat(x.rest, popped, ItemInternal);
    SumConcat(x.rest, [z], ItemInternal);
    SumSingleton(z, ItemInternal);
  }

  lemma MergeLeaves(q: seq<Item>, next: nat)
    requires |q| >= 2
    ensures multiset(QueueLeaves(Merge(q, next))) == multiset(QueueLeaves(q))
  {
    var x := PopTwo(q);
    var popped := [x.first, x.second];
    var z := Combine(x.first, x.second, next);
    MergeParts(q, next);
    FlattenPermutation(q, x.rest + popped, ItemLeaves);
    FlattenPair(x.first, x.second, ItemLeaves);
    FlattenConcat(x.rest, popped, ItemLeaves);
    FlattenConcat(x.rest, [z], ItemLeaves);
    FlattenSingleton(z, ItemLeaves);
  }

  /** The queue after a merge is what stayed plus the new node, and the
      queue before it is what stayed plus the two popped items. */
  lemma MergeParts(q: seq<Item>, next: nat)
    requires |q| >= 2
    ensures Merge(q, next) == PopTwo(q).rest + [Combine(PopTwo(q).first, PopTwo(q).second, next)]
    ensures multiset(q) == multiset(PopTwo(q).rest + [PopTwo(q).first, PopTwo(q).second])
  {
  }

  /** The loop `while len(priority_queue) > 1`, from a queue `q` whose items
      are numbered below `next`. */
  function BuildFrom(q: seq<Item>, next: nat): (t: Tree)
    requires q != []
    ensures AllWellWeighted(q) ==> WellWeighted(t)
    ensures t.weight == QueueWeight(q)
    ensures multiset(Leaves(t)) == multiset(QueueLeaves(q))
    ensures InternalCount(t) == QueueInternal(q) + |q| - 1
    decreases |q|
  {
    if |q| == 1 then
      assert q == [q[0]];
      SumSingleton(q[0], ItemWeight);
      SumSingleton(q[0], ItemInternal);
      FlattenSingleton(q[0], ItemLeaves);
      q[0].tree
    else
      MergeStep(q, next);
      BuildFrom(Merge(q, next), next + 1)
  }

  /** `heapify` over one leaf per entry, numbered in table order: the queue's
      leaves are the table itself, in order, with its total weight and no
      internal node. */
  function Seed(table: seq<Entry>): (q: seq<Item>)
    ensures |q| == |table|
    ensures forall i :: 0 <= i < |q| ==> q[i] == Item(Leaf(table[i].sym, table[i].count), i)
    ensures QueueLeaves(q) == table && QueueWeight(q) == Total(table) && QueueInternal(q) == 0
    ensures AllWellWeighted(q)
  {
    var q := seq(|table|, i requires 0 <= i < |table| => Item(Leaf(table[i].sym, table[i].count), i));
    SeedFacts(table, q);
    q
  }

  /** The source's failure: `priority_queue[0]` on an empty queue. */
  datatype BuildError = EmptyQueue

  /** `build_huffman_tree`. An empty table fails; otherwise the root is a
      strict binary tree whose internal weights are the sums of their
      children, whose leaves are exactly the table's entries, whose weight
      is the table's total, and which took n - 1 merges. */
  function Build(table: seq<Entry>): (r: Result<Tree, BuildError>)
    ensures r.Failure? <==> table == []
    ensures r.Success? ==> WellWeighted(r.value)
    ensures r.Success? ==> multiset(Leaves(r.value)) == multiset(table)
    ensures r.Success? ==> r.value.weight == Total(table)
    ensures r.Success? ==> InternalCount(r.value) == |table| - 1
  {
    if table == [] then Failure(EmptyQueue)
    else
      Success(BuildFrom(Seed(table), |table|))
  }

  /** A queue of bare leaves holds exactly the entries they came from. */
  lemma {:induction false} SeedFacts(table: seq<Entry>, q: seq<Item>)
    requires |q| == |table|
    requires forall i :: 0 <= i < |q| ==> q[i].tree == Leaf(table[i].sym, table[i].count)
    ensures AllWellWeighted(q)
    ensures QueueLeaves(q) == table
    ensures QueueWeight(q) == Total(table)
    ensures QueueInternal(q) == 0
  {
    if q != [] {
      SeedFacts(table[1..], q[1..]);
      Cons(table[0], table[1..]);
      assert table == [table[0]] + table[1..];
    }
  }

  /** Keys that are distinct in the table stay distinct among the leaves,
      so each key labels exactly one leaf. */
  lemma BuildKeepsKeysDistinct(table: seq<Entry>)
    requires ValidTable(table) && table != []
    ensures Distinct(LeafSyms(Build(table).value))
  {
    var t := Build(table).value;
    LeafSymsAreKeys(t);
    FlattenPermutation(Leaves(t), table, SymOf);
  }
}
