/** The Huffman bit total `Nhuffman` (project.py:135): the sum over the
    table of each key's count times the length of its codeword, a key
    without a codeword counting as length 0. */
module BitCount {
  import opened Seqs
  import opened Results
  import opened Frequencies
  import opened HuffmanTree
  import opened HuffmanCodes

  /** `len(huffman_codes.get(k, ""))`. */
  function CodeLength(codes: map<Symbol, Code>, k: Symbol): nat
  {
    if k in codes then |codes[k]| else 0
  }

  /** The bits one table entry costs under `codes`. */
  function EntryBits(codes: map<Symbol, Code>): Entry -> nat
  {
    (e: Entry) => e.count * CodeLength(codes, e.sym)
  }

  /** `Nhuffman`: every entry's count times codeword length is part of it,
      and it is 0 exactly when no counted key has a non-empty codeword. */
  function Nhuffman(table: seq<Entry>, codes: map<Symbol, Code>): (bits: nat)
    ensures forall e :: e in table ==> e.count * CodeLength(codes, e.sym) <= bits
    ensures bits == 0 <==> forall e :: e in table ==> e.count == 0 || CodeLength(codes, e.sym) == 0
  {
    SumTerms(table, EntryBits(codes));
    Sum(table, EntryBits(codes))
  }

  /** Weight times depth summed over the leaves, for a tree hung at depth `d`. */
  function WeightedDepth(t: Tree, d: nat): nat
  {
    match t
    case Leaf(_, w) => w * d
    case Node(_, l, r) => WeightedDepth(l, d + 1) + WeightedDepth(r, d + 1)
  }

  /** Charged with the codewords of a walk, the leaves of a tree cost their
      weight times their depth below the walk's starting path. */
  lemma {:induction false} WalkBits(t: Tree, path: Code, acc: map<Symbol, Code>)
    requires Distinct(LeafSyms(t))
    ensures Nhuffman(Leaves(t), Walk(t, path, acc)) == WeightedDepth(t, |path|)
  {
    match t
    case Leaf(s, w) =>
      SumSingleton(Entry(s, w), EntryBits(Walk(t, path, acc)));
    case Node(_, l, r) =>
      DistinctSplit(LeafSyms(l), LeafSyms(r));
      var wl := Walk(l, path + "0", acc);
      var book := Walk(t, path, acc);
      forall e | e in Leaves(l)
        ensures EntryBits(book)(e) == EntryBits(wl)(e)
      {
        LeafEntryKey(l, e);
      }
      SumCongruent(Leaves(l), EntryBits(book), EntryBits(wl));
      SumConcat(Leaves(l), Leaves(r), EntryBits(book));
      WalkBits(l, path + "0", acc);
      WalkBits(r, path + "1", wl);
  }

  /** The weighted depth of a well-weighted tree is the sum of its internal
      weights, i.e. of the weights its merges produced. */
  lemma {:induction false} DepthIsMergeCost(t: Tree, d: nat)
    requires WellWeighted(t)
    ensures WeightedDepth(t, d) == MergeCost(t) + d * t.weight
  {
    match t
    case Leaf(_, _) =>
    case Node(w, l, r) =>
      DepthIsMergeCost(l, d + 1);
      DepthIsMergeCost(r, d + 1);
      OneLevelDeeper(d, l.weight, r.weight);
  }

  /** Each internal node weighs at least nothing and at most the root, and
      the root of a tree with a merge is itself internal. */
  lemma {:induction false} MergeCostBounds(t: Tree)
    requires WellWeighted(t)
    ensures t.Node? ==> t.weight <= MergeCost(t)
    ensures MergeCost(t) <= InternalCount(t) * t.weight
  {
    match t
    case Leaf(_, _) =>
    case Node(w, l, r) =>
      MergeCostBounds(l);
      MergeCostBounds(r);
      ScaleBound(InternalCount(l), InternalCount(r), l.weight, r.weight);
  }

  /** `Nhuffman` for the code built from a table equals the sum of the
      weights the merges produced. */
  lemma HuffmanBits(table: seq<Entry>, t: Tree)
    requires ValidTable(table) && Build(table) == Success(t)
    ensures Nhuffman(table, CodeBook(t)) == MergeCost(t)
  {
    BuildKeepsKeysDistinct(table);
    SumPermutation(table, Leaves(t), EntryBits(CodeBook(t)));
    WalkBits(t, "", map[]);
    DepthIsMergeCost(t, 0);
  }

  /** `Nhuffman` lies between the table total and n - 1 times it when there
      are n >= 2 keys, and is 0 for a lone key. */
  lemma HuffmanBitsBounds(table: seq<Entry>, t: Tree)
    requires ValidTable(table) && Build(table) == Success(t)
    ensures |table| >= 2 ==> Total(table) <= Nhuffman(table, CodeBook(t)) <= (|table| - 1) * Total(table)
    ensures |table| == 1 ==> Nhuffman(table, CodeBook(t)) == 0
  {
    HuffmanBits(table, t);
    MergeCostBounds(t);
    LeafCount(t);
    if |table| >= 2 {
      assert t.Node?;
    } else {
      assert t.Leaf?;
    }
  }

  lemma OneLevelDeeper(d: nat, a: nat, b: nat)
    ensures (d + 1) * a + (d + 1) * b == (a + b) + d * (a + b)
  {
  }

  lemma ScaleBound(m: nat, n: nat, a: nat, b: nat)
    ensures m * a + n * b <= (m + n) * (a + b)
    ensures (1 + m + n) * (a + b) == (a + b) + m * (a + b) + n * (a + b)
  {
    assert m * a <= m * (a + b);
    assert n * b <= n * (a + b);
  }
}
