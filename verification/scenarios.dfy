/** Worked scenarios: the four-key table {a:5, b:2, c:1, d:1}, and the
    single-key table on which `generate_huffman_codes` returns None. */
module Scenarios {
  import opened Seqs
  import opened Results
  import opened Frequencies
  import opened HuffmanTree
  import opened HuffmanCodes
  import opened BitCount

  /** The counts of "aaaaabbcd", in first-occurrence order. */
  const Sample: seq<Entry> := [Entry("a", 5), Entry("b", 2), Entry("c", 1), Entry("d", 1)]
  // The queue items along the way, with their sequence numbers.
  const A: Item := Item(Leaf("a", 5), 0)
  const B: Item := Item(Leaf("b", 2), 1)
  const C: Item := Item(Leaf("c", 1), 2)
  const D: Item := Item(Leaf("d", 1), 3)
  const CD: Item := Item(Node(2, Leaf("c", 1), Leaf("d", 1)), 4)
  const BCD: Item := Item(Node(4, Leaf("b", 2), Node(2, Leaf("c", 1), Leaf("d", 1))), 5)
  const Root: Tree := Node(9, Node(4, Leaf("b", 2), Node(2, Leaf("c", 1), Leaf("d", 1))), Leaf("a", 5))

  // Each loop iteration, and the loop from each queue, computed.

  lemma Step1()
    ensures Merge([A, B, C, D], 4) == [A, B, CD]
  {
    Step1First();
    Step1Second();
    assert RemoveAt([A, B, C, D], 2) == [A, B, D];
    assert RemoveAt([A, B, D], 2) == [A, B];
  }

  lemma Step1First()
    ensures MinIndex([A, B, C, D]) == 2
  {
    var q := [A, B, C, D];
    assert MinIndex(q[3..]) == 0;
    assert MinIndex(q[2..]) == 0 by { assert q[2..][1..] == q[3..]; }
    assert MinIndex(q[1..]) == 1 by { assert q[1..][1..] == q[2..]; }
  }

  lemma Step1Second()
    ensures MinIndex([A, B, D]) == 2
  {
    var q1 := [A, B, D];
    assert MinIndex(q1[2..]) == 0;
    assert MinIndex(q1[1..]) == 1 by { assert q1[1..][1..] == q1[2..]; }
  }

  lemma Step2()
    ensures Merge([A, B, CD], 5) == [A, BCD]
  {
    var q := [A, B, CD];
    assert MinIndex(q[2..]) == 0;
    assert MinIndex(q[1..]) == 0 by { assert q[1..][1..] == q[2..]; }
    assert MinIndex(q) == 1;
    var q1 := [A, CD];
    assert RemoveAt(q, 1) == q1;
    assert MinIndex(q1[1..]) == 0;
    assert MinIndex(q1) == 1;
    assert RemoveAt(q1, 1) == [A];
  }

  lemma Step3()
    ensures Merge([A, BCD], 6) == [Item(Root, 6)]
  {
    var q := [A, BCD];
    assert MinIndex(q[1..]) == 0;
    assert MinIndex(q) == 1;
    assert RemoveAt(q, 1) == [A];
    assert MinIndex([A]) == 0;
    assert RemoveAt([A], 0) == [];
  }

  lemma Run3()
    ensures BuildFrom([A, BCD], 6) == Root
  {
    Step3();
    assert BuildFrom([Item(Root, 6)], 7) == Root;
  }

  lemma Run2()
    ensures BuildFrom([A, B, CD], 5) == Root
  {
    Step2();
    Run3();
  }

  lemma Run1()
    ensures BuildFrom([A, B, C, D], 4) == Root
  {
    Step1();
    Run2();
  }

  lemma SampleSeed()
    ensures Seed(Sample) == [A, B, C, D]
  {
    var q := Seed(Sample);
    assert q[0] == A && q[1] == B && q[2] == C && q[3] == D;
  }

  /** Building the sample: c and d merge first, then b with {c, d}, then
      that node with a. */
  lemma SampleTree()
    ensures Build(Sample) == Success(Root)
  {
    SampleSeed();
    Run1();
    assert |Sample| == 4;
  }

  lemma SampleBook()
    ensures CodeBook(Root) == map["b" := "00", "c" := "010", "d" := "011", "a" := "1"]
  {
    var cd := Node(2, Leaf("c", 1), Leaf("d", 1));
    assert "" + "0" == "0" && "" + "1" == "1";
    assert "0" + "0" == "00" && "0" + "1" == "01";
    assert "01" + "0" == "010" && "01" + "1" == "011";
    assert Walk(Leaf("b", 2), "00", map[]) == map["b" := "00"];
    assert Walk(cd, "01", map["b" := "00"]) == map["b" := "00", "c" := "010", "d" := "011"];
    assert Walk(Node(4, Leaf("b", 2), cd), "0", map[]) == map["b" := "00", "c" := "010", "d" := "011"];
  }

  /** Of the tree built from the sample: the codeword lengths are 1, 2, 3 and 3, and `Nhuffman`
      is 5*1 + 2*2 + 1*3 + 1*3 = 15. These are proved for the tree that the
      (weight, sequence number) order builds, not for every tie-break. */
  lemma SampleCode()
    ensures var book := CodeBook(Root);
      && book.Keys == {"a", "b", "c", "d"}
      && |book["a"]| == 1 && |book["b"]| == 2 && |book["c"]| == 3 && |book["d"]| == 3
      && Nhuffman(Sample, book) == 15
  {
    SampleBook();
    SampleBits();
  }

  lemma SampleBits()
    ensures Nhuffman(Sample, map["b" := "00", "c" := "010", "d" := "011", "a" := "1"]) == 15
  {
  }

  /** As written, a table with a single key builds a lone leaf, and
      `generate_huffman_codes` on a leaf root writes the key's empty codeword
      into the shared dictionary but returns None whatever that dictionary
      held; `analyze_text` then calls `.get` on None. */
  lemma LoneKeyGetsNoDictionary(table: seq<Entry>, acc: map<Symbol, Code>)
    requires |table| == 1
    ensures Build(table) == Success(Leaf(table[0].sym, table[0].count))
    ensures GenerateCodes(Build(table).value, acc) == Generated(None, acc[table[0].sym := ""])
  {
    assert Seed(table) == [Item(Leaf(table[0].sym, table[0].count), 0)];
  }

  /** The code book of the same tree: the lone key gets the empty codeword,
      so it costs no bits. */
  lemma LoneKeyCodeBook(table: seq<Entry>)
    requires |table| == 1
    ensures Build(table).Success?
    ensures CodeBook(Build(table).value) == map[table[0].sym := ""]
    ensures Nhuffman(table, CodeBook(Build(table).value)) == 0
  {
    LoneKeyGetsNoDictionary(table, map[]);
    assert table == [table[0]];
    SumSingleton(table[0], EntryBits(map[table[0].sym := ""]));
  }
}
