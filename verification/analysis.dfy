/** The pure part of `analyze_text` (project.py:62-83) and the bit total
    computed from its results (project.py:135): normalise, count, relabel
    the space, build the tree, derive the code book. */
module TextAnalysis {
  import opened Seqs
  import opened Results
  import opened Normalization
  import opened Frequencies
  import opened HuffmanTree
  import opened HuffmanCodes
  import opened BitCount
  import opened Monotonicity

  /** What the analysis hands on: the relabelled counts, their total, the
      tree and the code book. */
  datatype Analysis = Analysis(counts: seq<Entry>, total: nat, tree: Tree, codes: map<Symbol, Code>)

  /** What a successful analysis promises: the total adds up the counts,
      the tree is the one the merge loop builds from them, the code book
      holds exactly the counted keys, each under a path that leads to that
      key's leaf, no codeword is a prefix of another, a strictly lower count
      never gets a strictly shorter codeword, and `Nhuffman` is what the
      merges cost, between one and n - 1 bits per character for n >= 2
      keys. */
  ghost predicate WellCoded(a: Analysis)
  {
    && a.total == Total(a.counts)
    && Build(a.counts) == Success(a.tree)
    && (forall k :: k in a.codes <==> Lookup(a.counts, k).Some?)
    && (forall k :: k in a.codes ==> Follow(a.tree, a.codes[k]) == Some(k))
    && PrefixFree(a.codes)
    && (forall x, y :: x in a.counts && y in a.counts && x.count < y.count ==>
          x.sym in a.codes && y.sym in a.codes && |a.codes[x.sym]| >= |a.codes[y.sym]|)
    && Nhuffman(a.counts, a.codes) == MergeCost(a.tree)
    && (|a.counts| >= 2 ==> a.total <= Nhuffman(a.counts, a.codes) <= (|a.counts| - 1) * a.total)
  }

  /** Text with no character left after normalisation fails where the
      source indexes an empty queue; otherwise the counts are those of the
      normalised text with the space relabelled, they add up to its length,
      and the analysis is well coded. */
  function Analyze(text: string): (r: Result<Analysis, BuildError>)
    ensures r.Failure? <==> Normalize(text) == []
    ensures r.Success? ==> r.value.counts == Relabel(Tally(Normalize(text)))
    ensures r.Success? ==> r.value.total == |Normalize(text)|
    ensures r.Success? ==> WellCoded(r.value)
  {
    var normalized := Normalize(text);
    var counts := Relabel(Tally(normalized));
    CountedTablesEmpty(normalized);
    CountedTablesTotal(normalized);
    CodeTable(counts)
  }

  /** Lines 80-83 on a dictionary of counts: build the tree and derive its
      code book. No counts fail; otherwise the analysis carries the counts
      and is well coded. */
  function CodeTable(counts: seq<Entry>): (r: Result<Analysis, BuildError>)
    requires ValidTable(counts)
    ensures r.Failure? <==> counts == []
    ensures r.Success? ==> r.value.counts == counts && WellCoded(r.value)
  {
    match Build(counts)
    case Failure(e) => Failure(e)
    case Success(tree) =>
      CodedAnalysis(counts, tree);
      Success(Analysis(counts, Total(counts), tree, CodeBook(tree)))
  }

  /** The analysis built from a table and its tree is well coded. */
  lemma CodedAnalysis(counts: seq<Entry>, tree: Tree)
    requires ValidTable(counts) && Build(counts) == Success(tree)
    ensures WellCoded(Analysis(counts, Total(counts), tree, CodeBook(tree)))
  {
    var a := Analysis(counts, Total(counts), tree, CodeBook(tree));
    assert forall k :: k in a.codes <==> Lookup(a.counts, k).Some? by {
      CodedTable(counts, tree);
    }
    assert forall k :: k in a.codes ==> Follow(a.tree, a.codes[k]) == Some(k) by {
      CodedTable(counts, tree);
    }
    assert PrefixFree(a.codes) by {
      CodedTable(counts, tree);
    }
    assert forall x, y :: x in a.counts && y in a.counts && x.count < y.count ==>
      x.sym in a.codes && y.sym in a.codes && |a.codes[x.sym]| >= |a.codes[y.sym]| by {
      CodedTable(counts, tree);
    }
    assert Nhuffman(a.counts, a.codes) == MergeCost(a.tree) by {
      CodedTable(counts, tree);
    }
    assert |a.counts| >= 2 ==> a.total <= Nhuffman(a.counts, a.codes) <= (|a.counts| - 1) * a.total by {
      CodedTable(counts, tree);
    }
  }

  /** Line 83 as written: for two or more keys the dictionary
      `generate_huffman_codes` returns on a first call is exactly the code
      book the analysis carries; for a lone key it returns None, which is
      where the model's code book departs from the source. */
  lemma SourceCodes(counts: seq<Entry>)
    requires ValidTable(counts) && counts != []
    ensures CodeTable(counts).Success?
    ensures GenerateCodes(CodeTable(counts).value.tree, map[]).returned.Some? <==> |counts| >= 2
    ensures |counts| >= 2 ==>
      GenerateCodes(CodeTable(counts).value.tree, map[]).returned.value == CodeTable(counts).value.codes
  {
    var tree := Build(counts).value;
    var a := CodeTable(counts).value;
    assert a.tree == tree && a.codes == CodeBook(tree);
    var g := GenerateCodes(tree, map[]);
    assert g.shared == CodeBook(tree) by {
      assert map[] + CodeBook(tree) == CodeBook(tree);
    }
    LeafRootIffOneKey(counts);
  }

  /** The built root is a leaf exactly when there is one key. */
  lemma LeafRootIffOneKey(counts: seq<Entry>)
    requires counts != []
    ensures Build(counts).value.Leaf? <==> |counts| == 1
  {
    var tree := Build(counts).value;
    if tree.Node? {
      assert InternalCount(tree) >= 1;
    }
  }

  /** The code book derived from a table with distinct keys holds exactly
      its keys, each under a path to its leaf, is prefix-free, is monotone
      in the counts, and costs what the merges cost. */
  lemma CodedTable(counts: seq<Entry>, tree: Tree)
    requires ValidTable(counts) && Build(counts) == Success(tree)
    ensures forall k :: k in CodeBook(tree) <==> Lookup(counts, k).Some?
    ensures forall k :: k in CodeBook(tree) ==> Follow(tree, CodeBook(tree)[k]) == Some(k)
    ensures PrefixFree(CodeBook(tree))
    ensures forall x, y :: x in counts && y in counts && x.count < y.count ==>
      x.sym in CodeBook(tree) && y.sym in CodeBook(tree) && |CodeBook(tree)[x.sym]| >= |CodeBook(tree)[y.sym]|
    ensures Nhuffman(counts, CodeBook(tree)) == MergeCost(tree)
    ensures |counts| >= 2 ==> Total(counts) <= Nhuffman(counts, CodeBook(tree)) <= (|counts| - 1) * Total(counts)
  {
    BuildKeepsKeysDistinct(counts);
    CodeBookIsPaths(tree);
    CodeBookShape(tree);
    HuffmanBits(counts, tree);
    HuffmanBitsBounds(counts, tree);
    LeafSymsAreKeys(tree);
    assert multiset(LeafSyms(tree)) == multiset(Syms(counts)) by {
      FlattenPermutation(Leaves(tree), counts, SymOf);
    }
    forall k
      ensures k in LeafSyms(tree) <==> Lookup(counts, k).Some?
    {
      LookupFindsKeys(counts, k);
      assert k in LeafSyms(tree) <==> k in multiset(LeafSyms(tree));
    }
    forall x, y | x in counts && y in counts && x.count < y.count
      ensures x.sym in CodeBook(tree) && y.sym in CodeBook(tree)
      ensures |CodeBook(tree)[x.sym]| >= |CodeBook(tree)[y.sym]|
    {
      Monotone(counts, x, y);
    }
  }

  /** The relabelled counts of a text are empty exactly when the text is. */
  lemma CountedTablesEmpty(text: string)
    ensures Relabel(Tally(text)) == [] <==> text == []
  {
    var t := Tally(text);
    var r := Relabel(t);
    if text != [] {
      assert text[0] in multiset(text);
      assert Lookup(t, [text[0]]).Some?;
      if [text[0]] == " " {
        assert Lookup(r, SpaceLabel).Some?;
      } else {
        SingleCharKeys(t, SpaceLabel);
        assert [text[0]] != SpaceLabel;
        assert Lookup(r, [text[0]]).Some?;
      }
    }
  }

  /** The relabelled counts of a text add up to its length. */
  lemma CountedTablesTotal(text: string)
    ensures Total(Relabel(Tally(text))) == |text|
  {
    SingleCharKeys(Tally(text), SpaceLabel);
  }

  /** A counted table has one-character keys only, so any longer key, such
      as "Space", is absent from it. */
  lemma {:induction false} SingleCharKeys(table: seq<Entry>, k: Symbol)
    requires forall e :: e in table ==> |e.sym| == 1
    requires |k| != 1
    ensures Lookup(table, k) == None
  {
    if table != [] {
      assert table[0] in table;
      SingleCharKeys(table[1..], k);
    }
  }
}
