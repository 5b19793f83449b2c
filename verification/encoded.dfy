/** What `Nhuffman` measures (project.py:135): the length of the normalised
    text encoded symbol by symbol with the code book, each space written as
    the key "Space" that replaced it in the counts. */
module EncodedText {
  import opened Seqs
  import opened Results
  import opened Normalization
  import opened Frequencies
  import opened HuffmanTree
  import opened HuffmanCodes
  import opened BitCount
  import opened Decoding
  import opened TextAnalysis

  /** The key a character of the normalised text is counted under. */
  function SymbolOf(c: char): Symbol
  {
    if c == ' ' then SpaceLabel else [c]
  }

  /** The normalised text as a message over the keys of the counts. */
  function Symbols(text: string): (msg: seq<Symbol>)
    ensures |msg| == |text|
    ensures forall i :: 0 <= i < |text| ==> msg[i] == SymbolOf(text[i])
  {
    seq(|text|, i requires 0 <= i < |text| => SymbolOf(text[i]))
  }

  /** The key an entry of the raw counter ends up under after relabelling. */
  function Renamed(k: Symbol): Symbol
  {
    if k == " " then SpaceLabel else k
  }

  /** The bits an entry of the raw counter costs once it is relabelled. */
  function RenamedBits(codes: map<Symbol, Code>): Entry -> nat
  {
    (e: Entry) => e.count * CodeLength(codes, Renamed(e.sym))
  }

  function SymbolBits(codes: map<Symbol, Code>): Symbol -> nat
  {
    (s: Symbol) => CodeLength(codes, s)
  }

  /** Encoding a message whose keys all have codewords succeeds, and the
      bits are as many as the codeword lengths add up to. */
  lemma {:induction false} EncodeLength(msg: seq<Symbol>, codes: map<Symbol, Code>)
    requires forall i :: 0 <= i < |msg| ==> msg[i] in codes
    ensures Encode(msg, codes).Success?
    ensures |Encode(msg, codes).value| == Sum(msg, SymbolBits(codes))
  {
    if msg != [] {
      EncodeLength(msg[1..], codes);
    }
  }

  /** One more occurrence of `c` costs one more codeword for its key. */
  lemma {:induction false} BumpBits(t: seq<Entry>, c: char, codes: map<Symbol, Code>)
    ensures Sum(Bump(t, c), RenamedBits(codes)) == Sum(t, RenamedBits(codes)) + CodeLength(codes, Renamed([c]))
  {
    var g := RenamedBits(codes);
    var len := CodeLength(codes, Renamed([c]));
    if t == [] {
      SumSingleton(Entry([c], 1), g);
    } else if t[0].sym == [c] {
      assert g(Entry([c], t[0].count + 1)) == g(t[0]) + len;
      assert ([Entry([c], t[0].count + 1)] + t[1..])[1..] == t[1..];
    } else {
      BumpBits(t[1..], c, codes);
      assert ([t[0]] + Bump(t[1..], c))[1..] == Bump(t[1..], c);
    }
  }

  /** Charged through the relabelling, the raw counts of a text cost what
      its symbols' codewords add up to. */
  lemma {:induction false} TallyBits(text: string, codes: map<Symbol, Code>)
    ensures Sum(Tally(text), RenamedBits(codes)) == Sum(Symbols(text), SymbolBits(codes))
    decreases |text|
  {
    if text != [] {
      var init, c := text[..|text| - 1], text[|text| - 1];
      assert text == init + [c];
      assert Tally(text) == Bump(Tally(init), c);
      TallyBits(init, codes);
      BumpBits(Tally(init), c, codes);
      SymbolsSnoc(init, c, codes);
    }
  }

  lemma SymbolsSnoc(init: string, c: char, codes: map<Symbol, Code>)
    ensures Sum(Symbols(init + [c]), SymbolBits(codes)) == Sum(Symbols(init), SymbolBits(codes)) + CodeLength(codes, Renamed([c]))
  {
    assert Symbols(init + [c]) == Symbols(init) + [SymbolOf(c)];
    SumConcat(Symbols(init), [SymbolOf(c)], SymbolBits(codes));
    SumSingleton(SymbolOf(c), SymbolBits(codes));
    assert Renamed([c]) == SymbolOf(c) by {
      assert [c] == " " <==> c == ' ';
    }
  }

  /** Summing over a table is summing over it without `k`'s entry, plus
      that entry. */
  lemma {:induction false} SumRemove(t: seq<Entry>, k: Symbol, g: Entry -> nat)
    ensures Sum(t, g) == Sum(Remove(t, k), g) + (match Lookup(t, k) case Some(n) => g(Entry(k, n)) case None => 0)
  {
    if t != [] {
      if t[0].sym == k {
        assert t[0] == Entry(k, t[0].count);
      } else {
        SumRemove(t[1..], k, g);
        assert ([t[0]] + Remove(t[1..], k))[1..] == Remove(t[1..], k);
      }
    }
  }

  /** Storing a new key adds its entry to the sum. */
  lemma {:induction false} SumPutNew(t: seq<Entry>, k: Symbol, v: nat, g: Entry -> nat)
    requires k !in Syms(t)
    ensures Sum(Put(t, k, v), g) == Sum(t, g) + g(Entry(k, v))
  {
    if t == [] {
      SumSingleton(Entry(k, v), g);
    } else {
      Cons(t[0], t[1..]);
      assert t == [t[0]] + t[1..];
      SumPutNew(t[1..], k, v, g);
      assert ([t[0]] + Put(t[1..], k, v))[1..] == Put(t[1..], k, v);
    }
  }

  /** With no space key, charging an entry under its own key or under its
      relabelled key is the same. */
  lemma NoSpaceBits(t: seq<Entry>, codes: map<Symbol, Code>)
    requires Lookup(t, " ") == None
    ensures Sum(t, EntryBits(codes)) == Sum(t, RenamedBits(codes))
  {
    LookupFindsKeys(t, " ");
    forall e | e in t
      ensures EntryBits(codes)(e) == RenamedBits(codes)(e)
    {
      FlattenMember(t, e, SymOf);
      assert e.sym in SymOf(e);
    }
    SumCongruent(t, EntryBits(codes), RenamedBits(codes));
  }

  /** Relabelling the space moves its cost to the key "Space" and changes
      nothing else. */
  lemma RelabelBits(t: seq<Entry>, codes: map<Symbol, Code>)
    requires ValidTable(t) && Lookup(t, SpaceLabel) == None
    ensures Sum(Relabel(t), EntryBits(codes)) == Sum(t, RenamedBits(codes))
  {
    match Lookup(t, " ")
    case None =>
      NoSpaceBits(t, codes);
    case Some(n) =>
      RestKeys(t);
      SpaceBits(t, n, codes);
  }

  lemma SpaceBits(t: seq<Entry>, n: nat, codes: map<Symbol, Code>)
    requires Lookup(t, " ") == Some(n)
    requires SpaceLabel !in Syms(Remove(t, " ")) && Lookup(Remove(t, " "), " ") == None
    ensures Sum(Put(Remove(t, " "), SpaceLabel, n), EntryBits(codes)) == Sum(t, RenamedBits(codes))
  {
    var rest := Remove(t, " ");
    var f, g := EntryBits(codes), RenamedBits(codes);
    var bits := n * CodeLength(codes, SpaceLabel);
    NoSpaceBits(rest, codes);
    SumPutNew(rest, SpaceLabel, n, f);
    assert Sum(Put(rest, SpaceLabel, n), f) == Sum(rest, f) + bits;
    SumRemove(t, " ", g);
    assert Sum(t, g) == Sum(rest, g) + bits;
  }

  /** Popping the space leaves neither a space key nor a "Space" key. */
  lemma RestKeys(t: seq<Entry>)
    requires ValidTable(t) && Lookup(t, SpaceLabel) == None
    ensures SpaceLabel !in Syms(Remove(t, " "))
    ensures Lookup(Remove(t, " "), " ") == None
  {
    var rest := Remove(t, " ");
    assert " " != SpaceLabel by { assert |" "| != |SpaceLabel|; }
    assert Lookup(rest, SpaceLabel) == None;
    LookupFindsKeys(rest, SpaceLabel);
    RemoveDropsKey(t, " ");
  }

  /** `Nhuffman` of the counts is the length of the text they were counted
      from, encoded with any code book that has a codeword for each of its
      symbols. */
  lemma EncodedLength(text: string, codes: map<Symbol, Code>)
    requires forall c :: c in text ==> SymbolOf(c) in codes
    ensures Encode(Symbols(text), codes).Success?
    ensures |Encode(Symbols(text), codes).value| == Nhuffman(Relabel(Tally(text)), codes)
  {
    var msg := Symbols(text);
    forall i | 0 <= i < |msg|
      ensures msg[i] in codes
    {
      assert text[i] in text;
    }
    EncodeLength(msg, codes);
    TallyBits(text, codes);
    SingleCharKeys(Tally(text), SpaceLabel);
    RelabelBits(Tally(text), codes);
  }

  /** When some character survives normalisation the analysis succeeds,
      every symbol of the normalised text has a codeword, and `Nhuffman` is exactly the length of that text encoded
      with the code book. */
  lemma AnalysisBits(text: string)
    requires Normalize(text) != []
    ensures Analyze(text).Success?
    ensures Encode(Symbols(Normalize(text)), Analyze(text).value.codes).Success?
    ensures |Encode(Symbols(Normalize(text)), Analyze(text).value.codes).value|
         == Nhuffman(Analyze(text).value.counts, Analyze(text).value.codes)
  {
    var norm := Normalize(text);
    var a := Analyze(text).value;
    assert a.counts == Relabel(Tally(norm));
    CountedSymbols(norm, a.codes);
    EncodedLength(norm, a.codes);
  }

  /** A code book with a codeword for every key of the relabelled counts of
      a text has one for every symbol of that text. */
  lemma CountedSymbols(norm: string, codes: map<Symbol, Code>)
    requires forall k :: k in codes <==> Lookup(Relabel(Tally(norm)), k).Some?
    ensures forall c :: c in norm ==> SymbolOf(c) in codes
  {
    var raw := Tally(norm);
    var counts := Relabel(raw);
    SingleCharKeys(raw, SpaceLabel);
    forall c | c in norm
      ensures SymbolOf(c) in codes
    {
      assert c in multiset(norm);
      assert Lookup(raw, [c]).Some?;
      if c == ' ' {
        assert Lookup(counts, SpaceLabel).Some?;
      } else {
        assert [c] != " " && [c] != SpaceLabel;
        assert Lookup(counts, [c]).Some?;
      }
    }
  }
}
