/** Encoding and decoding with a code book. The program itself never encodes
    or decodes; these are added to the model to show what the prefix-free
    code derived from the tree is for: a message encoded with the code book
    is read back, symbol by symbol, by walking the tree. */
module Decoding {
  import opened Seqs
  import opened Results
  import opened Frequencies
  import opened HuffmanTree
  import opened HuffmanCodes

  datatype CodingError =
    | UnknownSymbol(sym: Symbol)  // the message holds a key the code book lacks
    | TruncatedCode               // the bits end inside a codeword
    | BadBit(bit: char)           // a character other than '0' or '1'
    | NoBranches                  // a lone leaf has the empty codeword: nothing to read

  /** The concatenated codewords of `msg`, or the first key without one. */
  function Encode(msg: seq<Symbol>, codes: map<Symbol, Code>): (r: Result<Code, CodingError>)
    ensures r.Success? <==> forall i :: 0 <= i < |msg| ==> msg[i] in codes
    ensures r.Failure? ==> r.error.UnknownSymbol? && r.error.sym in msg && r.error.sym !in codes
  {
    if msg == [] then Success([])
    else if msg[0] !in codes then Failure(UnknownSymbol(msg[0]))
    else
      match Encode(msg[1..], codes)
      case Success(bits) => Success(codes[msg[0]] + bits)
      case Failure(e) => Failure(e)
  }

  /** Reads one codeword off the front of `bits` by walking from the root to
      a leaf; returns the leaf's key and the bits after it. */
  function ReadSymbol(t: Tree, bits: Code): (r: Result<(Symbol, Code), CodingError>)
    ensures r.Success? ==> |r.value.1| <= |bits|
    ensures r.Success? && t.Node? ==> |r.value.1| < |bits|
  {
    match t
    case Leaf(s, _) => Success((s, bits))
    case Node(_, l, r) =>
      if bits == [] then Failure(TruncatedCode)
      else if bits[0] == '0' then ReadSymbol(l, bits[1..])
      else if bits[0] == '1' then ReadSymbol(r, bits[1..])
      else Failure(BadBit(bits[0]))
  }

  /** Reads codewords until the bits run out. */
  function Decode(t: Tree, bits: Code): Result<seq<Symbol>, CodingError>
    decreases |bits|
  {
    if t.Leaf? then Failure(NoBranches)
    else if bits == [] then Success([])
    else
      match ReadSymbol(t, bits)
      case Failure(e) => Failure(e)
      case Success((s, rest)) =>
        match Decode(t, rest)
        case Success(msg) => Success([s] + msg)
        case Failure(e) => Failure(e)
  }

  /** A path to a leaf, read off the front of any bits, yields that leaf. */
  lemma {:induction false} ReadAfterPath(t: Tree, q: Code, rest: Code)
    requires Follow(t, q).Some?
    ensures ReadSymbol(t, q + rest) == Success((Follow(t, q).value, rest))
  {
    match t
    case Leaf(_, _) =>
      assert q + rest == rest;
    case Node(_, l, r) =>
      assert (q + rest)[0] == q[0];
      assert (q + rest)[1..] == q[1..] + rest;
      if q[0] == '0' {
        ReadAfterPath(l, q[1..], rest);
      } else {
        ReadAfterPath(r, q[1..], rest);
      }
  }

  /** Decoding undoes encoding: every message over the tree's keys encodes,
      and decodes back to itself. */
  lemma {:induction false} RoundTrip(t: Tree, msg: seq<Symbol>)
    requires t.Node? && Distinct(LeafSyms(t))
    requires forall i :: 0 <= i < |msg| ==> msg[i] in LeafSyms(t)
    ensures Encode(msg, CodeBook(t)).Success?
    ensures Decode(t, Encode(msg, CodeBook(t)).value) == Success(msg)
  {
    var book := CodeBook(t);
    CodeBookIsPaths(t);
    CodeBookShape(t);
    if msg != [] {
      RoundTrip(t, msg[1..]);
      var tail := Encode(msg[1..], book).value;
      var word := book[msg[0]];
      ReadAfterPath(t, word, tail);
      assert word + tail != [];
      assert msg == [msg[0]] + msg[1..];
    }
  }
}
