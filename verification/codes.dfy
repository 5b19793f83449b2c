/** Codeword derivation (project.py:41-54) and the bit total `Nhuffman`
    (project.py:135). Walking the tree appends '0' for a left branch and '1'
    for a right branch and stores the path reaching each leaf as that leaf's
    codeword in an accumulating dictionary. */
module HuffmanCodes {
  import opened Seqs
  import opened Results
  import opened Frequencies
  import opened HuffmanTree

  /** A codeword: a string of '0' and '1' characters. */
  type Code = string

  /** The leaf a root-to-leaf path leads to. This is the reference reading
      of a path against which the derived codewords are checked: it fails
      when the path stops at an internal node, runs on past a leaf, or holds
      a character other than '0' or '1'. */
  function Follow(t: Tree, path: Code): Option<Symbol>
  {
    match t
    case Leaf(s, _) => if path == [] then Some(s) else None
    case Node(_, l, r) =>
      if path == [] then None
      else if path[0] == '0' then Follow(l, path[1..])
      else if path[0] == '1' then Follow(r, path[1..])
      else None
  }

  /** `generate_huffman_codes(t, path, acc)` as the dictionary `acc` ends up:
      each leaf's key is stored with the path to it, left subtree first. The
      walk adds the tree's keys and touches no other entry. */
  function Walk(t: Tree, path: Code, acc: map<Symbol, Code>): (r: map<Symbol, Code>)
    ensures forall s :: s in r <==> s in acc || s in LeafSyms(t)
    ensures forall s :: s in acc && s !in LeafSyms(t) ==> r[s] == acc[s]
  {
    match t
    case Leaf(s, _) => acc[s := path]
    case Node(_, l, r) => Walk(r, path + "1", Walk(l, path + "0", acc))
  }

  /** What a top-level `generate_huffman_codes(root)` call leaves behind:
      the value it returns and the dictionary shared through its mutable
      default argument. */
  datatype Generated = Generated(returned: Option<map<Symbol, Code>>, shared: map<Symbol, Code>)

  /** `generate_huffman_codes(root)` with `acc` the shared default dictionary
      as earlier calls left it (empty on the first call). The walk writes
      every leaf's codeword into the shared dictionary, overriding earlier
      entries for the same keys and keeping the others; a leaf root is
      written too, with the empty codeword, but the call then returns None
      instead of the dictionary. On a first call with distinct keys the
      dictionary holds exactly the leaf keys, each under the path leading to
      its leaf, and is prefix-free. */
  function GenerateCodes(root: Tree, acc: map<Symbol, Code>): (g: Generated)
    ensures g.shared == acc + CodeBook(root)
    ensures g.returned.None? <==> root.Leaf?
    ensures g.returned.Some? ==> g.returned.value == g.shared
    ensures acc == map[] && Distinct(LeafSyms(root)) ==>
      && (forall s :: s in g.shared <==> s in LeafSyms(root))
      && (forall s :: s in g.shared ==> Follow(root, g.shared[s]) == Some(s))
      && PrefixFree(g.shared)
  {
    var shared := Walk(root, "", acc);
    WalkKeepsAccumulator(root, "", acc);
    FreshCodes(root);
    assert acc == map[] ==> acc + CodeBook(root) == CodeBook(root);
    match root
    case Leaf(_, _) => Generated(None, shared)
    case Node(_, _, _) => Generated(Some(shared), shared)
  }

  /** The code book of a tree with distinct keys, as the first call sees it. */
  lemma FreshCodes(t: Tree)
    ensures Distinct(LeafSyms(t)) ==>
      && (forall s :: s in CodeBook(t) <==> s in LeafSyms(t))
      && (forall s :: s in CodeBook(t) ==> Follow(t, CodeBook(t)[s]) == Some(s))
      && PrefixFree(CodeBook(t))
  {
    if Distinct(LeafSyms(t)) {
      CodeBookIsPaths(t);
      CodeBookShape(t);
    }
  }

  /** The code book: the dictionary the walk fills on a fresh accumulator,
      for every tree including a lone leaf. */
  function CodeBook(t: Tree): (book: map<Symbol, Code>)
    ensures forall s :: s in book <==> s in LeafSyms(t)
  {
    Walk(t, "", map[])
  }

  predicate IsPrefix(a: Code, b: Code)
  {
    |a| <= |b| && b[..|a|] == a
  }

  /** No codeword begins another: a bit stream splits into codewords in one
      way only. */
  predicate PrefixFree(codes: map<Symbol, Code>)
  {
    forall x, y :: x in codes && y in codes && x != y ==> !IsPrefix(codes[x], codes[y])
  }

  lemma {:induction false} FollowFindsLeaf(t: Tree, path: Code)
    requires Follow(t, path).Some?
    ensures Follow(t, path).value in LeafSyms(t)
    ensures |path| <= InternalCount(t)
    ensures forall i :: 0 <= i < |path| ==> path[i] == '0' || path[i] == '1'
  {
    match t
    case Leaf(_, _) =>
    case Node(_, l, r) =>
      if path[0] == '0' {
        FollowFindsLeaf(l, path[1..]);
      } else {
        FollowFindsLeaf(r, path[1..]);
      }
  }

  /** A path that reaches a leaf cannot be continued to another leaf. */
  lemma {:induction false} FollowStopsAtLeaf(t: Tree, a: Code, b: Code)
    requires Follow(t, a).Some? && Follow(t, b).Some?
    requires IsPrefix(a, b)
    ensures a == b
  {
    match t
    case Leaf(_, _) =>
    case Node(_, l, r) =>
      assert b[0] == a[0];
      assert IsPrefix(a[1..], b[1..]);
      if a[0] == '0' {
        FollowStopsAtLeaf(l, a[1..], b[1..]);
      } else {
        FollowStopsAtLeaf(r, a[1..], b[1..]);
      }
      assert a == [a[0]] + a[1..];
      assert b == [b[0]] + b[1..];
  }

  /** Every entry the walk adds is the walk's path followed by a path that
      leads from the subtree's root to that entry's leaf. */
  lemma {:induction false} WalkSound(t: Tree, path: Code, acc: map<Symbol, Code>, s: Symbol)
    requires Distinct(LeafSyms(t))
    requires s in LeafSyms(t)
    ensures s in Walk(t, path, acc)
    ensures IsPrefix(path, Walk(t, path, acc)[s])
    ensures Follow(t, Walk(t, path, acc)[s][|path|..]) == Some(s)
  {
    match t
    case Leaf(_, _) =>
    case Node(_, l, r) =>
      DistinctSplit(LeafSyms(l), LeafSyms(r));
      var c := Walk(t, path, acc)[s];
      var wl := Walk(l, path + "0", acc);
      if s in LeafSyms(l) {
        WalkSound(l, path + "0", acc, s);
        assert s !in LeafSyms(r);
        assert c == wl[s];
        StepDown(path, '0', c);
        FollowStep(t, c[|path|..]);
      } else {
        WalkSound(r, path + "1", wl, s);
        StepDown(path, '1', c);
        FollowStep(t, c[|path|..]);
      }
  }

  /** Following a non-empty path from an internal node is following its
      rest from the child its first character names. */
  lemma FollowStep(t: Tree, p: Code)
    requires t.Node? && p != []
    ensures p[0] == '0' ==> Follow(t, p) == Follow(t.left, p[1..])
    ensures p[0] == '1' ==> Follow(t, p) == Follow(t.right, p[1..])
  {
  }

  /** A word that begins with `path + [d]` continues past `path` with `d`. */
  lemma StepDown(path: Code, d: char, c: Code)
    requires IsPrefix(path + [d], c)
    ensures IsPrefix(path, c)
    ensures c[|path|..] == [d] + c[|path| + 1..]
  {
    assert c[..|path|] == (path + [d])[..|path|];
    assert c[|path|] == (path + [d])[|path|];
  }

  /** Every path to a leaf is stored, after the walk's path, under that
      leaf's key. */
  lemma {:induction false} WalkComplete(t: Tree, path: Code, acc: map<Symbol, Code>, q: Code)
    requires Distinct(LeafSyms(t))
    requires Follow(t, q).Some?
    ensures Follow(t, q).value in Walk(t, path, acc)
    ensures Walk(t, path, acc)[Follow(t, q).value] == path + q
  {
    match t
    case Leaf(_, _) =>
    case Node(_, l, r) =>
      DistinctSplit(LeafSyms(l), LeafSyms(r));
      var s := Follow(t, q).value;
      var wl := Walk(l, path + "0", acc);
      if q[0] == '0' {
        FollowFindsLeaf(l, q[1..]);
        WalkComplete(l, path + "0", acc, q[1..]);
        assert s !in LeafSyms(r);
        assert Walk(t, path, acc)[s] == wl[s];
        BranchPath(path, q);
      } else {
        FollowFindsLeaf(r, q[1..]);
        WalkComplete(r, path + "1", wl, q[1..]);
        BranchPath(path, q);
      }
  }

  /** Stepping down one branch and then along the rest of a path is
      following the whole path. */
  lemma BranchPath(path: Code, q: Code)
    requires q != []
    ensures (path + [q[0]]) + q[1..] == path + q
  {
    assert q == [q[0]] + q[1..];
  }

  /** The code book holds exactly the leaf keys, and the codeword of each is
      exactly its root-to-leaf path: the path leads to that leaf, and every
      path to a leaf is that leaf's codeword. */
  lemma CodeBookIsPaths(t: Tree)
    requires Distinct(LeafSyms(t))
    ensures forall s :: s in CodeBook(t) <==> s in LeafSyms(t)
    ensures forall s :: s in CodeBook(t) ==> Follow(t, CodeBook(t)[s]) == Some(s)
    ensures forall q :: Follow(t, q).Some? ==> Follow(t, q).value in CodeBook(t) && CodeBook(t)[Follow(t, q).value] == q
  {
    forall s | s in CodeBook(t)
      ensures Follow(t, CodeBook(t)[s]) == Some(s)
    {
      WalkSound(t, "", map[], s);
      assert CodeBook(t)[s][0..] == CodeBook(t)[s];
    }
    forall q | Follow(t, q).Some?
      ensures Follow(t, q).value in CodeBook(t) && CodeBook(t)[Follow(t, q).value] == q
    {
      WalkComplete(t, "", map[], q);
      assert "" + q == q;
    }
  }

  /** The codewords are strings of '0' and '1', no longer than the number of
      merges, non-empty whenever the root is an internal node, and no
      codeword is a prefix of another. */
  lemma CodeBookShape(t: Tree)
    requires Distinct(LeafSyms(t))
    ensures PrefixFree(CodeBook(t))
    ensures forall s :: s in CodeBook(t) ==> |CodeBook(t)[s]| <= InternalCount(t)
    ensures forall s, i :: s in CodeBook(t) && 0 <= i < |CodeBook(t)[s]| ==> CodeBook(t)[s][i] in "01"
    ensures t.Node? ==> forall s :: s in CodeBook(t) ==> CodeBook(t)[s] != []
  {
    var book := CodeBook(t);
    CodeBookIsPaths(t);
    forall x, y | x in book && y in book && x != y
      ensures !IsPrefix(book[x], book[y])
    {
      if IsPrefix(book[x], book[y]) {
        FollowStopsAtLeaf(t, book[x], book[y]);
      }
    }
    forall s | s in book
      ensures |book[s]| <= InternalCount(t)
      ensures forall i :: 0 <= i < |book[s]| ==> book[s][i] in "01"
    {
      FollowFindsLeaf(t, book[s]);
    }
  }

  /** The shared default accumulator: a walk only adds the tree's keys to
      what is already in the dictionary, so entries left by an earlier call
      survive into the result. */
  lemma {:induction false} WalkKeepsAccumulator(t: Tree, path: Code, acc: map<Symbol, Code>)
    ensures Walk(t, path, acc) == acc + Walk(t, path, map[])
  {
    match t
    case Leaf(s, _) =>
      assert map[][s := path] == map[s := path];
      OverrideOne(acc, s, path);
    case Node(_, l, r) =>
      var wl := Walk(l, path + "0", map[]);
      var wr := Walk(r, path + "1", map[]);
      calc {
        Walk(t, path, acc);
        Walk(r, path + "1", Walk(l, path + "0", acc));
        { WalkKeepsAccumulator(r, path + "1", Walk(l, path + "0", acc)); }
        Walk(l, path + "0", acc) + wr;
        { WalkKeepsAccumulator(l, path + "0", acc); }
        (acc + wl) + wr;
        { OverrideAssoc(acc, wl, wr); }
        acc + (wl + wr);
        { WalkKeepsAccumulator(r, path + "1", wl); }
        acc + Walk(t, path, map[]);
      }
  }

  lemma OverrideOne<K, V>(m: map<K, V>, k: K, v: V)
    ensures m[k := v] == m + map[k := v]
  {
  }

  lemma OverrideAssoc<K, V>(a: map<K, V>, b: map<K, V>, c: map<K, V>)
    ensures (a + b) + c == a + (b + c)
  {
  }
}
