/** The code the loop of project.py:25-36 builds is monotone in the counts:
    a key with a strictly lower count never gets a strictly shorter codeword
    (project.py:41-54) than a key with a strictly higher count. The proof
    carries an ordering invariant on the queue through every merge. Besides
    the greedy choice it uses one fact about the `Precedes` order: a newly
    merged node comes after every older item of the same weight. */
module Monotonicity {
  import opened Seqs
  import opened Results
  import opened Frequencies
  import opened HuffmanTree
  import opened HuffmanCodes

  /** `t` has a node of weight `w` at depth `d` below its root. */
  predicate HasLevel(t: Tree, w: nat, d: nat)
  {
    match t
    case Leaf(_, lw) => d == 0 && w == lw
    case Node(nw, l, r) =>
      (d == 0 && w == nw) || (d > 0 && (HasLevel(l, w, d - 1) || HasLevel(r, w, d - 1)))
  }

  /** With their roots side by side, every node of `s` weighs at least as
      much as every node of `t` that sits deeper. */
  ghost predicate DeeperLighter(s: Tree, t: Tree)
  {
    forall w1, d1, w2, d2 :: HasLevel(s, w1, d1) && HasLevel(t, w2, d2) && d1 < d2 ==> w1 >= w2
  }

  /** With their roots side by side, at every depth the nodes of `t` weigh
      at least as much as those of `s`. */
  ghost predicate LevelOrdered(s: Tree, t: Tree)
  {
    forall w1, w2, d :: HasLevel(s, w1, d) && HasLevel(t, w2, d) ==> w1 <= w2
  }

  /** Queued items are distinct and numbered below `next`. */
  ghost predicate Numbered(q: seq<Item>, next: nat)
  {
    Distinct(q) && forall x :: x in q ==> x.seqNo < next
  }

  /** Any two queued trees, hung side by side, are depth-ordered by weight. */
  ghost predicate DepthOrdered(q: seq<Item>)
  {
    forall x, y :: x in q && y in q ==> DeeperLighter(x.tree, y.tree)
  }

  /** Of two queued trees, the one extracted first is level-ordered below
      the other. */
  ghost predicate LevelsOrdered(q: seq<Item>)
  {
    forall x, y :: x in q && y in q && x != y && Precedes(x, y) ==> LevelOrdered(x.tree, y.tree)
  }

  /** A queued merged node weighs no more than any two other queued items
      together. */
  ghost predicate MergesBounded(q: seq<Item>)
  {
    forall w, x, y ::
      (w in q && x in q && y in q && w.tree.Node? && x != y && x != w && y != w)
      ==> w.tree.weight <= x.tree.weight + y.tree.weight
  }

  /** What the loop keeps about its queue. */
  ghost predicate Ordered(q: seq<Item>, next: nat)
  {
    Numbered(q, next) && DepthOrdered(q) && LevelsOrdered(q) && MergesBounded(q)
  }

  /** The root is the only node at depth zero. */
  lemma RootLevel(t: Tree)
    ensures HasLevel(t, t.weight, 0)
    ensures forall w :: HasLevel(t, w, 0) ==> w == t.weight
  {
  }

  /** A leaf has no node below its root. */
  lemma LeafLevels(t: Tree)
    requires t.Leaf?
    ensures forall w, d :: HasLevel(t, w, d) ==> d == 0 && w == t.weight
  {
  }

  // ---------------------------------------------------------------------
  // One merge: how the new node relates to itself and to what stays queued

  /** The merged node is depth-ordered by weight within itself. */
  lemma CombineSelf(a: Tree, b: Tree)
    requires DeeperLighter(a, a) && DeeperLighter(a, b) && DeeperLighter(b, a) && DeeperLighter(b, b)
    ensures DeeperLighter(Node(a.weight + b.weight, a, b), Node(a.weight + b.weight, a, b))
  {
    var z := Node(a.weight + b.weight, a, b);
    forall w1: nat, d1: nat, w2: nat, d2: nat | HasLevel(z, w1, d1) && HasLevel(z, w2, d2) && d1 < d2
      ensures w1 >= w2
    {
      var hi := if HasLevel(a, w2, d2 - 1) then a else b;
      assert HasLevel(hi, w2, d2 - 1);
      RootLevel(hi);
      if d1 == 0 {
        if d2 - 1 > 0 {
          assert DeeperLighter(hi, hi);
          assert hi.weight >= w2;
        }
      } else {
        var lo := if HasLevel(a, w1, d1 - 1) then a else b;
        assert HasLevel(lo, w1, d1 - 1);
        assert DeeperLighter(lo, hi);
      }
    }
  }

  /** A queued tree `w` that both popped trees were level-ordered below
      keeps its shallower nodes at least as heavy as the merged node's
      deeper ones. */
  lemma CombineBelow(a: Tree, b: Tree, w: Tree)
    requires DeeperLighter(w, a) && DeeperLighter(w, b)
    requires LevelOrdered(a, w) && LevelOrdered(b, w)
    ensures DeeperLighter(w, Node(a.weight + b.weight, a, b))
  {
    var z := Node(a.weight + b.weight, a, b);
    forall w1: nat, d1: nat, w2: nat, d2: nat | HasLevel(w, w1, d1) && HasLevel(z, w2, d2) && d1 < d2
      ensures w1 >= w2
    {
      var hi := if HasLevel(a, w2, d2 - 1) then a else b;
      assert HasLevel(hi, w2, d2 - 1);
      if d1 == d2 - 1 {
        assert LevelOrdered(hi, w);
      } else {
        assert DeeperLighter(w, hi);
      }
    }
  }

  /** The merged node's shallower nodes are at least as heavy as the
      deeper nodes of any queued tree that its parts were. */
  lemma CombineAbove(a: Tree, b: Tree, w: Tree)
    requires DeeperLighter(a, w) && DeeperLighter(b, w)
    ensures DeeperLighter(Node(a.weight + b.weight, a, b), w)
  {
    var z := Node(a.weight + b.weight, a, b);
    RootLevel(a);
    forall w1: nat, d1: nat, w2: nat, d2: nat | HasLevel(z, w1, d1) && HasLevel(w, w2, d2) && d1 < d2
      ensures w1 >= w2
    {
      if d1 == 0 {
        assert a.weight >= w2;
      } else {
        var lo := if HasLevel(a, w1, d1 - 1) then a else b;
        assert HasLevel(lo, w1, d1 - 1);
        assert DeeperLighter(lo, w);
      }
    }
  }

  /** A queued tree no heavier than the merged node is level-ordered below
      it. */
  lemma CombineAfter(a: Tree, b: Tree, w: Tree)
    requires w.weight <= a.weight + b.weight
    requires DeeperLighter(a, w) && DeeperLighter(b, w)
    ensures LevelOrdered(w, Node(a.weight + b.weight, a, b))
  {
    var z := Node(a.weight + b.weight, a, b);
    RootLevel(w);
    forall w1: nat, w2: nat, d: nat | HasLevel(w, w1, d) && HasLevel(z, w2, d)
      ensures w1 <= w2
    {
      if d > 0 {
        if HasLevel(a, w2, d - 1) {
          assert w2 >= w1;
        } else {
          assert HasLevel(b, w2, d - 1);
        }
      }
    }
  }

  /** A queued tree strictly heavier than the merged node is a leaf, since
      a merged node weighs no more than the two items just popped, and so it
      is level-ordered above the merged node. */
  lemma CombineBefore(a: Tree, b: Tree, w: Tree)
    requires a.weight + b.weight < w.weight
    requires w.Node? ==> w.weight <= a.weight + b.weight
    ensures LevelOrdered(Node(a.weight + b.weight, a, b), w)
  {
    LeafLevels(w);
    RootLevel(Node(a.weight + b.weight, a, b));
  }

  // ---------------------------------------------------------------------
  // The invariant through a merge

  /** The two popped items are distinct, neither stays queued, and what
      stays is distinct and was queued before. */
  lemma PoppedApart(q: seq<Item>)
    requires |q| >= 2 && Distinct(q)
    ensures PopTwo(q).first != PopTwo(q).second
    ensures PopTwo(q).first !in PopTwo(q).rest && PopTwo(q).second !in PopTwo(q).rest
    ensures PopTwo(q).first in q && PopTwo(q).second in q
    ensures forall y :: y in PopTwo(q).rest ==> y in q
    ensures Distinct(PopTwo(q).rest)
  {
    var x := PopTwo(q);
    var m := multiset(q);
    assert m == multiset(x.rest) + multiset{x.first, x.second};
    assert m[x.first] == 1 && x.first in m;
    assert x.second in m;
    forall y | y in multiset(x.rest)
      ensures multiset(x.rest)[y] == 1
    {
      assert m[y] == 1;
    }
    forall y | y in x.rest
      ensures y in q
    {
      assert y in multiset(x.rest);
      assert y in m;
    }
  }

  /** A distinct queue with a fresh item appended stays distinct. */
  lemma AppendFresh(rest: seq<Item>, z: Item)
    requires Distinct(rest) && z !in rest
    ensures Distinct(rest + [z])
  {
    var m := multiset(rest + [z]);
    assert m == multiset(rest) + multiset{z};
    forall y | y in m
      ensures m[y] == 1
    {
      if y != z {
        assert y in multiset(rest);
      }
    }
  }

  /** Every pair of the new queue is depth-ordered by weight. */
  lemma MergeKeepsDeeperLighter(q: seq<Item>, next: nat)
    requires |q| >= 2 && Distinct(q) && DepthOrdered(q) && LevelsOrdered(q)
    ensures DepthOrdered(Merge(q, next))
  {
    var x := PopTwo(q);
    var z := Combine(x.first, x.second, next);
    var r := Merge(q, next);
    PoppedApart(q);
    NewNodeDepths(x, q, next);
    forall u, v | u in r && v in r
      ensures DeeperLighter(u.tree, v.tree)
    {
      assert u in x.rest || u == z;
      assert v in x.rest || v == z;
    }
  }

  /** The node just merged is depth-ordered against itself and against
      every item left queued. */
  lemma NewNodeDepths(x: Extraction, q: seq<Item>, next: nat)
    requires forall u :: u in x.rest ==> u in q && u != x.first && u != x.second
    requires x.first in q && x.second in q
    requires forall u :: u in x.rest ==> Precedes(x.first, u) && Precedes(x.second, u)
    requires DepthOrdered(q) && LevelsOrdered(q)
    ensures DeeperLighter(Combine(x.first, x.second, next).tree, Combine(x.first, x.second, next).tree)
    ensures forall u :: u in x.rest ==>
      DeeperLighter(u.tree, Combine(x.first, x.second, next).tree) &&
      DeeperLighter(Combine(x.first, x.second, next).tree, u.tree)
  {
    var a, b := x.first.tree, x.second.tree;
    CombineSelf(a, b);
    forall u | u in x.rest
      ensures DeeperLighter(u.tree, Combine(x.first, x.second, next).tree)
      ensures DeeperLighter(Combine(x.first, x.second, next).tree, u.tree)
    {
      CombineBelow(a, b, u.tree);
      CombineAbove(a, b, u.tree);
    }
  }

  /** Every pair of the new queue in which one precedes the other is
      level-ordered. */
  lemma MergeKeepsLevelOrdered(q: seq<Item>, next: nat)
    requires |q| >= 2 && Ordered(q, next)
    ensures LevelsOrdered(Merge(q, next))
  {
    var x := PopTwo(q);
    var z := Combine(x.first, x.second, next);
    var r := Merge(q, next);
    PoppedApart(q);
    NewNodeAfter(x, q, next);
    NewNodeBefore(x, q, next);
    forall u, v | u in r && v in r && u != v && Precedes(u, v)
      ensures LevelOrdered(u.tree, v.tree)
    {
      assert u in x.rest || u == z;
      assert v in x.rest || v == z;
    }
  }

  /** Items left queued that come before the new node sit level-ordered
      below it. */
  lemma NewNodeAfter(x: Extraction, q: seq<Item>, next: nat)
    requires forall u :: u in x.rest ==> u in q
    requires x.first in q && x.second in q
    requires DepthOrdered(q)
    ensures forall u :: u in x.rest && Precedes(u, Combine(x.first, x.second, next)) ==>
      LevelOrdered(u.tree, Combine(x.first, x.second, next).tree)
  {
    var a, b := x.first.tree, x.second.tree;
    forall u | u in x.rest && Precedes(u, Combine(x.first, x.second, next))
      ensures LevelOrdered(u.tree, Combine(x.first, x.second, next).tree)
    {
      CombineAfter(a, b, u.tree);
    }
  }

  /** Items left queued that come after the new node sit level-ordered
      above it. */
  lemma NewNodeBefore(x: Extraction, q: seq<Item>, next: nat)
    requires forall u :: u in x.rest ==> u in q && u != x.first && u != x.second
    requires x.first in q && x.second in q && x.first != x.second
    requires Numbered(q, next) && MergesBounded(q)
    ensures forall u :: u in x.rest && Precedes(Combine(x.first, x.second, next), u) ==>
      LevelOrdered(Combine(x.first, x.second, next).tree, u.tree)
  {
    var a, b := x.first.tree, x.second.tree;
    forall u | u in x.rest && Precedes(Combine(x.first, x.second, next), u)
      ensures LevelOrdered(Combine(x.first, x.second, next).tree, u.tree)
    {
      CombineBefore(a, b, u.tree);
    }
  }

  /** A merged node of the new queue weighs no more than any two other
      items together. */
  lemma MergeKeepsBound(q: seq<Item>, next: nat)
    requires |q| >= 2 && Distinct(q) && MergesBounded(q)
    ensures MergesBounded(Merge(q, next))
  {
    var x := PopTwo(q);
    var z := Combine(x.first, x.second, next);
    PoppedApart(q);
    NewNodeBound(x, z);
    OldNodeBound(x, q, z);
    MergeParts(q, next);
    AppendBounded(x.rest, z);
  }

  /** Appending a node that outweighs every queued merged node, and that
      weighs no more than any two queued items, keeps the bound. */
  lemma AppendBounded(rest: seq<Item>, z: Item)
    requires MergesBounded(rest)
    requires forall w :: w in rest && w.tree.Node? ==> w.tree.weight <= z.tree.weight
    requires forall u, v :: u in rest && v in rest ==> z.tree.weight <= u.tree.weight + v.tree.weight
    ensures MergesBounded(rest + [z])
  {
    var r := rest + [z];
    forall w, u, v | w in r && u in r && v in r && w.tree.Node? && u != v && u != w && v != w
      ensures w.tree.weight <= u.tree.weight + v.tree.weight
    {
      if w == z {
        assert u in rest && v in rest;
      } else if u == z {
        assert w in rest;
      } else if v == z {
        assert w in rest;
      } else {
        assert w in rest && u in rest && v in rest;
      }
    }
  }

  /** The node just merged weighs no more than any two items left queued,
      since each of those weighs at least as much as the item popped with
      the same rank. */
  lemma NewNodeBound(x: Extraction, z: Item)
    requires z.tree.weight == x.first.tree.weight + x.second.tree.weight
    requires forall y :: y in x.rest ==> x.first.tree.weight <= y.tree.weight && x.second.tree.weight <= y.tree.weight
    ensures forall u, v :: u in x.rest && v in x.rest ==> z.tree.weight <= u.tree.weight + v.tree.weight
  {
  }

  /** A merged node left queued weighs no more than the node just merged,
      and so no more than it together with any other item. */
  lemma OldNodeBound(x: Extraction, q: seq<Item>, z: Item)
    requires MergesBounded(q)
    requires z.tree.weight == x.first.tree.weight + x.second.tree.weight
    requires x.first != x.second && x.first !in x.rest && x.second !in x.rest
    requires x.first in q && x.second in q && forall y :: y in x.rest ==> y in q
    ensures forall w :: w in x.rest && w.tree.Node? ==> w.tree.weight <= z.tree.weight
    ensures MergesBounded(x.rest)
  {
    forall w | w in x.rest && w.tree.Node?
      ensures w.tree.weight <= z.tree.weight
    {
      assert w in q && w != x.first && w != x.second;
    }
  }

  /** Numbering survives a merge: the new node takes the number `next`. */
  lemma MergeKeepsNumbered(q: seq<Item>, next: nat)
    requires |q| >= 2 && Numbered(q, next)
    ensures Numbered(Merge(q, next), next + 1)
  {
    var x := PopTwo(q);
    var z := Combine(x.first, x.second, next);
    PoppedApart(q);
    assert z !in x.rest;
    AppendFresh(x.rest, z);
  }

  /** One iteration keeps the invariant, with the next number one higher. */
  lemma MergeKeepsOrder(q: seq<Item>, next: nat)
    requires |q| >= 2 && Ordered(q, next)
    ensures Ordered(Merge(q, next), next + 1)
  {
    MergeKeepsNumbered(q, next);
    MergeKeepsDeeperLighter(q, next);
    MergeKeepsLevelOrdered(q, next);
    MergeKeepsBound(q, next);
  }

  // ---------------------------------------------------------------------
  // From the seeded queue to the root

  /** Items numbered `k`, `k + 1`, ... in order are distinct. */
  lemma {:induction false} NumberedDistinct(q: seq<Item>, k: nat)
    requires forall i :: 0 <= i < |q| ==> q[i].seqNo == k + i
    ensures Distinct(q)
    ensures forall y :: y in q ==> k <= y.seqNo < k + |q|
  {
    if q != [] {
      NumberedDistinct(q[1..], k + 1);
      assert q == [q[0]] + q[1..];
      assert q[0] !in q[1..];
      DistinctCons(q[0], q[1..]);
    }
  }

  /** Two leaves are depth-ordered, and level-ordered in extraction order. */
  lemma LeavesOrdered(x: Item, y: Item)
    requires x.tree.Leaf? && y.tree.Leaf?
    ensures DeeperLighter(x.tree, y.tree)
    ensures Precedes(x, y) ==> LevelOrdered(x.tree, y.tree)
  {
    LeafLevels(x.tree);
    LeafLevels(y.tree);
  }

  /** The seeded queue of leaves satisfies the invariant. */
  lemma SeedOrdered(table: seq<Entry>)
    ensures Ordered(Seed(table), |table|)
  {
    var q := Seed(table);
    NumberedDistinct(q, 0);
    forall x | x in q
      ensures x.tree.Leaf?
    {
      var i :| 0 <= i < |q| && q[i] == x;
    }
    forall x, y | x in q && y in q
      ensures DeeperLighter(x.tree, y.tree) && (Precedes(x, y) ==> LevelOrdered(x.tree, y.tree))
    {
      LeavesOrdered(x, y);
    }
  }

  /** The loop ends with a root that is depth-ordered by weight. */
  lemma {:induction false} BuildOrdered(q: seq<Item>, next: nat)
    requires q != [] && Ordered(q, next)
    ensures DeeperLighter(BuildFrom(q, next), BuildFrom(q, next))
    decreases |q|
  {
    if |q| == 1 {
      assert q[0] in q;
    } else {
      MergeKeepsOrder(q, next);
      BuildOrdered(Merge(q, next), next + 1);
    }
  }

  // ---------------------------------------------------------------------
  // From depths to codewords

  /** A path that reaches a leaf ends at an entry of the tree whose count
      sits at the path's length as depth. */
  lemma {:induction false} FollowLevel(t: Tree, p: Code)
    requires Follow(t, p).Some?
    ensures exists w :: Entry(Follow(t, p).value, w) in Leaves(t) && HasLevel(t, w, |p|)
  {
    match t
    case Leaf(s, w) =>
      assert Entry(s, w) in Leaves(t) && HasLevel(t, w, 0);
    case Node(_, l, r) =>
      var s := Follow(t, p).value;
      if p[0] == '0' {
        FollowLevel(l, p[1..]);
        var w :| Entry(s, w) in Leaves(l) && HasLevel(l, w, |p| - 1);
        assert Entry(s, w) in Leaves(t) && HasLevel(t, w, |p|);
      } else {
        FollowLevel(r, p[1..]);
        var w :| Entry(s, w) in Leaves(r) && HasLevel(r, w, |p| - 1);
        assert Entry(s, w) in Leaves(t) && HasLevel(t, w, |p|);
      }
  }

  /** In a table with distinct keys, an entry's count is what lookup
      finds under its key. */
  lemma {:induction false} LookupMember(table: seq<Entry>, e: Entry)
    requires ValidTable(table) && e in table
    ensures Lookup(table, e.sym) == Some(e.count)
  {
    Cons(table[0], table[1..]);
    assert table == [table[0]] + table[1..];
    if e != table[0] {
      DistinctSplit([table[0].sym], Syms(table[1..]));
      DistinctHead(table[0].sym, Syms(table[1..]));
      LookupMember(table[1..], e);
      LookupFindsKeys(table[1..], e.sym);
    }
  }

  /** Monotonicity: of two counted keys, the one with the strictly lower
      count gets a codeword at least as long as the other's. */
  lemma Monotone(table: seq<Entry>, a: Entry, b: Entry)
    requires ValidTable(table) && a in table && b in table
    ensures Build(table).Success?
    ensures a.sym in CodeBook(Build(table).value) && b.sym in CodeBook(Build(table).value)
    ensures a.count < b.count ==>
      |CodeBook(Build(table).value)[a.sym]| >= |CodeBook(Build(table).value)[b.sym]|
  {
    var t := Build(table).value;
    BuildKeepsKeysDistinct(table);
    CodeBookIsPaths(t);
    SeedOrdered(table);
    BuildOrdered(Seed(table), |table|);
    assert a in multiset(Leaves(t)) && b in multiset(Leaves(t));
    LeafEntryKey(t, a);
    LeafEntryKey(t, b);
    var pa, pb := CodeBook(t)[a.sym], CodeBook(t)[b.sym];
    FollowLevel(t, pa);
    FollowLevel(t, pb);
    var wa :| Entry(a.sym, wa) in Leaves(t) && HasLevel(t, wa, |pa|);
    var wb :| Entry(b.sym, wb) in Leaves(t) && HasLevel(t, wb, |pb|);
    assert Entry(a.sym, wa) in multiset(table) && Entry(b.sym, wb) in multiset(table);
    LookupMember(table, a);
    LookupMember(table, b);
    LookupMember(table, Entry(a.sym, wa));
    LookupMember(table, Entry(b.sym, wb));
  }
}
