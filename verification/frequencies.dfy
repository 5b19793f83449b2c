/** The frequency table: a `collections.Counter` over the normalised text,
    with the space character relabelled "Space" (project.py:66-74). A table
    is a sequence of entries in the dictionary's insertion order, which is
    the order of first occurrence in the text. */
module Frequencies {
  import opened Seqs
  import opened Results

  /** A key of the table: a one-character string, or the label "Space". */
  type Symbol = string

  datatype Entry = Entry(sym: Symbol, count: nat)

  function SymOf(e: Entry): seq<Symbol> { [e.sym] }

  function CountOf(e: Entry): nat { e.count }

  /** The keys of a table, in order. */
  function Syms(table: seq<Entry>): seq<Symbol>
  {
    Flatten(table, SymOf)
  }

  /** `sum(char_counts.values())`. */
  function Total(table: seq<Entry>): nat
  {
    Sum(table, CountOf)
  }

  /** A dictionary holds each key at most once. */
  ghost predicate ValidTable(table: seq<Entry>)
  {
    Distinct(Syms(table))
  }

  /** Dictionary lookup: the count stored under `k`, if any. */
  function Lookup(table: seq<Entry>, k: Symbol): Option<nat>
  {
    if table == [] then None
    else if table[0].sym == k then Some(table[0].count)
    else Lookup(table[1..], k)
  }

  /** Keys and total of a table with one more entry in front. */
  lemma Cons(e: Entry, rest: seq<Entry>)
    ensures Syms([e] + rest) == [e.sym] + Syms(rest)
    ensures Total([e] + rest) == e.count + Total(rest)
  {
    assert ([e] + rest)[1..] == rest;
  }

  lemma {:induction false} LookupFindsKeys(table: seq<Entry>, k: Symbol)
    ensures Lookup(table, k).Some? <==> k in Syms(table)
  {
    if table != [] {
      LookupFindsKeys(table[1..], k);
      assert Syms(table) == [table[0].sym] + Syms(table[1..]);
    }
  }

  function LookupOrZero(table: seq<Entry>, k: Symbol): nat
  {
    match Lookup(table, k)
    case Some(n) => n
    case None => 0
  }

  /** One more occurrence of `c`: `Counter` increments an existing key in
      place and appends a new key at the end. */
  function Bump(table: seq<Entry>, c: char): (r: seq<Entry>)
    ensures Syms(r) == if [c] in Syms(table) then Syms(table) else Syms(table) + [[c]]
    ensures Total(r) == Total(table) + 1
    ensures Lookup(r, [c]) == Some(LookupOrZero(table, [c]) + 1)
    ensures forall k :: k != [c] ==> Lookup(r, k) == Lookup(table, k)
    ensures forall e :: e in r ==> e in table || e == Entry([c], LookupOrZero(table, [c]) + 1)
  {
    if table == [] then
      Cons(Entry([c], 1), []);
      assert [Entry([c], 1)] + [] == [Entry([c], 1)];
      assert Syms([]) == [] && Total([]) == 0;
      [Entry([c], 1)]
    else
      Cons(table[0], table[1..]);
      assert table == [table[0]] + table[1..];
      if table[0].sym == [c] then
        Cons(Entry([c], table[0].count + 1), table[1..]);
        [Entry([c], table[0].count + 1)] + table[1..]
      else
        Cons(table[0], Bump(table[1..], c));
        [table[0]] + Bump(table[1..], c)
  }

  /** What `Counter(text)` promises: each character of the text is a key
      holding its number of occurrences, no other key exists, and the counts
      add up to the length of the text. */
  ghost predicate CountsOf(table: seq<Entry>, text: string)
  {
    && ValidTable(table)
    && (forall e :: e in table ==> |e.sym| == 1 && e.count > 0)
    && (forall c :: Lookup(table, [c]) == if c in multiset(text) then Some(multiset(text)[c]) else None)
    && Total(table) == |text|
  }

  /** `Counter(text)`. */
  function Tally(text: string): (table: seq<Entry>)
    ensures CountsOf(table, text)
    decreases |text|
  {
    if text == [] then
      assert Syms([]) == [] && Total([]) == 0;
      []
    else
      var init, c := text[..|text| - 1], text[|text| - 1];
      assert text == init + [c];
      TallyStep(Tally(init), init, c);
      Bump(Tally(init), c)
  }

  lemma TallyStep(t: seq<Entry>, init: string, c: char)
    requires CountsOf(t, init)
    ensures CountsOf(Bump(t, c), init + [c])
  {
    var r := Bump(t, c);
    BumpKeepsValid(t, c);
    assert forall e :: e in r ==> |e.sym| == 1 && e.count > 0;
    BumpCounts(t, init, c);
  }

  lemma BumpKeepsValid(t: seq<Entry>, c: char)
    requires ValidTable(t)
    ensures ValidTable(Bump(t, c))
  {
    var r := Bump(t, c);
    LookupFindsKeys(t, [c]);
    if [c] !in Syms(t) {
      assert multiset(Syms(r)) == multiset(Syms(t)) + multiset{[c]};
    }
  }

  lemma BumpCounts(t: seq<Entry>, init: string, c: char)
    requires forall d :: Lookup(t, [d]) == if d in multiset(init) then Some(multiset(init)[d]) else None
    ensures forall d :: Lookup(Bump(t, c), [d]) == var m := multiset(init + [c]); if d in m then Some(m[d]) else None
  {
    var r := Bump(t, c);
    var m := multiset(init + [c]);
    assert m == multiset(init) + multiset{c};
    forall d
      ensures Lookup(r, [d]) == if d in m then Some(m[d]) else None
    {
      if d != c {
        assert [d] != [c];
        assert Lookup(r, [d]) == Lookup(t, [d]);
      } else {
        assert Lookup(t, [c]) == if c in multiset(init) then Some(multiset(init)[c]) else None;
      }
    }
  }

  /** `char_counts.pop(k)` without its result: the first entry for `k` goes. */
  function Remove(table: seq<Entry>, k: Symbol): (r: seq<Entry>)
    ensures multiset(Syms(r)) == multiset(Syms(table)) - multiset{k}
    ensures Total(r) + LookupOrZero(table, k) == Total(table)
    ensures forall j :: j != k ==> Lookup(r, j) == Lookup(table, j)
  {
    if table == [] then []
    else if table[0].sym == k then
      Cons(table[0], table[1..]);
      assert table == [table[0]] + table[1..];
      table[1..]
    else
      var tail := Remove(table[1..], k);
      RemoveCons(table, k, tail);
      [table[0]] + tail
  }

  /** The step of `Remove` past an entry that is not the key's. */
  lemma RemoveCons(table: seq<Entry>, k: Symbol, tail: seq<Entry>)
    requires table != [] && table[0].sym != k
    requires multiset(Syms(tail)) == multiset(Syms(table[1..])) - multiset{k}
    requires Total(tail) + LookupOrZero(table[1..], k) == Total(table[1..])
    ensures multiset(Syms([table[0]] + tail)) == multiset(Syms(table)) - multiset{k}
    ensures Total([table[0]] + tail) + LookupOrZero(table, k) == Total(table)
  {
    Cons(table[0], table[1..]);
    Cons(table[0], tail);
    assert table == [table[0]] + table[1..];
    assert LookupOrZero(table, k) == LookupOrZero(table[1..], k);
    MultisetRemoveBehind(multiset{table[0].sym}, multiset(Syms(table[1..])), k);
  }

  /** `char_counts[k] = v`: an existing key is updated in place, a new key
      is appended at the end. */
  function Put(table: seq<Entry>, k: Symbol, v: nat): (r: seq<Entry>)
    ensures Syms(r) == if k in Syms(table) then Syms(table) else Syms(table) + [k]
    ensures Total(r) + LookupOrZero(table, k) == Total(table) + v
    ensures Lookup(r, k) == Some(v)
    ensures forall j :: j != k ==> Lookup(r, j) == Lookup(table, j)
  {
    if table == [] then
      Cons(Entry(k, v), []);
      assert [Entry(k, v)] + [] == [Entry(k, v)];
      assert Syms([]) == [] && Total([]) == 0;
      [Entry(k, v)]
    else
      Cons(table[0], table[1..]);
      assert table == [table[0]] + table[1..];
      if table[0].sym == k then
        Cons(Entry(k, v), table[1..]);
        [Entry(k, v)] + table[1..]
      else
        Cons(table[0], Put(table[1..], k, v));
        [table[0]] + Put(table[1..], k, v)
  }

  /** The label that replaces the space key. */
  const SpaceLabel: Symbol := "Space"

  /** `if ' ' in char_counts: char_counts['Space'] = char_counts.pop(' ')`.
      The space count moves to the key "Space", every other key keeps its
      count, and since a counted table never holds "Space" already, the
      total is unchanged. */
  function Relabel(table: seq<Entry>): (r: seq<Entry>)
    requires ValidTable(table)
    ensures ValidTable(r)
    ensures Lookup(r, " ") == None
    ensures Lookup(r, SpaceLabel) == if Lookup(table, " ").Some? then Lookup(table, " ") else Lookup(table, SpaceLabel)
    ensures forall k :: k != " " && k != SpaceLabel ==> Lookup(r, k) == Lookup(table, k)
    ensures Lookup(table, SpaceLabel) == None ==> Total(r) == Total(table)
  {
    match Lookup(table, " ")
    case None => table
    case Some(n) =>
      RelabelKeys(table, n);
      Put(Remove(table, " "), SpaceLabel, n)
  }

  lemma RelabelKeys(table: seq<Entry>, n: nat)
    requires ValidTable(table) && Lookup(table, " ") == Some(n)
    ensures ValidTable(Put(Remove(table, " "), SpaceLabel, n))
    ensures Lookup(Put(Remove(table, " "), SpaceLabel, n), " ") == None
  {
    RemoveDropsKey(table, " ");
    PutKeepsValid(Remove(table, " "), SpaceLabel, n);
    assert " " != SpaceLabel by {
      assert |" "| != |SpaceLabel|;
    }
  }

  /** After `pop(k)` a dictionary no longer holds `k`. */
  lemma RemoveDropsKey(table: seq<Entry>, k: Symbol)
    requires ValidTable(table)
    ensures ValidTable(Remove(table, k))
    ensures Lookup(Remove(table, k), k) == None
  {
    var rest := Remove(table, k);
    forall x | x in multiset(Syms(rest))
      ensures multiset(Syms(rest))[x] == 1
    {
      assert multiset(Syms(rest))[x] <= multiset(Syms(table))[x];
    }
    LookupFindsKeys(table, k);
    LookupFindsKeys(rest, k);
    if k in Syms(table) {
      assert multiset(Syms(table))[k] == 1;
    }
    assert multiset(Syms(rest))[k] == 0;
  }

  /** Storing under a key keeps the keys of a dictionary distinct. */
  lemma PutKeepsValid(table: seq<Entry>, k: Symbol, v: nat)
    requires ValidTable(table)
    ensures ValidTable(Put(table, k, v))
  {
    var r := Put(table, k, v);
    if k !in Syms(table) {
      assert multiset(Syms(r)) == multiset(Syms(table)) + multiset{k};
    }
  }
}
