/** The first-occurrence group-by that lib/database/queries.ts and
    hooks/use-about-data.ts each write as a `reduce` over the fetched rows:
    `acc.find` looks for the group of the row's category, the row is pushed
    onto it, or a new group is pushed at the end of the accumulator. */
module Grouping {

  datatype Group<T> = Group(key: string, items: seq<T>)

  /** The keys of the groups, in order. */
  function Keys<T>(gs: seq<Group<T>>): (ks: seq<string>)
    ensures |ks| == |gs|
    ensures forall i :: 0 <= i < |gs| ==> ks[i] == gs[i].key
  {
    seq(|gs|, i requires 0 <= i < |gs| => gs[i].key)
  }

  /** The key of every row, in row order. */
  function KeysOf<T>(xs: seq<T>, key: T -> string): (ks: seq<string>)
    ensures |ks| == |xs|
    ensures forall i :: 0 <= i < |xs| ==> ks[i] == key(xs[i])
  {
    seq(|xs|, i requires 0 <= i < |xs| => key(xs[i]))
  }

  /** `acc.find`: the index of the first group with key `k`, or `|gs|`. */
  function FindIndex<T>(gs: seq<Group<T>>, k: string): (i: nat)
    ensures i <= |gs|
    ensures i < |gs| ==> gs[i].key == k
    ensures forall j :: 0 <= j < i ==> gs[j].key != k
    decreases |gs|
  {
    if gs == [] then 0
    else if gs[0].key == k then 0
    else 1 + FindIndex(gs[1..], k)
  }

  /** One step of the reduce: push `x` onto the group of its key, or open a
      new group for it at the end. */
  function Add<T>(gs: seq<Group<T>>, x: T, key: T -> string): seq<Group<T>> {
    var i := FindIndex(gs, key(x));
    if i < |gs| then gs[i := Group(gs[i].key, gs[i].items + [x])]
    else gs + [Group(key(x), [x])]
  }

  /** The whole reduce, from the empty accumulator. */
  function GroupBy<T>(xs: seq<T>, key: T -> string): seq<Group<T>>
    decreases |xs|
  {
    if xs == [] then [] else Add(GroupBy(xs[..|xs| - 1], key), xs[|xs| - 1], key)
  }

  // ---------------------------------------------------------------------
  // Reference definitions

  /** The distinct keys in order of first occurrence. */
  function FirstOccurrences(ks: seq<string>): seq<string>
    decreases |ks|
  {
    if ks == [] then []
    else
      var p := FirstOccurrences(ks[..|ks| - 1]);
      if ks[|ks| - 1] in p then p else p + [ks[|ks| - 1]]
  }

  /** The rows with key `k`, in row order. */
  function Only<T>(xs: seq<T>, k: string, key: T -> string): seq<T>
    decreases |xs|
  {
    if xs == [] then []
    else Only(xs[..|xs| - 1], k, key) + (if key(xs[|xs| - 1]) == k then [xs[|xs| - 1]] else [])
  }

  /** The distinct keys among the rows. */
  function KeySet<T>(xs: seq<T>, key: T -> string): set<string> {
    set n | 0 <= n < |xs| :: key(xs[n])
  }

  predicate Distinct(ks: seq<string>) {
    forall i, j :: 0 <= i < j < |ks| ==> ks[i] != ks[j]
  }

  /** The total number of rows held by the groups. */
  function TotalSize<T>(gs: seq<Group<T>>): nat
    decreases |gs|
  {
    if gs == [] then 0 else TotalSize(gs[..|gs| - 1]) + |gs[|gs| - 1].items|
  }

  // ---------------------------------------------------------------------
  // The accumulator as the source mutates it

  /** The reduce as the source runs it: for each row, a linear search of the
      accumulator, then a push onto the found group or onto the accumulator. */
  method GroupRows<T>(xs: seq<T>, key: T -> string) returns (acc: seq<Group<T>>)
    ensures acc == GroupBy(xs, key)
  {
    acc := [];
    for n := 0 to |xs|
      invariant acc == GroupBy(xs[..n], key)
    {
      var x := xs[n];
      var k := key(x);
      var i := 0;
      while i < |acc| && acc[i].key != k
        invariant 0 <= i <= |acc|
        invariant forall j :: 0 <= j < i ==> acc[j].key != k
      {
        i := i + 1;
      }
      assert i == FindIndex(acc, k);
      if i < |acc| {
        acc := acc[i := acc[i].(items := acc[i].items + [x])];
      } else {
        acc := acc + [Group(k, [x])];
      }
      assert xs[..n + 1][..n] == xs[..n];
    }
    assert xs[..|xs|] == xs;
  }

  // ---------------------------------------------------------------------
  // Properties

  /** First occurrences are distinct and hold exactly the keys that occur. */
  lemma {:induction false} FirstOccurrencesSpec(ks: seq<string>)
    ensures Distinct(FirstOccurrences(ks))
    ensures forall k :: k in FirstOccurrences(ks) <==> k in ks
    decreases |ks|
  {
    if ks != [] {
      var init := ks[..|ks| - 1];
      FirstOccurrencesSpec(init);
      assert ks == init + [ks[|ks| - 1]];
    }
  }

  /** The rows of one key all carry that key. */
  lemma {:induction false} OnlyCarriesKey<T>(xs: seq<T>, k: string, key: T -> string)
    ensures forall y :: y in Only(xs, k, key) ==> key(y) == k
    ensures |Only(xs, k, key)| <= |xs|
    decreases |xs|
  {
    if xs != [] {
      OnlyCarriesKey(xs[..|xs| - 1], k, key);
    }
  }

  /** The rows of a key that occurs are not empty, and the first of them is
      the first row with that key. */
  lemma {:induction false} OnlyHead<T>(xs: seq<T>, k: string, key: T -> string)
    requires k in KeysOf(xs, key)
    ensures Only(xs, k, key) != []
    ensures exists n :: 0 <= n < |xs| && key(xs[n]) == k && Only(xs, k, key)[0] == xs[n] &&
                        forall j :: 0 <= j < n ==> key(xs[j]) != k
    decreases |xs|
  {
    var init := xs[..|xs| - 1];
    var last := xs[|xs| - 1];
    if k in KeysOf(init, key) {
      OnlyHead(init, k, key);
      var n :| 0 <= n < |init| && key(init[n]) == k && Only(init, k, key)[0] == init[n] &&
               forall j :: 0 <= j < n ==> key(init[j]) != k;
      assert xs[n] == init[n];
      assert forall j :: 0 <= j < n ==> xs[j] == init[j];
    } else {
      OnlyEmpty(init, k, key);
      assert key(last) == k by {
        var m :| 0 <= m < |xs| && KeysOf(xs, key)[m] == k;
        if m < |xs| - 1 {
          assert KeysOf(init, key)[m] == k;
        }
      }
      forall j | 0 <= j < |xs| - 1 ensures key(xs[j]) != k {
        assert KeysOf(init, key)[j] == key(xs[j]);
      }
    }
  }

  /** No row carries a key that does not occur. */
  lemma {:induction false} OnlyEmpty<T>(xs: seq<T>, k: string, key: T -> string)
    requires k !in KeysOf(xs, key)
    ensures Only(xs, k, key) == []
    decreases |xs|
  {
    if xs != [] {
      var init := xs[..|xs| - 1];
      assert KeysOf(xs, key)[|xs| - 1] == key(xs[|xs| - 1]);
      assert k !in KeysOf(init, key) by {
        forall m | 0 <= m < |init| ensures KeysOf(init, key)[m] != k {
          assert KeysOf(init, key)[m] == KeysOf(xs, key)[m];
        }
      }
      OnlyEmpty(init, k, key);
    }
  }

  /** Updating one group changes the total by the change in that group. */
  lemma {:induction false} TotalSizeUpdate<T>(gs: seq<Group<T>>, i: nat, g: Group<T>)
    requires i < |gs|
    ensures TotalSize(gs[i := g]) + |gs[i].items| == TotalSize(gs) + |g.items|
    decreases |gs|
  {
    var n := |gs| - 1;
    if i < n {
      TotalSizeUpdate(gs[..n], i, g);
      assert gs[i := g][..n] == gs[..n][i := g];
    } else {
      assert gs[i := g][..n] == gs[..n];
    }
  }

  /** The reduce is correct: the group keys are the distinct row keys in
      order of first occurrence, each group holds exactly the rows of its
      key in row order, and the groups hold every row once. */
  lemma {:induction false} GroupBySpec<T>(xs: seq<T>, key: T -> string)
    ensures Keys(GroupBy(xs, key)) == FirstOccurrences(KeysOf(xs, key))
    ensures forall i :: 0 <= i < |GroupBy(xs, key)| ==>
              GroupBy(xs, key)[i].items == Only(xs, GroupBy(xs, key)[i].key, key)
    ensures TotalSize(GroupBy(xs, key)) == |xs|
    decreases |xs|
  {
    if xs != [] {
      var init := xs[..|xs| - 1];
      var x := xs[|xs| - 1];
      var g := GroupBy(init, key);
      GroupBySpec(init, key);
      FirstOccurrencesSpec(KeysOf(init, key));
      assert KeysOf(xs, key) == KeysOf(init, key) + [key(x)];
      assert KeysOf(xs, key)[..|xs| - 1] == KeysOf(init, key);
      var i := FindIndex(g, key(x));
      var r := GroupBy(xs, key);
      assert r == Add(g, x, key);
      if i < |g| {
        assert key(x) in Keys(g) by { assert Keys(g)[i] == key(x); }
        assert Keys(r) == Keys(g);
        forall j | 0 <= j < |r| ensures r[j].items == Only(xs, r[j].key, key) {
          if j != i {
            assert Keys(g)[j] != Keys(g)[i];
          }
        }
        TotalSizeUpdate(g, i, Group(g[i].key, g[i].items + [x]));
      } else {
        assert key(x) !in Keys(g) by {
          forall j | 0 <= j < |g| ensures Keys(g)[j] != key(x) {
            assert g[j].key != key(x);
          }
        }
        assert Keys(r) == Keys(g) + [key(x)];
        OnlyEmpty(init, key(x), key);
        forall j | 0 <= j < |r| ensures r[j].items == Only(xs, r[j].key, key) {
          if j < |g| {
            assert r[j] == g[j];
            assert Keys(g)[j] != key(x);
          }
        }
        assert r[..|r| - 1] == g;
      }
    }
  }

  /** A sequence of distinct keys has as many elements as its set. */
  lemma {:induction false} DistinctCardinality(ks: seq<string>)
    requires Distinct(ks)
    ensures |set k | k in ks| == |ks|
    decreases |ks|
  {
    if ks != [] {
      var init := ks[..|ks| - 1];
      DistinctCardinality(init);
      assert (set k | k in ks) == (set k | k in init) + {ks[|ks| - 1]};
      assert ks[|ks| - 1] !in init;
    }
  }

  /** The group keys are pairwise distinct, and there are as many groups as
      distinct keys among the rows. */
  lemma GroupCount<T>(xs: seq<T>, key: T -> string)
    ensures Distinct(Keys(GroupBy(xs, key)))
    ensures |GroupBy(xs, key)| == |KeySet(xs, key)|
  {
    var gs := GroupBy(xs, key);
    GroupBySpec(xs, key);
    FirstOccurrencesSpec(KeysOf(xs, key));
    DistinctCardinality(Keys(gs));
    assert (set k | k in Keys(gs)) == KeySet(xs, key) by {
      forall k ensures k in Keys(gs) <==> k in KeySet(xs, key) {
        if k in KeysOf(xs, key) {
          var n :| 0 <= n < |xs| && KeysOf(xs, key)[n] == k;
          assert key(xs[n]) == k;
        }
        if k in KeySet(xs, key) {
          var n :| 0 <= n < |xs| && key(xs[n]) == k;
          assert KeysOf(xs, key)[n] == k;
        }
      }
    }
  }

  /** Every row lands in the group of its own key. */
  lemma RowInItsGroup<T>(xs: seq<T>, key: T -> string, n: nat)
    requires n < |xs|
    ensures exists i :: 0 <= i < |GroupBy(xs, key)| && GroupBy(xs, key)[i].key == key(xs[n]) &&
                        xs[n] in GroupBy(xs, key)[i].items
  {
    var gs := GroupBy(xs, key);
    var k := key(xs[n]);
    GroupBySpec(xs, key);
    FirstOccurrencesSpec(KeysOf(xs, key));
    assert k in Keys(gs) by {
      assert KeysOf(xs, key)[n] == k;
    }
    var i :| 0 <= i < |gs| && Keys(gs)[i] == k;
    assert gs[i].items == Only(xs, k, key);
    OnlyContains(xs, n, key);
  }

  /** A group holds only rows of its own key. */
  lemma GroupHoldsOwnKey<T>(xs: seq<T>, key: T -> string, i: nat, y: T)
    requires i < |GroupBy(xs, key)| && y in GroupBy(xs, key)[i].items
    ensures key(y) == GroupBy(xs, key)[i].key
  {
    var g := GroupBy(xs, key)[i];
    GroupBySpec(xs, key);
    assert g.items == Only(xs, g.key, key);
    OnlyCarriesKey(xs, g.key, key);
  }

  /** Each row is among the rows of its own key. */
  lemma {:induction false} OnlyContains<T>(xs: seq<T>, n: nat, key: T -> string)
    requires n < |xs|
    ensures xs[n] in Only(xs, key(xs[n]), key)
    decreases |xs|
  {
    if n < |xs| - 1 {
      OnlyContains(xs[..|xs| - 1], n, key);
    }
  }

  /** A group's first row is the first row of the input with that key. */
  lemma GroupHeadIsFirstRow<T>(xs: seq<T>, key: T -> string, i: nat)
    requires i < |GroupBy(xs, key)|
    ensures GroupBy(xs, key)[i].items != []
    ensures exists n :: 0 <= n < |xs| && key(xs[n]) == GroupBy(xs, key)[i].key &&
                        GroupBy(xs, key)[i].items[0] == xs[n] &&
                        forall j :: 0 <= j < n ==> key(xs[j]) != GroupBy(xs, key)[i].key
  {
    var gs := GroupBy(xs, key);
    GroupBySpec(xs, key);
    FirstOccurrencesSpec(KeysOf(xs, key));
    assert Keys(gs)[i] == gs[i].key;
    OnlyHead(xs, gs[i].key, key);
  }
}
