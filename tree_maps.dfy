/**
 * java.util.TreeMap<String, V> as the recipe code uses it: a map whose entries
 * are visited in ascending key order under String.compareTo, and the
 * "for each entry, for each element" loops that flatten it into a list.
 */
module TreeMaps {

  /** a.compareTo(b) < 0: the first differing char decides, a proper prefix comes first. */
  predicate Below(a: string, b: string)
    decreases |a|
  {
    if |b| == 0 then false
    else if |a| == 0 then true
    else if a[0] != b[0] then a[0] < b[0]
    else Below(a[1..], b[1..])
  }

  /** a.compareTo(b) <= 0 */
  predicate AtMost(a: string, b: string) {
    a == b || Below(a, b)
  }

  lemma {:induction false} BelowIrreflexive(a: string)
    ensures !Below(a, a)
    decreases |a|
  {
    if |a| > 0 {
      BelowIrreflexive(a[1..]);
    }
  }

  lemma {:induction false} BelowTransitive(a: string, b: string, c: string)
    requires Below(a, b) && Below(b, c)
    ensures Below(a, c)
    decreases |a|
  {
    if |a| > 0 && a[0] == b[0] && b[0] == c[0] {
      BelowTransitive(a[1..], b[1..], c[1..]);
    }
  }

  lemma {:induction false} BelowTotal(a: string, b: string)
    requires a != b
    ensures Below(a, b) || Below(b, a)
    decreases |a|
  {
    if |a| > 0 && |b| > 0 && a[0] == b[0] {
      assert a == [a[0]] + a[1..] && b == [b[0]] + b[1..];
      BelowTotal(a[1..], b[1..]);
    }
  }

  lemma {:induction false} BelowAsymmetric(a: string, b: string)
    requires Below(a, b)
    ensures !Below(b, a)
  {
    if Below(b, a) {
      BelowTransitive(a, b, a);
      BelowIrreflexive(a);
    }
  }

  predicate Ascending(ks: seq<string>) {
    forall i, j :: 0 <= i < j < |ks| ==> Below(ks[i], ks[j])
  }

  predicate Distinct<T(==)>(s: seq<T>) {
    forall i, j :: 0 <= i < j < |s| ==> s[i] != s[j]
  }

  /** Names never decrease along s. */
  predicate SortedBy<R>(s: seq<R>, nameOf: R -> string) {
    forall i, j :: 0 <= i < j < |s| ==> AtMost(nameOf(s[i]), nameOf(s[j]))
  }

  /** Every element of a group carries the group's key as its name. */
  predicate Grouped<R>(tree: map<string, seq<R>>, nameOf: R -> string) {
    forall k :: k in tree ==> forall j :: 0 <= j < |tree[k]| ==> nameOf(tree[k][j]) == k
  }

  /** The first key of a non-empty key set. */
  method Least(keys: set<string>) returns (m: string)
    requires keys != {}
    ensures m in keys
    ensures forall k :: k in keys && k != m ==> Below(m, k)
  {
    m :| m in keys;
    var rest := keys - {m};
    while rest != {}
      invariant m in keys && m !in rest && rest <= keys
      invariant forall k :: k in keys && k !in rest && k != m ==> Below(m, k)
      decreases rest
    {
      var k :| k in rest;
      if Below(k, m) {
        forall x | x in keys && x !in rest && x != k
          ensures Below(k, x)
        {
          if x != m {
            BelowTransitive(k, m, x);
          }
        }
        m := k;
      } else {
        BelowTotal(k, m);
      }
      rest := rest - {k};
    }
  }

  /** The keys of a TreeMap, in the order its entrySet() visits them. */
  method KeysInOrder(keys: set<string>) returns (ks: seq<string>)
    ensures Ascending(ks)
    ensures forall k :: k in ks <==> k in keys
  {
    ks := [];
    var rest := keys;
    while rest != {}
      invariant rest <= keys
      invariant forall k :: k in ks <==> k in keys && k !in rest
      invariant Ascending(ks)
      invariant forall i, k :: 0 <= i < |ks| && k in rest ==> Below(ks[i], k)
      decreases rest
    {
      var m := Least(rest);
      forall i, k | 0 <= i < |ks| && k in rest - {m}
        ensures Below(ks[i], k)
      {
      }
      ks := ks + [m];
      rest := rest - {m};
    }
  }

  /**
   * for (entry : tree.entrySet()) for (r : entry.getValue()) result.add(r):
   * every grouped element once, names ascending, each group in its own order
   * (so groups ranked by insertion come out ranked within each name).
   */
  method FlattenLists<R(==)>(tree: map<string, seq<R>>, nameOf: R -> string, rank: R -> int)
      returns (result: seq<R>)
    requires Grouped(tree, nameOf)
    requires forall k :: k in tree ==> Distinct(tree[k])
    ensures forall r :: r in result <==> nameOf(r) in tree && r in tree[nameOf(r)]
    ensures Distinct(result)
    ensures SortedBy(result, nameOf)
    ensures (forall k :: k in tree ==> Ranked(tree[k], rank)) ==> RankedWithinNames(result, nameOf, rank)
  {
    ghost var ranked := forall k :: k in tree ==> Ranked(tree[k], rank);
    var ks := KeysInOrder(tree.Keys);
    result := [];
    for j := 0 to |ks|
      invariant forall r :: r in result <==> nameOf(r) in ks[..j] && nameOf(r) in tree && r in tree[nameOf(r)]
      invariant Distinct(result)
      invariant SortedBy(result, nameOf)
      invariant ranked ==> RankedWithinNames(result, nameOf, rank)
      invariant forall i, t :: 0 <= i < |result| && j <= t < |ks| ==> Below(nameOf(result[i]), ks[t])
    {
      var key := ks[j];
      ghost var pre := result;
      result := AppendList(result, tree[key], nameOf, rank, key, ranked);
      forall i, t | 0 <= i < |result| && j + 1 <= t < |ks|
        ensures Below(nameOf(result[i]), ks[t])
      {
        if i < |pre| {
          BelowTransitive(nameOf(result[i]), key, ks[t]);
        }
      }
      forall r
        ensures r in result <==> nameOf(r) in ks[..j + 1] && nameOf(r) in tree && r in tree[nameOf(r)]
      {
        assert ks[..j + 1] == ks[..j] + [key];
      }
    }
    assert ks[..|ks|] == ks;
  }

  /** The inner loop of FlattenLists: one name's list, in its own order. */
  method AppendList<R(==)>(pre: seq<R>, group: seq<R>, nameOf: R -> string, rank: R -> int,
                           key: string, ghost ranked: bool)
      returns (result: seq<R>)
    requires forall m :: 0 <= m < |group| ==> nameOf(group[m]) == key
    requires Distinct(pre) && Distinct(group) && SortedBy(pre, nameOf)
    requires forall i :: 0 <= i < |pre| ==> Below(nameOf(pre[i]), key)
    requires ranked ==> Ranked(group, rank) && RankedWithinNames(pre, nameOf, rank)
    ensures result == pre + group
    ensures Distinct(result)
    ensures SortedBy(result, nameOf)
    ensures ranked ==> RankedWithinNames(result, nameOf, rank)
  {
    result := pre;
    for m := 0 to |group|
      invariant result == pre + group[..m]
      invariant Distinct(result)
      invariant SortedBy(result, nameOf)
      invariant ranked ==> RankedWithinNames(result, nameOf, rank)
    {
      forall i | 0 <= i < |result|
        ensures result[i] != group[m] && AtMost(nameOf(result[i]), key)
        ensures ranked && nameOf(result[i]) == key ==> rank(result[i]) < rank(group[m])
      {
        if i < |pre| {
          BelowIrreflexive(key);
        } else {
          assert result[i] == group[i - |pre|];
        }
      }
      result := result + [group[m]];
    }
    assert group[..|group|] == group;
  }

  /** Within each name, rank strictly increases along s. */
  predicate RankedWithinNames<R>(s: seq<R>, nameOf: R -> string, rank: R -> int) {
    forall i, j :: 0 <= i < j < |s| && nameOf(s[i]) == nameOf(s[j]) ==> rank(s[i]) < rank(s[j])
  }

  /** Rank strictly increases along s. */
  predicate Ranked<R>(s: seq<R>, rank: R -> int) {
    forall i, j :: 0 <= i < j < |s| ==> rank(s[i]) < rank(s[j])
  }

  /**
   * The grouping loop of allRecipes and getFavorites: every key goes into the
   * set kept under its element's name, creating the set on first use.
   */
  method GroupByName<K, R>(keys: set<K>, lookup: map<K, R>, nameOf: R -> string)
      returns (tree: map<string, set<K>>)
    requires keys <= lookup.Keys
    ensures forall k, x :: k in tree && x in tree[k] ==> x in keys && nameOf(lookup[x]) == k
    ensures forall x :: x in keys ==> nameOf(lookup[x]) in tree && x in tree[nameOf(lookup[x])]
  {
    tree := map[];
    var rest := keys;
    while rest != {}
      invariant rest <= keys
      invariant forall k, x :: k in tree && x in tree[k] ==> x in keys && nameOf(lookup[x]) == k
      invariant forall x :: x in keys && x !in rest ==> nameOf(lookup[x]) in tree && x in tree[nameOf(lookup[x])]
      decreases rest
    {
      ghost var some := Pick(rest);
      var x :| x in rest;
      var name := nameOf(lookup[x]);
      if name !in tree {
        tree := tree[name := {}];
      }
      tree := tree[name := tree[name] + {x}];
      rest := rest - {x};
    }
  }

  /** Some element of a non-empty set: the witness the `:|` choices need. */
  lemma Pick<T>(s: set<T>) returns (x: T)
    requires s != {}
    ensures x in s
  {
    x :| x in s;
  }

  /**
   * for (entry : tree.entrySet()) for (x : entry.getValue()) result.add(lookup.get(x)):
   * the element of every grouped key once, names ascending.
   */
  method FlattenSets<K, R(==)>(tree: map<string, set<K>>, lookup: map<K, R>, nameOf: R -> string)
      returns (result: seq<R>)
    requires forall k, x :: k in tree && x in tree[k] ==> x in lookup && nameOf(lookup[x]) == k
    requires forall x, y :: x in lookup && y in lookup && lookup[x] == lookup[y] ==> x == y
    ensures forall x :: x in lookup ==>
      (lookup[x] in result <==> nameOf(lookup[x]) in tree && x in tree[nameOf(lookup[x])])
    ensures forall r :: r in result ==> r in lookup.Values
    ensures Distinct(result)
    ensures SortedBy(result, nameOf)
  {
    var ks := KeysInOrder(tree.Keys);
    result := [];
    for j := 0 to |ks|
      invariant forall x :: x in lookup ==>
        (lookup[x] in result <==> nameOf(lookup[x]) in ks[..j] && nameOf(lookup[x]) in tree && x in tree[nameOf(lookup[x])])
      invariant forall r :: r in result ==> r in lookup.Values
      invariant Distinct(result)
      invariant SortedBy(result, nameOf)
      invariant forall i, t :: 0 <= i < |result| && j <= t < |ks| ==> Below(nameOf(result[i]), ks[t])
    {
      var key := ks[j];
      ghost var pre := result;
      result := AppendGroup(result, tree[key], lookup, nameOf, key);
      forall i, t | 0 <= i < |result| && j + 1 <= t < |ks|
        ensures Below(nameOf(result[i]), ks[t])
      {
        if i < |pre| {
          BelowTransitive(nameOf(result[i]), key, ks[t]);
        }
      }
      forall x | x in lookup
        ensures lookup[x] in result <==>
          nameOf(lookup[x]) in ks[..j + 1] && nameOf(lookup[x]) in tree && x in tree[nameOf(lookup[x])]
      {
        assert ks[..j + 1] == ks[..j] + [key];
        if lookup[x] in pre {
          var i :| 0 <= i < |pre| && pre[i] == lookup[x];
          assert Below(nameOf(pre[i]), key);
          BelowIrreflexive(key);
        }
      }
    }
    assert ks[..|ks|] == ks;
  }

  /** The inner loop of FlattenSets: the elements of one name's set, in any order. */
  method AppendGroup<K, R(==)>(pre: seq<R>, group: set<K>, lookup: map<K, R>, nameOf: R -> string, key: string)
      returns (result: seq<R>)
    requires forall x :: x in group ==> x in lookup && nameOf(lookup[x]) == key
    requires forall x, y :: x in lookup && y in lookup && lookup[x] == lookup[y] ==> x == y
    requires Distinct(pre) && SortedBy(pre, nameOf)
    requires forall i :: 0 <= i < |pre| ==> Below(nameOf(pre[i]), key)
    ensures |pre| <= |result| && result[..|pre|] == pre
    ensures forall x :: x in lookup ==> (lookup[x] in result[|pre|..] <==> x in group)
    ensures forall i :: |pre| <= i < |result| ==> nameOf(result[i]) == key
    ensures forall r :: r in result[|pre|..] ==> r in lookup.Values
    ensures Distinct(result)
    ensures SortedBy(result, nameOf)
  {
    result := pre;
    var rest := group;
    ghost var taken: seq<K> := [];
    while rest != {}
      invariant rest <= group
      invariant |result| == |pre| + |taken| && result[..|pre|] == pre
      invariant forall i :: 0 <= i < |taken| ==> taken[i] in lookup && result[|pre| + i] == lookup[taken[i]]
      invariant forall x :: x in taken <==> x in group && x !in rest
      invariant forall i :: |pre| <= i < |result| ==> nameOf(result[i]) == key
      invariant Distinct(result)
      invariant SortedBy(result, nameOf)
      decreases rest
    {
      ghost var some := Pick(rest);
      var x :| x in rest;
      forall i | 0 <= i < |result|
        ensures result[i] != lookup[x] && AtMost(nameOf(result[i]), key)
      {
        if i < |pre| {
          BelowIrreflexive(key);
        } else {
          assert result[i] == lookup[taken[i - |pre|]];
        }
      }
      result := result + [lookup[x]];
      taken := taken + [x];
      rest := rest - {x};
    }
    forall x | x in lookup
      ensures lookup[x] in result[|pre|..] <==> x in group
    {
      if lookup[x] in result[|pre|..] {
        var i :| 0 <= i < |result| - |pre| && result[|pre|..][i] == lookup[x];
        assert result[|pre| + i] == lookup[taken[i]];
      }
      if x in group {
        var i :| 0 <= i < |taken| && taken[i] == x;
        assert result[|pre|..][i] == lookup[x];
      }
    }
    forall r | r in result[|pre|..]
      ensures r in lookup.Values
    {
      var i :| 0 <= i < |result| - |pre| && result[|pre|..][i] == r;
      assert r == lookup[taken[i]];
    }
  }
}
