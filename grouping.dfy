/**
 * The menu page's category grouper: a fold over the fetched records that
 * builds one bucket per category string. The accumulator is a plain
 * object, so it is modelled as its own keys in insertion order together
 * with the bucket stored under each key.
 *
 * The grouper is generic over the record kind; `key` reads a record's
 * `category` field.
 */
module Grouping {
  import opened Wrappers

  /** An accumulator object: its own keys in insertion order and the bucket under each. */
  datatype Groups<T> = Groups(keys: seq<string>, buckets: map<string, seq<T>>)

  // ---------------------------------------------------------------------
  // Specification: what the buckets and the key order should be
  // ---------------------------------------------------------------------

  /** The distinct category strings occurring in `items`. */
  ghost function Categories<T>(items: seq<T>, key: T -> string): (cats: set<string>)
  {
    set i | 0 <= i < |items| :: key(items[i])
  }

  /** The records of `items` whose category is exactly `c`, in input order. */
  ghost function Bucket<T>(items: seq<T>, key: T -> string, c: string): (bucket: seq<T>)
  {
    if items == [] then []
    else
      var n := |items| - 1;
      Bucket(items[..n], key, c) + (if key(items[n]) == c then [items[n]] else [])
  }

  /** The indices (ascending) of the records of `items` whose category is `c`. */
  ghost function Positions<T>(items: seq<T>, key: T -> string, c: string): (ps: seq<int>)
  {
    if items == [] then []
    else
      var n := |items| - 1;
      Positions(items[..n], key, c) + (if key(items[n]) == c then [n] else [])
  }

  /** One bucket per distinct category, holding that category's records. */
  ghost function Grouped<T>(items: seq<T>, key: T -> string): (buckets: map<string, seq<T>>)
  {
    map c | c in Categories(items, key) :: Bucket(items, key, c)
  }

  /** Each category once, in the order of its first occurrence in `items`. */
  ghost function FirstSeen<T>(items: seq<T>, key: T -> string): (keys: seq<string>)
  {
    if items == [] then []
    else
      var n := |items| - 1;
      var k := key(items[n]);
      FirstSeen(items[..n], key) + (if k in Categories(items[..n], key) then [] else [k])
  }

  ghost predicate Distinct(s: seq<string>)
  {
    forall i, j :: 0 <= i < j < |s| ==> s[i] != s[j]
  }

  /** The buckets of `keys`, concatenated in key order. */
  ghost function Flatten<T>(keys: seq<string>, buckets: map<string, seq<T>>): (flat: seq<T>)
    requires forall i :: 0 <= i < |keys| ==> keys[i] in buckets
  {
    if keys == [] then []
    else Flatten(keys[..|keys| - 1], buckets) + buckets[keys[|keys| - 1]]
  }

  /** Records of the same category stand next to each other, as a category-sorted query returns them. */
  ghost predicate Contiguous<T>(items: seq<T>, key: T -> string)
  {
    forall i, j, l :: 0 <= i < j < l < |items| && key(items[i]) == key(items[l]) ==> key(items[j]) == key(items[i])
  }

  // ---------------------------------------------------------------------
  // The grouper
  // ---------------------------------------------------------------------

  /**
   * The reduce loop: for each record, create an empty bucket the first
   * time its category is seen, then append the record to that bucket.
   * Presence is checked against the accumulator's own keys.
   */
  method GroupByCategory<T>(items: seq<T>, key: T -> string) returns (g: Groups<T>)
    ensures g.buckets == Grouped(items, key)
    ensures g.keys == FirstSeen(items, key)
    ensures items == [] ==> g.buckets == map[] && g.keys == []
    ensures g.buckets.Keys == Categories(items, key)
    ensures forall c | c in g.buckets :: g.buckets[c] != []
    ensures Distinct(g.keys) && forall c :: c in g.keys <==> c in g.buckets
  {
    var keys: seq<string> := [];
    var acc: map<string, seq<T>> := map[];
    for i := 0 to |items|
      invariant acc == Grouped(items[..i], key)
      invariant keys == FirstSeen(items[..i], key)
    {
      var item := items[i];
      FoldStep(items, key, i);
      if key(item) !in acc {
        acc := acc[key(item) := []];
        keys := keys + [key(item)];
      }
      acc := acc[key(item) := acc[key(item)] + [item]];
    }
    assert items[..|items|] == items;
    GroupedShape(items, key);
    g := Groups(keys, acc);
  }

  /** The specification of one turn of the loop, in terms of the prefix done so far. */
  lemma FoldStep<T>(items: seq<T>, key: T -> string, i: nat)
    requires i < |items|
    ensures key(items[i]) in Grouped(items[..i], key) ==>
              && Grouped(items[..i + 1], key) == Grouped(items[..i], key)[key(items[i]) := Grouped(items[..i], key)[key(items[i])] + [items[i]]]
              && FirstSeen(items[..i + 1], key) == FirstSeen(items[..i], key)
    ensures key(items[i]) !in Grouped(items[..i], key) ==>
              && Grouped(items[..i + 1], key) == Grouped(items[..i], key)[key(items[i]) := [items[i]]]
              && FirstSeen(items[..i + 1], key) == FirstSeen(items[..i], key) + [key(items[i])]
  {
    assert items[..i + 1] == items[..i] + [items[i]];
    assert items[..i + 1][..i] == items[..i];
    GroupedSnoc(items[..i], key, items[i]);
  }

  /** The promised shape of the result: keys are the categories, buckets are non-empty, key order is exact. */
  lemma GroupedShape<T>(items: seq<T>, key: T -> string)
    ensures items == [] ==> Grouped(items, key) == map[] && FirstSeen(items, key) == []
    ensures Grouped(items, key).Keys == Categories(items, key)
    ensures forall c | c in Grouped(items, key) :: Grouped(items, key)[c] != []
    ensures Distinct(FirstSeen(items, key))
    ensures forall c :: c in FirstSeen(items, key) <==> c in Grouped(items, key)
  {
    FirstSeenIsKeyOrder(items, key);
    forall c | c in Grouped(items, key) ensures Grouped(items, key)[c] != [] {
      BucketEmptyIff(items, key, c);
    }
  }

  // ---------------------------------------------------------------------
  // One fold step
  // ---------------------------------------------------------------------

  lemma CategoriesSnoc<T>(s: seq<T>, key: T -> string, x: T)
    ensures Categories(s + [x], key) == Categories(s, key) + {key(x)}
  {
    var t := s + [x];
    forall c | c in Categories(t, key) ensures c in Categories(s, key) + {key(x)} {
      var i :| 0 <= i < |t| && key(t[i]) == c;
      if i < |s| {
        assert t[i] == s[i];
      }
    }
    forall c | c in Categories(s, key) ensures c in Categories(t, key) {
      var i :| 0 <= i < |s| && key(s[i]) == c;
      assert t[i] == s[i];
    }
    assert t[|s|] == x;
  }

  /** A category has an empty bucket exactly when it does not occur: no bucket is ever empty. */
  lemma {:induction false} BucketEmptyIff<T>(items: seq<T>, key: T -> string, c: string)
    ensures Bucket(items, key, c) == [] <==> c !in Categories(items, key)
  {
    if items != [] {
      var n := |items| - 1;
      BucketEmptyIff(items[..n], key, c);
      CategoriesSnoc(items[..n], key, items[n]);
      assert items[..n] + [items[n]] == items;
    }
  }

  /** Grouping one more record appends it to its own bucket, creating the bucket if needed. */
  lemma GroupedSnoc<T>(s: seq<T>, key: T -> string, x: T)
    ensures key(x) in Grouped(s, key) ==>
              Grouped(s + [x], key) == Grouped(s, key)[key(x) := Grouped(s, key)[key(x)] + [x]]
    ensures key(x) !in Grouped(s, key) ==>
              Grouped(s + [x], key) == Grouped(s, key)[key(x) := [x]]
  {
    var t := s + [x];
    assert t[..|s|] == s;
    CategoriesSnoc(s, key, x);
    BucketEmptyIff(s, key, key(x));
    var g := Grouped(s, key);
    assert [] + [x] == [x];
    var r := g[key(x) := (if key(x) in g then g[key(x)] else []) + [x]];
    assert Grouped(t, key).Keys == r.Keys;
    forall c | c in r ensures Grouped(t, key)[c] == r[c] {
      if c != key(x) {
        assert c in g;
      }
    }
  }

  // ---------------------------------------------------------------------
  // Properties of the grouping
  // ---------------------------------------------------------------------

  /**
   * Stability and exact-key grouping: a bucket lists, in ascending input
   * position, exactly the records whose category string equals `c`.
   */
  lemma {:induction false} BucketIsStableFilter<T>(items: seq<T>, key: T -> string, c: string)
    ensures |Bucket(items, key, c)| == |Positions(items, key, c)|
    ensures forall k :: 0 <= k < |Positions(items, key, c)| ==>
              0 <= Positions(items, key, c)[k] < |items| &&
              Bucket(items, key, c)[k] == items[Positions(items, key, c)[k]]
    ensures forall k, l :: 0 <= k < l < |Positions(items, key, c)| ==>
              Positions(items, key, c)[k] < Positions(items, key, c)[l]
    ensures forall i :: 0 <= i < |items| ==> (i in Positions(items, key, c) <==> key(items[i]) == c)
  {
    if items != [] {
      var n := |items| - 1;
      var s := items[..n];
      BucketIsStableFilter(s, key, c);
      assert forall i :: 0 <= i < n ==> s[i] == items[i];
      var p := Positions(s, key, c);
      assert forall k :: 0 <= k < |p| ==> p[k] < n;
      assert n !in p;
    }
  }

  /** Every record in a bucket carries that bucket's category. */
  lemma {:induction false} BucketMembersMatch<T>(items: seq<T>, key: T -> string, c: string)
    ensures forall k :: 0 <= k < |Bucket(items, key, c)| ==> key(Bucket(items, key, c)[k]) == c
  {
    BucketIsStableFilter(items, key, c);
    var p := Positions(items, key, c);
    forall k | 0 <= k < |Bucket(items, key, c)| ensures key(Bucket(items, key, c)[k]) == c {
      assert p[k] in p;
    }
  }

  /** Every record in a bucket is a record of the input. */
  lemma BucketDrawnFromInput<T>(items: seq<T>, key: T -> string, c: string)
    ensures forall k :: 0 <= k < |Bucket(items, key, c)| ==>
              exists i :: 0 <= i < |items| && Bucket(items, key, c)[k] == items[i]
  {
    BucketIsStableFilter(items, key, c);
    var p := Positions(items, key, c);
    forall k | 0 <= k < |Bucket(items, key, c)|
      ensures exists i :: 0 <= i < |items| && Bucket(items, key, c)[k] == items[i]
    {
      assert Bucket(items, key, c)[k] == items[p[k]];
    }
  }

  /** The key order lists every category exactly once. */
  lemma {:induction false} FirstSeenIsKeyOrder<T>(items: seq<T>, key: T -> string)
    ensures Distinct(FirstSeen(items, key))
    ensures forall c :: c in FirstSeen(items, key) <==> c in Categories(items, key)
  {
    if items != [] {
      var n := |items| - 1;
      FirstSeenIsKeyOrder(items[..n], key);
      CategoriesSnoc(items[..n], key, items[n]);
      assert items[..n] + [items[n]] == items;
    }
  }

  /** The key order of a prefix of the input is a prefix of the key order. */
  lemma {:induction false} FirstSeenPrefix<T>(items: seq<T>, key: T -> string, n: nat)
    requires n <= |items|
    ensures FirstSeen(items[..n], key) <= FirstSeen(items, key)
  {
    if n < |items| {
      var m := |items| - 1;
      assert items[..m][..n] == items[..n];
      FirstSeenPrefix(items[..m], key, n);
    } else {
      assert items[..n] == items;
    }
  }

  /**
   * First-seen insertion order: if category `j` of the key order occurs in
   * some prefix of the input, every category listed before it occurs there too.
   */
  lemma FirstSeenOrder<T>(items: seq<T>, key: T -> string, i: nat, j: nat, n: nat)
    requires i < j < |FirstSeen(items, key)|
    requires n <= |items|
    requires FirstSeen(items, key)[j] in Categories(items[..n], key)
    ensures FirstSeen(items, key)[i] in Categories(items[..n], key)
  {
    var order := FirstSeen(items, key);
    var p := FirstSeen(items[..n], key);
    FirstSeenPrefix(items, key, n);
    FirstSeenIsKeyOrder(items, key);
    FirstSeenIsKeyOrder(items[..n], key);
    var m :| 0 <= m < |p| && p[m] == order[j];
    assert order[m] == order[j];
    assert p[i] == order[i];
  }

  lemma SplitLast<X>(s: seq<X>)
    requires s != []
    ensures s == s[..|s| - 1] + [s[|s| - 1]]
  {
  }

  lemma {:induction false} FlattenUnaffected<T>(keys: seq<string>, m: map<string, seq<T>>, k: string, v: seq<T>)
    requires forall i :: 0 <= i < |keys| ==> keys[i] in m
    requires k !in keys
    ensures Flatten(keys, m[k := v]) == Flatten(keys, m)
  {
    if keys != [] {
      FlattenUnaffected(keys[..|keys| - 1], m, k, v);
    }
  }

  lemma {:induction false} FlattenExtend<T>(keys: seq<string>, m: map<string, seq<T>>, k: string, v: seq<T>)
    requires forall i :: 0 <= i < |keys| ==> keys[i] in m
    requires Distinct(keys) && k in keys && k in m
    ensures multiset(Flatten(keys, m[k := m[k] + v])) == multiset(Flatten(keys, m)) + multiset(v)
  {
    var n := |keys| - 1;
    var init := keys[..n];
    assert keys == init + [keys[n]];
    if keys[n] == k {
      assert k !in init;
      FlattenUnaffected(init, m, k, m[k] + v);
    } else {
      FlattenExtend(init, m, k, v);
    }
  }

  /** Every key of the key order has a bucket, so the buckets can be read in key order. */
  lemma KeyOrderInGroups<T>(items: seq<T>, key: T -> string)
    ensures forall i :: 0 <= i < |FirstSeen(items, key)| ==> FirstSeen(items, key)[i] in Grouped(items, key)
  {
    FirstSeenIsKeyOrder(items, key);
  }

  /** A record of a new category adds its bucket at the end of the flattened output. */
  lemma FlattenSnocNew<T>(s: seq<T>, key: T -> string, x: T)
    requires key(x) !in Categories(s, key)
    ensures forall i :: 0 <= i < |FirstSeen(s, key)| ==> FirstSeen(s, key)[i] in Grouped(s, key)
    ensures forall i :: 0 <= i < |FirstSeen(s + [x], key)| ==> FirstSeen(s + [x], key)[i] in Grouped(s + [x], key)
    ensures Flatten(FirstSeen(s + [x], key), Grouped(s + [x], key)) == Flatten(FirstSeen(s, key), Grouped(s, key)) + [x]
  {
    KeyOrderInGroups(s, key);
    KeyOrderInGroups(s + [x], key);
    FirstSeenIsKeyOrder(s, key);
    GroupedSnoc(s, key, x);
    var order, g, k := FirstSeen(s, key), Grouped(s, key), key(x);
    assert (s + [x])[..|s|] == s;
    assert FirstSeen(s + [x], key) == order + [k];
    assert k !in g;
    FlattenUnaffected(order, g, k, [x]);
    assert (order + [k])[..|order|] == order;
  }

  /** A record of an already seen category joins that bucket; the flattened output gains just it. */
  lemma FlattenSnocSeen<T>(s: seq<T>, key: T -> string, x: T)
    requires key(x) in Categories(s, key)
    ensures forall i :: 0 <= i < |FirstSeen(s, key)| ==> FirstSeen(s, key)[i] in Grouped(s, key)
    ensures forall i :: 0 <= i < |FirstSeen(s + [x], key)| ==> FirstSeen(s + [x], key)[i] in Grouped(s + [x], key)
    ensures multiset(Flatten(FirstSeen(s + [x], key), Grouped(s + [x], key))) ==
            multiset(Flatten(FirstSeen(s, key), Grouped(s, key))) + multiset{x}
  {
    KeyOrderInGroups(s, key);
    KeyOrderInGroups(s + [x], key);
    FirstSeenIsKeyOrder(s, key);
    GroupedSnoc(s, key, x);
    var order, g, k := FirstSeen(s, key), Grouped(s, key), key(x);
    assert (s + [x])[..|s|] == s;
    assert FirstSeen(s + [x], key) == order;
    FlattenExtend(order, g, k, [x]);
  }

  /** A record continuing the last category seen extends the end of the flattened output. */
  lemma FlattenSnocLast<T>(s: seq<T>, key: T -> string, x: T)
    requires FirstSeen(s, key) != [] && FirstSeen(s, key)[|FirstSeen(s, key)| - 1] == key(x)
    ensures forall i :: 0 <= i < |FirstSeen(s, key)| ==> FirstSeen(s, key)[i] in Grouped(s, key)
    ensures forall i :: 0 <= i < |FirstSeen(s + [x], key)| ==> FirstSeen(s + [x], key)[i] in Grouped(s + [x], key)
    ensures Flatten(FirstSeen(s + [x], key), Grouped(s + [x], key)) == Flatten(FirstSeen(s, key), Grouped(s, key)) + [x]
  {
    KeyOrderInGroups(s, key);
    KeyOrderInGroups(s + [x], key);
    FirstSeenIsKeyOrder(s, key);
    GroupedSnoc(s, key, x);
    var order, g, k := FirstSeen(s, key), Grouped(s, key), key(x);
    assert k in order;
    assert (s + [x])[..|s|] == s;
    assert FirstSeen(s + [x], key) == order;
    assert order[|order| - 1] !in order[..|order| - 1];
    FlattenLastKey(order, g, [x]);
  }

  /** Growing the bucket of the last key grows the end of the flattened output. */
  lemma FlattenLastKey<T>(keys: seq<string>, m: map<string, seq<T>>, v: seq<T>)
    requires keys != [] && keys[|keys| - 1] !in keys[..|keys| - 1]
    requires forall i :: 0 <= i < |keys| ==> keys[i] in m
    ensures Flatten(keys, m[keys[|keys| - 1] := m[keys[|keys| - 1]] + v]) == Flatten(keys, m) + v
  {
    var n := |keys| - 1;
    var init, k := keys[..n], keys[n];
    var m' := m[k := m[k] + v];
    FlattenUnaffected(init, m, k, m[k] + v);
    assert Flatten(keys, m') == Flatten(init, m') + (m[k] + v);
    assert Flatten(keys, m) == Flatten(init, m) + m[k];
  }

  /**
   * Partition: flattening the buckets in key order gives back the input's
   * records, each exactly as often as it occurs, so the item count is kept.
   */
  lemma {:induction false} GroupsPartitionInput<T>(items: seq<T>, key: T -> string)
    ensures forall i :: 0 <= i < |FirstSeen(items, key)| ==> FirstSeen(items, key)[i] in Grouped(items, key)
    ensures multiset(Flatten(FirstSeen(items, key), Grouped(items, key))) == multiset(items)
    ensures |Flatten(FirstSeen(items, key), Grouped(items, key))| == |items|
  {
    KeyOrderInGroups(items, key);
    if items != [] {
      var n := |items| - 1;
      var s, x := items[..n], items[n];
      SplitLast(items);
      GroupsPartitionInput(s, key);
      if key(x) in Categories(s, key) {
        FlattenSnocSeen(s, key, x);
      } else {
        FlattenSnocNew(s, key, x);
      }
    }
    var f := Flatten(FirstSeen(items, key), Grouped(items, key));
    assert |multiset(f)| == |f|;
  }

  /** Appending a block of records of one new category adds exactly that bucket and key. */
  lemma {:induction false} AppendBlock<T>(a: seq<T>, b: seq<T>, key: T -> string, k: string)
    requires b != [] && forall j :: 0 <= j < |b| ==> key(b[j]) == k
    requires k !in Categories(a, key)
    ensures Grouped(a + b, key) == Grouped(a, key)[k := b]
    ensures FirstSeen(a + b, key) == FirstSeen(a, key) + [k]
  {
    var n := |b| - 1;
    var b', y := b[..n], b[n];
    assert b == b' + [y];
    if b' == [] {
      GroupedSnoc(a, key, y);
      assert (a + [y])[..|a|] == a;
    } else {
      AppendBlock(a, b', key, k);
      assert a + b == (a + b') + [y];
      GroupedSnoc(a + b', key, y);
      assert (a + b)[..|a + b'|] == a + b';
      assert k in Grouped(a + b', key);
    }
  }

  lemma {:induction false} RegroupBlocks<T>(keys: seq<string>, m: map<string, seq<T>>, key: T -> string)
    requires Distinct(keys)
    requires forall i :: 0 <= i < |keys| ==> keys[i] in m && m[keys[i]] != []
    requires forall i, j :: 0 <= i < |keys| && keys[i] in m && 0 <= j < |m[keys[i]]| ==> key(m[keys[i]][j]) == keys[i]
    ensures Grouped(Flatten(keys, m), key) == (map c | c in keys && c in m :: m[c])
    ensures FirstSeen(Flatten(keys, m), key) == keys
  {
    if keys != [] {
      var n := |keys| - 1;
      var init, k := keys[..n], keys[n];
      SplitLast(keys);
      RegroupBlocks(init, m, key);
      var f := Flatten(init, m);
      assert k !in init;
      assert k !in Grouped(f, key);
      assert Flatten(keys, m) == f + m[k];
      assert forall j :: 0 <= j < |m[k]| ==> key(m[k][j]) == k;
      AppendBlock(f, m[k], key, k);
      RestrictSnoc(init, k, m);
    }
  }

  lemma RestrictSnoc<T>(keys: seq<string>, k: string, m: map<string, seq<T>>)
    requires k in m
    ensures (map c | c in keys && c in m :: m[c])[k := m[k]] == (map c | c in keys + [k] && c in m :: m[c])
  {
  }

  /** Regrouping the flattened output reproduces the same buckets and the same key order. */
  lemma RegroupIdempotent<T>(items: seq<T>, key: T -> string)
    ensures forall i :: 0 <= i < |FirstSeen(items, key)| ==> FirstSeen(items, key)[i] in Grouped(items, key)
    ensures Grouped(Flatten(FirstSeen(items, key), Grouped(items, key)), key) == Grouped(items, key)
    ensures FirstSeen(Flatten(FirstSeen(items, key), Grouped(items, key)), key) == FirstSeen(items, key)
  {
    var order, g := FirstSeen(items, key), Grouped(items, key);
    FirstSeenIsKeyOrder(items, key);
    forall c | c in g ensures g[c] != [] && forall j :: 0 <= j < |g[c]| ==> key(g[c][j]) == c {
      BucketEmptyIff(items, key, c);
      BucketMembersMatch(items, key, c);
    }
    RegroupBlocks(order, g, key);
    assert (map c | c in order && c in g :: g[c]) == g;
  }

  lemma {:induction false} ContiguousLastKey<T>(items: seq<T>, key: T -> string)
    requires items != [] && Contiguous(items, key)
    ensures FirstSeen(items, key) != []
    ensures FirstSeen(items, key)[|FirstSeen(items, key)| - 1] == key(items[|items| - 1])
  {
    var n := |items| - 1;
    var s := items[..n];
    if key(items[n]) in Categories(s, key) {
      var i :| 0 <= i < n && key(s[i]) == key(items[n]);
      assert s[i] == items[i];
      assert key(items[n - 1]) == key(items[n]);
      assert Contiguous(s, key) by {
        assert forall t :: 0 <= t < n ==> s[t] == items[t];
      }
      ContiguousLastKey(s, key);
    }
  }

  /** Dropping the last record keeps adjacency; a repeated category continues the last key. */
  lemma ContiguousStep<T>(items: seq<T>, key: T -> string)
    requires items != [] && Contiguous(items, key)
    ensures Contiguous(items[..|items| - 1], key)
    ensures key(items[|items| - 1]) in Categories(items[..|items| - 1], key) ==>
              var order := FirstSeen(items[..|items| - 1], key);
              order != [] && order[|order| - 1] == key(items[|items| - 1])
  {
    var n := |items| - 1;
    var s := items[..n];
    assert Contiguous(s, key) by {
      assert forall t :: 0 <= t < n ==> s[t] == items[t];
    }
    if key(items[n]) in Categories(s, key) {
      var i :| 0 <= i < n && key(s[i]) == key(items[n]);
      assert s[i] == items[i];
      assert key(items[n - 1]) == key(items[n]);
      ContiguousLastKey(s, key);
    }
  }

  /**
   * When the input arrives with each category's records adjacent (as a
   * query ordered by category returns them), reading the buckets in key
   * order reproduces the input exactly.
   */
  lemma {:induction false} ContiguousFlattenRestores<T>(items: seq<T>, key: T -> string)
    requires Contiguous(items, key)
    ensures forall i :: 0 <= i < |FirstSeen(items, key)| ==> FirstSeen(items, key)[i] in Grouped(items, key)
    ensures Flatten(FirstSeen(items, key), Grouped(items, key)) == items
  {
    KeyOrderInGroups(items, key);
    if items != [] {
      var n := |items| - 1;
      var s, x := items[..n], items[n];
      SplitLast(items);
      ContiguousStep(items, key);
      ContiguousFlattenRestores(s, key);
      if key(x) in Categories(s, key) {
        FlattenSnocLast(s, key, x);
      } else {
        FlattenSnocNew(s, key, x);
      }
    }
  }

  // ---------------------------------------------------------------------
  // The reduce as written: presence test through the object's prototype
  // ---------------------------------------------------------------------

  /**
   * Property names an empty object literal inherits from Object.prototype.
   * Reading any of them yields a function or an object, which is truthy.
   */
  const InheritedKeys: set<string> := {
    "constructor", "__proto__", "__defineGetter__", "__defineSetter__",
    "__lookupGetter__", "__lookupSetter__", "hasOwnProperty", "isPrototypeOf",
    "propertyIsEnumerable", "toLocaleString", "toString", "valueOf"
  }

  datatype TypeError = PushNotAFunction(category: string)

  /**
   * The reduce exactly as the page writes it: `!acc[category]` is false for
   * an inherited member too, so no bucket is created and the following
   * `push` is looked up on a value that has none.
   */
  function ReduceAsWritten<T>(items: seq<T>, key: T -> string): (r: Result<Groups<T>, TypeError>)
  {
    if items == [] then Success(Groups([], map[]))
    else
      var n := |items| - 1;
      var k := key(items[n]);
      match ReduceAsWritten(items[..n], key)
      case Failure(e) => Failure(e)
      case Success(acc) =>
        if k in acc.buckets then
          Success(Groups(acc.keys, acc.buckets[k := acc.buckets[k] + [items[n]]]))
        else if k in InheritedKeys then
          Failure(PushNotAFunction(k))
        else
          Success(Groups(acc.keys + [k], acc.buckets[k := [items[n]]]))
  }

  /**
   * The reduce as written throws exactly when some category names an
   * inherited member, and otherwise agrees with the grouper.
   */
  lemma {:induction false} AsWrittenThrowsOnInheritedNames<T>(items: seq<T>, key: T -> string)
    ensures ReduceAsWritten(items, key).Failure? <==> Categories(items, key) * InheritedKeys != {}
    ensures ReduceAsWritten(items, key).Success? ==>
              ReduceAsWritten(items, key).value == Groups(FirstSeen(items, key), Grouped(items, key))
  {
    if items != [] {
      var n := |items| - 1;
      var s, x := items[..n], items[n];
      assert items == s + [x];
      AsWrittenThrowsOnInheritedNames(s, key);
      CategoriesSnoc(s, key, x);
      GroupedSnoc(s, key, x);
      var cs := Categories(s, key);
      if ReduceAsWritten(s, key).Success? {
        assert cs * InheritedKeys == {};
        if key(x) in InheritedKeys && key(x) !in cs {
          assert key(x) in Categories(items, key) * InheritedKeys;
        }
      } else {
        var c :| c in cs * InheritedKeys;
        assert c in Categories(items, key) * InheritedKeys;
      }
    }
  }

  /** A single record whose category is "constructor" makes the reduce throw, where one bucket was meant. */
  lemma InheritedCategoryThrows<T>(x: T, key: T -> string)
    requires key(x) == "constructor"
    ensures ReduceAsWritten([x], key) == Failure(PushNotAFunction("constructor"))
    ensures Grouped([x], key) == map["constructor" := [x]]
  {
    GroupedSnoc([], key, x);
    assert [] + [x] == [x];
  }
}
