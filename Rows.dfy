/** Result rows as Python builds them: dictionaries whose keys keep their
    insertion order (pandas takes its column order from it). */
module Rows {
  import opened Strings

  /** A cell of a result row: a list of matched strings or a plain string. */
  datatype Value = Text(s: string) | Items(items: seq<string>)

  /** A Python dictionary from strings to values: `keys` in insertion order,
      `vals` the mapping. */
  datatype Dict = Dict(keys: seq<string>, vals: map<string, Value>)

  /** No key occurs twice in a sequence of keys. */
  predicate Distinct(ks: seq<string>) {
    forall i, j :: 0 <= i < j < |ks| ==> ks[i] != ks[j]
  }

  /** The dictionary invariant: the order lists every key once. */
  ghost predicate Valid(d: Dict) {
    Distinct(d.keys) && forall k :: k in d.vals <==> k in d.keys
  }

  const Empty: Dict := Dict([], map[])

  /** `d.get(k)`. */
  function Get(d: Dict, k: string): (r: Option<Value>)
    ensures r.Some? <==> k in d.vals
  {
    if k in d.vals then Some(d.vals[k]) else None
  }

  /** `d[k] = v`: an existing key keeps its place and takes the new value;
      a new key goes last. */
  function Put(d: Dict, k: string, v: Value): (r: Dict)
    requires Valid(d)
    ensures Valid(r)
    ensures Get(r, k) == Some(v)
    ensures forall k' :: k' != k ==> Get(r, k') == Get(d, k')
    ensures r.keys == if k in d.keys then d.keys else d.keys + [k]
  {
    if k in d.vals then Dict(d.keys, d.vals[k := v])
    else Dict(d.keys + [k], d.vals[k := v])
  }

  /** The keys of `ks` that are not among `present`, in their order. */
  function NewKeys(ks: seq<string>, present: seq<string>): (r: seq<string>)
    ensures forall k :: k in r <==> k in ks && k !in present
    ensures Distinct(ks) ==> Distinct(r)
    ensures (forall k <- ks :: k !in present) ==> r == ks
  {
    if ks == [] then []
    else
      var rest := NewKeys(ks[1..], present);
      assert forall k <- ks[1..] :: k in ks;
      if ks[0] in present then rest
      else
        assert Distinct(ks) ==> ks[0] !in ks[1..] by {
          if Distinct(ks) {
            forall i | 0 <= i < |ks[1..]| ensures ks[1..][i] != ks[0] {
              assert ks[1..][i] == ks[i + 1];
            }
          }
        }
        assert Distinct(ks) ==> Distinct(ks[1..]) by {
          if Distinct(ks) {
            forall i, j | 0 <= i < j < |ks[1..]| ensures ks[1..][i] != ks[1..][j] {
              assert ks[1..][i] == ks[i + 1] && ks[1..][j] == ks[j + 1];
            }
          }
        }
        assert (forall k <- ks :: k !in present) ==> ks == [ks[0]] + ks[1..];
        [ks[0]] + rest
  }

  /** Two key sequences without repeats and without a common key can be
      concatenated without repeats. */
  lemma DistinctConcat(a: seq<string>, b: seq<string>)
    requires Distinct(a) && Distinct(b)
    requires forall k <- b :: k !in a
    ensures Distinct(a + b)
  {
    forall i, j | 0 <= i < j < |a + b| ensures (a + b)[i] != (a + b)[j] {
      if j < |a| {
        assert (a + b)[i] == a[i] && (a + b)[j] == a[j];
      } else if i < |a| {
        assert (a + b)[i] == a[i] && (a + b)[j] == b[j - |a|];
        assert b[j - |a|] in b && a[i] in a;
      } else {
        assert (a + b)[i] == b[i - |a|] && (a + b)[j] == b[j - |a|];
      }
    }
  }

  /** `d.update(other)`: a key already present keeps its place and takes
      `other`'s value; the keys new to `d` follow in `other`'s order. */
  function Update(d: Dict, other: Dict): (r: Dict)
    requires Valid(d) && Valid(other)
    ensures Valid(r)
    ensures forall k :: Get(r, k) == if k in other.vals then Get(other, k) else Get(d, k)
    ensures |r.keys| >= |d.keys| && r.keys[..|d.keys|] == d.keys
  {
    var added := NewKeys(other.keys, d.keys);
    DistinctConcat(d.keys, added);
    var r := Dict(d.keys + added, d.vals + other.vals);
    assert r.keys[..|d.keys|] == d.keys;
    r
  }

  /** The keys that are new come in their own order: collecting them
      distributes over concatenation. */
  lemma {:induction false} NewKeysAppend(a: seq<string>, b: seq<string>, present: seq<string>)
    ensures NewKeys(a + b, present) == NewKeys(a, present) + NewKeys(b, present)
    decreases |a|
  {
    if a == [] {
      assert a + b == b;
    } else {
      assert (a + b)[0] == a[0];
      assert (a + b)[1..] == a[1..] + b;
      NewKeysAppend(a[1..], b, present);
    }
  }

  /** A single key is new exactly when it is not present. */
  lemma NewKeysOne(k: string, present: seq<string>)
    ensures NewKeys([k], present) == if k in present then [] else [k]
  {
    assert [k][1..] == [];
  }

  /** Only membership in `present` matters. */
  lemma {:induction false} NewKeysSameMembers(ks: seq<string>, p: seq<string>, q: seq<string>)
    requires forall k :: k in p <==> k in q
    ensures NewKeys(ks, p) == NewKeys(ks, q)
    decreases |ks|
  {
    if ks != [] {
      NewKeysSameMembers(ks[1..], p, q);
    }
  }

  lemma AppendAssoc(a: seq<string>, b: seq<string>, c: seq<string>)
    ensures a + b + c == a + (b + c)
  {
  }

  /** The keys of `ks` at their first occurrence, in order: what remains of
      a key sequence when every repeat is dropped. */
  function Dedup(ks: seq<string>): (r: seq<string>)
    decreases |ks|
  {
    if ks == [] then []
    else
      var init, k := ks[..|ks| - 1], ks[|ks| - 1];
      Dedup(init) + (if k in init then [] else [k])
  }

  /** Dropping repeats from a concatenation keeps the first part's keys and
      adds the second part's keys that the first lacks, in their order. */
  lemma {:induction false} DedupAppend(x: seq<string>, y: seq<string>)
    ensures Dedup(x + y) == Dedup(x) + NewKeys(Dedup(y), x)
    decreases |y|
  {
    if y == [] {
      assert x + y == x;
    } else {
      var init, k := y[..|y| - 1], y[|y| - 1];
      var xy := x + y;
      assert xy[..|xy| - 1] == x + init && xy[|xy| - 1] == k;
      var extra := if k in init then [] else [k];
      var novel := if k in x + init then [] else [k];
      assert Dedup(xy) == Dedup(x + init) + novel;
      assert Dedup(y) == Dedup(init) + extra;
      DedupAppend(x, init);
      NewKeysAppend(Dedup(init), extra, x);
      assert NewKeys(extra, x) == novel by {
        if k !in init { NewKeysOne(k, x); }
      }
      AppendAssoc(Dedup(x), NewKeys(Dedup(init), x), novel);
    }
  }

  /** A sequence without repeats is its own `Dedup`. */
  lemma {:induction false} DedupDistinct(ks: seq<string>)
    requires Distinct(ks)
    ensures Dedup(ks) == ks
    decreases |ks|
  {
    if ks != [] {
      var init := ks[..|ks| - 1];
      assert Distinct(init);
      DedupDistinct(init);
      assert ks[|ks| - 1] !in init;
      assert ks == init + [ks[|ks| - 1]];
    }
  }

  /** Dropping repeats after `acc` is the same whether `ks` comes whole or
      only with the keys that `acc` lacks. */
  lemma DedupKeepsNew(acc: seq<string>, ks: seq<string>, rest: seq<string>)
    requires Distinct(acc) && Distinct(ks)
    ensures Dedup(acc + NewKeys(ks, acc) + rest) == Dedup(acc + ks + rest)
  {
    var added := NewKeys(ks, acc);
    DistinctConcat(acc, added);
    DedupAppend(acc + added, rest);
    DedupAppend(acc + ks, rest);
    DedupDistinct(acc + added);
    DedupAppend(acc, ks);
    DedupDistinct(acc);
    DedupDistinct(ks);
    NewKeysSameMembers(Dedup(rest), acc + added, acc + ks);
  }

  /** `d.update(other)` orders its keys as `d`'s keys followed by `other`'s,
      each at its first occurrence. */
  lemma UpdateKeyOrder(d: Dict, other: Dict)
    requires Valid(d) && Valid(other)
    ensures Update(d, other).keys == Dedup(d.keys + other.keys)
  {
    DedupAppend(d.keys, other.keys);
    DedupDistinct(d.keys);
    DedupDistinct(other.keys);
  }

  /** `d.update(other)` when the two share no key: `other`'s keys follow
      `d`'s in `other`'s order. */
  lemma UpdateDisjoint(d: Dict, other: Dict)
    requires Valid(d) && Valid(other)
    requires forall k <- other.keys :: k !in d.keys
    ensures Update(d, other).keys == d.keys + other.keys
  {
  }
}
