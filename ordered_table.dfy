/**
 * A PHP array with string keys, as the tag registry uses it: a dictionary
 * that remembers the order in which keys were first inserted. Assigning to
 * an existing key overwrites the value in place (the key keeps its
 * position), assigning to a new key appends it, and `unset` drops the key
 * and its position. PHP arrays are values, so the table is a datatype and
 * every update returns a new table.
 */
module OrderedTable {

  /** No key occurs twice in `keys`. */
  ghost predicate Distinct(keys: seq<string>) {
    forall i, j | 0 <= i < j < |keys| :: keys[i] != keys[j]
  }

  /** The position of `k` in `keys`. */
  function IndexOf(keys: seq<string>, k: string): (i: nat)
    requires k in keys
    ensures i < |keys| && keys[i] == k
    ensures forall j | 0 <= j < i :: keys[j] != k
  {
    if keys[0] == k then 0 else 1 + IndexOf(keys[1..], k)
  }

  /** `keys` with every occurrence of `k` taken out, the rest in order. */
  function Without(keys: seq<string>, k: string): (r: seq<string>)
    ensures forall x :: x in r <==> x in keys && x != k
    ensures |r| <= |keys|
  {
    if keys == [] then []
    else if keys[0] == k then Without(keys[1..], k)
    else [keys[0]] + Without(keys[1..], k)
  }

  lemma {:induction false} WithoutDistinct(keys: seq<string>, k: string)
    requires Distinct(keys)
    ensures Distinct(Without(keys, k))
  {
    if keys != [] {
      WithoutDistinct(keys[1..], k);
      var rest := Without(keys[1..], k);
      assert keys[0] !in keys[1..];
      assert keys[0] !in rest;
    }
  }

  /** Dropping a key that sits at position `i` of a distinct key list removes exactly that slot. */
  lemma {:induction false} WithoutAt(keys: seq<string>, i: nat)
    requires Distinct(keys) && i < |keys|
    ensures Without(keys, keys[i]) == keys[..i] + keys[i + 1..]
  {
    var k := keys[i];
    if i == 0 {
      assert k !in keys[1..];
      WithoutAbsent(keys[1..], k);
    } else {
      WithoutAt(keys[1..], i - 1);
      assert keys[1..][i - 1] == k;
      calc {
        Without(keys, k);
        [keys[0]] + Without(keys[1..], k);
        [keys[0]] + (keys[1..][..i - 1] + keys[1..][i..]);
        { assert keys[..i] == [keys[0]] + keys[1..][..i - 1]; assert keys[i + 1..] == keys[1..][i..]; }
        keys[..i] + keys[i + 1..];
      }
    }
  }

  /** Dropping a key that is not there changes nothing. */
  lemma {:induction false} WithoutAbsent(keys: seq<string>, k: string)
    requires k !in keys
    ensures Without(keys, k) == keys
  {
    if keys != [] {
      WithoutAbsent(keys[1..], k);
      assert keys == [keys[0]] + keys[1..];
    }
  }

  /** Every key of `ks` is in `m`. */
  ghost predicate AllIn<V>(ks: seq<string>, m: map<string, V>) {
    forall i | 0 <= i < |ks| :: ks[i] in m
  }

  /** The values `m` holds for `ks`, in the order of `ks`. */
  function Lookup<V>(ks: seq<string>, m: map<string, V>): (vs: seq<V>)
    requires AllIn(ks, m)
    ensures |vs| == |ks|
    ensures forall i | 0 <= i < |ks| :: vs[i] == m[ks[i]]
  {
    seq(|ks|, i requires 0 <= i < |ks| => m[ks[i]])
  }

  lemma LookupAppend<V>(a: seq<string>, b: seq<string>, m: map<string, V>)
    requires AllIn(a, m) && AllIn(b, m)
    ensures AllIn(a + b, m)
    ensures Lookup(a + b, m) == Lookup(a, m) + Lookup(b, m)
  {
  }

  lemma LookupPrefix<V>(ks: seq<string>, m: map<string, V>, n: nat)
    requires AllIn(ks, m) && n <= |ks|
    ensures AllIn(ks[..n], m)
    ensures Lookup(ks, m)[..n] == Lookup(ks[..n], m)
  {
  }

  lemma LookupSuffix<V>(ks: seq<string>, m: map<string, V>, n: nat)
    requires AllIn(ks, m) && n <= |ks|
    ensures AllIn(ks[n..], m)
    ensures Lookup(ks, m)[n..] == Lookup(ks[n..], m)
  {
  }

  /** Two maps that agree on `ks` look up the same values for it. */
  lemma LookupAgree<V>(ks: seq<string>, m1: map<string, V>, m2: map<string, V>)
    requires AllIn(ks, m1) && AllIn(ks, m2)
    requires forall i | 0 <= i < |ks| :: m1[ks[i]] == m2[ks[i]]
    ensures Lookup(ks, m1) == Lookup(ks, m2)
  {
  }

  /** The ordered dictionary: `keys` in insertion order and the value held for each. */
  datatype Table<V> = Table(keys: seq<string>, values: map<string, V>) {

    /** Every key is listed exactly once and the listed keys are the dictionary's keys. */
    ghost predicate Valid() {
      && Distinct(keys)
      && (forall k :: k in keys <==> k in values)
    }

    /** `array_key_exists($k, $table)`. */
    predicate Has(k: string)
      ensures Valid() ==> (Has(k) <==> k in keys)
    {
      k in values
    }

    /** `count($table)`. */
    function Count(): (n: nat)
      requires Valid()
      ensures n == 0 <==> values == map[]
    {
      assert keys != [] ==> keys[0] in values;
      |keys|
    }

    /** The values in the order `foreach` visits them. */
    function Values(): (vs: seq<V>)
      requires Valid()
      ensures |vs| == |keys|
      ensures forall i | 0 <= i < |keys| :: vs[i] == values[keys[i]]
    {
      Lookup(keys, values)
    }

    /** `$table[$k] = $v`. */
    function Set(k: string, v: V): (t: Table<V>)
      requires Valid()
      ensures t.Valid()
      ensures t.Has(k) && t.values[k] == v
      ensures forall j :: j != k ==> (t.Has(j) <==> Has(j))
      ensures forall j | j != k && Has(j) :: t.Has(j) && t.values[j] == values[j]
    {
      if k in values then Table(keys, values[k := v])
      else
        assert Distinct(keys + [k]) by {
          assert forall i | 0 <= i < |keys| :: keys[i] != k;
        }
        Table(keys + [k], values[k := v])
    }

    /** `unset($table[$k])`. */
    function Unset(k: string): (t: Table<V>)
      requires Valid()
      ensures t.Valid()
      ensures !t.Has(k)
      ensures forall j :: j != k ==> (t.Has(j) <==> Has(j))
      ensures forall j | j != k && Has(j) :: t.Has(j) && t.values[j] == values[j]
    {
      WithoutDistinct(keys, k);
      Table(Without(keys, k), values - {k})
    }
  }

  /** The empty PHP array `array()`. */
  function Empty<V>(): (t: Table<V>)
    ensures t.Valid() && t.Count() == 0
  {
    Table([], map[])
  }

  /** Assigning to a new key appends its value at the end of the iteration order. */
  lemma SetAppendsNewKey<V>(t: Table<V>, k: string, v: V)
    requires t.Valid() && !t.Has(k)
    ensures t.Set(k, v).Values() == t.Values() + [v]
  {
    var after := t.Set(k, v).Values();
    assert |after| == |t.Values()| + 1;
    forall i | 0 <= i < |t.keys|
      ensures after[i] == (t.Values() + [v])[i]
    {
      assert t.keys[i] != k;
    }
  }

  /** Assigning to an existing key overwrites its value where it stands; nothing moves. */
  lemma SetOverwriteKeepsPosition<V>(t: Table<V>, k: string, v: V)
    requires t.Valid() && t.Has(k)
    ensures t.Set(k, v).keys == t.keys
    ensures t.Set(k, v).Values() == t.Values()[IndexOf(t.keys, k) := v]
  {
    var i := IndexOf(t.keys, k);
    var after := t.Set(k, v).Values();
    forall j | 0 <= j < |t.keys|
      ensures after[j] == t.Values()[i := v][j]
    {
      if j != i {
        assert t.keys[j] != k;
      }
    }
  }

  /** Assigning the same key twice leaves the table as the second assignment alone would. */
  lemma LastWriteWins<V>(t: Table<V>, k: string, v1: V, v2: V)
    requires t.Valid()
    ensures t.Set(k, v1).Set(k, v2) == t.Set(k, v2)
  {
    assert t.values[k := v1][k := v2] == t.values[k := v2];
  }

  /** Unsetting a present key removes exactly its slot from the iteration order. */
  lemma UnsetDropsPosition<V>(t: Table<V>, k: string)
    requires t.Valid() && t.Has(k)
    ensures t.Unset(k).Values() == t.Values()[..IndexOf(t.keys, k)] + t.Values()[IndexOf(t.keys, k) + 1..]
  {
    var i := IndexOf(t.keys, k);
    var u := t.Unset(k);
    var rest := t.keys[..i] + t.keys[i + 1..];
    WithoutAt(t.keys, i);
    assert u == Table(rest, t.values - {k});
    LookupWithoutSlot(t.keys, i, t.values);
    assert u.Values() == Lookup(rest, t.values - {k});
  }

  /** Looking up every key but the one at `i`, in a map without that key, skips exactly slot `i`. */
  lemma LookupWithoutSlot<V>(ks: seq<string>, i: nat, m: map<string, V>)
    requires Distinct(ks) && i < |ks| && AllIn(ks, m)
    ensures AllIn(ks[..i] + ks[i + 1..], m - {ks[i]})
    ensures Lookup(ks[..i] + ks[i + 1..], m - {ks[i]}) == Lookup(ks, m)[..i] + Lookup(ks, m)[i + 1..]
  {
    var before, after := ks[..i], ks[i + 1..];
    LookupPrefix(ks, m, i);
    LookupSuffix(ks, m, i + 1);
    LookupAppend(before, after, m);
    UnsetLeavesOthers(ks, i, m);
  }

  /** The keys around slot `i` keep their values once the key in that slot leaves the map. */
  lemma UnsetLeavesOthers<V>(ks: seq<string>, i: nat, m: map<string, V>)
    requires Distinct(ks) && i < |ks| && AllIn(ks, m)
    ensures AllIn(ks[..i] + ks[i + 1..], m - {ks[i]})
    ensures AllIn(ks[..i] + ks[i + 1..], m)
    ensures Lookup(ks[..i] + ks[i + 1..], m - {ks[i]}) == Lookup(ks[..i] + ks[i + 1..], m)
  {
    var rest := ks[..i] + ks[i + 1..];
    assert forall x | 0 <= x < |rest| :: rest[x] == ks[if x < i then x else x + 1];
    LookupAgree(rest, m - {ks[i]}, m);
  }

  /** Unsetting an absent key is a no-op. */
  lemma UnsetAbsentIsNoop<V>(t: Table<V>, k: string)
    requires t.Valid() && !t.Has(k)
    ensures t.Unset(k) == t
  {
    WithoutAbsent(t.keys, k);
    assert t.values - {k} == t.values;
  }
}
