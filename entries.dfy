/**
 * The key/value cells of a Compound node, in the order its list links them, and the effect of
 * the compound operations on them: first-match lookup, removal of the first match, and the
 * delete-then-push that `set` performs.
 */
module Entries {
  import opened Wrappers
  import opened Sequences

  datatype Entry<V> = Entry(key: string, value: V)

  ghost predicate HasKey<V>(es: seq<Entry<V>>, key: string) {
    exists i :: 0 <= i < |es| && es[i].key == key
  }

  /** No key occurs twice: the invariant a Compound is meant to keep. */
  ghost predicate KeysUnique<V>(es: seq<Entry<V>>) {
    forall i, j :: 0 <= i < j < |es| ==> es[i].key != es[j].key
  }

  /** Index of the first cell whose key is `key`, or the length when none is. */
  function FirstIndex<V>(es: seq<Entry<V>>, key: string): (i: nat)
    ensures i <= |es|
    ensures forall j :: 0 <= j < i ==> es[j].key != key
    ensures i < |es| ==> es[i].key == key
    ensures i == |es| <==> !HasKey(es, key)
  {
    if es == [] then 0
    else if es[0].key == key then 0
    else 1 + FirstIndex(es[1..], key)
  }

  /** The values in cell order. */
  function Values<V>(es: seq<Entry<V>>): (vs: seq<V>)
    ensures |vs| == |es|
    ensures forall i :: 0 <= i < |es| ==> vs[i] == es[i].value
  {
    if es == [] then [] else [es[0].value] + Values(es[1..])
  }

  lemma ValuesTail<V>(es: seq<Entry<V>>)
    requires es != []
    ensures Values(es)[0] == es[0].value && Values(es)[1..] == Values(es[1..])
  {
  }

  lemma ValuesSnoc<V>(es: seq<Entry<V>>, e: Entry<V>)
    ensures Values(es + [e]) == Values(es) + [e.value]
  {
  }

  /** The value of the first cell with key `key`. */
  function Lookup<V>(es: seq<Entry<V>>, key: string): (r: Option<V>)
    ensures r.None? <==> !HasKey(es, key)
    ensures r.Some? ==> exists i :: 0 <= i < |es| && es[i] == Entry(key, r.value)
                                  && forall j :: 0 <= j < i ==> es[j].key != key
  {
    var i := FirstIndex(es, key);
    if i < |es| then Some(es[i].value) else None
  }

  /** Unlinks the first cell with key `key`, if there is one. */
  function DeleteFirst<V>(es: seq<Entry<V>>, key: string): (r: seq<Entry<V>>)
    ensures !HasKey(es, key) ==> r == es
    ensures HasKey(es, key) ==> |r| == |es| - 1
  {
    var i := FirstIndex(es, key);
    if i < |es| then RemoveAt(es, i) else es
  }

  /** Delete unlinks exactly the first cell with the key and keeps the others in order. */
  lemma DeleteFirstRemovesFirst<V>(es: seq<Entry<V>>, key: string)
    requires HasKey(es, key)
    ensures exists i :: 0 <= i < |es| && es[i].key == key && (forall j :: 0 <= j < i ==> es[j].key != key)
                        && DeleteFirst(es, key) == es[..i] + es[i + 1..]
  {
    var i := FirstIndex(es, key);
    assert DeleteFirst(es, key) == es[..i] + es[i + 1..];
  }

  /** Every cell left after a delete was a cell before it. */
  lemma DeleteFirstMembers<V>(es: seq<Entry<V>>, key: string, j: nat)
    requires j < |DeleteFirst(es, key)|
    ensures exists k :: 0 <= k < |es| && DeleteFirst(es, key)[j] == es[k]
  {
    var i := FirstIndex(es, key);
    if i < |es| {
      if j >= i { assert DeleteFirst(es, key)[j] == es[j + 1]; }
      else { assert DeleteFirst(es, key)[j] == es[j]; }
    }
  }

  /** Every value left after a delete was a value before it. */
  lemma DeleteFirstValues<V>(es: seq<Entry<V>>, key: string)
    ensures forall v :: v in Values(DeleteFirst(es, key)) ==> v in Values(es)
  {
    var d := DeleteFirst(es, key);
    forall v | v in Values(d) ensures v in Values(es) {
      var j :| 0 <= j < |d| && Values(d)[j] == v;
      DeleteFirstMembers(es, key, j);
      var k :| 0 <= k < |es| && d[j] == es[k];
      assert Values(es)[k] == v;
    }
  }

  /** `set`: the old cell for `key` unlinked, then a new cell pushed on the front. */
  function Put<V>(es: seq<Entry<V>>, key: string, v: V): (r: seq<Entry<V>>)
    ensures 0 < |r| && |es| <= |r| <= |es| + 1
    ensures r[0] == Entry(key, v)
  {
    [Entry(key, v)] + DeleteFirst(es, key)
  }

  /** A cell with the key, preceded by none, is the first one. */
  lemma FirstIndexAt<V>(es: seq<Entry<V>>, key: string, k: nat)
    requires k < |es| && es[k].key == key
    requires forall j :: 0 <= j < k ==> es[j].key != key
    ensures FirstIndex(es, key) == k
  {
  }

  /** Deleting one key leaves the lookup of every other key as it was. */
  lemma DeleteFirstOther<V>(es: seq<Entry<V>>, key: string, other: string)
    requires other != key
    ensures Lookup(DeleteFirst(es, key), other) == Lookup(es, other)
  {
    var i := FirstIndex(es, key);
    if i < |es| {
      var r := RemoveAt(es, i);
      assert DeleteFirst(es, key) == r;
      var k := FirstIndex(es, other);
      if k < |es| {
        assert k != i;
        var k' := if k < i then k else k - 1;
        assert r[k'] == es[k];
        forall j | 0 <= j < k' ensures r[j].key != other {
          if j >= i { assert r[j] == es[j + 1]; }
        }
        FirstIndexAt(r, other, k');
      } else {
        assert !HasKey(r, other) by {
          forall j | 0 <= j < |r| ensures r[j].key != other {
            if j >= i { assert r[j] == es[j + 1]; }
          }
        }
      }
    }
  }

  /** On a key-unique compound, delete removes the key entirely and keeps the keys unique. */
  lemma DeleteFirstUnique<V>(es: seq<Entry<V>>, key: string)
    requires KeysUnique(es)
    ensures KeysUnique(DeleteFirst(es, key))
    ensures !HasKey(DeleteFirst(es, key), key)
  {
    var i := FirstIndex(es, key);
    if i < |es| {
      var r := DeleteFirst(es, key);
      forall a, b | 0 <= a < b < |r| ensures r[a].key != r[b].key {
        var a', b' := if a < i then a else a + 1, if b < i then b else b + 1;
        assert r[a] == es[a'] && r[b] == es[b'];
      }
      forall j | 0 <= j < |r| ensures r[j].key != key {
        var j' := if j < i then j else j + 1;
        assert r[j] == es[j'];
      }
    }
  }

  /** After `set(key, v)`, looking `key` up yields `v`. */
  lemma PutThenLookup<V>(es: seq<Entry<V>>, key: string, v: V)
    ensures Lookup(Put(es, key, v), key) == Some(v)
  {
    assert FirstIndex(Put(es, key, v), key) == 0;
  }

  /** `set(key, v)` leaves the lookup of every other key as it was. */
  lemma PutOther<V>(es: seq<Entry<V>>, key: string, v: V, other: string)
    requires other != key
    ensures Lookup(Put(es, key, v), other) == Lookup(es, other)
  {
    var r := Put(es, key, v);
    DeleteFirstOther(es, key, other);
    var d := DeleteFirst(es, key);
    assert r == [Entry(key, v)] + d;
    if HasKey(d, other) {
      assert FirstIndex(r, other) == 1 + FirstIndex(d, other) by {
        assert r[1..] == d;
      }
    } else {
      assert !HasKey(r, other) by {
        forall j | 0 <= j < |r| ensures r[j].key != other {
          if j > 0 { assert r[j] == d[j - 1]; }
        }
      }
    }
  }

  /** On a key-unique compound, `set` keeps keys unique and the new cell is the only one with its key. */
  lemma PutUnique<V>(es: seq<Entry<V>>, key: string, v: V)
    requires KeysUnique(es)
    ensures KeysUnique(Put(es, key, v))
    ensures forall i :: 0 <= i < |Put(es, key, v)| && Put(es, key, v)[i].key == key ==> i == 0
  {
    DeleteFirstUnique(es, key);
    var d := DeleteFirst(es, key);
    var r := Put(es, key, v);
    forall i | 0 < i < |r| ensures r[i].key != key {
      assert r[i] == d[i - 1];
    }
    forall a, b | 0 <= a < b < |r| ensures r[a].key != r[b].key {
      assert r[b] == d[b - 1];
      if a > 0 { assert r[a] == d[a - 1]; }
    }
  }

  /** Setting a key twice is setting it once, to the second value. */
  lemma PutTwice<V>(es: seq<Entry<V>>, key: string, v1: V, v2: V)
    ensures Put(Put(es, key, v1), key, v2) == Put(es, key, v2)
  {
    var p := Put(es, key, v1);
    assert FirstIndex(p, key) == 0;
    assert DeleteFirst(p, key) == p[1..];
  }

  /** The cells a compound built from `pairs` holds: each pair `set` in argument order. */
  function PutAll<V>(es: seq<Entry<V>>, pairs: seq<Entry<V>>): (r: seq<Entry<V>>)
    ensures |es| <= |r| <= |es| + |pairs|
  {
    if pairs == [] then es
    else
      var last := pairs[|pairs| - 1];
      Put(PutAll(es, pairs[..|pairs| - 1]), last.key, last.value)
  }

  /** A key occurs in a sequence exactly when it occurs in its last cell or before it. */
  lemma HasKeyLast<V>(pairs: seq<Entry<V>>, key: string)
    requires pairs != []
    ensures HasKey(pairs, key) <==>
            (pairs[|pairs| - 1].key == key || HasKey(pairs[..|pairs| - 1], key))
  {
    var init := pairs[..|pairs| - 1];
    if HasKey(pairs, key) && pairs[|pairs| - 1].key != key {
      var i :| 0 <= i < |pairs| && pairs[i].key == key;
      assert i < |init| && init[i] == pairs[i];
    }
    if HasKey(init, key) {
      var i :| 0 <= i < |init| && init[i].key == key;
      assert pairs[i] == init[i];
    }
  }

  /** The value the last pair with key `key` carries. */
  function LastValue<V>(pairs: seq<Entry<V>>, key: string): (r: Option<V>)
    ensures r.None? <==> !HasKey(pairs, key)
  {
    if pairs == [] then None
    else
      HasKeyLast(pairs, key);
      if pairs[|pairs| - 1].key == key then Some(pairs[|pairs| - 1].value)
      else LastValue(pairs[..|pairs| - 1], key)
  }

  /** Building from pairs maps each key to the last value given for it, and to nothing else. */
  lemma {:induction false} PutAllLookup<V>(es: seq<Entry<V>>, pairs: seq<Entry<V>>, key: string)
    ensures Lookup(PutAll(es, pairs), key) ==
            (if HasKey(pairs, key) then LastValue(pairs, key) else Lookup(es, key))
  {
    if pairs != [] {
      var init, last := pairs[..|pairs| - 1], pairs[|pairs| - 1];
      PutAllLookup(es, init, key);
      if last.key == key {
        PutThenLookup(PutAll(es, init), key, last.value);
      } else {
        PutOther(PutAll(es, init), last.key, last.value, key);
        HasKeyLast(pairs, key);
      }
    }
  }

  /** Building from pairs keeps a key-unique start key-unique. */
  lemma {:induction false} PutAllUnique<V>(es: seq<Entry<V>>, pairs: seq<Entry<V>>)
    requires KeysUnique(es)
    ensures KeysUnique(PutAll(es, pairs))
  {
    if pairs != [] {
      var init, last := pairs[..|pairs| - 1], pairs[|pairs| - 1];
      PutAllUnique(es, init);
      PutUnique(PutAll(es, init), last.key, last.value);
    }
  }

  /** A compound built from pairs alone has unique keys, each mapped to the last value given for it. */
  lemma BuiltFromPairs<V>(pairs: seq<Entry<V>>)
    ensures KeysUnique(PutAll([], pairs))
    ensures forall k :: Lookup(PutAll([], pairs), k) == LastValue(pairs, k)
  {
    PutAllUnique([], pairs);
    forall k ensures Lookup(PutAll([], pairs), k) == LastValue(pairs, k) {
      PutAllLookup([], pairs, k);
    }
  }
}
