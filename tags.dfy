/**
 * The tagged value tree: reference-counted nodes of a dynamically typed document.
 *
 * A node is a heap object whose kind never changes after construction. Scalar nodes hold an
 * integer, ByteArray and String nodes hold owned copies, a List holds an element kind and a
 * sequence of nodes, a Compound holds a sequence of key/value cells. Children are shared
 * through the reference count, so the nodes form a graph, not a tree.
 *
 * Two ghost devices make the graph tractable: every node carries a `rank` fixed at
 * construction, and a ghost set `heap` of the nodes the caller works with is `Closed` when
 * every child of a node in it is in it and has a smaller rank. A closed heap therefore has no
 * cycles, which every recursive walk of the source (find, free) silently relies on. Freeing a
 * node is modelled by clearing its ghost `live` flag.
 */
module Tags {
  import opened Wrappers
  import opened TagTypes
  import opened Integers
  import opened Sequences
  import opened Entries

  newtype byte = x: int | 0 <= x < 256

  class Tag {
    var refcount: nat
    const ttype: NodeType
    /** Payload of Byte, Short, Int and Long nodes, already narrowed to the node's width. */
    var integer: int
    /** Payload of a ByteArray node; `None` until it is first set. */
    var bytes: Option<seq<byte>>
    /** Payload of a String node; `None` until it is first set. */
    var str: Option<string>
    /** Element kind and elements of a List node. */
    var listType: TagType
    var items: seq<Tag>
    /** Cells of a Compound node, in link order. */
    var entries: seq<Entry<Tag>>
    ghost const rank: nat
    ghost var live: bool

    /** A zero-filled node of kind `t` with a floating (zero) reference count. */
    constructor (t: NodeType, ghost rank: nat)
      ensures ttype == t && this.rank == rank && live
      ensures refcount == 0 && integer == 0 && bytes == None && str == None
      ensures listType == End && items == [] && entries == []
    {
      ttype := t;
      this.rank := rank;
      refcount := 0;
      integer := 0;
      bytes := None;
      str := None;
      listType := End;
      items := [];
      entries := [];
      live := true;
    }

    /** The nodes this node holds an owning edge to, in iteration order. */
    function Children(): (cs: seq<Tag>)
      reads this`items, this`entries
      ensures ttype != List && ttype != Compound ==> cs == []
    {
      if ttype == List then items else if ttype == Compound then Values(entries) else []
    }

    /** Every element of a List has the list's element kind: the invariant insertion keeps. */
    ghost predicate Homogeneous()
      reads this`items, this`listType
    {
      ttype == List ==> forall c :: c in items ==> c.ttype == listType
    }

    // ----- reference counting -----

    method Ref(ghost heap: set<Tag>)
      modifies this`refcount
      ensures refcount == old(refcount) + 1
      ensures Counts(heap) == Retain(old(Counts(heap)), this)
    {
      refcount := refcount + 1;
    }

    /**
     * Drops one reference: a positive count is decremented, and a count that is then zero frees
     * the node. A floating node and a node retained once are both freed by one release.
     */
    method Unref(ghost heap: set<Tag>)
      requires Closed(heap) && this in heap
      modifies heap`refcount, heap`live
      ensures Closed(heap)
      ensures Snapshot(heap) == Release(this, old(Snapshot(heap)), heap)
      decreases rank, 2
    {
      ghost var s0 := Snapshot(heap);
      if refcount > 0 {
        refcount := refcount - 1;
      }
      ghost var s1 := s0.(rc := s0.rc[this := refcount]);
      assert Snapshot(heap) == s1 by {
        assert Snapshot(heap).rc == s1.rc;
      }
      if refcount == 0 {
        Free(heap);
      }
    }

    /** Frees a node whose count is zero: releases every owning edge to a child, in order. */
    method Free(ghost heap: set<Tag>)
      requires Closed(heap) && this in heap && refcount == 0
      modifies heap`refcount, heap`live
      ensures Closed(heap)
      ensures var s := ReleaseAll(Children(), old(Snapshot(heap)), heap, rank);
              Snapshot(heap) == s.(dead := s.dead + {this})
      decreases rank, 1
    {
      ghost var s0, cs := Snapshot(heap), Children();
      live := false;
      ghost var s1 := Snapshot(heap);
      assert s1 == s0.(dead := s0.dead + {this}) by {
        assert s1.rc == s0.rc;
      }
      if ttype == List {
        UnrefEach(items, heap, rank);
      } else if ttype == Compound {
        UnrefEach(Values(entries), heap, rank);
      } else {
        assert cs == [];
      }
      assert Snapshot(heap) == ReleaseAll(cs, s1, heap, rank);
      assert Closed(heap);
      assert forall c :: c in cs ==> c in heap && c.rank < rank;
      ReleaseAllDead(cs, s0, heap, rank, {this});
    }

    // ----- integers -----

    ghost predicate IntegerFits()
      reads this`integer
    {
      IsInteger(ttype) ==> InRange(integer, Width(ttype))
    }

    /**
     * The integer payload read through the node's own field width and sign-extended to 64 bits;
     * 0 (after a report) on a non-integer node. A payload that fits its width is read exactly.
     */
    function GetInteger(): (v: int)
      reads this`integer
      ensures IsInt64(v)
      ensures IsInteger(ttype) ==> InRange(v, Width(ttype))
      ensures IsInteger(ttype) && IntegerFits() ==> v == integer
      ensures !IsInteger(ttype) ==> v == 0
    {
      if !IsInteger(ttype) then 0
      else
        var w := Width(ttype);
        if InRange(integer, w) then integer else Narrow(integer, w)
    }

    /** Stores `v` truncated to the node's width; reports and changes nothing on a non-integer node. */
    method SetInteger(v: int) returns (ok: bool)
      requires IsInt64(v)
      modifies this`integer
      ensures ok == IsInteger(ttype)
      ensures IntegerFits()
      ensures ok ==> GetInteger() == Narrow(v, Width(ttype))
      ensures ok && ttype == Long ==> GetInteger() == v
      ensures !ok ==> integer == old(integer)
    {
      if !IsInteger(ttype) {
        return false;
      }
      integer := Narrow(v, Width(ttype));
      NarrowIdempotent(v, Width(ttype));
      NarrowFits(v, 64);
      return true;
    }

    // ----- byte arrays and strings -----

    /** The stored bytes of a ByteArray node; `None` (a null pointer) for another kind or an array never set. */
    function GetByteArray(): (data: Option<seq<byte>>)
      reads this`bytes
      ensures data.Some? ==> ttype == ByteArray
    {
      if ttype == ByteArray then bytes else None
    }

    /** The stored size: the length of the stored bytes, 0 when there are none. */
    function GetByteArrayLength(): (n: nat)
      reads this`bytes
      ensures GetByteArray().Some? ==> n == |GetByteArray().value|
      ensures GetByteArray().None? ==> n == 0
    {
      if ttype == ByteArray && bytes.Some? then |bytes.value| else 0
    }

    /** Replaces the payload with a copy of `data`; reports and changes nothing on another kind. */
    method SetByteArray(data: seq<byte>) returns (ok: bool)
      modifies this`bytes
      ensures ok == (ttype == ByteArray)
      ensures ok ==> GetByteArray() == Some(data) && GetByteArrayLength() == |data|
      ensures !ok ==> bytes == old(bytes)
    {
      if ttype != ByteArray {
        return false;
      }
      bytes := Some(data);
      return true;
    }

    /** The stored text of a String node; `None` for another kind or a String never set. */
    function GetString(): (s: Option<string>)
      reads this`str
      ensures s.Some? ==> ttype == String
    {
      if ttype == String then str else None
    }

    method SetString(s: string) returns (ok: bool)
      modifies this`str
      ensures ok == (ttype == String)
      ensures ok ==> GetString() == Some(s)
      ensures !ok ==> str == old(str)
    {
      if ttype != String {
        return false;
      }
      str := Some(s);
      return true;
    }

    // ----- lists -----

    /** The element kind of a List; End for any other node. */
    function ListGetType(): (t: TagType)
      reads this`listType
      ensures ttype != List ==> t == End
    {
      if ttype == List then listType else End
    }

    /** Sets the element kind. Refused, with a report and no effect, once the list has elements. */
    method ListSetType(t: TagType) returns (ok: bool)
      modifies this`listType
      ensures ok == (ttype == List && items == [])
      ensures ListGetType() == if ok then t else old(ListGetType())
      ensures !ok ==> listType == old(listType)
      ensures old(Homogeneous()) ==> Homogeneous()
    {
      if ttype != List {
        return false;
      }
      if items != [] {
        return false;
      }
      listType := t;
      return true;
    }

    function ListGetLength(): (n: nat)
      reads this`items
      ensures ttype != List ==> n == 0
      ensures ttype == List ==> n == |Children()|
    {
      if ttype == List then |items| else 0
    }

    /** The element at index `i`; null past the end and on a non-list node. */
    function ListGet(i: nat): (r: Tag?)
      reads this`items
      ensures r != null <==> (ttype == List && i < |items|)
      ensures r != null ==> r in Children()
    {
      if ttype == List && i < |items| then items[i] else null
    }

    /**
     * Links `tag` in before index `i`, or at the end when `i` is at or past the length, and
     * retains it. Refused (a report, no effect) on a non-list node or when `tag`'s kind is not
     * the list's element kind.
     */
    method ListInsert(i: nat, tag: Tag, ghost heap: set<Tag>) returns (ok: bool)
      requires Closed(heap) && this in heap && tag in heap
      requires ttype == List && tag.ttype == listType ==> tag.rank < rank
      modifies this`items, tag`refcount
      ensures ok == (ttype == List && tag.ttype == listType)
      ensures ok ==> items == InsertClamped(old(items), i, tag)
      ensures ok ==> tag.refcount == old(tag.refcount) + 1
      ensures !ok ==> items == old(items) && tag.refcount == old(tag.refcount)
      ensures Counts(heap) == if ok then Retain(old(Counts(heap)), tag) else old(Counts(heap))
      ensures old(Homogeneous()) ==> Homogeneous()
      ensures Closed(heap)
    {
      if ttype != List || tag.ttype != listType {
        return false;
      }
      tag.Ref(heap);
      Link(i, tag, heap);
      return true;
    }

    /** Links a new cell holding `tag` in before index `i`, or after the last cell. */
    method Link(i: nat, tag: Tag, ghost heap: set<Tag>)
      requires Closed(heap) && this in heap && tag in heap
      requires ttype == List && tag.rank < rank
      modifies this`items
      ensures items == InsertClamped(old(items), i, tag)
      ensures Closed(heap)
    {
      OthersClosed(heap, this);
      ghost var s := items;
      assert forall c :: c in s ==> c in heap && c.rank < rank by {
        assert s == Children();
      }
      if i == 0 {
        items := [tag] + items;
        assert items == s[..0] + [tag] + s[0..];
      } else {
        var len := |items|;
        if i >= len {
          // The source links after the cell at `len - 1`, which does not exist when the list is
          // empty; the intended append is modelled here (see Sequences.InsertAsWritten).
          items := items + [tag];
          assert items == s[..len] + [tag] + s[len..];
        } else {
          items := items[..i] + [tag] + items[i..];
        }
      }
      ClosedAfterLink(heap, this, s, tag);
    }

    /** Unlinks the element at index `i` and releases it; no effect when `i` is past the end. */
    method ListDelete(i: nat, ghost heap: set<Tag>) returns (ok: bool)
      requires Closed(heap) && this in heap
      modifies this`items, heap`refcount, heap`live
      ensures ok == (ttype == List)
      ensures ok && i < |old(items)| ==> items == RemoveAt(old(items), i)
      ensures ok && i < |old(items)| ==> Snapshot(heap) == old(Release(items[i], Snapshot(heap), heap))
      ensures !(ok && i < |old(items)|) ==> items == old(items) && Snapshot(heap) == old(Snapshot(heap))
      ensures old(Homogeneous()) ==> Homogeneous()
      ensures Closed(heap)
    {
      if ttype != List {
        return false;
      }
      if i < |items| {
        ChildInHeap(heap, this, items[i]);
        items[i].Unref(heap);
        Unlink(i, heap);
      }
      return true;
    }

    /** Unlinks the cell at index `i`. */
    method Unlink(i: nat, ghost heap: set<Tag>)
      requires Closed(heap) && this in heap && ttype == List && i < |items|
      modifies this`items
      ensures items == RemoveAt(old(items), i)
      ensures Closed(heap)
    {
      ghost var s := items;
      OthersClosed(heap, this);
      assert forall c :: c in s ==> c in heap && c.rank < rank by {
        assert s == Children();
      }
      items := RemoveAt(items, i);
      RemoveAtMembers(s, i);
      ClosedAfterUnlink(heap, this, s);
    }

    /** Reverses the order of the elements; no reference changes hands. */
    method ListReverse(ghost heap: set<Tag>) returns (ok: bool)
      requires Closed(heap) && this in heap
      modifies this`items
      ensures ok == (ttype == List)
      ensures items == if ok then Reversed(old(items)) else old(items)
      ensures old(Homogeneous()) ==> Homogeneous()
      ensures Closed(heap)
    {
      if ttype != List {
        return false;
      }
      ghost var s := items;
      OthersClosed(heap, this);
      assert forall c :: c in s ==> c in heap && c.rank < rank by {
        assert s == Children();
      }
      items := Reversed(items);
      ReversedMembers(s);
      ClosedAfterUnlink(heap, this, s);
      return true;
    }

    // ----- compounds -----

    function CompoundGetLength(): (n: nat)
      reads this`entries
      ensures ttype != Compound ==> n == 0
      ensures ttype == Compound ==> n == |Children()|
    {
      if ttype == Compound then |entries| else 0
    }

    /** The value of the first cell with key `key`; null when there is none or the node is no Compound. */
    method CompoundGet(key: string) returns (r: Tag?)
      ensures r == if ttype == Compound then ValueOf(entries, key) else null
    {
      if ttype != Compound {
        return null;
      }
      var i := 0;
      while i < |entries|
        invariant 0 <= i <= |entries|
        invariant forall j :: 0 <= j < i ==> entries[j].key != key
      {
        if entries[i].key == key {
          assert FirstIndex(entries, key) == i;
          return entries[i].value;
        }
        i := i + 1;
      }
      return null;
    }

    /**
     * Unlinks the first cell with key `key`, if any. The removed value is not released: its
     * reference count is left as it was.
     */
    method CompoundDelete(key: string, ghost heap: set<Tag>) returns (ok: bool)
      requires Closed(heap) && this in heap
      modifies this`entries
      ensures ok == (ttype == Compound)
      ensures entries == if ok then DeleteFirst(old(entries), key) else old(entries)
      ensures KeysUnique(old(entries)) ==> KeysUnique(entries)
      ensures ok && KeysUnique(old(entries)) ==> !HasKey(entries, key)
      ensures Closed(heap)
    {
      if ttype != Compound {
        return false;
      }
      ghost var s := entries;
      var i := CellIndex(key);
      if i < |entries| {
        UnlinkCell(i, key, heap);
      }
      if KeysUnique(s) {
        DeleteFirstUnique(s, key);
      }
      return true;
    }

    /** The index of the first cell with key `key`, or the cell count when there is none. */
    method CellIndex(key: string) returns (i: nat)
      ensures i == FirstIndex(entries, key)
    {
      i := 0;
      while i < |entries|
        invariant 0 <= i <= |entries|
        invariant forall j :: 0 <= j < i ==> entries[j].key != key
      {
        if entries[i].key == key {
          return;
        }
        i := i + 1;
      }
    }

    /** Unlinks the cell at index `i`, the first cell with key `key`. */
    method UnlinkCell(i: nat, key: string, ghost heap: set<Tag>)
      requires Closed(heap) && this in heap && ttype == Compound
      requires i < |entries| && i == FirstIndex(entries, key)
      modifies this`entries
      ensures entries == DeleteFirst(old(entries), key)
      ensures Closed(heap)
    {
      ghost var s := entries;
      OthersClosed(heap, this);
      ValuesBelow(heap, this);
      entries := RemoveAt(entries, i);
      ClosedAfterDelete(heap, this, s, key);
    }

    /**
     * Removes any cell for `key`, then pushes a new cell `key -> value` on the front and
     * retains `value`. Refused on a node that is no Compound.
     */
    method CompoundSet(key: string, value: Tag, ghost heap: set<Tag>) returns (ok: bool)
      requires Closed(heap) && this in heap && value in heap
      requires ttype == Compound ==> value.rank < rank
      modifies this`entries, value`refcount
      ensures ok == (ttype == Compound)
      ensures ok ==> entries == Put(old(entries), key, value)
      ensures ok ==> ValueOf(entries, key) == value
      ensures ok ==> value.refcount == old(value.refcount) + 1
      ensures ok && KeysUnique(old(entries)) ==>
                KeysUnique(entries) && forall i :: 0 < i < |entries| ==> entries[i].key != key
      ensures !ok ==> entries == old(entries) && value.refcount == old(value.refcount)
      ensures Counts(heap) == if ok then Retain(old(Counts(heap)), value) else old(Counts(heap))
      ensures Closed(heap)
    {
      if ttype != Compound {
        return false;
      }
      ghost var s := entries;
      ghost var counts := Counts(heap);
      ok := CompoundDelete(key, heap);
      assert Counts(heap) == counts && value.refcount == old(value.refcount);
      PushCell(key, value, s, heap);
      ValueOfPut(s, key, value);
    }

    /**
     * Retains `value` and pushes the cell `key -> value` on the front, once any old cell for
     * `key` has been unlinked from `s`.
     */
    method PushCell(key: string, value: Tag, ghost s: seq<Entry<Tag>>, ghost heap: set<Tag>)
      requires Closed(heap) && this in heap && value in heap && ttype == Compound && value.rank < rank
      requires entries == DeleteFirst(s, key)
      modifies this`entries, value`refcount
      ensures entries == Put(s, key, value)
      ensures value.refcount == old(value.refcount) + 1
      ensures Counts(heap) == Retain(old(Counts(heap)), value)
      ensures Closed(heap)
    {
      value.Ref(heap);
      PushFront(key, value, heap);
    }

    /** Links the cell `key -> value` in at the head of the cells. */
    method PushFront(key: string, value: Tag, ghost heap: set<Tag>)
      requires Closed(heap) && this in heap && value in heap && ttype == Compound && value.rank < rank
      modifies this`entries
      ensures entries == [Entry(key, value)] + old(entries)
      ensures Closed(heap)
    {
      ghost var d := entries;
      OthersClosed(heap, this);
      ValuesBelow(heap, this);
      entries := [Entry(key, value)] + entries;
      ClosedAfterPush(heap, this, d, value);
    }

    /**
     * Follows `keys` through successive compound lookups. With no keys the node itself is the
     * result; null when a lookup misses or an intermediate node is no Compound.
     */
    method GetChain(keys: seq<string>, ghost heap: set<Tag>) returns (r: Tag?)
      requires Closed(heap) && this in heap
      ensures r == if ttype == Compound then Chain(this, keys, heap) else null
    {
      if ttype != Compound {
        return null;
      }
      var tag: Tag? := this;
      var k := 0;
      while tag != null && k < |keys|
        invariant 0 <= k <= |keys|
        invariant tag != null ==> tag in heap
        invariant Chain(tag, keys[k..], heap) == Chain(this, keys, heap)
      {
        if tag.ttype != Compound {
          return null;
        }
        ChainStep(tag, keys, k, heap);
        tag := tag.CompoundGet(keys[k]);
        k := k + 1;
      }
      return tag;
    }

    // ----- search -----

    /**
     * Depth-first search for the value of a compound cell keyed `name`. A Compound answers from
     * its own cells first; otherwise, and for a List, the children are searched in iteration
     * order and the first hit wins. Scalars, byte arrays and strings hold nothing.
     */
    method Find(name: string, ghost heap: set<Tag>) returns (r: Tag?)
      requires Closed(heap) && this in heap
      ensures r == FindSpec(this, name, heap)
      decreases rank, 1
    {
      if ttype == List {
        r := FindInList(name, heap);
      } else if ttype == Compound {
        r := CompoundGet(name);
        if r == null {
          r := FindInCompound(name, heap);
        }
      } else {
        r := null;
      }
    }

    /** The list case of `Find`: each element in turn, the first hit wins. */
    method FindInList(name: string, ghost heap: set<Tag>) returns (r: Tag?)
      requires Closed(heap) && this in heap && ttype == List
      ensures r == FindFirst(items, name, heap, rank)
      decreases rank, 0
    {
      ghost var target := FindFirst(items, name, heap, rank);
      var it := ListIteratorInit(this, []);
      while true
        invariant forall c :: c in it ==> c in heap && c.rank < rank
        invariant FindFirst(it, name, heap, rank) == target
        decreases |it|
      {
        var step := IteratorNext(it);
        if step.Done? {
          break;
        }
        FindFirstStep(it, name, heap, rank);
        var found := step.item.Find(name, heap);
        if found != null {
          return found;
        }
        it := step.rest;
      }
      return null;
    }

    /** The compound case of `Find` once the node's own cells missed: each value in turn. */
    method FindInCompound(name: string, ghost heap: set<Tag>) returns (r: Tag?)
      requires Closed(heap) && this in heap && ttype == Compound
      ensures r == FindFirst(Values(entries), name, heap, rank)
      decreases rank, 0
    {
      ghost var target := FindFirst(Values(entries), name, heap, rank);
      ValuesBelow(heap, this);
      var it := CompoundIteratorInit(this, []);
      while true
        invariant forall c :: c in Values(it) ==> c in heap && c.rank < rank
        invariant FindFirst(Values(it), name, heap, rank) == target
        decreases |it|
      {
        var step := IteratorNext(it);
        if step.Done? {
          break;
        }
        FindValuesStep(it, name, heap, rank);
        var found := step.item.value.Find(name, heap);
        if found != null {
          return found;
        }
        it := step.rest;
      }
      return null;
    }
  }

  /** Releases one reference to each of `cs`, first to last. */
  method UnrefEach(cs: seq<Tag>, ghost heap: set<Tag>, ghost bound: nat)
    requires Closed(heap) && forall c :: c in cs ==> c in heap && c.rank < bound
    modifies heap`refcount, heap`live
    ensures Closed(heap)
    ensures Snapshot(heap) == ReleaseAll(cs, old(Snapshot(heap)), heap, bound)
    decreases bound, 0
  {
    var i := 0;
    while i < |cs|
      invariant 0 <= i <= |cs|
      invariant Closed(heap)
      invariant Snapshot(heap) == ReleaseAll(cs[..i], old(Snapshot(heap)), heap, bound)
    {
      assert cs[..i + 1][..i] == cs[..i];
      ghost var before := ReleaseAll(cs[..i], old(Snapshot(heap)), heap, bound);
      cs[i].Unref(heap);
      assert ReleaseAll(cs[..i], old(Snapshot(heap)), heap, bound) == before;
      assert ReleaseAll(cs[..i + 1], old(Snapshot(heap)), heap, bound) == Release(cs[i], before, heap);
      i := i + 1;
    }
    assert cs[..i] == cs;
  }

  // ----- construction -----

  /** A fresh floating node of kind `t`; null for End, which is never constructed. */
  method New0(t: TagType, ghost rank: nat) returns (r: Tag?)
    ensures r == null <==> t == End
    ensures r != null ==> fresh(r) && r.ttype == t && r.refcount == 0 && r.live && r.rank == rank
    ensures r != null ==> r.Children() == [] && r.ListGetType() == End
    ensures r != null ==> r.IntegerFits() && r.GetInteger() == 0
    ensures r != null ==> r.GetByteArray() == None && r.GetByteArrayLength() == 0 && r.GetString() == None
  {
    if t == End {
      return null;
    }
    r := new Tag(t, rank);
  }

  /** An integer node holding `v` (read as a C `int`) narrowed to the node's width. */
  method NewInteger(t: TagType, v: int, ghost rank: nat) returns (r: Tag)
    requires IsInteger(t) && IsInt32(v)
    ensures fresh(r) && r.ttype == t && r.refcount == 0 && r.live && r.rank == rank
    ensures r.IntegerFits() && r.GetInteger() == Narrow(v, Width(t))
  {
    r := new Tag(t, rank);
    var _ := r.SetInteger(v);
  }

  /** A ByteArray node holding a copy of `data`. */
  method NewByteArray(data: seq<byte>, ghost rank: nat) returns (r: Tag)
    ensures fresh(r) && r.ttype == ByteArray && r.refcount == 0 && r.live && r.rank == rank
    ensures r.GetByteArray() == Some(data)
  {
    r := new Tag(ByteArray, rank);
    var _ := r.SetByteArray(data);
  }

  /** A String node holding a copy of `s`. */
  method NewString(s: string, ghost rank: nat) returns (r: Tag)
    ensures fresh(r) && r.ttype == String && r.refcount == 0 && r.live && r.rank == rank
    ensures r.GetString() == Some(s)
  {
    r := new Tag(String, rank);
    var _ := r.SetString(s);
  }

  /** The children of kind `t`, in order: what a list of element kind `t` accepts from `cs`. */
  function OfType(cs: seq<Tag>, t: TagType): (r: seq<Tag>)
    ensures forall c :: c in r ==> c in cs && c.ttype == t
  {
    if cs == [] then []
    else
      var last := cs[|cs| - 1];
      assert cs == cs[..|cs| - 1] + [last];
      OfType(cs[..|cs| - 1], t) + (if last.ttype == t then [last] else [])
  }

  /**
   * One round of the list constructor's loop on the pure side: the accepted children grow by
   * the next child exactly when it has the element kind.
   */
  lemma InsertFrontStep(cs: seq<Tag>, i: nat, t: TagType, accepted: seq<Tag>)
    requires i < |cs| && accepted == OfType(cs[..i], t)
    ensures OfType(cs[..i + 1], t) == if cs[i].ttype == t then accepted + [cs[i]] else accepted
  {
    assert cs[..i + 1][..i] == cs[..i];
    assert accepted + [] == accepted;
  }

  /**
   * A List built from `children`: the first child fixes the element kind, every child is
   * inserted at index 0 (children of another kind are refused and dropped) and the list is then
   * reversed, so the elements keep argument order. Each accepted child is retained once per
   * occurrence.
   */
  method NewList(children: seq<Tag>, ghost rank: nat, ghost heap: set<Tag>) returns (r: Tag)
    requires Closed(heap)
    requires forall c :: c in children ==> c in heap && c.rank < rank
    modifies heap`refcount
    ensures fresh(r) && r.ttype == List && r.refcount == 0 && r.live && r.rank == rank
    ensures r.ListGetType() == if children == [] then End else children[0].ttype
    ensures children != [] ==> r.items == OfType(children, children[0].ttype)
    ensures children == [] ==> r.items == []
    ensures r.Homogeneous()
    ensures forall x :: x in heap ==> x.refcount == old(x.refcount) + multiset(r.items)[x]
    ensures Closed(heap + {r})
  {
    r := new Tag(List, rank);
    ghost var t := if children == [] then End else children[0].ttype;
    ghost var c0 := Counts(heap + {r});
    assert forall x :: x in heap ==> c0[x] == old(x.refcount);
    assert c0.Keys == heap + {r};
    FillList(r, children, heap);
    assert r.refcount == 0;
    RetainedCounts(heap, r, c0, OfType(children, t));
  }

  /**
   * The list case of the constructor on a fresh List `r`: the argument loop, which leaves the
   * accepted children in reverse argument order, followed by the reversal.
   */
  method FillList(r: Tag, children: seq<Tag>, ghost heap: set<Tag>)
    requires Closed(heap) && r !in heap && r.ttype == List && r.items == [] && r.listType == End
    requires forall c :: c in children ==> c in heap && c.rank < r.rank
    modifies r`items, r`listType, heap`refcount
    ensures r.listType == if children == [] then End else children[0].ttype
    ensures r.items == OfType(children, r.listType)
    ensures Counts(heap + {r}) == RetainAll(old(Counts(heap + {r})), OfType(children, r.listType))
    ensures Closed(heap + {r})
  {
    InsertEach(r, children, heap);
    ghost var counts := Counts(heap + {r});
    var _ := r.ListReverse(heap + {r});
    assert Counts(heap + {r}) == counts;
    ReversedTwice(OfType(children, r.listType));
  }

  /**
   * The argument loop of the list constructor: the first child fixes the element kind, then
   * every child is inserted at index 0, so the elements end up in reverse argument order.
   */
  method InsertEach(r: Tag, children: seq<Tag>, ghost heap: set<Tag>)
    requires Closed(heap) && r !in heap && r.ttype == List && r.items == [] && r.listType == End
    requires forall c :: c in children ==> c in heap && c.rank < r.rank
    modifies r`items, r`listType, heap`refcount
    ensures r.listType == if children == [] then End else children[0].ttype
    ensures r.items == Reversed(OfType(children, r.listType))
    ensures Counts(heap + {r}) == RetainAll(old(Counts(heap + {r})), OfType(children, r.listType))
    ensures Closed(heap + {r})
  {
    // The first child's kind is set before its insertion, as the `first` flag of the source
    // does on the first round.
    ghost var h := heap + {r};
    ghost var m := Counts(h);
    if children != [] {
      var _ := r.ListSetType(children[0].ttype);
    }
    assert Counts(h) == m;
    ghost var t := r.listType;
    ghost var accepted: seq<Tag> := [];
    var i := 0;
    while i < |children|
      invariant 0 <= i <= |children|
      invariant r.listType == t
      invariant accepted == OfType(children[..i], t)
      invariant r.items == Reversed(accepted)
      invariant Counts(h) == RetainAll(m, accepted)
      invariant Closed(h)
    {
      var inserted, next := InsertOne(r, children, i, accepted, h, m);
      accepted := next;
      i := i + 1;
    }
    assert children[..i] == children;
  }

  /** One round of the list constructor's loop: child `i` inserted at index 0. */
  method InsertOne(r: Tag, children: seq<Tag>, i: nat, ghost accepted: seq<Tag>, ghost h: set<Tag>,
                   ghost m: map<Tag, nat>)
    returns (inserted: bool, ghost next: seq<Tag>)
    requires Closed(h) && r in h && r.ttype == List && i < |children|
    requires children[i] in h && children[i].rank < r.rank
    requires accepted == OfType(children[..i], r.listType)
    requires r.items == Reversed(accepted)
    requires Counts(h) == RetainAll(m, accepted)
    modifies r`items, {children[i]}`refcount
    ensures inserted == (children[i].ttype == r.listType)
    ensures next == OfType(children[..i + 1], r.listType)
    ensures r.items == Reversed(next)
    ensures Counts(h) == RetainAll(m, next)
    ensures Closed(h)
  {
    var tag := children[i];
    InsertFrontStep(children, i, r.listType, accepted);
    inserted := r.ListInsert(0, tag, h);
    next := if inserted then accepted + [tag] else accepted;
    if inserted {
      InsertClampedFront(Reversed(accepted), tag);
      ReversedSnoc(accepted, tag);
      assert (accepted + [tag])[..|accepted|] == accepted;
    }
  }


  /** A Compound built by setting each pair in argument order. */
  method NewCompound(pairs: seq<Entry<Tag>>, ghost rank: nat, ghost heap: set<Tag>) returns (r: Tag)
    requires Closed(heap)
    requires forall i :: 0 <= i < |pairs| ==> pairs[i].value in heap && pairs[i].value.rank < rank
    modifies heap`refcount
    ensures fresh(r) && r.ttype == Compound && r.refcount == 0 && r.live && r.rank == rank
    ensures r.entries == PutAll([], pairs)
    ensures KeysUnique(r.entries)
    ensures forall k :: Lookup(r.entries, k) == LastValue(pairs, k)
    ensures forall x :: x in heap ==> x.refcount == old(x.refcount) + multiset(Values(pairs))[x]
    ensures Closed(heap + {r})
  {
    r := new Tag(Compound, rank);
    FillCompound(r, pairs, heap);
  }

  /**
   * The compound case of the constructor on a fresh Compound `r`: the argument loop, and what it
   * means for the cells and the counts.
   */
  method FillCompound(r: Tag, pairs: seq<Entry<Tag>>, ghost heap: set<Tag>)
    requires Closed(heap) && r !in heap && r.ttype == Compound && r.entries == [] && r.Children() == []
    requires forall i :: 0 <= i < |pairs| ==> pairs[i].value in heap && pairs[i].value.rank < r.rank
    modifies r`entries, heap`refcount
    ensures r.entries == PutAll([], pairs)
    ensures KeysUnique(r.entries)
    ensures forall k :: Lookup(r.entries, k) == LastValue(pairs, k)
    ensures forall x :: x in heap ==> x.refcount == old(x.refcount) + multiset(Values(pairs))[x]
    ensures Closed(heap + {r})
  {
    ghost var c0 := Counts(heap + {r});
    assert forall x :: x in heap ==> c0[x] == old(x.refcount);
    assert c0.Keys == heap + {r};
    SetEach(r, pairs, heap);
    BuiltFromPairs(pairs);
    RetainedCounts(heap, r, c0, Values(pairs));
  }

  /** The argument loop of the compound constructor: `set` for each pair, in order. */
  method SetEach(r: Tag, pairs: seq<Entry<Tag>>, ghost heap: set<Tag>)
    requires Closed(heap) && r !in heap && r.ttype == Compound && r.entries == [] && r.Children() == []
    requires forall i :: 0 <= i < |pairs| ==> pairs[i].value in heap && pairs[i].value.rank < r.rank
    modifies r`entries, heap`refcount
    ensures r.entries == PutAll([], pairs)
    ensures Counts(heap + {r}) == RetainAll(old(Counts(heap + {r})), Values(pairs))
    ensures Closed(heap + {r})
  {
    ghost var h := heap + {r};
    ghost var m := Counts(h);
    var i := 0;
    while i < |pairs|
      invariant 0 <= i <= |pairs|
      invariant r.entries == PutAll([], pairs[..i])
      invariant Counts(h) == RetainAll(m, Values(pairs[..i]))
      invariant Closed(h)
    {
      SetOne(r, pairs, i, h, m);
      i := i + 1;
    }
    assert pairs[..i] == pairs;
  }

  /** One round of the compound constructor's loop: `set` of the next pair. */
  method SetOne(r: Tag, pairs: seq<Entry<Tag>>, i: nat, ghost h: set<Tag>, ghost m: map<Tag, nat>)
    requires Closed(h) && r in h && r.ttype == Compound && i < |pairs|
    requires pairs[i].value in h && pairs[i].value.rank < r.rank
    requires r.entries == PutAll([], pairs[..i])
    requires Counts(h) == RetainAll(m, Values(pairs[..i]))
    modifies r`entries, pairs[i].value`refcount
    ensures r.entries == PutAll([], pairs[..i + 1])
    ensures Counts(h) == RetainAll(m, Values(pairs[..i + 1]))
    ensures Closed(h)
  {
    SetStep(m, pairs, i);
    var _ := r.CompoundSet(pairs[i].key, pairs[i].value, h);
  }

  /** One round of the compound constructor's loop on the pure side. */
  lemma SetStep(m: map<Tag, nat>, pairs: seq<Entry<Tag>>, i: nat)
    requires i < |pairs|
    ensures PutAll([], pairs[..i + 1]) == Put(PutAll([], pairs[..i]), pairs[i].key, pairs[i].value)
    ensures RetainAll(m, Values(pairs[..i + 1])) == Retain(RetainAll(m, Values(pairs[..i])), pairs[i].value)
  {
    PrefixSnoc(pairs, i);
    ValuesSnoc(pairs[..i], pairs[i]);
    assert Values(pairs[..i + 1])[..i] == Values(pairs[..i]);
  }

  // ----- iteration -----

  /**
   * A cursor is the chain of cells not yet visited, held by the caller. One step yields the
   * next cell and advances the cursor, or reports that none is left.
   */
  datatype Step<T> = Done | Yield(item: T, rest: seq<T>)

  /** Points a cursor at the first element of `t`; the cursor is left as it was when `t` is no List. */
  function ListIteratorInit(t: Tag, it: seq<Tag>): (r: seq<Tag>)
    reads t`items
    ensures t.ttype == List ==> r == t.Children()
    ensures t.ttype != List ==> r == it
  {
    if t.ttype == List then t.items else it
  }

  /** Points a cursor at the first cell of `t`; the cursor is left as it was when `t` is no Compound. */
  function CompoundIteratorInit(t: Tag, it: seq<Entry<Tag>>): (r: seq<Entry<Tag>>)
    reads t`entries
    ensures t.ttype == Compound ==> Values(r) == t.Children()
    ensures t.ttype != Compound ==> r == it
  {
    if t.ttype == Compound then t.entries else it
  }

  /** The step of a list or compound cursor: the element or cell it points at, and the cursor past it. */
  function IteratorNext<T>(it: seq<T>): (r: Step<T>)
    ensures r.Done? <==> it == []
    ensures r.Yield? ==> r.item == it[0] && r.rest == it[1..]
  {
    if it == [] then Done else Yield(it[0], it[1..])
  }

  /** Everything a cursor yields, stepping until it reports that none is left. */
  function Drain<T>(it: seq<T>): (r: seq<T>)
    ensures |r| == |it|
    decreases |it|
  {
    match IteratorNext(it)
    case Done => []
    case Yield(x, rest) => [x] + Drain(rest)
  }

  /** A cursor yields each remaining element exactly once, in link order, and then stops. */
  lemma {:induction false} DrainYieldsAll<T>(it: seq<T>)
    ensures Drain(it) == it
    decreases |it|
  {
    match IteratorNext(it)
    case Done =>
    case Yield(x, rest) => DrainYieldsAll(rest);
  }

  // ----- the ghost heap -----

  /** Every child of a node in `heap` is in `heap` and has a smaller rank: no cycles. */
  ghost predicate Closed(heap: set<Tag>)
    reads heap`items, heap`entries
  {
    forall t, c :: t in heap && c in t.Children() ==> c in heap && c.rank < t.rank
  }

  /** `Closed` for every node of `heap` but `t`; it does not depend on `t`'s own fields. */
  ghost predicate ClosedExcept(heap: set<Tag>, t: Tag)
    reads (heap - {t})`items, (heap - {t})`entries
  {
    forall u, c :: u in heap - {t} && c in u.Children() ==> c in heap && c.rank < u.rank
  }

  lemma OthersClosed(heap: set<Tag>, t: Tag)
    requires Closed(heap)
    ensures ClosedExcept(heap, t)
  {
  }

  /** The heap is closed once the one node left out is closed too. */
  lemma ClosedFrom(heap: set<Tag>, t: Tag)
    requires t in heap && ClosedExcept(heap, t)
    requires forall c :: c in t.Children() ==> c in heap && c.rank < t.rank
    ensures Closed(heap)
  {
    forall u, c | u in heap && c in u.Children() ensures c in heap && c.rank < u.rank {
      if u != t {
        ClosedAt(heap, t, u, c);
      }
    }
  }

  lemma ClosedAt(heap: set<Tag>, t: Tag, u: Tag, c: Tag)
    requires ClosedExcept(heap, t) && u in heap && u != t && c in u.Children()
    ensures c in heap && c.rank < u.rank
  {
    assert u in heap - {t};
  }

  /** The values of a compound node in a closed heap lie in the heap, below the node's rank. */
  lemma ValuesBelow(heap: set<Tag>, t: Tag)
    requires Closed(heap) && t in heap && t.ttype == Compound
    ensures forall c :: c in Values(t.entries) ==> c in heap && c.rank < t.rank
  {
    assert Values(t.entries) == t.Children();
  }

  lemma ChildInHeap(heap: set<Tag>, t: Tag, c: Tag)
    requires Closed(heap) && t in heap && c in t.Children()
    ensures c in heap && c.rank < t.rank
  {
  }

  /** Linking one more child of smaller rank into a list node keeps the heap closed. */
  lemma ClosedAfterLink(heap: set<Tag>, t: Tag, old_items: seq<Tag>, tag: Tag)
    requires t in heap && tag in heap && tag.rank < t.rank && t.ttype == List
    requires ClosedExcept(heap, t)
    requires forall c :: c in old_items ==> c in heap && c.rank < t.rank
    requires forall c :: c in t.items ==> c in old_items || c == tag
    ensures Closed(heap)
  {
    ClosedFrom(heap, t);
  }

  /** Dropping or reordering children of a list node keeps the heap closed. */
  lemma ClosedAfterUnlink(heap: set<Tag>, t: Tag, old_items: seq<Tag>)
    requires t in heap && t.ttype == List
    requires ClosedExcept(heap, t)
    requires forall c :: c in old_items ==> c in heap && c.rank < t.rank
    requires forall c :: c in t.items ==> c in old_items
    ensures Closed(heap)
  {
    ClosedFrom(heap, t);
  }

  /** Unlinking the first cell for `key` from a compound node keeps the heap closed. */
  lemma ClosedAfterDelete(heap: set<Tag>, t: Tag, old_entries: seq<Entry<Tag>>, key: string)
    requires t in heap && t.ttype == Compound
    requires t.entries == DeleteFirst(old_entries, key)
    requires ClosedExcept(heap, t)
    requires forall c :: c in Values(old_entries) ==> c in heap && c.rank < t.rank
    ensures Closed(heap)
  {
    DeleteFirstValues(old_entries, key);
    ClosedFrom(heap, t);
  }

  /** Pushing a cell whose value has a smaller rank on the front of a compound keeps the heap closed. */
  lemma ClosedAfterPush(heap: set<Tag>, t: Tag, old_entries: seq<Entry<Tag>>, value: Tag)
    requires t in heap && value in heap && value.rank < t.rank && t.ttype == Compound
    requires t.entries != [] && t.entries[0].value == value && t.entries[1..] == old_entries
    requires ClosedExcept(heap, t)
    requires forall c :: c in Values(old_entries) ==> c in heap && c.rank < t.rank
    ensures Closed(heap)
  {
    ValuesTail(t.entries);
    forall c | c in Values(t.entries) ensures c in heap && c.rank < t.rank {
      if c != value {
        assert c in Values(t.entries)[1..];
      }
    }
    ClosedFrom(heap, t);
  }

  /** The value of the first cell with key `key`, or null. */
  function ValueOf(es: seq<Entry<Tag>>, key: string): (r: Tag?)
    ensures r != null <==> HasKey(es, key)
    ensures r != null ==> r in Values(es)
  {
    match Lookup(es, key)
    case Some(v) =>
      var i := FirstIndex(es, key);
      assert Values(es)[i] == v;
      v
    case None => null
  }

  /** After `set(key, value)` the key finds `value`, and a key-unique compound stays key-unique. */
  lemma ValueOfPut(es: seq<Entry<Tag>>, key: string, value: Tag)
    ensures ValueOf(Put(es, key, value), key) == value
    ensures KeysUnique(es) ==> KeysUnique(Put(es, key, value))
    ensures KeysUnique(es) ==> forall i :: 0 < i < |Put(es, key, value)| ==> Put(es, key, value)[i].key != key
  {
    PutThenLookup(es, key, value);
    if KeysUnique(es) {
      PutUnique(es, key, value);
    }
  }

  // ----- specification of the recursive walks -----

  /** The node reached by following `keys` from `t` through compound lookups. */
  ghost function Chain(t: Tag?, keys: seq<string>, heap: set<Tag>): (r: Tag?)
    requires Closed(heap) && (t != null ==> t in heap)
    reads heap`items, heap`entries
    ensures r != null ==> r in heap
    decreases |keys|
  {
    if t == null || keys == [] then t
    else if t.ttype != Compound then null
    else
      var next := ValueOf(t.entries, keys[0]);
      assert next != null ==> next in t.Children();
      Chain(next, keys[1..], heap)
  }

  /** One lookup of the chain from a Compound node. */
  lemma ChainStep(t: Tag, keys: seq<string>, k: nat, heap: set<Tag>)
    requires Closed(heap) && t in heap && t.ttype == Compound && k < |keys|
    ensures ValueOf(t.entries, keys[k]) != null ==> ValueOf(t.entries, keys[k]) in heap
    ensures Chain(t, keys[k..], heap) == Chain(ValueOf(t.entries, keys[k]), keys[k + 1..], heap)
  {
    assert keys[k..][1..] == keys[k + 1..];
  }

  /** What `find` returns for the node `t`. */
  ghost function FindSpec(t: Tag, name: string, heap: set<Tag>): (r: Tag?)
    requires Closed(heap) && t in heap
    reads heap`items, heap`entries
    ensures r != null ==> r in heap
    decreases t.rank, 1
  {
    if t.ttype == List then FindFirst(t.items, name, heap, t.rank)
    else if t.ttype == Compound then
      if HasKey(t.entries, name) then
        var v := ValueOf(t.entries, name);
        ChildInHeap(heap, t, v);
        v
      else FindFirst(Values(t.entries), name, heap, t.rank)
    else null
  }

  /** The first non-null search result among `cs`, in order. */
  ghost function FindFirst(cs: seq<Tag>, name: string, heap: set<Tag>, bound: nat): (r: Tag?)
    requires Closed(heap) && forall c :: c in cs ==> c in heap && c.rank < bound
    reads heap`items, heap`entries
    ensures r != null ==> r in heap
    decreases bound, 0, |cs|
  {
    if cs == [] then null
    else
      var r := FindSpec(cs[0], name, heap);
      if r != null then r else FindFirst(cs[1..], name, heap, bound)
  }

  /** The search of `cs` asks its first node, then moves on to the rest on a miss. */
  lemma FindFirstStep(cs: seq<Tag>, name: string, heap: set<Tag>, bound: nat)
    requires Closed(heap) && cs != [] && forall c :: c in cs ==> c in heap && c.rank < bound
    ensures cs[0] in heap && cs[0].rank < bound
    ensures forall c :: c in cs[1..] ==> c in heap && c.rank < bound
    ensures FindFirst(cs, name, heap, bound) ==
            var r := FindSpec(cs[0], name, heap);
            if r != null then r else FindFirst(cs[1..], name, heap, bound)
  {
  }

  /** `FindFirstStep` for the values of a compound's cells. */
  lemma FindValuesStep(es: seq<Entry<Tag>>, name: string, heap: set<Tag>, bound: nat)
    requires Closed(heap) && es != [] && forall c :: c in Values(es) ==> c in heap && c.rank < bound
    ensures es[0].value in heap && es[0].value.rank < bound
    ensures forall c :: c in Values(es[1..]) ==> c in heap && c.rank < bound
    ensures FindFirst(Values(es), name, heap, bound) ==
            var r := FindSpec(es[0].value, name, heap);
            if r != null then r else FindFirst(Values(es[1..]), name, heap, bound)
  {
    ValuesTail(es);
    FindFirstStep(Values(es), name, heap, bound);
  }

  // ----- specification of retain and release -----

  /** The reference count of every node of a heap. */
  ghost function Counts(heap: set<Tag>): map<Tag, nat>
    reads heap`refcount
  {
    map t | t in heap :: t.refcount
  }

  /** The effect of one `ref` of `t` on the counts. */
  function Retain(m: map<Tag, nat>, t: Tag): (r: map<Tag, nat>)
    ensures r.Keys == m.Keys
  {
    if t in m then m[t := m[t] + 1] else m
  }

  /** One `ref` of each of `cs`, first to last. */
  function RetainAll(m: map<Tag, nat>, cs: seq<Tag>): (r: map<Tag, nat>)
    ensures r.Keys == m.Keys
  {
    if cs == [] then m else Retain(RetainAll(m, cs[..|cs| - 1]), cs[|cs| - 1])
  }

  /** Retaining each of `cs` adds to every count the number of times its node occurs in `cs`. */
  lemma {:induction false} RetainAllCount(m: map<Tag, nat>, cs: seq<Tag>, x: Tag)
    requires x in m
    ensures RetainAll(m, cs)[x] == m[x] + multiset(cs)[x]
  {
    if cs != [] {
      var init := cs[..|cs| - 1];
      RetainAllCount(m, init, x);
      assert cs == init + [cs[|cs| - 1]];
    }
  }

  /** The counts of the nodes of `heap` once `r`, a node outside it, has retained each of `cs`. */
  lemma RetainedCounts(heap: set<Tag>, r: Tag, c0: map<Tag, nat>, cs: seq<Tag>)
    requires r !in heap && c0.Keys == heap + {r}
    requires Counts(heap + {r}) == RetainAll(c0, cs)
    ensures forall x :: x in heap ==> x.refcount == c0[x] + multiset(cs)[x]
  {
    forall x | x in heap ensures x.refcount == c0[x] + multiset(cs)[x] {
      RetainAllCount(c0, cs, x);
      assert Counts(heap + {r})[x] == x.refcount;
    }
  }

  /** Reference counts and freed nodes, for the nodes of a heap. */
  datatype RcState = RcState(rc: map<Tag, nat>, dead: set<Tag>)

  ghost function Snapshot(heap: set<Tag>): RcState
    reads heap`refcount, heap`live
  {
    RcState(Counts(heap), set t | t in heap && !t.live)
  }

  /** The effect of one `unref` of `t` on the counts and the freed set. */
  ghost function Release(t: Tag, s: RcState, heap: set<Tag>): (r: RcState)
    requires Closed(heap) && t in heap
    reads heap`items, heap`entries
    ensures t in r.rc && s.rc.Keys <= r.rc.Keys
    decreases t.rank, 1
  {
    var n := if t in s.rc && s.rc[t] > 0 then s.rc[t] - 1 else 0;
    var s1 := s.(rc := s.rc[t := n]);
    if n > 0 then s1
    else
      var s2 := ReleaseAll(t.Children(), s1, heap, t.rank);
      s2.(dead := s2.dead + {t})
  }

  /** One `unref` of each of `cs`, first to last. */
  ghost function ReleaseAll(cs: seq<Tag>, s: RcState, heap: set<Tag>, bound: nat): (r: RcState)
    requires Closed(heap) && forall c :: c in cs ==> c in heap && c.rank < bound
    reads heap`items, heap`entries
    ensures s.rc.Keys <= r.rc.Keys && forall c :: c in cs ==> c in r.rc
    decreases bound, 0, |cs|
  {
    if cs == [] then s
    else
      var init := cs[..|cs| - 1];
      assert forall c :: c in init ==> c in cs;
      Release(cs[|cs| - 1], ReleaseAll(init, s, heap, bound), heap)
  }

  /** Release never looks at the freed set: marking nodes freed beforehand commutes with it. */
  lemma {:induction false} ReleaseDead(t: Tag, s: RcState, heap: set<Tag>, x: set<Tag>)
    requires Closed(heap) && t in heap
    ensures var r := Release(t, s, heap);
            Release(t, s.(dead := s.dead + x), heap) == r.(dead := r.dead + x)
    decreases t.rank, 1
  {
    var n := if t in s.rc && s.rc[t] > 0 then s.rc[t] - 1 else 0;
    if n == 0 {
      ReleaseAllDead(t.Children(), s.(rc := s.rc[t := n]), heap, t.rank, x);
    }
  }

  lemma {:induction false} ReleaseAllDead(cs: seq<Tag>, s: RcState, heap: set<Tag>, bound: nat, x: set<Tag>)
    requires Closed(heap) && forall c :: c in cs ==> c in heap && c.rank < bound
    ensures var r := ReleaseAll(cs, s, heap, bound);
            ReleaseAll(cs, s.(dead := s.dead + x), heap, bound) == r.(dead := r.dead + x)
    decreases bound, 0, |cs|
  {
    if cs != [] {
      var init := cs[..|cs| - 1];
      assert forall c :: c in init ==> c in cs;
      ReleaseAllDead(init, s, heap, bound, x);
      ReleaseDead(cs[|cs| - 1], ReleaseAll(init, s, heap, bound), heap, x);
    }
  }
}
