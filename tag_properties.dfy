/**
 * Properties of the tag tree's specification functions: what a search finds and misses, how a
 * chain of lookups composes, which nodes a release can touch, and how the constructors treat
 * their arguments.
 */
module TagProperties {
  import opened Wrappers
  import opened TagTypes
  import opened Entries
  import opened Tags

  /** The nodes reachable from `t` through owning edges, `t` included. */
  ghost function Reach(t: Tag, heap: set<Tag>): (r: set<Tag>)
    requires Closed(heap) && t in heap
    reads heap`items, heap`entries
    ensures t in r && r <= heap
    ensures forall u :: u in r ==> u.rank <= t.rank
    decreases t.rank
  {
    {t} + set c, u | c in t.Children() && u in Reach(c, heap) :: u
  }

  lemma ReachChild(t: Tag, c: Tag, heap: set<Tag>)
    requires Closed(heap) && t in heap && c in t.Children()
    ensures Reach(c, heap) <= Reach(t, heap)
  {
  }

  /** A Compound node that holds a cell keyed `name`: a direct hit for the search. */
  ghost predicate Hit(u: Tag, name: string)
    reads u`entries
  {
    u.ttype == Compound && HasKey(u.entries, name)
  }

  // ----- find -----

  /** Whatever the search returns is the value of a cell keyed `name` in a node reachable from `t`. */
  lemma {:induction false} FindSound(t: Tag, name: string, heap: set<Tag>)
    requires Closed(heap) && t in heap
    ensures FindSpec(t, name, heap) != null ==>
              exists u :: u in Reach(t, heap) && Hit(u, name) && ValueOf(u.entries, name) == FindSpec(t, name, heap)
    decreases t.rank, 1
  {
    var r := FindSpec(t, name, heap);
    if r != null {
      if t.ttype == List {
        FindFirstSound(t.items, name, heap, t.rank);
        var c, u :| c in t.items && u in Reach(c, heap) && Hit(u, name) && ValueOf(u.entries, name) == r;
        assert c in t.Children();
        assert u in Reach(t, heap);
      } else if t.ttype == Compound && HasKey(t.entries, name) {
        assert Hit(t, name) && t in Reach(t, heap);
      } else if t.ttype == Compound {
        FindFirstSound(Values(t.entries), name, heap, t.rank);
        var c, u :| c in Values(t.entries) && u in Reach(c, heap) && Hit(u, name) && ValueOf(u.entries, name) == r;
        assert c in t.Children();
        assert u in Reach(t, heap);
      }
    }
  }

  lemma {:induction false} FindFirstSound(cs: seq<Tag>, name: string, heap: set<Tag>, bound: nat)
    requires Closed(heap) && forall c :: c in cs ==> c in heap && c.rank < bound
    ensures FindFirst(cs, name, heap, bound) != null ==>
              exists c, u :: c in cs && u in Reach(c, heap) && Hit(u, name)
                             && ValueOf(u.entries, name) == FindFirst(cs, name, heap, bound)
    decreases bound, 0, |cs|
  {
    if cs != [] {
      var r := FindFirst(cs, name, heap, bound);
      if FindSpec(cs[0], name, heap) != null {
        FindSound(cs[0], name, heap);
        var u :| u in Reach(cs[0], heap) && Hit(u, name) && ValueOf(u.entries, name) == r;
        assert cs[0] in cs;
      } else {
        FindFirstSound(cs[1..], name, heap, bound);
        if r != null {
          var c, u :| c in cs[1..] && u in Reach(c, heap) && Hit(u, name) && ValueOf(u.entries, name) == r;
          assert c in cs;
        }
      }
    }
  }

  /** When the search returns null, no node reachable from `t` holds a cell keyed `name`. */
  lemma {:induction false} FindComplete(t: Tag, name: string, heap: set<Tag>)
    requires Closed(heap) && t in heap
    ensures FindSpec(t, name, heap) == null ==> forall u :: u in Reach(t, heap) ==> !Hit(u, name)
    decreases t.rank, 1
  {
    if FindSpec(t, name, heap) == null {
      FindFirstComplete(t.Children(), name, heap, t.rank);
      forall u | u in Reach(t, heap) ensures !Hit(u, name) {
        if u != t {
          var c :| c in t.Children() && u in Reach(c, heap);
        }
      }
    }
  }

  lemma {:induction false} FindFirstComplete(cs: seq<Tag>, name: string, heap: set<Tag>, bound: nat)
    requires Closed(heap) && forall c :: c in cs ==> c in heap && c.rank < bound
    ensures FindFirst(cs, name, heap, bound) == null ==>
              forall c, u :: c in cs && u in Reach(c, heap) ==> !Hit(u, name)
    decreases bound, 0, |cs|
  {
    if cs != [] && FindFirst(cs, name, heap, bound) == null {
      FindComplete(cs[0], name, heap);
      FindFirstComplete(cs[1..], name, heap, bound);
      forall c, u | c in cs && u in Reach(c, heap) ensures !Hit(u, name) {
        if c != cs[0] {
          assert c in cs[1..];
        }
      }
    }
  }

  /** The search finds something exactly when some reachable node holds a cell keyed `name`. */
  lemma FindSomethingIff(t: Tag, name: string, heap: set<Tag>)
    requires Closed(heap) && t in heap
    ensures FindSpec(t, name, heap) != null <==> exists u :: u in Reach(t, heap) && Hit(u, name)
  {
    FindSound(t, name, heap);
    FindComplete(t, name, heap);
  }

  // ----- chained lookup -----

  /** Following `a + b` is following `a`, then `b` from wherever `a` led. */
  lemma {:induction false} ChainAppend(t: Tag?, a: seq<string>, b: seq<string>, heap: set<Tag>)
    requires Closed(heap) && (t != null ==> t in heap)
    ensures Chain(t, a + b, heap) == Chain(Chain(t, a, heap), b, heap)
    decreases |a|
  {
    if t != null && a != [] {
      assert (a + b)[0] == a[0] && (a + b)[1..] == a[1..] + b;
      if t.ttype == Compound {
        ChainAppend(ValueOf(t.entries, a[0]), a[1..], b, heap);
      } else {
        assert Chain(t, a + b, heap) == null;
        ChainNull(b, heap);
      }
    } else if t == null {
      ChainNull(a + b, heap);
      ChainNull(b, heap);
    } else {
      assert a + b == b;
    }
  }

  /** Nothing is reached from a missing node. */
  lemma ChainNull(keys: seq<string>, heap: set<Tag>)
    requires Closed(heap)
    ensures Chain(null, keys, heap) == null
  {
  }

  /** A chain of one key is one lookup. */
  lemma ChainOne(t: Tag, key: string, heap: set<Tag>)
    requires Closed(heap) && t in heap && t.ttype == Compound
    ensures Chain(t, [key], heap) == ValueOf(t.entries, key)
  {
    assert [key][1..] == [];
  }

  // ----- release -----

  /** A release of `t` changes the count and the freed state of no node outside `Reach(t)`. */
  lemma {:induction false} ReleaseUntouched(t: Tag, s: RcState, heap: set<Tag>, x: Tag)
    requires Closed(heap) && t in heap && x !in Reach(t, heap)
    ensures var r := Release(t, s, heap);
            (x in r.rc <==> x in s.rc) && (x in s.rc ==> r.rc[x] == s.rc[x]) && (x in r.dead <==> x in s.dead)
    decreases t.rank, 1
  {
    var n := if t in s.rc && s.rc[t] > 0 then s.rc[t] - 1 else 0;
    if n == 0 {
      var cs := t.Children();
      forall c | c in cs ensures x !in Reach(c, heap) {
        ReachChild(t, c, heap);
      }
      ReleaseAllUntouched(cs, s.(rc := s.rc[t := n]), heap, t.rank, x);
    }
  }

  lemma {:induction false} ReleaseAllUntouched(cs: seq<Tag>, s: RcState, heap: set<Tag>, bound: nat, x: Tag)
    requires Closed(heap) && forall c :: c in cs ==> c in heap && c.rank < bound
    requires forall c :: c in cs ==> x !in Reach(c, heap)
    ensures var r := ReleaseAll(cs, s, heap, bound);
            (x in r.rc <==> x in s.rc) && (x in s.rc ==> r.rc[x] == s.rc[x]) && (x in r.dead <==> x in s.dead)
    decreases bound, 0, |cs|
  {
    if cs != [] {
      var init := cs[..|cs| - 1];
      assert forall c :: c in init ==> c in cs;
      ReleaseAllUntouched(init, s, heap, bound, x);
      ReleaseUntouched(cs[|cs| - 1], ReleaseAll(init, s, heap, bound), heap, x);
    }
  }

  /** A retained node loses one reference and nothing else happens. */
  lemma ReleaseRetained(t: Tag, s: RcState, heap: set<Tag>)
    requires Closed(heap) && t in heap && t in s.rc && s.rc[t] >= 2
    ensures Release(t, s, heap) == s.(rc := s.rc[t := s.rc[t] - 1])
  {
  }

  /**
   * A node whose count is 0 or 1 is freed by one release, and its count is then 0: a floating
   * node and a node retained once are freed alike, and freeing its children never reaches it.
   */
  lemma ReleaseFrees(t: Tag, s: RcState, heap: set<Tag>)
    requires Closed(heap) && t in heap && (t in s.rc ==> s.rc[t] <= 1)
    ensures var r := Release(t, s, heap); t in r.dead && t in r.rc && r.rc[t] == 0
  {
    var s1 := s.(rc := s.rc[t := 0]);
    forall c | c in t.Children() ensures t !in Reach(c, heap) {
    }
    ReleaseAllUntouched(t.Children(), s1, heap, t.rank, t);
  }

  /** Release never brings a freed node back. */
  lemma {:induction false} ReleaseKeepsDead(t: Tag, s: RcState, heap: set<Tag>)
    requires Closed(heap) && t in heap
    ensures s.dead <= Release(t, s, heap).dead
    decreases t.rank, 1
  {
    var n := if t in s.rc && s.rc[t] > 0 then s.rc[t] - 1 else 0;
    if n == 0 {
      ReleaseAllKeepsDead(t.Children(), s.(rc := s.rc[t := n]), heap, t.rank);
    }
  }

  lemma {:induction false} ReleaseAllKeepsDead(cs: seq<Tag>, s: RcState, heap: set<Tag>, bound: nat)
    requires Closed(heap) && forall c :: c in cs ==> c in heap && c.rank < bound
    ensures s.dead <= ReleaseAll(cs, s, heap, bound).dead
    decreases bound, 0, |cs|
  {
    if cs != [] {
      var init := cs[..|cs| - 1];
      assert forall c :: c in init ==> c in cs;
      ReleaseAllKeepsDead(init, s, heap, bound);
      ReleaseKeepsDead(cs[|cs| - 1], ReleaseAll(init, s, heap, bound), heap);
    }
  }

  // ----- construction -----

  /** Every child of the list's element kind is kept: the converse of `OfType`'s own contract. */
  lemma {:induction false} OfTypeKeeps(cs: seq<Tag>, t: TagType)
    ensures forall c :: c in cs && c.ttype == t ==> c in OfType(cs, t)
  {
    if cs != [] {
      var init := cs[..|cs| - 1];
      OfTypeKeeps(init, t);
      assert cs == init + [cs[|cs| - 1]];
    }
  }

  /** Children that all share the first child's kind are all kept, in argument order. */
  lemma {:induction false} OfTypeAll(cs: seq<Tag>, t: TagType)
    requires forall i :: 0 <= i < |cs| ==> cs[i].ttype == t
    ensures OfType(cs, t) == cs
  {
    if cs != [] {
      var init := cs[..|cs| - 1];
      OfTypeAll(init, t);
      assert cs == init + [cs[|cs| - 1]];
    }
  }
}
