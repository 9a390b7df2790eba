/** Properties relating the entry-collection operations to each other:
    invariant preservation, lookup after insertion and removal, and the
    consequences of removal leaving the search tree untouched. */
module VmMapProperties {
  import opened VmTypes
  import opened VmMapEntries

  /** The range [start, end) shares no address with any listed entry. */
  predicate RangeFree(list: seq<Entry>, start: Addr, end: Addr) {
    forall e :: e in list ==> e.end <= start || end <= e.start
  }

  /** While the tree and list agree, every insertion is defined. */
  lemma CoherentInsertDefined(m: VmMap, s: Addr)
    requires Coherent(m)
    ensures InsertDefined(m, s)
  {
  }

  /** Adding an entry keeps the map invariant. */
  lemma AddPreservesWf(m: VmMap, start: Addr, end: Addr, prot: Prot)
    requires Wf(m) && InsertDefined(m, start)
    ensures var r := AddEntry(m, start, end, prot);
      r.Added? ==> Wf(r.after)
  {
    var r := AddEntry(m, start, end, prot);
    if r.Added? && start !in m.tree {
      forall e | e in r.after.list
        ensures FitsIn(e.start, e.end, m.pmap)
      {
        assert e in multiset(r.after.list);
        if e != r.entry {
          assert e in multiset(m.list);
        }
      }
    }
  }

  /** Adding an entry keeps the tree and list in agreement. */
  lemma AddPreservesCoherent(m: VmMap, start: Addr, end: Addr, prot: Prot)
    requires Coherent(m)
    ensures InsertDefined(m, start)
    ensures var r := AddEntry(m, start, end, prot);
      r.Added? ==> Coherent(r.after)
  {
    CoherentInsertDefined(m, start);
    AddPreservesWf(m, start, end, prot);
  }

  /** Removing an entry keeps the map invariant (but see RemoveLeavesStaleStart). */
  lemma RemovePreservesWf(m: VmMap, i: nat)
    requires Wf(m) && i < |m.list|
    ensures Wf(RemoveEntry(m, i))
  {
  }

  /** After a removal the tree still holds the removed start although no
      listed entry has it: the tree and list no longer agree. */
  lemma RemoveLeavesStaleStart(m: VmMap, i: nat)
    requires Coherent(m) && i < |m.list|
    ensures var r := RemoveEntry(m, i);
      m.list[i].start in r.tree && m.list[i].start !in Starts(r.list) && !Coherent(r)
  {
  }

  /** In a map without overlaps, lookup finds the one entry holding the address. */
  lemma {:induction false} FindInNonOverlapping(list: seq<Entry>, i: nat, a: Addr)
    requires NonOverlapping(list) && i < |list| && Contains(list[i], a)
    ensures FindEntry(list, a) == Some(i)
  {
  }

  /** After removing entry `i` of a map without overlaps, no address of its range is found. */
  lemma RemoveThenFind(m: VmMap, i: nat, a: Addr)
    requires NonOverlapping(m.list) && i < |m.list| && Contains(m.list[i], a)
    ensures FindEntry(RemoveEntry(m, i).list, a).None?
  {
  }

  /** An entry placed at position `k` holding `a`, among entries none of which
      holds `a`, is what lookup finds; unlinking it gives back the list. */
  lemma {:induction false} FindAfterInsertion(list: seq<Entry>, k: nat, e: Entry, a: Addr)
    requires k <= |list| && Contains(e, a)
    requires forall j :: 0 <= j < |list| ==> !Contains(list[j], a)
    ensures var list' := list[..k] + [e] + list[k..];
      FindEntry(list', a) == Some(k) && list'[..k] + list'[k + 1..] == list
  {
    var list' := list[..k] + [e] + list[k..];
    assert list'[k] == e;
    forall j | 0 <= j < k
      ensures !Contains(list'[j], a)
    {
      assert list'[j] == list[j];
    }
    assert list'[..k] == list[..k];
    assert list'[k + 1..] == list[k..];
  }

  /** Adding a range that overlaps nothing and whose start is free, then
      looking up any of its addresses, finds the new entry; removing it
      restores the original list and counter, after which the address is
      not found. */
  lemma AddFindRemoveRoundTrip(m: VmMap, start: Addr, end: Addr, prot: Prot, a: Addr)
    requires Wf(m) && InsertDefined(m, start) && start !in m.tree
    requires FitsIn(start, end, m.pmap) && RangeFree(m.list, start, end)
    requires start <= a < end
    ensures var r := AddEntry(m, start, end, prot);
      && r.Added?
      && var f := FindEntry(r.after.list, a);
      && f.Some? && r.after.list[f.value] == r.entry
      && var back := RemoveEntry(r.after, f.value);
      && back.list == m.list && back.nentries == m.nentries
      && FindEntry(back.list, a).None?
  {
    var entry := Entry(start, end, prot, None);
    var k := InsertPosition(m, start);
    forall j | 0 <= j < |m.list|
      ensures !Contains(m.list[j], a)
    {
      assert m.list[j] in m.list;
    }
    FindAfterInsertion(m.list, k, entry, a);
  }

  /** Linking `e` at slot `k` of a disjoint list, after every entry that ends
      by its start and before every entry that starts after its end, keeps
      the list disjoint. */
  lemma InsertionNonOverlapping(list: seq<Entry>, k: nat, e: Entry)
    requires k <= |list| && NonOverlapping(list) && e.start <= e.end
    requires forall j :: 0 <= j < k ==> list[j].end <= e.start
    requires forall j :: k <= j < |list| ==> e.end <= list[j].start
    ensures NonOverlapping(list[..k] + [e] + list[k..])
  {
    var list' := list[..k] + [e] + list[k..];
    forall i, j | 0 <= i < j < |list'|
      ensures list'[i].end <= list'[j].start
    {
      if j < k {
        assert list'[i] == list[i] && list'[j] == list[j];
      } else if j == k {
        assert list'[i] == list[i];
      } else if i == k {
        assert list'[j] == list[j - 1];
      } else if i < k {
        assert list'[i] == list[i] && list'[j] == list[j - 1];
        assert list[i].end <= e.start <= e.end <= list[j - 1].start;
      } else {
        assert list'[i] == list[i - 1] && list'[j] == list[j - 1];
      }
    }
  }

  /** Adding a non-empty range that overlaps nothing to a map of non-empty,
      disjoint entries keeps the entries disjoint. */
  lemma AddPreservesNonOverlapping(m: VmMap, start: Addr, end: Addr, prot: Prot)
    requires Wf(m) && InsertDefined(m, start)
    requires NonOverlapping(m.list) && RangeFree(m.list, start, end) && start < end
    requires forall e :: e in m.list ==> e.start < e.end
    ensures var r := AddEntry(m, start, end, prot);
      r.Added? ==> NonOverlapping(r.after.list)
  {
    if FitsIn(start, end, m.pmap) && start !in m.tree {
      var k := InsertPosition(m, start);
      forall j | 0 <= j < k
        ensures m.list[j].end <= start
      {
        assert m.list[j] in m.list;
      }
      forall j | k <= j < |m.list|
        ensures end <= m.list[j].start
      {
        assert m.list[j] in m.list;
      }
      InsertionNonOverlapping(m.list, k, Entry(start, end, prot, None));
    }
  }

  /** In a disjoint list with `e` linked at slot `k`, an address of `e` finds
      `e`, an address of an old entry finds that entry, and an address held
      by neither finds nothing. */
  lemma FindAfterDisjointInsertion(list: seq<Entry>, k: nat, e: Entry, a: Addr)
    requires k <= |list| && NonOverlapping(list[..k] + [e] + list[k..])
    ensures var list' := list[..k] + [e] + list[k..];
      && (Contains(e, a) ==> FindEntry(list', a) == Some(k))
      && (forall i :: 0 <= i < |list| && Contains(list[i], a) ==>
            var f := FindEntry(list', a); f.Some? && list'[f.value] == list[i])
      && (!Contains(e, a) && (forall i :: 0 <= i < |list| ==> !Contains(list[i], a)) ==>
            FindEntry(list', a).None?)
  {
    var list' := list[..k] + [e] + list[k..];
    assert list'[k] == e;
    if Contains(e, a) {
      FindInNonOverlapping(list', k, a);
    }
    forall i | 0 <= i < |list| && Contains(list[i], a)
      ensures var f := FindEntry(list', a); f.Some? && list'[f.value] == list[i]
    {
      var i' := if i < k then i else i + 1;
      assert list'[i'] == list[i];
      FindInNonOverlapping(list', i', a);
    }
    if !Contains(e, a) && (forall i :: 0 <= i < |list| ==> !Contains(list[i], a)) {
      forall j | 0 <= j < |list'|
        ensures !Contains(list'[j], a)
      {
        if j < k {
          assert list'[j] == list[j];
        } else if j > k {
          assert list'[j] == list[j - 1];
        }
      }
    }
  }

  /** After such an add, lookup finds the new entry anywhere in its range,
      still finds every earlier entry anywhere in its range, and finds
      nothing at an address that neither the new range nor any earlier entry
      holds. With AddPreservesNonOverlapping this chains over any sequence of
      adds. */
  lemma AddThenFind(m: VmMap, start: Addr, end: Addr, prot: Prot, a: Addr)
    requires Wf(m) && InsertDefined(m, start) && start !in m.tree
    requires FitsIn(start, end, m.pmap)
    requires NonOverlapping(m.list) && RangeFree(m.list, start, end) && start < end
    requires forall e :: e in m.list ==> e.start < e.end
    ensures var r := AddEntry(m, start, end, prot);
      && r.Added?
      && (start <= a < end ==>
            var f := FindEntry(r.after.list, a); f.Some? && r.after.list[f.value] == r.entry)
      && (forall i :: 0 <= i < |m.list| && Contains(m.list[i], a) ==>
            var f := FindEntry(r.after.list, a); f.Some? && r.after.list[f.value] == m.list[i])
      && ((a < start || end <= a) && (forall i :: 0 <= i < |m.list| ==> !Contains(m.list[i], a)) ==>
            FindEntry(r.after.list, a).None?)
  {
    var k := InsertPosition(m, start);
    AddPreservesNonOverlapping(m, start, end, prot);
    FindAfterDisjointInsertion(m.list, k, Entry(start, end, prot, None), a);
  }

  /** Because removal leaves the start in the tree, adding a range at that
      start again returns an entry that is never linked: the map is unchanged
      and the address stays unmapped. */
  lemma ReAddAfterRemoveNotLinked(m: VmMap, i: nat, end: Addr, prot: Prot)
    requires Coherent(m) && NonOverlapping(m.list) && i < |m.list|
    requires m.list[i].start < m.list[i].end
    requires FitsIn(m.list[i].start, end, m.pmap)
    ensures var r := RemoveEntry(m, i);
      && InsertDefined(r, m.list[i].start)
      && AddEntry(r, m.list[i].start, end, prot) == Added(r, Entry(m.list[i].start, end, prot, None))
      && FindEntry(r.list, m.list[i].start).None?
  {
  }
}
