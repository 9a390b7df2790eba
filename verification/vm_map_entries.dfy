/** The entry collection of one address-space map: the address-ordered list of
    entries, the search tree abstracted to the set of start addresses it holds,
    the entry counter, and the log of backing objects handed to vm_object_free. */
module VmMapEntries {
  import opened VmTypes

  /** vm_map_entry_t: the range [start, end), its protection and its backing
      object (None is a NULL object pointer). */
  datatype Entry = Entry(start: Addr, end: Addr, prot: Prot, obj: Option<ObjId>)

  predicate Contains(e: Entry, a: Addr) {
    e.start <= a < e.end
  }

  /** vm_map_t. `list` is the TAILQ, `tree` the starts held by the splay tree,
      `nentries` the counter, `released` the objects freed so far, in order. */
  datatype VmMap = VmMap(pmap: Pmap, list: seq<Entry>, tree: set<Addr>,
                         nentries: int, released: seq<Option<ObjId>>)

  function Starts(list: seq<Entry>): set<Addr> {
    set e | e in list :: e.start
  }

  /** The list is strictly increasing in `start`. */
  predicate Sorted(list: seq<Entry>) {
    forall i, j :: 0 <= i < j < |list| ==> list[i].start < list[j].start
  }

  /** No two listed entries share an address. */
  predicate NonOverlapping(list: seq<Entry>) {
    forall i, j :: 0 <= i < j < |list| ==> list[i].end <= list[j].start
  }

  /** The conditions vm_map_add_entry asserts of every range it accepts. */
  predicate FitsIn(start: Addr, end: Addr, pmap: Pmap) {
    pmap.start <= start && end <= pmap.end && Aligned(start) && Aligned(end)
  }

  /** The invariant every reachable map keeps: a sorted list whose starts
      the tree still holds, a counter equal to the list length, and only
      ranges that vm_map_add_entry accepts. */
  predicate Wf(m: VmMap) {
    && Sorted(m.list)
    && Starts(m.list) <= m.tree
    && m.nentries == |m.list|
    && forall e :: e in m.list ==> FitsIn(e.start, e.end, m.pmap)
  }

  /** Wf, and the tree holds exactly the listed starts (true until an entry is removed). */
  predicate Coherent(m: VmMap) {
    Wf(m) && Starts(m.list) == m.tree
  }

  /** A freshly set-up map (vm_map_setup): empty list and tree. */
  function EmptyMap(pmap: Pmap): (m: VmMap)
    ensures Coherent(m)
    ensures m.pmap == pmap && |m.list| == 0 && |m.released| == 0
  {
    VmMap(pmap, [], {}, 0, [])
  }

  /** vm_map_entry_cmp: orders entries by start. */
  function EntryCmp(a: Entry, b: Entry): (r: int)
    ensures r < 0 <==> a.start < b.start
    ensures r == 0 <==> a.start == b.start
    ensures r > 0 <==> a.start > b.start
  {
    if a.start < b.start then -1 else a.start - b.start
  }

  lemma {:induction false} MinExists(s: set<Addr>)
    requires s != {}
    ensures exists t :: t in s && forall u :: u in s ==> t <= u
    decreases s
  {
    var x :| x in s;
    var rest := s - {x};
    assert forall u :: u in s ==> u == x || u in rest;
    if rest == {} {
      assert forall u :: u in s ==> u == x;
    } else {
      MinExists(rest);
      var y :| y in rest && forall u :: u in rest ==> y <= u;
      if x <= y {
        assert forall u :: u in s ==> x <= u;
      } else {
        assert forall u :: u in s ==> y <= u;
      }
    }
  }

  /** SPLAY_NEXT: the least start in the tree above `s`, if any. */
  function Successor(tree: set<Addr>, s: Addr): (r: Option<Addr>)
    ensures r.None? <==> forall t :: t in tree ==> t <= s
    ensures r.Some? ==> r.value in tree && s < r.value
    ensures r.Some? ==> forall t :: t in tree && s < t ==> r.value <= t
  {
    var above := set t | t in tree && s < t;
    assert forall t :: t in tree ==> t in above || t <= s;
    if above == {} then
      None
    else
      MinExists(above);
      var t :| t in above && forall u :: u in above ==> t <= u;
      Some(t)
  }

  /** Position of the first listed entry starting at `s`, or the list length. */
  function IndexOfStart(list: seq<Entry>, s: Addr): (k: nat)
    ensures k <= |list|
    ensures k < |list| <==> s in Starts(list)
    ensures k < |list| ==> list[k].start == s
    ensures forall j :: 0 <= j < k ==> list[j].start != s
  {
    if |list| == 0 then 0
    else if list[0].start == s then 0
    else
      assert list == [list[0]] + list[1..];
      1 + IndexOfStart(list[1..], s)
  }

  /** What vm_map_insert_entry needs to be defined: either the start is
      already in the tree (nothing is linked), or the tree successor the new
      entry is linked before is still on the list. */
  predicate InsertDefined(m: VmMap, s: Addr) {
    s in m.tree || (var next := Successor(m.tree, s); next.None? || next.value in Starts(m.list))
  }

  /** Where vm_map_insert_entry links a new entry: before its tree successor, or at the tail. */
  function InsertPosition(m: VmMap, s: Addr): (k: nat)
    requires s !in m.tree && InsertDefined(m, s)
    ensures k <= |m.list|
    ensures k == |m.list| <==> Successor(m.tree, s).None?
    ensures k < |m.list| ==> m.list[k].start == Successor(m.tree, s).value
    ensures Sorted(m.list) && Starts(m.list) <= m.tree ==>
      (forall j :: 0 <= j < k ==> m.list[j].start < s) &&
      (forall j :: k <= j < |m.list| ==> s < m.list[j].start)
  {
    var next := Successor(m.tree, s);
    if next.None? then
      assert forall e :: e in m.list ==> e.start in Starts(m.list);
      |m.list|
    else
      var k := IndexOfStart(m.list, next.value);
      assert Sorted(m.list) && Starts(m.list) <= m.tree ==> forall j :: 0 <= j < k ==> m.list[j].start < s by {
        if Sorted(m.list) && Starts(m.list) <= m.tree {
          forall j | 0 <= j < k
            ensures m.list[j].start < s
          {
            assert m.list[j] in m.list;
            assert m.list[j].start in m.tree;
            assert m.list[j].start < m.list[k].start;
          }
        }
      }
      k
  }

  lemma SortedInsertion(list: seq<Entry>, k: nat, e: Entry)
    requires k <= |list|
    ensures
      (Sorted(list) &&
       (forall j :: 0 <= j < k ==> list[j].start < e.start) &&
       (forall j :: k <= j < |list| ==> e.start < list[j].start))
      ==> Sorted(list[..k] + [e] + list[k..])
  {
  }

  lemma StartsOfInsertion(list: seq<Entry>, k: nat, e: Entry)
    requires k <= |list|
    ensures Starts(list[..k] + [e] + list[k..]) == Starts(list) + {e.start}
  {
  }

  /** vm_map_insert_entry: link `e` into the tree and the list, unless its start is taken. */
  function InsertEntry(m: VmMap, e: Entry): (r: (VmMap, bool))
    requires InsertDefined(m, e.start)
    ensures e.start in m.tree ==> r == (m, false)
    ensures e.start !in m.tree ==>
      && r.1
      && r.0.pmap == m.pmap && r.0.released == m.released
      && r.0.tree == m.tree + {e.start}
      && r.0.nentries == m.nentries + 1
      && Starts(r.0.list) == Starts(m.list) + {e.start}
      && var k := InsertPosition(m, e.start);
         r.0.list == m.list[..k] + [e] + m.list[k..]
    ensures Sorted(m.list) && Starts(m.list) <= m.tree ==> Sorted(r.0.list)
  {
    if e.start in m.tree then
      (m, false)
    else
      var k := InsertPosition(m, e.start);
      var list' := m.list[..k] + [e] + m.list[k..];
      StartsOfInsertion(m.list, k, e);
      SortedInsertion(m.list, k, e);
      (m.(list := list', tree := m.tree + {e.start}, nentries := m.nentries + 1), true)
  }

  /** vm_map_find_entry: the index of the first listed entry containing `vaddr`. */
  function FindEntry(list: seq<Entry>, vaddr: Addr): (r: Option<nat>)
    ensures r.Some? ==> r.value < |list| && Contains(list[r.value], vaddr)
    ensures r.Some? ==> forall j :: 0 <= j < r.value ==> !Contains(list[j], vaddr)
    ensures r.None? <==> forall j :: 0 <= j < |list| ==> !Contains(list[j], vaddr)
  {
    if |list| == 0 then None
    else if Contains(list[0], vaddr) then Some(0)
    else
      match FindEntry(list[1..], vaddr)
      case None => None
      case Some(k) => Some(k + 1)
  }

  /** vm_map_remove_entry: unlink entry `i` from the list only, decrement the
      counter and free its object. The tree keeps the start. */
  function RemoveEntry(m: VmMap, i: nat): (r: VmMap)
    requires i < |m.list|
    ensures r.nentries == m.nentries - 1
    ensures r.released == m.released + [m.list[i].obj]
    ensures |r.list| == |m.list| - 1
    ensures forall j :: 0 <= j < i ==> r.list[j] == m.list[j]
    ensures forall j :: i <= j < |r.list| ==> r.list[j] == m.list[j + 1]
    ensures multiset(r.list) + multiset{m.list[i]} == multiset(m.list)
    ensures r.tree == m.tree && r.pmap == m.pmap
  {
    assert m.list == m.list[..i] + [m.list[i]] + m.list[i + 1..];
    m.(nentries := m.nentries - 1,
       released := m.released + [m.list[i].obj],
       list := m.list[..i] + m.list[i + 1..])
  }

  /** The objects of `list`, in list order. */
  function Objects(list: seq<Entry>): (objs: seq<Option<ObjId>>)
    ensures |objs| == |list|
    ensures forall j :: 0 <= j < |list| ==> objs[j] == list[j].obj
  {
    seq(|list|, j requires 0 <= j < |list| => list[j].obj)
  }

  /** vm_map_delete: remove the list head while the counter is positive.
      `drained` is the map just before it is freed. The source needs a
      list head on every iteration, hence the bound on the counter. */
  method Delete(m: VmMap) returns (drained: VmMap)
    requires m.nentries <= |m.list|
    ensures var n := if m.nentries > 0 then m.nentries else 0;
      && drained.released == m.released + Objects(m.list[..n])
      && drained.list == m.list[n..]
      && drained.nentries == m.nentries - n
    ensures drained.tree == m.tree && drained.pmap == m.pmap
    ensures Wf(m) ==>
      drained.list == [] && drained.nentries == 0 && drained.released == m.released + Objects(m.list)
  {
    var n := if m.nentries > 0 then m.nentries else 0;
    var removed := 0;
    drained := m;
    while drained.nentries > 0
      invariant 0 <= removed <= n
      invariant drained.nentries == m.nentries - removed
      invariant drained.list == m.list[removed..]
      invariant drained.released == m.released + Objects(m.list[..removed])
      invariant drained.tree == m.tree && drained.pmap == m.pmap
      decreases drained.nentries
    {
      assert m.list[..removed + 1] == m.list[..removed] + [m.list[removed]];
      drained := RemoveEntry(drained, 0);
      assert drained.list == m.list[removed + 1..];
      removed := removed + 1;
    }
  }

  /** Which assertion of vm_map_add_entry fails, in the order they are checked. */
  datatype AddError = StartBelowMap | EndAboveMap | StartMisaligned | EndMisaligned

  /** The outcome of vm_map_add_entry: the map after the insertion attempt and
      the returned entry, or the failed assertion (a kernel panic). */
  datatype AddResult = Added(after: VmMap, entry: Entry) | AddFailed(error: AddError)

  /** vm_map_add_entry: check the range, allocate a zeroed entry and insert it,
      ignoring whether the insertion linked it. */
  function AddEntry(m: VmMap, start: Addr, end: Addr, prot: Prot): (r: AddResult)
    requires InsertDefined(m, start)
    ensures r.Added? <==> FitsIn(start, end, m.pmap)
    ensures r == AddFailed(StartBelowMap) <==> start < m.pmap.start
    ensures r == AddFailed(EndAboveMap) <==> m.pmap.start <= start && m.pmap.end < end
    ensures r == AddFailed(StartMisaligned) <==>
      m.pmap.start <= start && end <= m.pmap.end && !Aligned(start)
    ensures r.Added? ==> r.entry == Entry(start, end, prot, None)
    ensures r.Added? && start in m.tree ==> r.after == m
    ensures r.Added? && start !in m.tree ==>
      && r.after.nentries == m.nentries + 1
      && r.after.tree == m.tree + {start}
      && r.entry in r.after.list
      && multiset(r.after.list) == multiset(m.list) + multiset{r.entry}
    ensures r.Added? ==> r.after.pmap == m.pmap && r.after.released == m.released
  {
    if start < m.pmap.start then AddFailed(StartBelowMap)
    else if m.pmap.end < end then AddFailed(EndAboveMap)
    else if !Aligned(start) then AddFailed(StartMisaligned)
    else if !Aligned(end) then AddFailed(EndMisaligned)
    else
      var entry := Entry(start, end, prot, None);
      var (m', _) := InsertEntry(m, entry);
      assert start !in m.tree ==>
        entry in m'.list && multiset(m'.list) == multiset(m.list) + multiset{entry} by {
        if start !in m.tree {
          var k := InsertPosition(m, start);
          assert m'.list[k] == entry;
          assert m.list == m.list[..k] + m.list[k..];
        }
      }
      Added(m', entry)
  }
}
