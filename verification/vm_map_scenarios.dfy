/** Concrete runs of the model: adding a mapping to a fresh map and taking
    faults on it. */
module VmMapScenarios {
  import opened VmTypes
  import opened VmMapEntries
  import opened VmPageFault

  const ProtReadWrite := Prot(true, true, false)
  const UserPmap := Pmap(1, 0x1000, 0x9000)

  /** Adding [0x2000, 0x4000) to an empty map over [0x1000, 0x9000) links
      exactly one entry, with no object, and returns it. */
  lemma ScenarioAddLinks()
    ensures var e := Entry(0x2000, 0x4000, ProtReadWrite, None);
      AddEntry(EmptyMap(UserPmap), 0x2000, 0x4000, ProtReadWrite)
        == Added(VmMap(UserPmap, [e], {0x2000}, 1, []), e)
  {
  }

  /** The caller's `entry->object = obj` on the entry at `i`. */
  function AttachObject(m: VmMap, i: nat, obj: ObjId): (m': VmMap)
    requires i < |m.list|
    ensures |m'.list| == |m.list| && m'.list[i] == m.list[i].(obj := Some(obj))
    ensures forall j :: 0 <= j < |m.list| && j != i ==> m'.list[j] == m.list[j]
    ensures m'.tree == m.tree && m'.nentries == m.nentries && m'.pmap == m.pmap
  {
    m.(list := m.list[i := m.list[i].(obj := Some(obj))])
  }

  /** The map of ScenarioAddLinks after its caller attached object 7 to the
      entry vm_map_add_entry linked. */
  function ScenarioMap(): (m: VmMap)
    ensures Coherent(m) && |m.list| == 1
    ensures m.list[0] == Entry(0x2000, 0x4000, ProtReadWrite, Some(7))
  {
    var r := AddEntry(EmptyMap(UserPmap), 0x2000, 0x4000, ProtReadWrite);
    ScenarioAddLinks();
    AttachObject(r.after, 0, 7)
  }

  /** Faults inside the entry resolve the page-aligned offset, not the byte
      offset: 0x2050 and 0x2800 share page 0x2000 and offset 0, while 0x3800
      is offset 0x1000. The install starts at the faulting address itself. */
  lemma ScenarioWriteFaults(findPage: (ObjId, int) -> Option<Frame>,
                            pagerFault: (ObjId, Addr, int, Prot) -> Frame)
    ensures var r := PageFault(ScenarioMap(), 0x2050, ProtWrite, findPage, pagerFault);
      && r.Mapped? && r.faultPage == 0x2000 && r.offset == 0
      && r.install.start == 0x2050 && r.install.end == 0x3050
    ensures var r := PageFault(ScenarioMap(), 0x2800, ProtWrite, findPage, pagerFault);
      r.Mapped? && r.faultPage == 0x2000 && r.offset == 0
    ensures var r := PageFault(ScenarioMap(), 0x3800, ProtRead, findPage, pagerFault);
      r.Mapped? && r.faultPage == 0x3000 && r.offset == 0x1000
  {
    var m := ScenarioMap();
    assert FindEntry(m.list, 0x2050) == Some(0);
    assert FindEntry(m.list, 0x2800) == Some(0);
    assert FindEntry(m.list, 0x3800) == Some(0);
  }

  /** A fault where no entry lies is the unmapped-access panic. */
  lemma ScenarioUnmapped(findPage: (ObjId, int) -> Option<Frame>,
                         pagerFault: (ObjId, Addr, int, Prot) -> Frame)
    ensures PageFault(ScenarioMap(), 0x5000, ProtRead, findPage, pagerFault) == Unmapped
  {
  }

  /** Writing into a read-only entry is the write-protection panic. */
  lemma ScenarioWriteToReadOnly(findPage: (ObjId, int) -> Option<Frame>,
                                pagerFault: (ObjId, Addr, int, Prot) -> Frame)
    ensures var m := VmMap(UserPmap, [Entry(0x2000, 0x3000, ProtRead, Some(7))], {0x2000}, 1, []);
      Coherent(m) && PageFault(m, 0x2100, ProtWrite, findPage, pagerFault) == NoWrite
  {
  }

  /** An entry fresh from vm_map_add_entry has no object, so a fault on it
      that passes the permission checks ends at the object assertion. */
  lemma ScenarioFreshEntryHasNoObject(findPage: (ObjId, int) -> Option<Frame>,
                                      pagerFault: (ObjId, Addr, int, Prot) -> Frame)
    ensures var r := AddEntry(EmptyMap(UserPmap), 0x2000, 0x4000, ProtReadWrite);
      r.Added? && PageFault(r.after, 0x2050, ProtRead, findPage, pagerFault) == NullObject
  {
  }
}
