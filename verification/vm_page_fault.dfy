/** The page-fault decision procedure: lookup, the permission checks in their
    fixed order, page and offset computation, the pager call on a miss, and
    the page-table install. Each kernel panic is an outcome. */
module VmPageFault {
  import opened VmTypes
  import opened VmMapEntries

  /** The arguments of the one pmap_map call a successful fault makes. */
  datatype PmapMapCall = PmapMapCall(pmap: Pmap, start: Addr, end: Addr, paddr: Addr, prot: Prot)

  /** How vm_page_fault ends. All but Mapped are kernel panics; NullObject
      is the failed assertion that the entry has a backing object. Mapped
      records the entry index, the rounded-down page, the offset into the
      object, whether the pager was asked, the frame used and the install. */
  datatype FaultResult =
    | Unmapped
    | NoAccess
    | NoWrite
    | NoRead
    | NullObject
    | Mapped(index: nat, faultPage: Addr, offset: int, pagerCalled: bool, frame: Frame, install: PmapMapCall)
  {
    predicate IsProtectionFault() {
      NoAccess? || NoWrite? || NoRead?
    }
  }

  /** An access of kind `faultType` is allowed by `prot`: some access is
      allowed at all, a pure write needs WRITE and a pure read needs READ.
      Any other kind (EXEC, or a combination) needs nothing more. */
  predicate Permits(prot: Prot, faultType: Prot) {
    && prot != ProtNone
    && (faultType == ProtWrite ==> prot.write)
    && (faultType == ProtRead ==> prot.read)
  }

  /** vm_page_fault. `findPage` is vm_object_find_page and `pagerFault` the
      object's pgr_fault; both are supplied by the caller. */
  function PageFault(m: VmMap, faultAddr: Addr, faultType: Prot,
                     findPage: (ObjId, int) -> Option<Frame>,
                     pagerFault: (ObjId, Addr, int, Prot) -> Frame): (r: FaultResult)
    ensures r.Unmapped? <==> forall j :: 0 <= j < |m.list| ==> !Contains(m.list[j], faultAddr)
    ensures r.IsProtectionFault() <==>
      exists j :: 0 <= j < |m.list| && Contains(m.list[j], faultAddr) &&
        (forall i :: 0 <= i < j ==> !Contains(m.list[i], faultAddr)) &&
        !Permits(m.list[j].prot, faultType)
    ensures r.NullObject? <==>
      exists j: nat :: FirstHolder(m, faultAddr, j) && Permits(m.list[j].prot, faultType) && m.list[j].obj.None?
    ensures r.Mapped? ==>
      && r.index < |m.list|
      && var e := m.list[r.index];
      && Contains(e, faultAddr)
      && (forall i :: 0 <= i < r.index ==> !Contains(m.list[i], faultAddr))
      && Permits(e.prot, faultType)
      && e.obj.Some?
      && Aligned(r.faultPage) && r.faultPage <= faultAddr < r.faultPage + PageSize
      && r.offset + e.start == r.faultPage
      && (r.pagerCalled <==> findPage(e.obj.value, r.offset).None?)
      && (!r.pagerCalled ==> r.frame == findPage(e.obj.value, r.offset).value)
      && (r.pagerCalled ==> r.frame == pagerFault(e.obj.value, r.faultPage, r.offset, faultType))
      && r.install == PmapMapCall(m.pmap, faultAddr, faultAddr + PageSize, r.frame.paddr, e.prot)
    ensures r.Mapped? && Aligned(m.list[r.index].start) ==>
      Aligned(r.offset) && 0 <= r.offset < m.list[r.index].end - m.list[r.index].start
  {
    match FindEntry(m.list, faultAddr)
    case None => Unmapped
    case Some(i) =>
      assert forall j: nat :: FirstHolder(m, faultAddr, j) ==> j == i;
      FaultOnEntry(m, i, faultAddr, faultType, findPage, pagerFault)
  }

  /** The part of vm_page_fault after lookup found entry `i`: the permission
      checks, the object assertion, and the page lookup and install. */
  function FaultOnEntry(m: VmMap, i: nat, faultAddr: Addr, faultType: Prot,
                        findPage: (ObjId, int) -> Option<Frame>,
                        pagerFault: (ObjId, Addr, int, Prot) -> Frame): (r: FaultResult)
    requires i < |m.list| && Contains(m.list[i], faultAddr)
    ensures !r.Unmapped?
    ensures r.IsProtectionFault() <==> !Permits(m.list[i].prot, faultType)
    ensures r.NullObject? <==> Permits(m.list[i].prot, faultType) && m.list[i].obj.None?
    ensures r.Mapped? ==>
      && r.index == i
      && var e := m.list[i];
      && Permits(e.prot, faultType)
      && e.obj.Some?
      && Aligned(r.faultPage) && r.faultPage <= faultAddr < r.faultPage + PageSize
      && r.offset + e.start == r.faultPage
      && (r.pagerCalled <==> findPage(e.obj.value, r.offset).None?)
      && (!r.pagerCalled ==> r.frame == findPage(e.obj.value, r.offset).value)
      && (r.pagerCalled ==> r.frame == pagerFault(e.obj.value, r.faultPage, r.offset, faultType))
      && r.install == PmapMapCall(m.pmap, faultAddr, faultAddr + PageSize, r.frame.paddr, e.prot)
    ensures r.Mapped? && Aligned(m.list[i].start) ==>
      Aligned(r.offset) && 0 <= r.offset < m.list[i].end - m.list[i].start
  {
    var e := m.list[i];
    if e.prot == ProtNone then NoAccess
    else if !e.prot.write && faultType == ProtWrite then NoWrite
    else if !e.prot.read && faultType == ProtRead then NoRead
    else if e.obj.None? then NullObject
    else
      var obj := e.obj.value;
      var faultPage := PageTrunc(faultAddr);
      var offset := faultPage - e.start;
      var resident := findPage(obj, offset);
      var frame := if resident.Some? then resident.value else pagerFault(obj, faultPage, offset, faultType);
      assert Aligned(e.start) ==> e.start <= faultPage by {
        if Aligned(e.start) {
          PageTruncMonotone(e.start, faultAddr);
        }
      }
      Mapped(i, faultPage, offset, resident.None?, frame,
             PmapMapCall(m.pmap, faultAddr, faultAddr + PageSize, frame.paddr, e.prot))
  }

  /** An aligned address at or below `a` is at or below a's page. */
  lemma PageTruncMonotone(s: Addr, a: Addr)
    requires Aligned(s) && s <= a
    ensures s <= PageTrunc(a)
  {
  }

  /** The first entry that holds `a` (the one lookup returns). */
  predicate FirstHolder(m: VmMap, a: Addr, j: nat) {
    j < |m.list| && Contains(m.list[j], a) && forall i :: 0 <= i < j ==> !Contains(m.list[i], a)
  }

  /** The order of the checks: a NONE entry is refused before the access kind
      is looked at; a pure write without WRITE and a pure read without READ
      are refused; every other access kind passes the permission checks; and
      all of these come before the object is examined. */
  lemma FaultCheckOrder(m: VmMap, a: Addr, faultType: Prot, j: nat,
                        findPage: (ObjId, int) -> Option<Frame>,
                        pagerFault: (ObjId, Addr, int, Prot) -> Frame)
    requires FirstHolder(m, a, j)
    ensures var r := PageFault(m, a, faultType, findPage, pagerFault);
      && (m.list[j].prot == ProtNone ==> r == NoAccess)
      && (m.list[j].prot != ProtNone && !m.list[j].prot.write && faultType == ProtWrite ==> r == NoWrite)
      && (m.list[j].prot != ProtNone && !m.list[j].prot.read && faultType == ProtRead ==> r == NoRead)
      && (m.list[j].prot != ProtNone && faultType != ProtWrite && faultType != ProtRead ==>
            r.NullObject? || r.Mapped?)
      && (Permits(m.list[j].prot, faultType) ==> (r.NullObject? <==> m.list[j].obj.None?))
  {
    assert FindEntry(m.list, a) == Some(j);
  }
}
