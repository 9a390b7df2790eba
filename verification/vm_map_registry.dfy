/** The active-map registry: the kernel map, the calling thread's user map,
    and the page table last handed to pmap_activate. */
module VmMapRegistry {
  import opened VmTypes
  import opened VmMapEntries

  /** `kspace` is the kernel map, `uspace` the thread's td_uspace (None for
      NULL) and `activePmap` the argument of the last pmap_activate. */
  datatype Registry = Registry(kspace: VmMap, uspace: Option<VmMap>, activePmap: Option<Pmap>)

  /** The page table that belongs to a possibly-NULL map. */
  function PmapOf(vm: Option<VmMap>): Option<Pmap> {
    if vm.Some? then Some(vm.value.pmap) else None
  }

  /** The active page table is the one of the active user map. */
  predicate Paired(reg: Registry) {
    reg.activePmap == PmapOf(reg.uspace)
  }

  /** vm_map_activate: one atomic update of the user map and the active page table. */
  function Activate(reg: Registry, vm: Option<VmMap>): (r: Registry)
    ensures UserMap(r) == vm
    ensures Paired(r)
    ensures vm.None? ==> r.activePmap.None?
    ensures vm.Some? ==> r.activePmap == Some(vm.value.pmap)
    ensures KernelMap(r) == KernelMap(reg)
  {
    reg.(uspace := vm, activePmap := if vm.Some? then Some(vm.value.pmap) else None)
  }

  /** get_user_vm_map: a plain read of the thread's user map. */
  function UserMap(reg: Registry): Option<VmMap>
  {
    reg.uspace
  }

  /** get_kernel_vm_map: a plain read of the kernel map. */
  function KernelMap(reg: Registry): VmMap
  {
    reg.kspace
  }

  /** in_range: a non-NULL map whose page table governs `a`. */
  predicate InRange(vm: Option<VmMap>, a: Addr)
  {
    vm.Some? && vm.value.pmap.start <= a < vm.value.pmap.end
  }

  /** get_active_vm_map_by_addr: the user map if it governs `a`, else the
      kernel map if it does, else NULL. */
  function MapByAddr(reg: Registry, a: Addr): (r: Option<VmMap>)
    ensures r.Some? ==> InRange(r, a)
    ensures r.None? <==> !InRange(UserMap(reg), a) && !InRange(Some(KernelMap(reg)), a)
    ensures InRange(UserMap(reg), a) ==> r == UserMap(reg)
    ensures r.Some? && r != UserMap(reg) ==> r == Some(KernelMap(reg))
  {
    if InRange(UserMap(reg), a) then UserMap(reg)
    else if InRange(Some(KernelMap(reg)), a) then Some(KernelMap(reg))
    else None
  }

  /** Activating a map makes it the answer for every address it governs,
      even where the kernel range overlaps it, and a NULL user map leaves
      only the kernel map to be found. */
  lemma ActivateThenResolve(reg: Registry, vm: Option<VmMap>, a: Addr)
    ensures var r := Activate(reg, vm);
      && (InRange(vm, a) ==> MapByAddr(r, a) == vm)
      && (!InRange(vm, a) && InRange(Some(reg.kspace), a) ==> MapByAddr(r, a) == Some(reg.kspace))
      && (vm.None? ==> MapByAddr(r, a).Some? ==> MapByAddr(r, a) == Some(reg.kspace))
  {
  }

  /** The kernel map never changes under any sequence of activations. */
  lemma {:induction false} KernelMapStable(reg: Registry, maps: seq<Option<VmMap>>)
    ensures KernelMap(ActivateAll(reg, maps)) == KernelMap(reg)
    ensures |maps| > 0 ==> UserMap(ActivateAll(reg, maps)) == maps[|maps| - 1]
    ensures |maps| > 0 ==> Paired(ActivateAll(reg, maps))
  {
    if |maps| > 0 {
      KernelMapStable(reg, maps[..|maps| - 1]);
    }
  }

  /** A sequence of context switches, applied in order. */
  function ActivateAll(reg: Registry, maps: seq<Option<VmMap>>): Registry
  {
    if |maps| == 0 then reg else Activate(ActivateAll(reg, maps[..|maps| - 1]), maps[|maps| - 1])
  }

  /** Resolution reads only the page-table bounds of the two maps: registries
      whose maps share page tables resolve every address to maps with the
      same page table. */
  lemma ResolveReadsOnlyBounds(reg: Registry, reg': Registry, a: Addr)
    requires PmapOf(reg.uspace) == PmapOf(reg'.uspace) && reg.kspace.pmap == reg'.kspace.pmap
    ensures PmapOf(MapByAddr(reg, a)) == PmapOf(MapByAddr(reg', a))
    ensures MapByAddr(reg, a).None? <==> MapByAddr(reg', a).None?
  {
  }
}
