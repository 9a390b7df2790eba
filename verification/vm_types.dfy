/** Basic vocabulary of the virtual-memory map: addresses and page arithmetic,
    protection bits, physical frames and hardware page-table handles. */
module VmTypes {

  /** A possibly-NULL reference. */
  datatype Option<+T> = None | Some(value: T)

  /** vm_addr_t. Addresses are unbounded here; see README for the machine width. */
  type Addr = nat

  /** PAGESIZE: bytes per page. */
  const PageSize: nat := 4096

  predicate Aligned(a: int) {
    a % PageSize == 0
  }

  /** `a & -PAGESIZE`: the start of the page that holds `a`. */
  function PageTrunc(a: Addr): (p: Addr)
    ensures Aligned(p)
    ensures p <= a < p + PageSize
  {
    a - a % PageSize
  }

  /** The rounded-down page is the only aligned address within one page below `a`. */
  lemma PageTruncUnique(a: Addr, p: Addr)
    requires Aligned(p) && p <= a < p + PageSize
    ensures p == PageTrunc(a)
  {
  }

  /** vm_prot_t: which of READ, WRITE and EXEC a range allows (or a fault asks for). */
  datatype Prot = Prot(read: bool, write: bool, exec: bool)

  const ProtNone := Prot(false, false, false)
  const ProtRead := Prot(true, false, false)
  const ProtWrite := Prot(false, true, false)
  const ProtExec := Prot(false, false, true)

  /** Identity of a backing vm_object_t. */
  type ObjId = nat

  /** vm_page_t as far as the fault path uses it: its physical address. */
  datatype Frame = Frame(paddr: Addr)

  /** pmap_t: identity of a page-table root and the address range it governs. */
  datatype Pmap = Pmap(root: nat, start: Addr, end: Addr)
}
