/** Virtual addresses (src/threads/vaddr.h) as numbers; 0 is the null pointer. */
module Vaddr {
  const PGSIZE: nat := 4096

  /** Where the kernel's address space begins. */
  const PHYS_BASE: nat := 0xc000_0000

  function PgOfs(va: nat): nat { va % PGSIZE }

  function PgNo(va: nat): nat { va / PGSIZE }

  function PgRoundDown(va: nat): nat { va - va % PGSIZE }
}
