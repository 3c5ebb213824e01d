// What the other modules share: the machine's integers and addresses, panics, and facts about sets and lists.
module Common {

  /** None stands for a kernel panic: the operation does not return. */
  datatype Option<+T> = None | Some(value: T)

  type byte = x: int | 0 <= x < 256

  const WORDMAX: nat := 0x1_0000_0000   // 32-bit unsigned integers are below this
  const SIGNED: nat := 0x8000_0000      // from here on they are negative as int

  const MAXOPBLOCKS: nat := 10          // most blocks one file system operation writes
  const DIRSIZ: nat := 14               // longest name in a directory

  const PGSIZE: nat := 4096
  const NPAGES: nat := 0x10_0000        // pages of an address space
  const NPT: nat := 1024                // entries in a page directory and in a page table
  const KERNBASE: nat := 0x8000_0000    // first address of the kernel
  const MMAPBASE: nat := 0x4000_0000    // first address of mmap areas

  /** mmap_area with its status: 0 unused, 1 mapped, -1 recorded only. */
  datatype Area = Area(addr: nat, length: int, prot: nat, flags: nat, proc: nat, status: int)

  lemma {:induction false} SubsetSize<T>(s: set<T>, t: set<T>)
    requires s <= t
    ensures |s| <= |t|
  {
    if s != {} {
      var x :| x in s;
      SubsetSize(s - {x}, t - {x});
    }
  }

  ghost function Elements<T>(h: seq<T>): set<T> {
    set x | x in h
  }

  lemma {:induction false} CountElements<T>(h: seq<T>)
    ensures |Elements(h)| <= |h|
  {
    if h != [] {
      CountElements(h[1..]);
      assert Elements(h) == Elements(h[1..]) + {h[0]};
    }
  }

  ghost predicate Distinct(h: seq<nat>) {
    forall i, j :: 0 <= i < j < |h| ==> h[i] != h[j]
  }

  lemma {:induction false} CountDistinct(h: seq<nat>)
    requires Distinct(h)
    ensures |Elements(h)| == |h|
  {
    if h != [] {
      CountDistinct(h[1..]);
      assert Elements(h) == Elements(h[1..]) + {h[0]};
    }
  }
}
