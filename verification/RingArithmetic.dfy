/** Pointer arithmetic of the paged ring buffer (`buffer/ring_buffer.h`). Pointers count elements
    and never wrap; a pointer is split into a page number and an offset within the page, and pages
    are reused in rotation. */
module RingArithmetic {
  import opened Arithmetic

  datatype Config = Config(pageSize: nat, numPages: nat, prioritizeOld: bool)

  /** Pages and their number are positive (`static_assert` in `buffer/buffer.h`, and `% NUM_PAGES`). */
  ghost predicate ValidConfig(c: Config) {
    c.pageSize > 0 && c.numPages > 0
  }

  /** `max_buffered_elements`. */
  function Capacity(c: Config): nat {
    c.numPages * c.pageSize
  }

  function BufferIndex(c: Config, pointer: nat): nat
    requires c.pageSize > 0
  {
    pointer / c.pageSize
  }

  function BufferOffset(c: Config, pointer: nat): (offset: nat)
    requires c.pageSize > 0
    ensures offset < c.pageSize
  {
    pointer % c.pageSize
  }

  /** `compute_pointer`. */
  function ComputePointer(c: Config, index: nat, offset: nat): nat {
    index * c.pageSize + offset
  }

  function Min(a: nat, b: nat): nat {
    if a < b then a else b
  }

  const SIZE_LIMIT: nat := 0x1_0000_0000_0000_0000

  /** Subtraction of `size_t` values, which wraps below zero. */
  function Minus(a: nat, b: nat): nat {
    if a >= b then a - b else if a + SIZE_LIMIT >= b then a + SIZE_LIMIT - b else 0
  }

  /** `compute_elements_available`. */
  function ElementsAvailable(read: nat, write: nat): nat {
    Minus(write, read)
  }

  /** `compute_elements_to_accept`. */
  function ElementsToAccept(c: Config, numElements: nat, writeOffset: nat, read: nat, write: nat): nat
    requires c.pageSize > 0 && writeOffset < c.pageSize
  {
    var room := Min(c.pageSize - writeOffset, numElements);
    if c.prioritizeOld then Min(Minus(Capacity(c), ElementsAvailable(read, write)), room)
    else Min(Capacity(c), room)
  }

  /** The number of elements that `consume` takes. */
  function ElementsToConsume(c: Config, numElements: nat, read: nat, write: nat): nat
    requires c.pageSize > 0
  {
    Min(ElementsAvailable(read, write), Min(c.pageSize - BufferOffset(c, read), numElements))
  }

  // ----- facts

  /** Moving within a page keeps the page and moves the offset. */
  lemma WithinPage(c: Config, p: nat, i: nat)
    requires ValidConfig(c) && BufferOffset(c, p) + i < c.pageSize
    ensures BufferIndex(c, p + i) == BufferIndex(c, p)
    ensures BufferOffset(c, p + i) == BufferOffset(c, p) + i
  {
    DivMod(p, c.pageSize);
    DivModUnique(p + i, c.pageSize, p / c.pageSize, p % c.pageSize + i);
  }

  /** `compute_pointer` of a page and an advanced offset is the advanced pointer, also when the
      offset has reached the end of the page. */
  lemma PointerAdvanced(c: Config, p: nat, k: nat)
    requires ValidConfig(c)
    ensures ComputePointer(c, BufferIndex(c, p), BufferOffset(c, p) + k) == p + k
  {
    DivMod(p, c.pageSize);
  }

  /** Positions less than a ring apart have different places in the ring. */
  lemma DistinctPlaces(c: Config, p: nat, q: nat)
    requires ValidConfig(c) && p < q < p + Capacity(c)
    ensures BufferIndex(c, p) % c.numPages != BufferIndex(c, q) % c.numPages || BufferOffset(c, p) != BufferOffset(c, q)
  {
    var a, b := BufferIndex(c, p), BufferIndex(c, q);
    DivMod(p, c.pageSize);
    DivMod(q, c.pageSize);
    assert (a + c.numPages) * c.pageSize == a * c.pageSize + Capacity(c);
    if BufferOffset(c, p) == BufferOffset(c, q) {
      LessTimes(a, b, c.pageSize);
      LessTimes(b, a + c.numPages, c.pageSize);
      if a % c.numPages == b % c.numPages { SameRemainder(a, b, c.numPages); }
    }
  }
}
