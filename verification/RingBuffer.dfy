/** The ring buffer of `buffer/ring_buffer.h` as a data structure: pages of storage
    (`buffer/buffer.h`) and two pointers, used by one caller at a time. Each operation is proved
    against the sequence of buffered elements. `RingProtocol` treats concurrent use. */
module RingBuffer {
  import opened RingArithmetic

  datatype Outcome = Ok | OutOfRange

  /** Both ends of the range pass `validate_index`; for an empty range at offset 0 the last index
      wraps below zero and is refused. */
  predicate InRange(offset: nat, count: nat, size: nat) {
    offset < size && offset + count >= 1 && offset + count - 1 < size
  }

  /** One page. */
  class Buffer<T(0)> {
    const elements: array<T>

    constructor (size: nat)
      ensures fresh(elements) && elements.Length == size
    {
      elements := new T[size];
    }

    method ReadArray(offset: nat, count: nat, dest: array<T>) returns (r: Outcome)
      requires count <= dest.Length && dest != elements
      modifies dest
      ensures r == if InRange(offset, count, elements.Length) then Ok else OutOfRange
      ensures r == Ok ==> dest[..count] == elements[offset..offset + count] && dest[count..] == old(dest[count..])
      ensures r == OutOfRange ==> dest[..] == old(dest[..])
    {
      if !InRange(offset, count, elements.Length) { return OutOfRange; }
      for i := 0 to count
        invariant dest[..i] == elements[offset..offset + i]
        invariant dest[i..] == old(dest[i..])
      {
        dest[i] := elements[i + offset];
      }
      r := Ok;
    }

    method WriteArray(offset: nat, count: nat, src: array<T>) returns (r: Outcome)
      requires count <= src.Length && src != elements
      modifies elements
      ensures r == if InRange(offset, count, elements.Length) then Ok else OutOfRange
      ensures forall j | 0 <= j < elements.Length ::
                elements[j] == if r == Ok && offset <= j < offset + count then src[j - offset] else old(elements[j])
    {
      if !InRange(offset, count, elements.Length) { return OutOfRange; }
      for i := 0 to count
        invariant forall j | 0 <= j < elements.Length ::
                    elements[j] == if offset <= j < offset + i then src[j - offset] else old(elements[j])
      {
        elements[i + offset] := src[i];
      }
      r := Ok;
    }
  }

  /** The last `n` elements, or all of them if there are fewer. */
  function LastOf<T>(s: seq<T>, n: nat): seq<T> {
    if |s| <= n then s else s[|s| - n..]
  }

  class RingBuffer<T(0)> {
    const c: Config
    const buffers: seq<Buffer<T>>
    var readPointer: nat
    var writePointer: nat
    /** The arrays of the pages. */
    ghost const storage: set<array<T>>

    ghost predicate WellFormed() {
      && ValidConfig(c) && |buffers| == c.numPages
      && (forall i | 0 <= i < |buffers| :: buffers[i].elements in storage && buffers[i].elements.Length == c.pageSize)
      && (forall i, j | 0 <= i < j < |buffers| :: buffers[i].elements != buffers[j].elements)
    }

    ghost predicate Valid()
      reads this
    {
      WellFormed() && readPointer <= writePointer <= readPointer + Capacity(c)
    }

    /** The place that position `p` uses. */
    function Place(p: nat): T
      requires WellFormed()
      reads storage
    {
      var b := buffers[BufferIndex(c, p) % c.numPages];
      b.elements[BufferOffset(c, p)]
    }

    /** The elements at positions `first` up to `end`. */
    ghost function Between(first: nat, end: nat): (s: seq<T>)
      requires WellFormed() && first <= end
      reads storage
      ensures |s| == end - first && forall i | 0 <= i < |s| :: s[i] == Place(first + i)
      decreases end - first
    {
      if first == end then [] else Between(first, end - 1) + [Place(end - 1)]
    }

    lemma {:induction false} BetweenSplit(first: nat, middle: nat, end: nat)
      requires WellFormed() && first <= middle <= end
      ensures Between(first, end) == Between(first, middle) + Between(middle, end)
      decreases end - middle
    {
      if middle < end { BetweenSplit(first, middle, end - 1); }
    }

    /** The elements in the ring, oldest first. */
    ghost function Contents(): (s: seq<T>)
      requires Valid()
      reads this, storage
    {
      Between(readPointer, writePointer)
    }

    constructor (c: Config)
      requires ValidConfig(c)
      ensures Valid() && this.c == c && fresh(storage) && Contents() == []
    {
      var pages: seq<Buffer<T>> := [];
      while |pages| < c.numPages
        invariant |pages| <= c.numPages
        invariant forall i | 0 <= i < |pages| :: fresh(pages[i].elements) && pages[i].elements.Length == c.pageSize
        invariant forall i, j | 0 <= i < j < |pages| :: pages[i].elements != pages[j].elements
      {
        var page := new Buffer<T>(c.pageSize);
        pages := pages + [page];
      }
      this.c := c;
      buffers := pages;
      storage := set b | b in pages :: b.elements;
      readPointer, writePointer := 0, 0;
    }

    lemma ChunkPlace(p: nat, i: nat)
      requires WellFormed() && BufferOffset(c, p) + i < c.pageSize
      ensures Place(p + i) == buffers[BufferIndex(c, p) % c.numPages].elements[BufferOffset(c, p) + i]
    {
      WithinPage(c, p, i);
    }

    /** The places that a chunk of a page takes are those of consecutive positions. */
    lemma ChunkPlaces(p: nat, count: nat)
      requires WellFormed() && BufferOffset(c, p) + count <= c.pageSize
      ensures var b := buffers[BufferIndex(c, p) % c.numPages];
        b.elements[BufferOffset(c, p)..BufferOffset(c, p) + count] == Between(p, p + count)
    {
      var chunk := buffers[BufferIndex(c, p) % c.numPages].elements[BufferOffset(c, p)..BufferOffset(c, p) + count];
      forall i | 0 <= i < count ensures chunk[i] == Between(p, p + count)[i] {
        ChunkPlace(p, i);
      }
    }

    /** Position `p` uses none of the places of the chunk at `q`. */
    lemma OtherPlace(q: nat, count: nat, p: nat)
      requires WellFormed() && BufferOffset(c, q) + count <= c.pageSize
      requires p < q && q + count <= p + Capacity(c)
      ensures BufferIndex(c, p) % c.numPages != BufferIndex(c, q) % c.numPages
              || !(BufferOffset(c, q) <= BufferOffset(c, p) < BufferOffset(c, q) + count)
    {
      var i := BufferOffset(c, p) - BufferOffset(c, q);
      if 0 <= i < count {
        WithinPage(c, q, i);
        DistinctPlaces(c, p, q + i);
      }
    }

    /** `consume`: takes the oldest elements, up to the end of their page. */
    method Consume(numElements: nat, dest: array<T>) returns (consumed: nat)
      requires Valid() && numElements <= dest.Length && dest !in storage
      modifies this, dest
      ensures Valid()
      ensures consumed == Min(|old(Contents())|, Min(c.pageSize - BufferOffset(c, old(readPointer)), numElements))
      ensures dest[..consumed] == old(Contents())[..consumed] && dest[consumed..] == old(dest[consumed..])
      ensures Contents() == old(Contents())[consumed..]
    {
      consumed := ElementsToConsume(c, numElements, readPointer, writePointer);
      if consumed > 0 {
        var index, offset := BufferIndex(c, readPointer), BufferOffset(c, readPointer);
        ChunkPlaces(readPointer, consumed);
        var r := buffers[index % c.numPages].ReadArray(offset, consumed, dest);
        PointerAdvanced(c, readPointer, consumed);
        readPointer := ComputePointer(c, index, offset + consumed);
      }
    }

    /** `peek` and the element it gives access to. */
    method Peek() returns (available: bool, element: T)
      requires Valid()
      ensures available == (Contents() != [])
      ensures available ==> element == Contents()[0]
    {
      available := ElementsAvailable(readPointer, writePointer) > 0;
      element := Place(readPointer);
    }

    /** `pop`. */
    method Pop() returns (popped: bool)
      requires Valid()
      modifies this
      ensures Valid()
      ensures popped == (old(Contents()) != [])
      ensures Contents() == if popped then old(Contents())[1..] else old(Contents())
    {
      popped := ElementsAvailable(readPointer, writePointer) > 0;
      if popped {
        PointerAdvanced(c, readPointer, 1);
        readPointer := ComputePointer(c, BufferIndex(c, readPointer), BufferOffset(c, readPointer) + 1);
      }
    }

    /** Writes a chunk of one page, at position `q`; no position of the ring's length before it
        changes. */
    method Fill(q: nat, count: nat, src: array<T>)
      requires WellFormed() && 0 < count <= src.Length && src !in storage
      requires BufferOffset(c, q) + count <= c.pageSize
      modifies storage
      ensures Between(q, q + count) == src[..count]
      ensures forall first: nat | first <= q && q + count <= first + Capacity(c) ::
                Between(first, q) == old(Between(first, q))
    {
      var buffer := buffers[BufferIndex(c, q) % c.numPages];
      var r := buffer.WriteArray(BufferOffset(c, q), count, src);
      forall p: nat | p < q && q + count <= p + Capacity(c) ensures Place(p) == old(Place(p)) {
        OtherPlace(q, count, p);
      }
      forall first: nat | first <= q && q + count <= first + Capacity(c)
        ensures Between(first, q) == old(Between(first, q))
      {
        forall i | 0 <= i < q - first ensures Between(first, q)[i] == old(Between(first, q))[i] {
          assert Place(first + i) == old(Place(first + i));
        }
      }
      forall i | 0 <= i < count ensures Between(q, q + count)[i] == src[i] {
        ChunkPlace(q, i);
      }
    }

    /** The read pointer's part of `supply`: the oldest elements make room for `count` new ones. */
    method MakeRoom(count: nat)
      requires Valid() && count <= Capacity(c)
      modifies this`readPointer
      ensures Valid() && writePointer + count <= readPointer + Capacity(c)
      ensures Contents() == LastOf(old(Contents()), Capacity(c) - count)
    {
      var available := ElementsAvailable(readPointer, writePointer);
      if available + count > Capacity(c) {
        ghost var first := readPointer + available + count - Capacity(c);
        ghost var dropped, kept := Between(readPointer, first), Between(first, writePointer);
        BetweenSplit(readPointer, first, writePointer);
        assert (dropped + kept)[|dropped|..] == kept;
        readPointer := readPointer + (available + count - Capacity(c));
        assert Contents() == kept;
      }
    }

    /** The write pointer's part of `supply`: a chunk is filled and published. */
    method Publish(count: nat, src: array<T>)
      requires Valid() && 0 < count <= src.Length && src !in storage
      requires BufferOffset(c, writePointer) + count <= c.pageSize
      requires writePointer + count <= readPointer + Capacity(c)
      modifies this`writePointer, storage
      ensures Valid() && Contents() == old(Contents()) + src[..count]
    {
      hide Place;
      var write := writePointer;
      Fill(write, count, src);
      BetweenSplit(readPointer, write, write + count);
      PointerAdvanced(c, write, count);
      writePointer := ComputePointer(c, BufferIndex(c, write), BufferOffset(c, write) + count);
    }

    /** `supply`: appends elements up to the end of the page being filled. When old elements have
        priority no more are taken than fit; otherwise the oldest are dropped to make room. */
    method Supply(numElements: nat, src: array<T>) returns (supplied: nat)
      requires Valid() && numElements <= src.Length && src !in storage
      modifies this, storage
      ensures Valid()
      ensures supplied == Min(Min(c.pageSize - BufferOffset(c, old(writePointer)), numElements),
                              if c.prioritizeOld then Capacity(c) - |old(Contents())| else Capacity(c))
      ensures Contents() == LastOf(old(Contents()) + src[..supplied], Capacity(c))
    {
      hide LastOf, Between, Place;
      supplied := ElementsToAccept(c, numElements, BufferOffset(c, writePointer), readPointer, writePointer);
      DropThenAppend(Contents(), src[..supplied], Capacity(c));
      if supplied > 0 {
        MakeRoom(supplied);
        Publish(supplied, src);
      } else {
        assert Contents() + src[..supplied] == Contents();
        FewAreLast(Contents(), Capacity(c));
      }
    }
  }

  lemma FewAreLast<T>(s: seq<T>, n: nat)
    requires |s| <= n
    ensures LastOf(s, n) == s
  {}

  /** Making room first and appending then is appending and keeping the last elements. */
  lemma DropThenAppend<T>(s: seq<T>, added: seq<T>, n: nat)
    requires |added| <= n
    ensures LastOf(s, n - |added|) + added == LastOf(s + added, n)
  {}
}
