/** The lock-free ring buffer of `buffer/ring_buffer.h` as one producer and one consumer that share
    it without locks. A state holds the two atomic pointers, the pages, and how far each side has
    got; a step is one atomic access, or the copying of one element. Elements may be copied in any
    order, and an element that is being overwritten may hold anything in between.

    A schedule is any sequence of steps; a step that its side is not ready for does nothing. All
    theorems hold for every schedule. */
module RingProtocol {
  import opened RingArithmetic

  // ----- state

  /** What became of a position that the read pointer has passed. */
  datatype Fate = Delivered | Popped | Dropped

  /** One call of `consume` that returned elements. */
  datatype Chunk<T> = Chunk(position: nat, elements: seq<T>)

  datatype Producer<T> =
    | NoSupply
    | SupplyReadLoaded(src: seq<T>, read: nat)
    | MakingRoom(src: seq<T>, count: nat, read: nat, write: nat)
    | Filling(src: seq<T>, count: nat, write: nat, stored: set<nat>)
    | SupplyThrew

  datatype Consumer<T> =
    | NoConsume
    | ConsumeReadLoaded(numElements: nat, read: nat)
    | Copying(count: nat, read: nat, copied: map<nat, T>)
    | ConsumeThrew
    | PopReadLoaded(read: nat)
    | Popping(read: nat)

  /** `stream` is everything ever published, `fates` what happened to each position below the read
      pointer, and `chunks` what `consume` returned. */
  datatype State<T> = State(read: nat, write: nat, pages: seq<seq<T>>, producer: Producer<T>, consumer: Consumer<T>,
                            stream: seq<T>, fates: seq<Fate>, chunks: seq<Chunk<T>>)

  ghost predicate Shaped<T>(c: Config, pages: seq<seq<T>>) {
    |pages| == c.numPages && forall i | 0 <= i < |pages| :: |pages[i]| == c.pageSize
  }

  /** The place in the pages that position `p` uses. */
  function At<T>(c: Config, pages: seq<seq<T>>, p: nat): T
    requires ValidConfig(c) && Shaped(c, pages)
  {
    pages[BufferIndex(c, p) % c.numPages][BufferOffset(c, p)]
  }

  ghost predicate Initial<T>(c: Config, s: State<T>) {
    && Shaped(c, s.pages) && s.read == s.write == 0 && s.producer == NoSupply && s.consumer == NoConsume
    && s.stream == [] && s.fates == [] && s.chunks == []
  }

  // ----- steps

  datatype Step<T> =
    | CallSupply(src: seq<T>)
    | SupplyLoadsWrite
    | SupplyMakesRoom
    | SupplyTears(i: nat, value: T)
    | SupplyCopies(i: nat)
    | SupplyPublishes
    | CallConsume(numElements: nat)
    | ConsumeLoadsWrite
    | ConsumeCopies(i: nat)
    | ConsumeCommits
    | CallPop
    | PopLoadsWrite
    | PopCommits

  function Repeat(f: Fate, n: nat): (r: seq<Fate>)
    ensures |r| == n && forall i | 0 <= i < n :: r[i] == f
  {
    seq(n, _ => f)
  }

  /** `read_pointer_.compare_exchange_strong`: moves the pointer if it still holds `expected`. */
  function MoveRead<T>(s: State<T>, expected: nat, desired: nat, fate: Fate): State<T> {
    if s.read == expected && expected <= desired
    then s.(read := desired, fates := s.fates + Repeat(fate, desired - expected))
    else s
  }

  function LoadWriteForSupply<T>(c: Config, s: State<T>): State<T>
    requires c.pageSize > 0
  {
    if !s.producer.SupplyReadLoaded? then s
    else
      var src, read := s.producer.src, s.producer.read;
      var available := ElementsAvailable(read, s.write);
      var count := ElementsToAccept(c, |src|, BufferOffset(c, s.write), read, s.write);
      if count == 0 then s.(producer := NoSupply)
      else if available + count > Capacity(c) then
        if c.prioritizeOld then s.(producer := SupplyThrew)
        else s.(producer := MakingRoom(src, count, read, s.write))
      else s.(producer := Filling(src, count, s.write, {}))
  }

  function MakeRoom<T>(c: Config, s: State<T>): State<T> {
    if !s.producer.MakingRoom? then s
    else
      var p := s.producer;
      var excess := ElementsAvailable(p.read, p.write) + p.count - Capacity(c);
      if s.read == p.read && excess >= 0
      then MoveRead(s, p.read, p.read + excess, Dropped)
           .(producer := Filling(p.src, p.count, p.write, {}))
      else s.(producer := NoSupply)
  }

  /** A store into the page that the producer is filling; `validate_index` guards the offset. */
  function Store<T>(c: Config, s: State<T>, i: nat, value: T): (r: State<T>)
    requires ValidConfig(c) && Shaped(c, s.pages) && s.producer.Filling?
    ensures Shaped(c, r.pages)
  {
    var index := BufferIndex(c, s.producer.write) % c.numPages;
    var offset := BufferOffset(c, s.producer.write) + i;
    if offset < c.pageSize
    then s.(pages := s.pages[index := s.pages[index][offset := value]])
    else s.(producer := SupplyThrew)
  }

  ghost predicate AllStored<T>(s: State<T>) {
    && s.producer.Filling? && s.producer.count <= |s.producer.src|
    && forall i: nat | i < s.producer.count :: i in s.producer.stored
  }

  ghost function Publish<T>(c: Config, s: State<T>): State<T>
    requires c.pageSize > 0
  {
    if !AllStored(s) then s
    else
      var p := s.producer;
      if s.write == p.write
      then s.(write := ComputePointer(c, BufferIndex(c, p.write), BufferOffset(c, p.write) + p.count),
              stream := s.stream + p.src[..p.count], producer := NoSupply)
      else s.(producer := NoSupply)
  }

  function LoadWriteForConsume<T>(c: Config, s: State<T>): State<T>
    requires c.pageSize > 0
  {
    if !s.consumer.ConsumeReadLoaded? then s
    else
      var count := ElementsToConsume(c, s.consumer.numElements, s.consumer.read, s.write);
      if count == 0 then s.(consumer := NoConsume)
      else s.(consumer := Copying(count, s.consumer.read, map[]))
  }

  function CopyOut<T>(c: Config, s: State<T>, i: nat): State<T>
    requires ValidConfig(c) && Shaped(c, s.pages)
  {
    if !(s.consumer.Copying? && i < s.consumer.count && i !in s.consumer.copied) then s
    else
      var offset := BufferOffset(c, s.consumer.read) + i;
      if offset < c.pageSize
      then
        var page := s.pages[BufferIndex(c, s.consumer.read) % c.numPages];
        s.(consumer := s.consumer.(copied := s.consumer.copied[i := page[offset]]))
      else s.(consumer := ConsumeThrew)
  }

  ghost predicate AllCopied<T>(s: State<T>) {
    s.consumer.Copying? && forall i: nat | i < s.consumer.count :: i in s.consumer.copied
  }

  /** The first `n` elements of the destination. */
  function Gather<T>(copied: map<nat, T>, n: nat): (r: seq<T>)
    requires forall i: nat | i < n :: i in copied
    ensures |r| == n
  {
    if n == 0 then [] else Gather(copied, n - 1) + [copied[n - 1]]
  }

  ghost function Commit<T>(c: Config, s: State<T>): State<T>
    requires c.pageSize > 0
  {
    if !AllCopied(s) then s
    else
      var k := s.consumer;
      if s.read == k.read
      then MoveRead(s, k.read, ComputePointer(c, BufferIndex(c, k.read), BufferOffset(c, k.read) + k.count), Delivered)
           .(consumer := NoConsume, chunks := s.chunks + [Chunk(k.read, Gather(k.copied, k.count))])
      else s.(consumer := NoConsume)
  }

  function LoadWriteForPop<T>(s: State<T>): State<T> {
    if !s.consumer.PopReadLoaded? then s
    else if ElementsAvailable(s.consumer.read, s.write) > 0 then s.(consumer := Popping(s.consumer.read))
    else s.(consumer := NoConsume)
  }

  function CommitPop<T>(c: Config, s: State<T>): State<T>
    requires c.pageSize > 0
  {
    if !s.consumer.Popping? then s
    else
      var read := s.consumer.read;
      MoveRead(s, read, ComputePointer(c, BufferIndex(c, read), BufferOffset(c, read) + 1), Popped)
      .(consumer := NoConsume)
  }

  predicate StillToStore<T>(s: State<T>, i: nat) {
    s.producer.Filling? && i < s.producer.count && i < |s.producer.src| && i !in s.producer.stored
  }

  ghost function Do<T>(c: Config, s: State<T>, step: Step<T>): (r: State<T>)
    requires ValidConfig(c) && Shaped(c, s.pages)
    ensures Shaped(c, r.pages)
  {
    match step
    case CallSupply(src) => if s.producer.NoSupply? then s.(producer := SupplyReadLoaded(src, s.read)) else s
    case SupplyLoadsWrite => LoadWriteForSupply(c, s)
    case SupplyMakesRoom => MakeRoom(c, s)
    case SupplyTears(i, value) =>
      if StillToStore(s, i) then Store(c, s, i, value) else s
    case SupplyCopies(i) =>
      if StillToStore(s, i) then
        var r := Store(c, s, i, s.producer.src[i]);
        if r.producer.Filling? then r.(producer := r.producer.(stored := r.producer.stored + {i})) else r
      else s
    case SupplyPublishes => Publish(c, s)
    case CallConsume(n) => if s.consumer.NoConsume? then s.(consumer := ConsumeReadLoaded(n, s.read)) else s
    case ConsumeLoadsWrite => LoadWriteForConsume(c, s)
    case ConsumeCopies(i) => CopyOut(c, s, i)
    case ConsumeCommits => Commit(c, s)
    case CallPop => if s.consumer.NoConsume? then s.(consumer := PopReadLoaded(s.read)) else s
    case PopLoadsWrite => LoadWriteForPop(s)
    case PopCommits => CommitPop(c, s)
  }

  /** The state after a whole schedule. */
  ghost function Run<T>(c: Config, s: State<T>, steps: seq<Step<T>>): (r: State<T>)
    requires ValidConfig(c) && Shaped(c, s.pages)
    ensures Shaped(c, r.pages)
  {
    if steps == [] then s else Do(c, Run(c, s, steps[..|steps| - 1]), steps[|steps| - 1])
  }

  // ----- the invariant

  /** The pointers stay in order and at most a ring apart. */
  ghost predicate Window<T>(c: Config, s: State<T>) {
    s.read <= s.write <= s.read + Capacity(c) && |s.stream| == s.write && |s.fates| == s.read
  }

  /** Everything between the pointers is where it belongs. */
  ghost predicate Contents<T>(c: Config, s: State<T>)
    requires ValidConfig(c) && Shaped(c, s.pages)
  {
    |s.stream| == s.write && forall p: nat | s.read <= p < s.write :: At(c, s.pages, p) == s.stream[p]
  }

  ghost predicate ProducerOk<T>(c: Config, s: State<T>)
    requires ValidConfig(c) && Shaped(c, s.pages)
  {
    match s.producer
    case NoSupply => true
    case SupplyReadLoaded(src, read) => read <= s.read && s.write <= read + Capacity(c)
    case MakingRoom(src, count, read, write) =>
      && !c.prioritizeOld && write == s.write && read <= s.read && write <= read + Capacity(c)
      && 0 < count <= |src| && BufferOffset(c, write) + count <= c.pageSize && count <= Capacity(c)
      && write - read + count > Capacity(c)
    case Filling(src, count, write, stored) =>
      && write == s.write && 0 < count <= |src| && BufferOffset(c, write) + count <= c.pageSize
      && write + count <= s.read + Capacity(c)
      && forall i <- stored :: i < count && At(c, s.pages, write + i) == src[i]
    case SupplyThrew => false
  }

  ghost predicate ConsumerOk<T>(c: Config, s: State<T>)
    requires ValidConfig(c) && |s.stream| == s.write
  {
    match s.consumer
    case NoConsume => true
    case ConsumeReadLoaded(_, read) => read <= s.read
    case Copying(count, read, copied) =>
      && read <= s.read && 0 < count && read + count <= s.write && BufferOffset(c, read) + count <= c.pageSize
      && (forall i <- copied :: i < count)
      && (s.read == read ==> forall i <- copied :: copied[i] == s.stream[read + i])
    case ConsumeThrew => false
    case PopReadLoaded(read) => read <= s.read
    case Popping(read) => read <= s.read && read < s.write
  }

  /** The elements of the positions that were delivered, in order. */
  ghost function Surviving<T>(stream: seq<T>, fates: seq<Fate>): seq<T>
    requires |fates| <= |stream|
  {
    if fates == [] then []
    else
      var n := |fates| - 1;
      Surviving(stream, fates[..n]) + if fates[n] == Delivered then [stream[n]] else []
  }

  /** Everything that `consume` ever returned, in order. */
  ghost function Consumed<T>(chunks: seq<Chunk<T>>): seq<T> {
    if chunks == [] then [] else Consumed(chunks[..|chunks| - 1]) + chunks[|chunks| - 1].elements
  }

  /** Every chunk is a piece of the stream at its position, each one begins where the one before it
      ended or later, and the last one ends by `limit`. */
  ghost predicate InOrder<T>(chunks: seq<Chunk<T>>, stream: seq<T>, limit: nat) {
    if chunks == [] then true
    else
      var n := |chunks| - 1;
      var k := chunks[n];
      && k.elements != [] && k.position + |k.elements| <= limit && k.position + |k.elements| <= |stream|
      && k.elements == stream[k.position..k.position + |k.elements|]
      && InOrder(chunks[..n], stream, k.position)
  }

  ghost predicate History<T>(c: Config, s: State<T>) {
    && |s.fates| <= |s.stream|
    && Consumed(s.chunks) == Surviving(s.stream, s.fates)
    && InOrder(s.chunks, s.stream, s.read)
    && (c.prioritizeOld ==> Dropped !in s.fates)
  }

  ghost predicate Inv<T>(c: Config, s: State<T>) {
    && ValidConfig(c) && Shaped(c, s.pages)
    && Window(c, s) && Contents(c, s) && ProducerOk(c, s) && ConsumerOk(c, s) && History(c, s)
  }

  // ----- every step keeps the invariant

  /** A store touches the place of one position, and no other place of a ring's length of positions. */
  lemma StoreAt<T>(c: Config, s: State<T>, i: nat, value: T, p: nat)
    requires ValidConfig(c) && Shaped(c, s.pages) && s.producer.Filling?
    requires BufferOffset(c, s.producer.write) + i < c.pageSize
    requires var q := s.producer.write + i; p < q + Capacity(c) && q < p + Capacity(c)
    ensures At(c, Store(c, s, i, value).pages, p)
            == if p == s.producer.write + i then value else At(c, s.pages, p)
  {
    var q := s.producer.write + i;
    WithinPage(c, s.producer.write, i);
    if p < q { DistinctPlaces(c, p, q); } else if q < p { DistinctPlaces(c, q, p); }
  }

  lemma StoreKeepsInv<T>(c: Config, s: State<T>, i: nat, value: T)
    requires Inv(c, s) && StillToStore(s, i)
    ensures Inv(c, Store(c, s, i, value))
    ensures Store(c, s, i, value).producer == s.producer
    ensures At(c, Store(c, s, i, value).pages, s.write + i) == value
  {
    hide Surviving, Consumed, InOrder;
    var r := Store(c, s, i, value);
    forall p: nat | s.read <= p < s.write ensures At(c, r.pages, p) == s.stream[p] {
      StoreAt(c, s, i, value, p);
    }
    forall j <- s.producer.stored ensures At(c, r.pages, s.write + j) == s.producer.src[j] {
      StoreAt(c, s, i, value, s.write + j);
    }
    StoreAt(c, s, i, value, s.write + i);
  }

  lemma ProducerMoved<T>(c: Config, s: State<T>, p: Producer<T>)
    requires Inv(c, s) && ProducerOk(c, s.(producer := p))
    ensures Inv(c, s.(producer := p))
  {}

  lemma ConsumerMoved<T>(c: Config, s: State<T>, k: Consumer<T>)
    requires Inv(c, s) && ConsumerOk(c, s.(consumer := k))
    ensures Inv(c, s.(consumer := k))
  {}

  lemma LoadWriteForSupplyKeepsInv<T>(c: Config, s: State<T>)
    requires Inv(c, s)
    ensures Inv(c, LoadWriteForSupply(c, s))
  {
    hide Contents, History, ConsumerOk, Surviving;
    ProducerMoved(c, s, LoadWriteForSupply(c, s).producer);
  }

  lemma LoadWriteForConsumeKeepsInv<T>(c: Config, s: State<T>)
    requires Inv(c, s)
    ensures Inv(c, LoadWriteForConsume(c, s))
  {
    ConsumerMoved(c, s, LoadWriteForConsume(c, s).consumer);
  }

  /** Positions that are passed without being delivered do not survive. */
  lemma {:induction false} SurvivingWithout<T>(stream: seq<T>, fates: seq<Fate>, f: Fate, n: nat)
    requires |fates| + n <= |stream| && f != Delivered
    ensures Surviving(stream, fates + Repeat(f, n)) == Surviving(stream, fates)
  {
    if n == 0 {
      assert fates + Repeat(f, 0) == fates;
    } else {
      assert (fates + Repeat(f, n))[..|fates| + n - 1] == fates + Repeat(f, n - 1);
      SurvivingWithout(stream, fates, f, n - 1);
    }
  }

  lemma {:induction false} SurvivingWith<T>(stream: seq<T>, fates: seq<Fate>, n: nat)
    requires |fates| + n <= |stream|
    ensures Surviving(stream, fates + Repeat(Delivered, n)) == Surviving(stream, fates) + stream[|fates|..|fates| + n]
  {
    if n == 0 {
      assert fates + Repeat(Delivered, 0) == fates;
    } else {
      assert (fates + Repeat(Delivered, n))[..|fates| + n - 1] == fates + Repeat(Delivered, n - 1);
      SurvivingWith(stream, fates, n - 1);
      assert stream[|fates|..|fates| + n] == stream[|fates|..|fates| + n - 1] + [stream[|fates| + n - 1]];
    }
  }

  /** Publishing more does not change what survived. */
  lemma {:induction false} SurvivingLonger<T>(stream: seq<T>, more: seq<T>, fates: seq<Fate>)
    requires |fates| <= |stream|
    ensures Surviving(stream + more, fates) == Surviving(stream, fates)
  {
    if fates != [] { SurvivingLonger(stream, more, fates[..|fates| - 1]); }
  }

  lemma InOrderWithin<T>(chunks: seq<Chunk<T>>, stream: seq<T>, limit: nat, more: nat)
    requires InOrder(chunks, stream, limit) && limit <= more
    ensures InOrder(chunks, stream, more)
  {}

  lemma {:induction false} InOrderLonger<T>(chunks: seq<Chunk<T>>, stream: seq<T>, more: seq<T>, limit: nat)
    requires InOrder(chunks, stream, limit)
    ensures InOrder(chunks, stream + more, limit)
  {
    if chunks != [] {
      var k := chunks[|chunks| - 1];
      InOrderLonger(chunks[..|chunks| - 1], stream, more, k.position);
      assert (stream + more)[k.position..k.position + |k.elements|] == stream[k.position..k.position + |k.elements|];
    }
  }

  lemma MakeRoomKeepsInv<T>(c: Config, s: State<T>)
    requires Inv(c, s)
    ensures Inv(c, MakeRoom(c, s))
  {
    hide At, Surviving, Consumed, InOrder, BufferIndex;
    if s.producer.MakingRoom? && s.read == s.producer.read {
      var excess := s.write - s.read + s.producer.count - Capacity(c);
      SurvivingWithout(s.stream, s.fates, Dropped, excess);
      InOrderWithin(s.chunks, s.stream, s.read, s.read + excess);
    }
  }

  /** What a supply publishes. */
  lemma Published<T>(c: Config, s: State<T>)
    requires Inv(c, s) && AllStored(s)
    ensures var p := s.producer;
      && p.write == s.write
      && Publish(c, s) == s.(write := s.write + p.count, stream := s.stream + p.src[..p.count], producer := NoSupply)
  {
    hide Contents, ConsumerOk, History;
    PointerAdvanced(c, s.producer.write, s.producer.count);
  }

  lemma PublishKeepsContents<T>(c: Config, s: State<T>)
    requires Inv(c, s) && AllStored(s)
    ensures Window(c, Publish(c, s)) && Contents(c, Publish(c, s))
  {
    hide ConsumerOk, History, At, Publish;
    var p, r := s.producer, Publish(c, s);
    Published(c, s);
    forall q: nat | r.read <= q < r.write ensures At(c, r.pages, q) == r.stream[q] {
      if s.write <= q {
        assert q - s.write in p.stored;
        assert At(c, s.pages, s.write + (q - s.write)) == p.src[q - s.write];
      }
    }
  }

  lemma PublishKeepsHistory<T>(c: Config, s: State<T>, r: State<T>, added: seq<T>)
    requires Inv(c, s) && r == s.(write := s.write + |added|, stream := s.stream + added, producer := NoSupply)
    ensures History(c, r) && ConsumerOk(c, r)
  {
    hide Contents, ProducerOk, Surviving, Consumed, InOrder;
    SurvivingLonger(s.stream, added, s.fates);
    InOrderLonger(s.chunks, s.stream, added, s.read);
  }

  lemma PublishKeepsInv<T>(c: Config, s: State<T>)
    requires Inv(c, s)
    ensures Inv(c, Publish(c, s))
  {
    hide Contents, ConsumerOk, History, Window;
    if AllStored(s) {
      Published(c, s);
      PublishKeepsContents(c, s);
      PublishKeepsHistory(c, s, Publish(c, s), s.producer.src[..s.producer.count]);
    }
  }

  lemma CopyOutKeepsInv<T>(c: Config, s: State<T>, i: nat)
    requires Inv(c, s)
    ensures Inv(c, CopyOut(c, s, i))
  {
    hide ProducerOk, History, Surviving;
    if s.consumer.Copying? && i < s.consumer.count && i !in s.consumer.copied {
      WithinPage(c, s.consumer.read, i);
      ConsumerMoved(c, s, CopyOut(c, s, i).consumer);
    }
  }

  lemma {:induction false} GatherIsSlice<T>(copied: map<nat, T>, n: nat, stream: seq<T>, read: nat)
    requires forall i: nat | i < n :: i in copied
    requires read + n <= |stream| && forall i: nat | i < n :: copied[i] == stream[read + i]
    ensures Gather(copied, n) == stream[read..read + n]
  {
    if n > 0 {
      GatherIsSlice(copied, n - 1, stream, read);
      assert stream[read..read + n] == stream[read..read + n - 1] + [stream[read + n - 1]];
    }
  }

  lemma CommittedHistory<T>(c: Config, s: State<T>, r: State<T>, k: Chunk<T>)
    requires ValidConfig(c) && History(c, s) && |s.fates| == s.read
    requires k.elements != [] && s.read + |k.elements| <= |s.stream| && k.position == s.read
    requires k.elements == s.stream[s.read..s.read + |k.elements|]
    requires r.stream == s.stream && r.fates == s.fates + Repeat(Delivered, |k.elements|)
    requires r.chunks == s.chunks + [k] && r.read == s.read + |k.elements|
    ensures History(c, r)
  {
    SurvivingWith(s.stream, s.fates, |k.elements|);
    assert r.chunks[..|r.chunks| - 1] == s.chunks;
  }

  /** Moving the read pointer up to the write pointer leaves the producer's side in order. */
  lemma ReadMoved<T>(c: Config, s: State<T>, r: State<T>)
    requires Inv(c, s) && History(c, r) && r.consumer == NoConsume
    requires s.read <= r.read <= s.write && |r.fates| == r.read
    requires r.write == s.write && r.pages == s.pages && r.producer == s.producer && r.stream == s.stream
    ensures Inv(c, r)
  {}

  lemma CommitKeepsInv<T>(c: Config, s: State<T>)
    requires Inv(c, s)
    ensures Inv(c, Commit(c, s))
  {
    hide Surviving, Consumed, InOrder, BufferIndex, At, Contents, ProducerOk, History, Shaped;
    if AllCopied(s) {
      var k := s.consumer;
      if s.read == k.read {
        var elements := Gather(k.copied, k.count);
        GatherIsSlice(k.copied, k.count, s.stream, k.read);
        PointerAdvanced(c, k.read, k.count);
        var r := s.(read := k.read + k.count, fates := s.fates + Repeat(Delivered, k.count),
                    chunks := s.chunks + [Chunk(k.read, elements)], consumer := NoConsume);
        assert r == Commit(c, s);
        CommittedHistory(c, s, r, Chunk(k.read, elements));
        ReadMoved(c, s, r);
      } else {
        ConsumerMoved(c, s, NoConsume);
      }
    }
  }

  lemma CommitPopKeepsInv<T>(c: Config, s: State<T>)
    requires Inv(c, s)
    ensures Inv(c, CommitPop(c, s))
  {
    hide At, Surviving, Consumed, InOrder, BufferIndex;
    if s.consumer.Popping? {
      PointerAdvanced(c, s.consumer.read, 1);
      if s.read == s.consumer.read {
        SurvivingWithout(s.stream, s.fates, Popped, 1);
        InOrderWithin(s.chunks, s.stream, s.read, s.read + 1);
      }
    }
  }

  lemma CallSupplyKeepsInv<T>(c: Config, s: State<T>, src: seq<T>)
    requires Inv(c, s)
    ensures Inv(c, s.(producer := SupplyReadLoaded(src, s.read)))
  {
    ProducerMoved(c, s, SupplyReadLoaded(src, s.read));
  }

  lemma CopyInKeepsInv<T>(c: Config, s: State<T>, i: nat)
    requires Inv(c, s) && StillToStore(s, i)
    ensures Inv(c, Do(c, s, SupplyCopies(i)))
  {
    hide Store, History, ConsumerOk, Contents;
    StoreKeepsInv(c, s, i, s.producer.src[i]);
    ProducerMoved(c, Store(c, s, i, s.producer.src[i]), Do(c, s, SupplyCopies(i)).producer);
  }

  lemma SupplyStepKeepsInv<T>(c: Config, s: State<T>, step: Step<T>)
    requires Inv(c, s)
    requires step.CallSupply? || step.SupplyLoadsWrite? || step.SupplyMakesRoom? || step.SupplyTears?
             || step.SupplyCopies? || step.SupplyPublishes?
    ensures Inv(c, Do(c, s, step))
  {
    hide Store, LoadWriteForSupply, MakeRoom, Publish, StillToStore;
    match step
    case CallSupply(src) => CallSupplyKeepsInv(c, s, src);
    case SupplyLoadsWrite => LoadWriteForSupplyKeepsInv(c, s);
    case SupplyMakesRoom => MakeRoomKeepsInv(c, s);
    case SupplyTears(i, value) => if StillToStore(s, i) { StoreKeepsInv(c, s, i, value); }
    case SupplyCopies(i) =>
      if StillToStore(s, i) { CopyInKeepsInv(c, s, i); }
    case SupplyPublishes => PublishKeepsInv(c, s);
  }

  lemma ConsumeStepKeepsInv<T>(c: Config, s: State<T>, step: Step<T>)
    requires Inv(c, s)
    requires step.CallConsume? || step.ConsumeLoadsWrite? || step.ConsumeCopies? || step.ConsumeCommits?
             || step.CallPop? || step.PopLoadsWrite? || step.PopCommits?
    ensures Inv(c, Do(c, s, step))
  {
    match step
    case CallConsume(n) => ConsumerMoved(c, s, Do(c, s, step).consumer);
    case ConsumeLoadsWrite => LoadWriteForConsumeKeepsInv(c, s);
    case ConsumeCopies(i) => CopyOutKeepsInv(c, s, i);
    case ConsumeCommits => CommitKeepsInv(c, s);
    case CallPop => ConsumerMoved(c, s, Do(c, s, step).consumer);
    case PopLoadsWrite => ConsumerMoved(c, s, LoadWriteForPop(s).consumer);
    case PopCommits => CommitPopKeepsInv(c, s);
  }

  lemma DoKeepsInv<T>(c: Config, s: State<T>, step: Step<T>)
    requires Inv(c, s)
    ensures Inv(c, Do(c, s, step))
  {
    match step
    case CallConsume(_) => ConsumeStepKeepsInv(c, s, step);
    case ConsumeLoadsWrite => ConsumeStepKeepsInv(c, s, step);
    case ConsumeCopies(_) => ConsumeStepKeepsInv(c, s, step);
    case ConsumeCommits => ConsumeStepKeepsInv(c, s, step);
    case CallPop => ConsumeStepKeepsInv(c, s, step);
    case PopLoadsWrite => ConsumeStepKeepsInv(c, s, step);
    case PopCommits => ConsumeStepKeepsInv(c, s, step);
    case _ => SupplyStepKeepsInv(c, s, step);
  }

  // ----- whole schedules

  /** The invariant holds after every schedule. */
  lemma {:induction false} RunKeepsInv<T>(c: Config, s: State<T>, steps: seq<Step<T>>)
    requires ValidConfig(c) && Initial(c, s)
    ensures Inv(c, Run(c, s, steps))
  {
    if steps != [] {
      RunKeepsInv(c, s, steps[..|steps| - 1]);
      DoKeepsInv(c, Run(c, s, steps[..|steps| - 1]), steps[|steps| - 1]);
    }
  }

  /** What `InOrder` says of any two chunks. */
  lemma {:induction false} ChunksOrdered<T>(chunks: seq<Chunk<T>>, stream: seq<T>, limit: nat, i: nat, j: nat)
    requires InOrder(chunks, stream, limit) && i < j < |chunks|
    ensures chunks[i].position + |chunks[i].elements| <= chunks[j].position
  {
    var n := |chunks| - 1;
    if j < n {
      ChunksOrdered(chunks[..n], stream, chunks[n].position, i, j);
    } else if i < n - 1 {
      ChunksOrdered(chunks[..n], stream, chunks[n].position, i, n - 1);
      assert chunks[..n][n - 1] == chunks[n - 1];
    }
  }

  lemma {:induction false} ChunkIsSlice<T>(chunks: seq<Chunk<T>>, stream: seq<T>, limit: nat, i: nat)
    requires InOrder(chunks, stream, limit) && i < |chunks|
    ensures chunks[i].elements != [] && chunks[i].position + |chunks[i].elements| <= limit
    ensures chunks[i].position + |chunks[i].elements| <= |stream|
    ensures chunks[i].elements == stream[chunks[i].position..chunks[i].position + |chunks[i].elements|]
  {
    if i < |chunks| - 1 { ChunkIsSlice(chunks[..|chunks| - 1], stream, chunks[|chunks| - 1].position, i); }
  }

  /** In either mode and under every schedule: each call of `consume` that returns elements returns
      consecutive elements of the published stream, at positions after those of every earlier call;
      and all the returned elements together are the stream without what was popped or dropped. */
  lemma DeliveriesAreStream<T>(c: Config, s: State<T>, steps: seq<Step<T>>)
    requires ValidConfig(c) && Initial(c, s)
    ensures var r := Run(c, s, steps);
      && |r.fates| == r.read <= r.write == |r.stream| && r.write <= r.read + Capacity(c)
      && Consumed(r.chunks) == Surviving(r.stream, r.fates)
      && (forall i | 0 <= i < |r.chunks| ::
            && r.chunks[i].elements != [] && r.chunks[i].position + |r.chunks[i].elements| <= r.read
            && r.chunks[i].elements == r.stream[r.chunks[i].position..r.chunks[i].position + |r.chunks[i].elements|])
      && (forall i, j | 0 <= i < j < |r.chunks| ::
            r.chunks[i].position + |r.chunks[i].elements| <= r.chunks[j].position)
  {
    hide ProducerOk, ConsumerOk, Contents, Run, Surviving, Consumed;
    var r := Run(c, s, steps);
    RunKeepsInv(c, s, steps);
    forall i | 0 <= i < |r.chunks|
      ensures r.chunks[i].elements != [] && r.chunks[i].position + |r.chunks[i].elements| <= r.read
      ensures r.chunks[i].elements == r.stream[r.chunks[i].position..r.chunks[i].position + |r.chunks[i].elements|]
    {
      ChunkIsSlice(r.chunks, r.stream, r.read, i);
    }
    forall i, j | 0 <= i < j < |r.chunks|
      ensures r.chunks[i].position + |r.chunks[i].elements| <= r.chunks[j].position
    {
      ChunksOrdered(r.chunks, r.stream, r.read, i, j);
    }
  }

  lemma {:induction false} AllDelivered<T>(stream: seq<T>, fates: seq<Fate>)
    requires |fates| <= |stream| && forall f <- fates :: f == Delivered
    ensures Surviving(stream, fates) == stream[..|fates|]
  {
    if fates != [] {
      var n := |fates| - 1;
      assert forall f <- fates[..n] :: f in fates;
      assert fates[n] in fates;
      AllDelivered(stream, fates[..n]);
    }
  }

  ghost predicate NoPops<T>(steps: seq<Step<T>>) {
    forall step <- steps :: !step.CallPop?
  }

  lemma {:induction false} NoPopsNonePopped<T>(c: Config, s: State<T>, steps: seq<Step<T>>)
    requires ValidConfig(c) && Initial(c, s) && NoPops(steps)
    ensures var r := Run(c, s, steps);
      Popped !in r.fates && !r.consumer.PopReadLoaded? && !r.consumer.Popping?
  {
    if steps != [] {
      var before := steps[..|steps| - 1];
      assert steps[|steps| - 1] in steps;
      NoPopsNonePopped(c, s, before);
    }
  }

  /** When old elements have priority, nothing is lost, duplicated or reordered: what the consumer
      has received is exactly the part of the stream below the read pointer. */
  lemma KeepOldIsQueue<T>(c: Config, s: State<T>, steps: seq<Step<T>>)
    requires ValidConfig(c) && Initial(c, s) && c.prioritizeOld && NoPops(steps)
    ensures var r := Run(c, s, steps);
      && r.read <= r.write == |r.stream| && r.write <= r.read + Capacity(c)
      && Consumed(r.chunks) == r.stream[..r.read]
  {
    var r := Run(c, s, steps);
    RunKeepsInv(c, s, steps);
    NoPopsNonePopped(c, s, steps);
    forall f <- r.fates ensures f == Delivered {
      assert f != Popped && f != Dropped;
    }
    AllDelivered(r.stream, r.fates);
  }

  /** A copy in which any element differs from the stream is thrown away: the read pointer has
      moved, so the compare-and-swap fails and the call returns nothing. */
  lemma TornCopyIsDiscarded<T>(c: Config, s: State<T>, steps: seq<Step<T>>, i: nat)
    requires ValidConfig(c) && Initial(c, s)
    requires var r := Run(c, s, steps);
      r.consumer.Copying? && i in r.consumer.copied
      && (r.consumer.read + i < |r.stream| ==> r.consumer.copied[i] != r.stream[r.consumer.read + i])
    ensures var r := Run(c, s, steps);
      && r.read > r.consumer.read
      && Commit(c, r).chunks == r.chunks && Commit(c, r).read == r.read
  {
    hide Contents, ProducerOk, History, Run;
    RunKeepsInv(c, s, steps);
  }

  /** The exceptions of `supply` and of the page's bounds check are never thrown, and a supply that
      has filled its elements always publishes them. */
  lemma NothingThrown<T>(c: Config, s: State<T>, steps: seq<Step<T>>)
    requires ValidConfig(c) && Initial(c, s)
    ensures var r := Run(c, s, steps);
      && !r.producer.SupplyThrew? && !r.consumer.ConsumeThrew?
      && (AllStored(r) ==> Publish(c, r).stream == r.stream + r.producer.src[..r.producer.count])
  {
    RunKeepsInv(c, s, steps);
  }

  /** Elements are dropped only to make room, only when old ones have no priority, and only as many
      as are needed: afterwards the ring is exactly full once the supply is published. */
  lemma DropsOnlyWhatIsNeeded<T>(c: Config, s: State<T>, steps: seq<Step<T>>)
    requires ValidConfig(c) && Initial(c, s)
    requires var r := Run(c, s, steps); r.producer.MakingRoom? && r.read == r.producer.read
    ensures var r := Run(c, s, steps);
      var d := MakeRoom(c, r);
      && !c.prioritizeOld && r.read < d.read <= r.write
      && d.fates == r.fates + Repeat(Dropped, d.read - r.read)
      && d.read + Capacity(c) == r.write + r.producer.count
  {
    hide Contents, History, ConsumerOk, Run, Shaped;
    RunKeepsInv(c, s, steps);
  }

  /** `d` extends the history of `r`. */
  ghost predicate Extends<T>(r: State<T>, d: State<T>) {
    r.read <= d.read && r.write <= d.write && r.stream <= d.stream && r.fates <= d.fates && r.chunks <= d.chunks
  }

  lemma StepExtends<T>(c: Config, r: State<T>, step: Step<T>)
    requires Inv(c, r)
    ensures Extends(r, Do(c, r, step))
  {
    hide Contents, History, ConsumerOk, Surviving;
    match step
    case SupplyPublishes =>
      if AllStored(r) { PointerAdvanced(c, r.producer.write, r.producer.count); }
    case ConsumeCommits =>
    case PopCommits =>
    case SupplyMakesRoom =>
    case SupplyTears(i, value) =>
    case SupplyCopies(i) =>
    case SupplyLoadsWrite =>
    case _ =>
  }

  /** The pointers never move back, and nothing that was published, decided or delivered changes. */
  lemma {:induction false} RunsExtend<T>(c: Config, s: State<T>, steps: seq<Step<T>>, n: nat)
    requires ValidConfig(c) && Initial(c, s) && n <= |steps|
    ensures Extends(Run(c, s, steps[..n]), Run(c, s, steps))
  {
    if n < |steps| {
      var before := steps[..|steps| - 1];
      RunsExtend(c, s, before, n);
      assert before[..n] == steps[..n];
      RunKeepsInv(c, s, before);
      StepExtends(c, Run(c, s, before), steps[|steps| - 1]);
    } else {
      assert steps[..n] == steps;
    }
  }

  lemma RunsExtendFrom<T>(c: Config, s: State<T>, steps: seq<Step<T>>, a: nat, b: nat)
    requires ValidConfig(c) && Initial(c, s) && a <= b <= |steps|
    ensures Extends(Run(c, s, steps[..a]), Run(c, s, steps[..b])) && Inv(c, Run(c, s, steps[..b]))
  {
    assert steps[..b][..a] == steps[..a];
    RunsExtend(c, s, steps[..b], a);
    RunKeepsInv(c, s, steps[..b]);
  }

  /** `peek`, whose loads of the read and of the write pointer happen after `a` and after `b` steps of a
      schedule, and whose result is looked at after `k`. It finds nothing only if there was nothing at
      the second load. What it finds is the element of the stream at the position that it loaded first,
      until that position has been delivered, popped or dropped. */
  lemma PeekAcross<T>(c: Config, s: State<T>, steps: seq<Step<T>>, a: nat, b: nat, k: nat)
    requires ValidConfig(c) && Initial(c, s) && a <= b <= k <= |steps|
    ensures var seen, second, now := Run(c, s, steps[..a]).read, Run(c, s, steps[..b]), Run(c, s, steps[..k]);
      && seen <= second.read <= now.read == |now.fates|
      && (ElementsAvailable(seen, second.write) == 0 ==> second.read == second.write)
      && (ElementsAvailable(seen, second.write) > 0 && now.read <= seen ==>
            seen < now.write == |now.stream| && At(c, now.pages, seen) == now.stream[seen])
  {
    hide Do, ProducerOk, ConsumerOk, History;
    RunsExtendFrom(c, s, steps, a, b);
    RunsExtendFrom(c, s, steps, b, k);
  }
}
