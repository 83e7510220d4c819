/** Blocks of words on the bus of the target: which addresses a block access reaches when TAR counts
    up inside its window, and what it does to memory. */
module MemoryBlocks {
  import opened Arithmetic
  import opened Bits
  import opened FlashController
  import opened DebugPort

  /** The address that the `i`th word of a block reaches: TAR counts up within its window. */
  function WordAddress(addr: Word, i: nat, window: nat): (a: Word)
    requires window > 0
  {
    if i == 0 then addr else NextAddress(WordAddress(addr, i - 1, window), window)
  }

  /** What a block write does to the device. */
  function WriteBlock(d: Device, addr: Word, words: seq<Word>, window: nat): Device
    requires window > 0
  {
    if words == [] then d
    else
      var n := |words| - 1;
      BusWrite(WriteBlock(d, addr, words[..n], window), WordAddress(addr, n, window), words[n])
  }

  /** What a block read does to the device. */
  function AfterReads(d: Device, addr: Word, n: nat, window: nat): Device
    requires window > 0
  {
    if n == 0 then d else BusRead(AfterReads(d, addr, n - 1, window), WordAddress(addr, n - 1, window)).1
  }

  /** The words that a block read finds. */
  function WordsRead(d: Device, addr: Word, n: nat, window: nat): (words: seq<Word>)
    requires window > 0
    ensures |words| == n
  {
    if n == 0 then []
    else WordsRead(d, addr, n - 1, window)
         + [BusRead(AfterReads(d, addr, n - 1, window), WordAddress(addr, n - 1, window)).0]
  }

  lemma WriteBlockMore(d: Device, addr: Word, source: seq<Word>, window: nat, n: nat)
    requires window > 0 && n < |source|
    ensures WriteBlock(d, addr, source[..n + 1], window)
            == BusWrite(WriteBlock(d, addr, source[..n], window), WordAddress(addr, n, window), source[n])
  {
    assert source[..n + 1][..n] == source[..n];
  }

  // ----- addresses

  /** The windows of TAR divide the address space. */
  ghost predicate ValidWindow(window: nat) {
    window > 0 && 0x1_0000_0000 % window == 0
  }

  /** Counting up inside the window that begins at a multiple of its size. */
  lemma NextAddressWraps(addr: Word, q: nat, x: nat, window: nat)
    requires ValidWindow(window) && addr == q * window + x && x < window
    ensures NextAddress(addr, window) == q * window + (x + 4) % window
  {
    DivModUnique(addr, window, q, x);
    BelowMultiple(q, window, (x + 4) % window);
  }

  /** A window never reaches past the end of the address space. */
  lemma BelowMultiple(q: nat, window: nat, r: nat)
    requires ValidWindow(window) && q * window < 0x1_0000_0000 && r < window
    ensures q * window + r < 0x1_0000_0000
  {
    var n := 0x1_0000_0000 / window;
    DivMod(0x1_0000_0000, window);
    LessTimes(q, n, window);
    MoreTimes(q + 1, n, window);
    assert (q + 1) * window == q * window + window;
  }

  lemma RemainderOfSum(a: nat, b: nat, n: nat)
    requires n > 0
    ensures (a % n + b) % n == (a + b) % n
  {
    DivMod(a, n);
    DivMod(a % n + b, n);
    var q, r := (a % n + b) / n, (a % n + b) % n;
    SumOfMultiples(a, b, n, a / n, a % n, q, r);
    DivModUnique(a + b, n, a / n + q, r);
  }

  lemma SumOfMultiples(a: nat, b: nat, n: nat, p: nat, s: nat, q: nat, r: nat)
    requires a == p * n + s && s + b == q * n + r
    ensures a + b == (p + q) * n + r
  {
    assert (p + q) * n == p * n + q * n;
  }

  lemma {:induction false} WordAddressFrom(addr: Word, q: nat, o: nat, i: nat, window: nat)
    requires ValidWindow(window) && addr == q * window + o && o < window
    ensures WordAddress(addr, i, window) == q * window + (o + 4 * i) % window
  {
    if i == 0 {
      DivModUnique(o, window, 0, o);
    } else {
      WordAddressFrom(addr, q, o, i - 1, window);
      NextAddressWraps(WordAddress(addr, i - 1, window), q, (o + 4 * (i - 1)) % window, window);
      RemainderOfSum(o + 4 * (i - 1), 4, window);
    }
  }

  /** The addresses of a block go round the window that its first address lies in. */
  lemma WordAddressWraps(addr: Word, i: nat, window: nat)
    requires ValidWindow(window)
    ensures WordAddress(addr, i, window) == addr - addr % window + (addr % window + 4 * i) % window
  {
    DivMod(addr, window);
    WordAddressFrom(addr, addr / window, addr % window, i, window);
  }

  /** The `i`th of consecutive words. */
  function Nth(addr: nat, i: nat): nat {
    addr + 4 * i
  }

  predicate FitsWindow(addr: Word, n: nat, window: nat)
    requires window > 0
  {
    n == 0 || addr % window + 4 * (n - 1) < window
  }

  lemma WordAddressIsNth(addr: Word, n: nat, window: nat, i: nat)
    requires ValidWindow(window) && FitsWindow(addr, n, window) && i < n
    ensures WordAddress(addr, i, window) == Nth(addr, i)
  {
    WordAddressWraps(addr, i, window);
    DivModUnique(addr % window + 4 * i, window, 0, addr % window + 4 * i);
  }

  /** A block goes to consecutive words exactly when it ends inside the window it begins in. */
  lemma BlockInWindow(addr: Word, n: nat, window: nat)
    requires ValidWindow(window)
    ensures (forall i: nat | i < n :: WordAddress(addr, i, window) == Nth(addr, i)) <==> FitsWindow(addr, n, window)
  {
    if FitsWindow(addr, n, window) {
      forall i: nat | i < n ensures WordAddress(addr, i, window) == Nth(addr, i) {
        WordAddressIsNth(addr, n, window, i);
      }
    } else {
      WordAddressWraps(addr, n - 1, window);
      assert (addr % window + 4 * (n - 1)) % window < window;
      assert WordAddress(addr, n - 1, window) != Nth(addr, n - 1);
    }
  }

  // ----- plain memory

  /** The `i`th word of a block is an address of plain memory. */
  ghost predicate PlainWord(d: Device, addr: nat, i: nat) {
    var a := Nth(addr, i);
    a < 0x1_0000_0000 && a != FLASH_KEYR && a != FLASH_SR && a != FLASH_CR && !InFlash(d, a)
  }

  ghost predicate PlainBlock(d: Device, addr: Word, n: nat, window: nat) {
    ValidWindow(window) && FitsWindow(addr, n, window) && forall i: nat | i < n :: PlainWord(d, addr, i)
  }

  /** `a` is one of the `n` words of the block. */
  predicate InBlock(addr: nat, n: nat, a: nat) {
    addr <= a < addr + 4 * n && (a - addr) % 4 == 0
  }

  /** Memory with consecutive words stored. */
  function Stored(ram: map<nat, Word>, addr: nat, words: seq<Word>): map<nat, Word> {
    if words == [] then ram
    else
      var n := |words| - 1;
      Stored(ram, addr, words[..n])[Nth(addr, n) := words[n]]
  }

  /** `Stored` puts word `i` at `addr + 4 * i` and changes nothing else. */
  lemma {:induction false} StoredAt(ram: map<nat, Word>, addr: nat, words: seq<Word>, a: nat)
    ensures a in Stored(ram, addr, words) <==> a in ram || InBlock(addr, |words|, a)
    ensures InBlock(addr, |words|, a) ==> Stored(ram, addr, words)[a] == words[(a - addr) / 4]
    ensures a in ram && !InBlock(addr, |words|, a) ==> Stored(ram, addr, words)[a] == ram[a]
  {
    if words != [] { StoredAt(ram, addr, words[..|words| - 1], a); }
  }

  lemma PlainWrite(d: Device, addr: Word, i: nat, value: Word)
    requires PlainWord(d, addr, i)
    ensures BusWrite(d, Nth(addr, i), value) == d.(ram := d.ram[Nth(addr, i) := value])
    ensures BusRead(d, Nth(addr, i)) == (if Nth(addr, i) in d.ram then d.ram[Nth(addr, i)] else 0, d)
  {}

  /** A block write to plain memory stores word `i` at `addr + 4 * i` and changes nothing else. */
  lemma {:induction false} BlockStores(d: Device, addr: Word, words: seq<Word>, window: nat)
    requires PlainBlock(d, addr, |words|, window)
    ensures WriteBlock(d, addr, words, window) == d.(ram := Stored(d.ram, addr, words))
  {
    if words != [] {
      var n := |words| - 1;
      BlockStores(d, addr, words[..n], window);
      WordAddressIsNth(addr, n + 1, window, n);
      var e := d.(ram := Stored(d.ram, addr, words[..n]));
      assert PlainWord(d, addr, n) && PlainWord(e, addr, n);
      PlainWrite(e, addr, n, words[n]);
    }
  }

  /** Reading plain memory changes nothing. */
  lemma {:induction false} BlockReadsKeep(d: Device, addr: Word, n: nat, size: nat, window: nat)
    requires PlainBlock(d, addr, size, window) && n <= size
    ensures AfterReads(d, addr, n, window) == d
  {
    if n > 0 {
      var last := n - 1;
      BlockReadsKeep(d, addr, last, size, window);
      WordAddressIsNth(addr, size, window, last);
      assert PlainWord(d, addr, last);
      PlainWrite(d, addr, last, 0);
      assert AfterReads(d, addr, n, window) == BusRead(d, Nth(addr, last)).1;
    }
  }

  /** The last word of a block read is what memory holds at its address. */
  lemma LastWordRead(d: Device, addr: Word, n: nat, size: nat, window: nat)
    requires PlainBlock(d, addr, size, window) && n < size && Nth(addr, n) in d.ram
    ensures WordsRead(d, addr, n + 1, window) == WordsRead(d, addr, n, window) + [d.ram[Nth(addr, n)]]
  {
    BlockReadsKeep(d, addr, n, size, window);
    WordAddressIsNth(addr, size, window, n);
    assert PlainWord(d, addr, n);
    PlainWrite(d, addr, n, 0);
  }

  /** What a block write stores, a block read of the same place returns. */
  lemma BlockRoundTrip(d: Device, addr: Word, words: seq<Word>, window: nat)
    requires PlainBlock(d, addr, |words|, window)
    ensures WordsRead(WriteBlock(d, addr, words, window), addr, |words|, window) == words
  {
    BlockStores(d, addr, words, window);
    var e := d.(ram := Stored(d.ram, addr, words));
    forall i: nat | i < |words| ensures PlainWord(e, addr, i) { assert PlainWord(d, addr, i); }
    ReadStored(e, d.ram, addr, words, window, |words|);
    assert words[..|words|] == words;
  }

  lemma {:induction false} ReadStored(e: Device, ram: map<nat, Word>, addr: Word, words: seq<Word>, window: nat, n: nat)
    requires n <= |words| && PlainBlock(e, addr, |words|, window) && e.ram == Stored(ram, addr, words)
    ensures WordsRead(e, addr, n, window) == words[..n]
  {
    hide Stored, PlainBlock, WordAddress, BusRead;
    if n > 0 {
      var last := n - 1;
      ReadStored(e, ram, addr, words, window, last);
      StoredWordRead(e, ram, addr, words, window, last);
      assert words[..n] == words[..last] + [words[last]];
    }
  }

  lemma StoredWordRead(e: Device, ram: map<nat, Word>, addr: Word, words: seq<Word>, window: nat, n: nat)
    requires n < |words| && PlainBlock(e, addr, |words|, window) && e.ram == Stored(ram, addr, words)
    ensures WordsRead(e, addr, n + 1, window) == WordsRead(e, addr, n, window) + [words[n]]
  {
    StoredWord(ram, addr, words, n);
    LastWordRead(e, addr, n, |words|, window);
  }

  lemma StoredWord(ram: map<nat, Word>, addr: nat, words: seq<Word>, i: nat)
    requires i < |words|
    ensures var a := Nth(addr, i); a in Stored(ram, addr, words) && Stored(ram, addr, words)[a] == words[i]
  {
    NthInBlock(addr, |words|, i);
    StoredAt(ram, addr, words, Nth(addr, i));
  }

  lemma NthInBlock(addr: nat, n: nat, i: nat)
    requires i < n
    ensures InBlock(addr, n, Nth(addr, i)) && (Nth(addr, i) - addr) / 4 == i
  {}
}
