/** What the flash controller makes of the words that `serial_wire/flash.cc` writes to it. */
module FlashControl {
  import opened Arithmetic
  import opened Bits
  import opened FlashController
  import opened MemoryBlocks

  // ----- control words

  /** The part of a control word that selects an operation. */
  datatype Selection = Selection(program: bool, erase: bool, massErase: bool, page: nat)

  ghost function SelectionOf(control: Word): Selection {
    Selection(Bit(control, CR_PG), Bit(control, CR_PER), Bit(control, CR_MER), GetField(control, 8, CR_PNB))
  }

  /** `modify_bit_field<1>` on a control word. */
  method ChangeBit(control: Word, on: bool, i: nat) returns (r: Word)
    requires i < WORD_BITS
    ensures forall j: nat :: Bit(r, j) == if j == i then on else Bit(control, j)
    ensures i < CR_PNB || CR_PNB + 8 <= i ==> GetField(r, 8, CR_PNB) == GetField(control, 8, CR_PNB)
  {
    WordWidths();
    ModifyFieldFits(control, Digit(on), 1, i, WORD_BITS);
    r := ModifyField(control, Digit(on), 1, i);
    forall j: nat ensures Bit(r, j) == if j == i then on else Bit(control, j) {
      ModifyFieldBit(control, Digit(on), 1, i, WORD_BITS, j);
    }
    if i < CR_PNB || CR_PNB + 8 <= i { OtherFieldKept(control, Digit(on), 1, i, WORD_BITS, 8, CR_PNB); }
  }

  /** `modify_bit_field<8, 3>`: chooses a page; the page number is cut to eight bits. */
  method ChangePage(control: Word, page: nat) returns (r: Word)
    requires page < 256
    ensures GetField(r, 8, CR_PNB) == page
    ensures forall j: nat | j < CR_PNB || CR_PNB + 8 <= j :: Bit(r, j) == Bit(control, j)
  {
    WordWidths();
    ModifyFieldFits(control, page, 8, CR_PNB, WORD_BITS);
    r := ModifyField(control, page, 8, CR_PNB);
    ReadBack(control, page, 8, CR_PNB, WORD_BITS);
    TruncateFits(page, 8);
    forall j: nat | j < CR_PNB || CR_PNB + 8 <= j ensures Bit(r, j) == Bit(control, j) {
      ModifyFieldBit(control, page, 8, CR_PNB, WORD_BITS, j);
    }
  }

  lemma KeptControlSelection(value: Word)
    requires KeptControl(value) < 0x1_0000_0000
    ensures SelectionOf(KeptControl(value)) == SelectionOf(value)
    ensures !Bit(KeptControl(value), CR_STRT)
  {
    hide GetField, ModifyField;
    WordWidths();
    var v := ModifyField(value, 0, 1, CR_STRT);
    ModifyFieldFits(value, 0, 1, CR_STRT, WORD_BITS);
    forall j: nat
      ensures Bit(KeptControl(value), j) == (j != CR_STRT && j != CR_LOCK && Bit(value, j))
    {
      ModifyFieldBit(value, 0, 1, CR_STRT, WORD_BITS, j);
      ModifyFieldBit(v, 0, 1, CR_LOCK, WORD_BITS, j);
    }
    OtherFieldKept(value, 0, 1, CR_STRT, WORD_BITS, 8, CR_PNB);
    OtherFieldKept(v, 0, 1, CR_LOCK, WORD_BITS, 8, CR_PNB);
  }

  /** `e` is the device after a control word was written. */
  ghost predicate AfterControl(d: Device, value: Word, e: Device) {
    if d.lock != Unlocked then e == d
    else
      var m := d.(cr := e.cr, lock := if Bit(value, CR_LOCK) then Locked else Unlocked);
      SelectionOf(e.cr) == SelectionOf(value) && e == if Bit(value, CR_STRT) then StartErase(m) else m
  }

  lemma ControlWritten(d: Device, value: Word)
    ensures AfterControl(d, value, BusWrite(d, FLASH_CR, value))
  {
    hide KeptControl, Bit, SelectionOf, StartErase;
    KeptControlFits(value);
    KeptControlSelection(value);
    EraseKeepsControl(d.(cr := KeptControl(value), lock := if Bit(value, CR_LOCK) then Locked else Unlocked));
  }

  lemma EraseKeepsControl(d: Device)
    ensures StartErase(d).cr == d.cr && StartErase(d).lock == d.lock
  {}

  /** What a read of the control register shows. */
  lemma ControlRead(d: Device)
    ensures BusRead(d, FLASH_CR) == (Control(d), d)
    ensures SelectionOf(Control(d)) == SelectionOf(d.cr)
    ensures !Bit(Control(d), CR_STRT) && Bit(Control(d), CR_LOCK) == (d.lock != Unlocked)
  {
    hide GetField, ModifyField, KeptControl;
    WordWidths();
    KeptControlFits(d.cr);
    KeptControlSelection(d.cr);
    var k, on := KeptControl(d.cr), Digit(d.lock != Unlocked);
    forall j: nat ensures Bit(Control(d), j) == if j == CR_LOCK then Bit(on, 0) else Bit(k, j) {
      ModifyFieldBit(k, on, 1, CR_LOCK, WORD_BITS, j);
    }
    OtherFieldKept(k, on, 1, CR_LOCK, WORD_BITS, 8, CR_PNB);
  }

  // ----- what never changes, and what goes together

  /** The parts of the device that programming leaves alone. */
  ghost predicate SameParts(d: Device, e: Device) {
    && |e.flash| == |d.flash| && e.protectedPages == d.protectedPages
    && e.latency == d.latency && e.reportsEnd == d.reportsEnd
  }

  /** `e` is later than `d`: its history goes on, and its contents are what the new events made of
      the contents of `d`. */
  ghost predicate Follows(d: Device, e: Device) {
    SameParts(d, e) && d.history <= e.history && e.flash == Replay(d.flash, e.history[|d.history|..])
  }

  lemma {:induction false} ReplayAppend(flash: seq<Page>, a: seq<Event>, b: seq<Event>)
    ensures Replay(flash, a + b) == Replay(Replay(flash, a), b)
  {
    if b == [] {
      assert a + b == a;
    } else {
      assert (a + b)[..|a + b| - 1] == a + b[..|b| - 1];
      ReplayAppend(flash, a, b[..|b| - 1]);
    }
  }

  lemma FollowsSelf(d: Device, e: Device)
    requires SameParts(d, e) && e.flash == d.flash && e.history == d.history
    ensures Follows(d, e)
  {
    assert e.history[|d.history|..] == [];
  }

  lemma FollowsTransitive(d: Device, e: Device, f: Device)
    requires Follows(d, e) && Follows(e, f)
    ensures Follows(d, f)
  {
    ReplayAppend(d.flash, e.history[|d.history|..], f.history[|e.history|..]);
    assert e.history[|d.history|..] + f.history[|e.history|..] == f.history[|d.history|..];
  }

  lemma RecordFollows(d: Device, e: Event)
    ensures Follows(d, Record(d, e))
  {
    var r := Record(d, e);
    assert r.history[|d.history|..] == [e];
    assert Replay(d.flash, [e]) == Apply(Replay(d.flash, []), e);
  }

  lemma StartEraseFollows(d: Device)
    ensures Follows(d, StartErase(d))
  {
    hide GetField, HasError, Bit, Replay;
    if StartErase(d).history == d.history {
      FollowsSelf(d, StartErase(d));
    } else {
      RecordFollows(d, if Bit(d.cr, CR_MER) then MassErased else Erased(GetField(d.cr, 8, CR_PNB)));
    }
  }

  lemma AfterControlFollows(d: Device, value: Word, e: Device)
    requires AfterControl(d, value, e)
    ensures Follows(d, e)
  {
    if d.lock == Unlocked {
      var m := d.(cr := e.cr, lock := if Bit(value, CR_LOCK) then Locked else Unlocked);
      FollowsSelf(d, m);
      FollowsSelf(m, m);
      StartEraseFollows(m);
      FollowsTransitive(d, m, e);
    } else {
      FollowsSelf(d, e);
    }
  }

  lemma ProgramFollows(d: Device, page: nat, index: nat, value: Word)
    requires page < |d.flash| && index < PAGE_WORDS
    ensures Follows(d, Program(d, page, index, value))
  {
    if Program(d, page, index, value).history == d.history {
      FollowsSelf(d, Program(d, page, index, value));
    } else {
      RecordFollows(d, Programmed(page, index, value));
    }
  }

  /** Whatever is written to the bus, the contents stay those of the history. */
  lemma BusWriteFollows(d: Device, addr: Word, value: Word)
    ensures Follows(d, BusWrite(d, addr, value))
  {
    if addr == FLASH_CR {
      ControlWritten(d, value);
      AfterControlFollows(d, value, BusWrite(d, addr, value));
    } else if addr != FLASH_KEYR && addr != FLASH_SR && InFlash(d, addr) {
      ProgramFollows(d, PageOf(addr), IndexOf(addr), value);
    } else {
      FollowsSelf(d, BusWrite(d, addr, value));
    }
  }

  lemma {:induction false} WriteBlockFollows(d: Device, addr: Word, words: seq<Word>, window: nat)
    requires window > 0
    ensures Follows(d, WriteBlock(d, addr, words, window))
  {
    if words == [] {
      FollowsSelf(d, d);
    } else {
      var n := |words| - 1;
      var e := WriteBlock(d, addr, words[..n], window);
      WriteBlockFollows(d, addr, words[..n], window);
      BusWriteFollows(e, WordAddress(addr, n, window), words[n]);
      FollowsTransitive(d, e, WriteBlock(d, addr, words, window));
    }
  }

  // ----- erasing

  /** What starting the erase of a page erases: a mass erase that is still selected comes first. */
  function EraseEvent(d: Device, page: nat): Event {
    if Bit(d.cr, CR_MER) then MassErased else Erased(page)
  }

  /** The controller accepts the erase: it is unlocked, shows no error, and nothing that would be
      erased is protected. */
  predicate EraseTakes(d: Device, page: nat) {
    && d.lock == Unlocked && !HasError(d)
    && if Bit(d.cr, CR_MER) then d.protectedPages == {} else page !in d.protectedPages
  }

  // ----- programming a page

  function PageAddress(page: nat): nat {
    FLASH_BASE + PAGE_BYTES * page
  }

  lemma OddTimesOdd(h: nat, l: nat)
    ensures (2 * h + 1) * (2 * l + 1) == 2 * (2 * h * l + h + l) + 1
  {}

  lemma TimesEven(w: nat, l: nat)
    ensures w * (2 * l) == 2 * (w * l)
  {}

  /** What divides a power of two is a power of two. */
  lemma {:induction false} DivisorOfPower(w: nat, m: nat, n: nat) returns (k: nat)
    requires w * m == Pow2(n)
    ensures k <= n && w == Pow2(k)
  {
    if n == 0 {
      MoreTimes(w, 1, m);
      k := 0;
    } else if w % 2 == 0 {
      var h := w / 2;
      TimesEven(m, h);
      k := DivisorOfPower(h, m, n - 1);
      k := k + 1;
    } else {
      var h, l := w / 2, m / 2;
      assert m == 2 * l by {
        if m % 2 == 1 { OddTimesOdd(h, l); }
      }
      TimesEven(w, l);
      k := DivisorOfPower(w, l, n - 1);
    }
  }

  lemma {:induction false} SmallerPowerDivides(a: nat, b: nat)
    requires a <= b
    ensures Pow2(a) <= Pow2(b) && Pow2(b) % Pow2(a) == 0
    decreases b
  {
    if a < b {
      SmallerPowerDivides(a, b - 1);
      var q := Pow2(b - 1) / Pow2(a);
      DivMod(Pow2(b - 1), Pow2(a));
      assert Pow2(b) == (2 * q) * Pow2(a) + 0;
      DivModUnique(Pow2(b), Pow2(a), 2 * q, 0);
    } else {
      DivModUnique(Pow2(a), Pow2(a), 1, 0);
    }
  }

  /** A window and a page divide each other, one way or the other. */
  lemma WindowAndPage(window: nat)
    requires ValidWindow(window)
    ensures if window >= PAGE_BYTES then window % PAGE_BYTES == 0 else PAGE_BYTES % window == 0
  {
    WordWidths();
    DivMod(0x1_0000_0000, window);
    assert window * (0x1_0000_0000 / window) == Pow2(32);
    var k := DivisorOfPower(window, 0x1_0000_0000 / window, 32);
    assert Pow2(11) == PAGE_BYTES;
    if k >= 11 { SmallerPowerDivides(11, k); } else { SmallerPowerDivides(k, 11); SmallerPowerDivides(k, 10); }
  }

  /** A page fits into the region over which TAR counts up exactly if that region is at least a page
      long. ARM IHI 0031, section C2.2.2, guarantees 1 KB only. */
  lemma PageFitsWindow(page: nat, window: nat)
    requires page < 256 && ValidWindow(window)
    ensures FitsWindow(PageAddress(page), PAGE_WORDS, window) <==> window >= PAGE_BYTES
  {
    WindowAndPage(window);
    var a, k := PageAddress(page), 0x1_0000 + page;
    assert a == k * PAGE_BYTES;
    if window >= PAGE_BYTES {
      PageInside(k, window);
    } else {
      PageOnWindow(page, window);
    }
  }

  /** A window of whole pages holds any one of them. */
  lemma PageInside(k: nat, window: nat)
    requires window >= PAGE_BYTES && window % PAGE_BYTES == 0
    ensures (k * PAGE_BYTES) % window + PAGE_BYTES <= window
  {
    var m := window / PAGE_BYTES;
    DivMod(k, m);
    var q, r := k / m, k % m;
    PagesOfWindow(k, q, m, r);
    MoreTimes(r + 1, m, PAGE_BYTES);
    DivModUnique(k * PAGE_BYTES, window, q, r * PAGE_BYTES);
  }

  lemma PagesOfWindow(k: nat, q: nat, m: nat, r: nat)
    requires k == q * m + r
    ensures k * PAGE_BYTES == q * (m * PAGE_BYTES) + r * PAGE_BYTES
  {}

  /** In a smaller window a page begins where a window begins. */
  lemma PageOnWindow(page: nat, window: nat)
    requires page < 256 && ValidWindow(window) && window < PAGE_BYTES
    ensures PageAddress(page) % window == 0
  {
    WindowAndPage(window);
    DivMod(PAGE_BYTES, window);
    var m := PAGE_BYTES / window;
    var k := 0x1_0000 + page;
    assert PageAddress(page) == k * (m * window) == (k * m) * window;
    DivModUnique(PageAddress(page), window, k * m, 0);
  }

  /** The words of the source that belong to a page. */
  function PageOfSource(page: nat, source: seq<Word>): (words: seq<Word>)
    requires PAGE_WORDS * page + PAGE_WORDS <= |source|
    ensures |words| == PAGE_WORDS
  {
    source[PAGE_WORDS * page..PAGE_WORDS * page + PAGE_WORDS]
  }

  /** Where in a page the `i`th word of a block for it goes: round the window over which TAR counts up,
      if that is smaller than the page. */
  function Place(i: nat, window: nat): nat
    requires window > 0
  {
    if window >= PAGE_BYTES then i else ((4 * i) % window) / 4
  }

  /** No word that is not blank has a later word go to its place. */
  predicate NoOverwrite(words: seq<Word>, window: nat)
    requires window > 0
  {
    forall i, j | 0 <= i < j < |words| && Place(i, window) == Place(j, window) :: words[i] == BLANK
  }

  /** How many words of a block a blank page takes: up to the first one whose place is not blank. */
  function Taken(words: seq<Word>, window: nat): (n: nat)
    requires window > 0
    ensures n <= |words| && (n == |words| <==> NoOverwrite(words, window))
  {
    if words == [] then 0
    else
      var last := |words| - 1;
      var n := Taken(words[..last], window);
      if n == last && NoOverwrite(words, window) then |words| else n
  }

  /** Words programmed one after the other from the start of a page. */
  function ProgramEvents(page: nat, words: seq<Word>, window: nat): (events: seq<Event>)
    requires window > 0
    ensures |events| == |words|
  {
    if words == [] then []
    else
      var n := |words| - 1;
      ProgramEvents(page, words[..n], window) + [Programmed(page, Place(n, window), words[n])]
  }

  /** The controller accepts words for page `page`. */
  ghost predicate Accepts(d: Device, page: nat) {
    && !HasError(d) && d.lock == Unlocked && page !in d.protectedPages
    && Bit(d.cr, CR_PG) && !Bit(d.cr, CR_PER) && !Bit(d.cr, CR_MER)
  }

  ghost predicate Blank(page: Page) {
    forall i | 0 <= i < PAGE_WORDS :: page[i] == BLANK
  }

  /** The page holds the words, each at its place, and nothing else. */
  ghost predicate Holds(page: Page, words: seq<Word>, window: nat)
    requires window > 0
  {
    && (forall i | 0 <= i < |words| && words[i] != BLANK ::
          Place(i, window) < PAGE_WORDS && page[Place(i, window)] == words[i])
    && forall s | 0 <= s < PAGE_WORDS && page[s] != BLANK ::
         exists i | 0 <= i < |words| :: Place(i, window) == s && words[i] == page[s]
  }

  /** Where the words of a block for one page go on the bus. */
  lemma PageWordAddress(d: Device, page: nat, window: nat, i: nat)
    requires page < |d.flash| <= 256 && i < PAGE_WORDS && ValidWindow(window)
    ensures var a := WordAddress(PageAddress(page), i, window);
      && InFlash(d, a) && PageOf(a) == page && IndexOf(a) == Place(i, window) < PAGE_WORDS
      && a != FLASH_KEYR && a != FLASH_SR && a != FLASH_CR
  {
    var k := if window >= PAGE_BYTES then 4 * i else (4 * i) % window;
    PageOffset(page, window, i);
    var a := PageAddress(page) + k;
    assert a - FLASH_BASE == PAGE_BYTES * page + k && k < PAGE_BYTES;
    assert (a - FLASH_BASE) / PAGE_BYTES == page && (a - FLASH_BASE) % PAGE_BYTES == k;
  }

  /** The next word of a block is programmed at its place. */
  lemma WordOnBus(d: Device, page: nat, words: seq<Word>, window: nat)
    requires page < |d.flash| <= 256 && 0 < |words| <= PAGE_WORDS && ValidWindow(window)
    ensures Place(|words| - 1, window) < PAGE_WORDS
    ensures var n := |words| - 1;
      var before := WriteBlock(d, PageAddress(page), words[..n], window);
      |before.flash| == |d.flash| ==>
        WriteBlock(d, PageAddress(page), words, window) == Program(before, page, Place(n, window), words[n])
  {
    hide GetField, Program, WriteControl, GiveKey;
    var n := |words| - 1;
    PageWordAddress(d, page, window, n);
    var before := WriteBlock(d, PageAddress(page), words[..n], window);
    if |before.flash| == |d.flash| { PageWordAddress(before, page, window, n); }
  }

  lemma PageOffset(page: nat, window: nat, i: nat)
    requires page < 256 && i < PAGE_WORDS && ValidWindow(window)
    ensures var k := if window >= PAGE_BYTES then 4 * i else (4 * i) % window;
      WordAddress(PageAddress(page), i, window) == PageAddress(page) + k && k < PAGE_BYTES
  {
    var a := PageAddress(page);
    if window >= PAGE_BYTES {
      PageFitsWindow(page, window);
      WordAddressIsNth(a, PAGE_WORDS, window, i);
    } else {
      PageOnWindow(page, window);
      WordAddressWraps(a, i, window);
    }
  }

  lemma NoOverwriteMore(words: seq<Word>, n: nat, window: nat)
    requires window > 0 && n < |words| && NoOverwrite(words[..n], window)
    requires forall i | 0 <= i < n && Place(i, window) == Place(n, window) :: words[i] == BLANK
    ensures NoOverwrite(words[..n + 1], window)
  {
    var before, after := words[..n], words[..n + 1];
    forall i, j | 0 <= i < j < n + 1 && Place(i, window) == Place(j, window) ensures after[i] == BLANK {
      if j < n { assert before[i] == after[i]; }
    }
  }

  lemma OverwriteStays(words: seq<Word>, n: nat, window: nat)
    requires window > 0 && n <= |words| && !NoOverwrite(words[..n], window)
    ensures !NoOverwrite(words, window)
  {
    var before := words[..n];
    var i, j :| 0 <= i < j < n && Place(i, window) == Place(j, window) && before[i] != BLANK;
    assert before[i] == words[i];
  }

  /** A place is still blank exactly if no word that is not blank went there. */
  lemma PlaceBlank(page: Page, words: seq<Word>, s: nat, window: nat)
    requires window > 0 && Holds(page, words, window) && s < PAGE_WORDS
    ensures page[s] == BLANK <==> forall i | 0 <= i < |words| && Place(i, window) == s :: words[i] == BLANK
  {}

  lemma HoldsMore(page: Page, words: seq<Word>, n: nat, window: nat)
    requires window > 0 && n < |words| && Holds(page, words[..n], window)
    requires Place(n, window) < PAGE_WORDS && page[Place(n, window)] == BLANK
    ensures Holds(page[Place(n, window) := words[n]], words[..n + 1], window)
  {
    var s, before, after := Place(n, window), words[..n], words[..n + 1];
    var more := page[s := words[n]];
    forall t | 0 <= t < PAGE_WORDS && more[t] != BLANK
      ensures exists i | 0 <= i < |after| :: Place(i, window) == t && after[i] == more[t]
    {
      if t == s {
        assert after[n] == more[t];
      } else {
        var i :| 0 <= i < |before| && Place(i, window) == t && before[i] == page[t];
        assert after[i] == more[t];
      }
    }
    forall i | 0 <= i < |after| && after[i] != BLANK
      ensures Place(i, window) < PAGE_WORDS && more[Place(i, window)] == after[i]
    {
      if i < n { assert before[i] == after[i]; }
    }
  }

  /** A blank place takes a word, another one refuses it. */
  lemma NextWord(page: Page, words: seq<Word>, n: nat, window: nat)
    requires window > 0 && n < |words| && NoOverwrite(words[..n], window) && Holds(page, words[..n], window)
    requires Place(n, window) < PAGE_WORDS
    ensures page[Place(n, window)] == BLANK <==> NoOverwrite(words[..n + 1], window)
    ensures NoOverwrite(words[..n + 1], window) ==> Holds(page[Place(n, window) := words[n]], words[..n + 1], window)
  {
    var s, before, after := Place(n, window), words[..n], words[..n + 1];
    PlaceBlank(page, before, s, window);
    if page[s] == BLANK {
      forall i | 0 <= i < n && Place(i, window) == s ensures words[i] == BLANK { assert before[i] == words[i]; }
      NoOverwriteMore(words, n, window);
      HoldsMore(page, words, n, window);
    } else {
      var i :| 0 <= i < |before| && Place(i, window) == s && before[i] != BLANK;
      assert after[i] == before[i];
    }
  }

  /** What an accepting controller with a blank page makes of a block: it takes words up to the first
      one that finds its place taken, and then shows an error and records nothing more. */
  lemma {:induction false} BlockAccepted(d: Device, page: nat, words: seq<Word>, window: nat)
    requires page < |d.flash| <= 256 && |words| <= PAGE_WORDS && ValidWindow(window)
    requires Accepts(d, page) && Blank(d.flash[page])
    ensures var e := WriteBlock(d, PageAddress(page), words, window);
      && SameParts(d, e) && e.cr == d.cr && e.lock == d.lock
      && e.history == d.history + ProgramEvents(page, words[..Taken(words, window)], window)
      && e.busy == (if words == [] then d.busy else d.latency)
      && if NoOverwrite(words, window) then !HasError(e) && Holds(e.flash[page], words, window)
         else HasError(e) && SR_PROGERR in e.flags
  {
    hide BusWrite, Program, Place, NoOverwrite, Holds, Bit, HasError;
    if words == [] {
      HoldsNothing(d.flash[page], window);
    } else {
      var n := |words| - 1;
      BlockAccepted(d, page, words[..n], window);
      WordOnBus(d, page, words, window);
      var e := WriteBlock(d, PageAddress(page), words[..n], window);
      assert words[..n][..Taken(words[..n], window)] == words[..Taken(words[..n], window)];
      if NoOverwrite(words[..n], window) {
        assert words[..n + 1] == words;
        NextWord(e.flash[page], words, n, window);
        WordProgrammed(e, page, Place(n, window), words[n]);
        if NoOverwrite(words, window) { assert words[..|words|] == words; }
        FirstWord(words, window);
      } else {
        WordRefused(e, page, Place(n, window), words[n]);
        OverwriteStays(words, n, window);
      }
    }
  }

  lemma HoldsNothing(page: Page, window: nat)
    requires window > 0 && Blank(page)
    ensures Holds(page, [], window) && NoOverwrite([], window)
  {}

  /** The first word never finds its place taken. */
  lemma FirstWord(words: seq<Word>, window: nat)
    requires window > 0 && words != []
    ensures NoOverwrite(words[..1], window) && Taken(words, window) > 0
    decreases |words|
  {
    if |words| > 1 {
      FirstWord(words[..|words| - 1], window);
    } else {
      assert words[..1] == words;
    }
  }

  lemma WordProgrammed(d: Device, page: nat, index: nat, value: Word)
    requires page < |d.flash| && index < PAGE_WORDS && Accepts(d, page)
    ensures var e := Program(d, page, index, value);
      if d.flash[page][index] == BLANK then
        && e == Record(d, Programmed(page, index, value)) && !HasError(e)
        && e.flash == d.flash[page := d.flash[page][index := value]]
      else e == Fail(d, SR_PROGERR) && HasError(e)
  {
    EndOfOperationIsNoError(d.flags);
    FailedHasError(d, SR_PROGERR);
  }

  lemma WordRefused(d: Device, page: nat, index: nat, value: Word)
    requires page < |d.flash| && index < PAGE_WORDS && (HasError(d) || d.lock != Unlocked)
    ensures Program(d, page, index, value) == Fail(d, SR_PGSERR) && HasError(Program(d, page, index, value))
  {
    FailedHasError(d, SR_PGSERR);
  }

  lemma FailedHasError(d: Device, flag: nat)
    requires flag in ERROR_FLAGS
    ensures HasError(Fail(d, flag))
  {
    assert flag in Fail(d, flag).flags * ERROR_FLAGS;
  }

  lemma EndOfOperationIsNoError(flags: set<nat>)
    ensures (flags + {SR_EOP}) * ERROR_FLAGS == flags * ERROR_FLAGS
  {}

  /** A controller that does not accept a block records nothing, and reports an error. */
  lemma {:induction false} BlockRefused(d: Device, page: nat, words: seq<Word>, window: nat)
    requires page < |d.flash| <= 256 && |words| <= PAGE_WORDS && ValidWindow(window)
    requires HasError(d) || d.lock != Unlocked
    ensures var e := WriteBlock(d, PageAddress(page), words, window);
      && SameParts(d, e) && e.cr == d.cr && e.lock == d.lock && e.flash == d.flash && e.history == d.history
      && e.busy == d.busy && (HasError(d) || words != [] ==> HasError(e))
  {
    hide BusWrite, Program, Place, HasError;
    if words != [] {
      var n := |words| - 1;
      BlockRefused(d, page, words[..n], window);
      WordOnBus(d, page, words, window);
      WordRefused(WriteBlock(d, PageAddress(page), words[..n], window), page, Place(n, window), words[n]);
    }
  }

  // ----- the history of a whole call

  /** A page is erased, alone or with all others, and then its words are programmed. */
  function PageEvents(mass: bool, page: nat, words: seq<Word>, window: nat): (events: seq<Event>)
    requires window > 0
    ensures |events| == |words| + 1
  {
    [if mass then MassErased else Erased(page)] + ProgramEvents(page, words, window)
  }

  /** What `write_pages` is meant to do: page after page, from the first one up. If a mass erase is
      still selected, the first erase is one. */
  function Trace(mass: bool, start: nat, n: nat, source: seq<Word>, window: nat): (events: seq<Event>)
    requires window > 0 && PAGE_WORDS * (start + n) <= |source|
    ensures |events| == n * (PAGE_WORDS + 1)
  {
    if n == 0 then []
    else
      var page := start + n - 1;
      Trace(mass, start, n - 1, source, window) + PageEvents(mass && n == 1, page, PageOfSource(page, source), window)
  }
}
