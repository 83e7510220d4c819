/** What the history that `write_pages` is meant to have leaves in the flash, also where a page does not
    fit the window of the target. */
module FlashContents {
  import opened Arithmetic
  import opened Bits
  import opened FlashController
  import opened FlashControl
  import opened MemoryBlocks

  lemma {:induction false} ProgramEventsAt(page: nat, words: seq<Word>, window: nat, i: nat)
    requires window > 0 && i < |words|
    ensures ProgramEvents(page, words, window)[i] == Programmed(page, Place(i, window), words[i])
  {
    if i < |words| - 1 { ProgramEventsAt(page, words[..|words| - 1], window, i); }
  }

  /** All places of a page are inside it. */
  lemma PlaceInPage(i: nat, window: nat)
    requires ValidWindow(window) && i < PAGE_WORDS
    ensures Place(i, window) < PAGE_WORDS
  {}

  /** Programming words on a blank page leaves them at their places, if no place is needed twice. */
  lemma {:induction false} ProgrammedWords(flash: seq<Page>, page: nat, words: seq<Word>, window: nat)
    requires page < |flash| && |words| <= PAGE_WORDS && ValidWindow(window)
    requires Blank(flash[page]) && NoOverwrite(words, window)
    ensures var r := Replay(flash, ProgramEvents(page, words, window));
      Holds(r[page], words, window) && forall p | 0 <= p < |flash| && p != page :: r[p] == flash[p]
  {
    hide Place, NoOverwrite, Holds;
    if words == [] {
      HoldsNothing(flash[page], window);
    } else {
      var n := |words| - 1;
      var events := ProgramEvents(page, words, window);
      NoOverwriteBefore(words, n, window);
      ProgrammedWords(flash, page, words[..n], window);
      assert events[..|events| - 1] == ProgramEvents(page, words[..n], window);
      PlaceInPage(n, window);
      assert words[..n + 1] == words;
      NextWord(Replay(flash, events[..n])[page], words, n, window);
    }
  }

  lemma NoOverwriteBefore(words: seq<Word>, n: nat, window: nat)
    requires window > 0 && n <= |words| && NoOverwrite(words, window)
    ensures NoOverwrite(words[..n], window)
  {
    forall i, j | 0 <= i < j < n && Place(i, window) == Place(j, window) ensures words[..n][i] == BLANK {
      assert words[i] == BLANK;
    }
  }

  /** Erasing a page and programming it leaves its words in it. */
  lemma PageWritten(flash: seq<Page>, mass: bool, page: nat, words: seq<Word>, window: nat)
    requires page < |flash| && |words| <= PAGE_WORDS && ValidWindow(window) && NoOverwrite(words, window)
    ensures var r := Replay(flash, PageEvents(mass, page, words, window));
      && Holds(r[page], words, window)
      && forall p | 0 <= p < |flash| && p != page :: r[p] == if mass then BLANK_PAGE else flash[p]
  {
    hide Place, NoOverwrite, Holds;
    var first := [if mass then MassErased else Erased(page)];
    ReplayAppend(flash, first, ProgramEvents(page, words, window));
    assert first[..0] == [];
    ProgrammedWords(Replay(flash, first), page, words, window);
  }

  /** No page of a range needs a place twice. */
  predicate RangeFits(start: nat, n: nat, source: seq<Word>, window: nat)
    requires window > 0 && PAGE_WORDS * (start + n) <= |source|
  {
    forall p | start <= p < start + n :: NoOverwrite(PageOfSource(p, source), window)
  }

  /** After the whole history every page of the range holds its words of the source, and every other
      page is blank or holds what it held before, according to the kind of the first erase. */
  lemma {:induction false} TraceContents(flash: seq<Page>, mass: bool, start: nat, n: nat, source: seq<Word>,
                                         window: nat, page: nat)
    requires start + n <= |flash| && PAGE_WORDS * (start + n) <= |source| && page < |flash|
    requires ValidWindow(window) && RangeFits(start, n, source, window)
    ensures var r := Replay(flash, Trace(mass, start, n, source, window))[page];
      if start <= page < start + n then Holds(r, PageOfSource(page, source), window)
      else r == if mass && n > 0 then BLANK_PAGE else flash[page]
  {
    hide Place, NoOverwrite, Holds;
    if n > 0 {
      var before := Trace(mass, start, n - 1, source, window);
      var next := start + n - 1;
      var words := PageOfSource(next, source);
      TraceContents(flash, mass, start, n - 1, source, window, page);
      ReplayAppend(flash, before, PageEvents(mass && n == 1, next, words, window));
      assert NoOverwrite(words, window);
      PageWritten(Replay(flash, before), mass && n == 1, next, words, window);
    }
  }

  /** In a window that is long enough a page holds exactly its words. */
  lemma WholePage(page: Page, words: seq<Word>, window: nat)
    requires window >= PAGE_BYTES && |words| == PAGE_WORDS && Holds(page, words, window)
    ensures page == words
  {
    forall i | 0 <= i < PAGE_WORDS ensures page[i] == words[i] {
      if words[i] != BLANK { assert page[Place(i, window)] == words[i]; }
    }
  }

  /** In a window that is long enough no place is needed twice. */
  lemma LongWindowFits(words: seq<Word>, window: nat)
    requires window >= PAGE_BYTES
    ensures NoOverwrite(words, window)
  {}

  /** In a smaller window the places repeat, at least twice in a page. */
  lemma PlacesWrap(window: nat) returns (size: nat)
    requires ValidWindow(window) && window < PAGE_BYTES
    ensures 0 < size <= PAGE_WORDS / 2 && size == if window < 4 then 1 else window / 4
    ensures forall i: nat :: Place(i, window) == i % size
  {
    WindowAndPage(window);
    assert window <= PAGE_BYTES / 2 by { HalfOrLess(PAGE_BYTES, window); }
    size := if window < 4 then 1 else window / 4;
    if window >= 4 { WindowOfWords(window); }
    forall i: nat ensures Place(i, window) == i % size {
      if window < 4 {
        assert window == 1 || window == 2 by { WindowUnderFour(window); }
      } else {
        DivMod(i, size);
        assert 4 * i == (i / size) * (4 * size) + 4 * (i % size);
        DivModUnique(4 * i, window, i / size, 4 * (i % size));
      }
    }
  }

  lemma WindowUnderFour(window: nat)
    requires ValidWindow(window)
    ensures window != 3
  {}

  /** A page can be written through a smaller window exactly if only its last words, as many as the
      window has, are not blank. */
  lemma ShortWindow(words: seq<Word>, window: nat) returns (size: nat)
    requires ValidWindow(window) && window < PAGE_BYTES && |words| == PAGE_WORDS
    ensures 0 < size <= PAGE_WORDS / 2 && size == if window < 4 then 1 else window / 4
    ensures NoOverwrite(words, window) <==> forall i | 0 <= i < PAGE_WORDS - size :: words[i] == BLANK
  {
    size := PlacesWrap(window);
    if NoOverwrite(words, window) {
      forall i | 0 <= i < PAGE_WORDS - size ensures words[i] == BLANK {
        NextRound(i, size);
        assert Place(i, window) == Place(i + size, window);
      }
    } else {
      var i, j :| 0 <= i < j < PAGE_WORDS && Place(i, window) == Place(j, window) && words[i] != BLANK;
      SameRemainder(i, j, size);
    }
  }

  lemma NextRound(i: nat, size: nat)
    requires 0 < size
    ensures (i + size) % size == i % size
  {
    DivMod(i, size);
    DivModUnique(i + size, size, i / size + 1, i % size);
  }

  lemma HalfOrLess(n: nat, m: nat)
    requires 0 < m < n && n % m == 0
    ensures 2 * m <= n
  {
    DivMod(n, m);
    if n / m < 2 { MoreTimes(n / m, 1, m); }
    MoreTimes(2, n / m, m);
  }

  lemma WindowOfWords(window: nat)
    requires ValidWindow(window) && 4 <= window
    ensures window % 4 == 0
  {
    WordWidths();
    DivMod(0x1_0000_0000, window);
    assert window * (0x1_0000_0000 / window) == Pow2(32);
    var k := DivisorOfPower(window, 0x1_0000_0000 / window, 32);
    assert Pow2(2) == 4;
    if k >= 2 { SmallerPowerDivides(2, k); } else { SmallerPowerDivides(k, 1); }
  }

  /** What is written through a smaller window is the page of the source only if that page is blank. */
  lemma SmallWindowSpoils(page: Page, words: seq<Word>, window: nat)
    requires ValidWindow(window) && window < PAGE_BYTES && |words| == PAGE_WORDS
    requires NoOverwrite(words, window) && Holds(page, words, window)
    ensures page == words <==> forall i | 0 <= i < PAGE_WORDS :: words[i] == BLANK
  {
    var size := PlacesWrap(window);
    if page == words {
      forall i | 0 <= i < PAGE_WORDS ensures words[i] == BLANK {
        if i < size {
          NextRound(i, size);
          assert Place(i + size, window) == Place(i, window);
        }
      }
    } else {
      var i :| 0 <= i < PAGE_WORDS && page[i] != words[i];
      if page[i] != BLANK {
        var j :| 0 <= j < |words| && Place(j, window) == i && words[j] == page[i];
      }
    }
  }

  /** Event `k * 513 + i` of the history: page `start + k` is erased and then programmed, word by
      word, before anything happens to the next page. */
  lemma {:induction false} TraceAt(mass: bool, start: nat, n: nat, source: seq<Word>, window: nat, k: nat, i: nat)
    requires window > 0 && PAGE_WORDS * (start + n) <= |source| && k < n && i <= PAGE_WORDS
    ensures k * (PAGE_WORDS + 1) + i < |Trace(mass, start, n, source, window)|
    ensures Trace(mass, start, n, source, window)[k * (PAGE_WORDS + 1) + i]
            == if i == 0 then (if mass && k == 0 then MassErased else Erased(start + k))
               else Programmed(start + k, Place(i - 1, window), source[PAGE_WORDS * (start + k) + i - 1])
  {
    hide Place;
    if k < n - 1 {
      TraceAt(mass, start, n - 1, source, window, k, i);
    } else if i > 0 {
      ProgramEventsAt(start + k, PageOfSource(start + k, source), window, i - 1);
    }
  }

  /** No event of a list is about a page outside a range. */
  ghost predicate OnlyIn(events: seq<Event>, low: nat, high: nat) {
    forall i | 0 <= i < |events| :: !events[i].MassErased? && low <= events[i].page < high
  }

  /** A history went on with events about pages of a range only. */
  ghost predicate GoesOnIn(before: seq<Event>, after: seq<Event>, low: nat, high: nat) {
    before <= after && OnlyIn(after[|before|..], low, high)
  }

  lemma GoesOnTransitive(a: seq<Event>, b: seq<Event>, c: seq<Event>, low: nat, high: nat)
    requires GoesOnIn(a, b, low, high) && GoesOnIn(b, c, low, high)
    ensures GoesOnIn(a, c, low, high)
  {
    assert b[|a|..] + c[|b|..] == c[|a|..];
  }

  lemma {:induction false} OtherPagesKept(flash: seq<Page>, events: seq<Event>, low: nat, high: nat, page: nat)
    requires OnlyIn(events, low, high) && page < |flash| && !(low <= page < high)
    ensures Replay(flash, events)[page] == flash[page]
  {
    if events != [] { OtherPagesKept(flash, events[..|events| - 1], low, high, page); }
  }

  lemma PageEventsOnlyIn(page: nat, words: seq<Word>, window: nat)
    requires window > 0
    ensures OnlyIn(PageEvents(false, page, words, window), page, page + 1)
  {
    var events := ProgramEvents(page, words, window);
    forall i | 0 <= i < |words| ensures events[i].Programmed? && events[i].page == page {
      ProgramEventsAt(page, words, window, i);
    }
  }
}
