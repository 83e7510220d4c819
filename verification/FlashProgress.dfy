/** How far `write_pages` has come after so many pages, which starts it can do its work from, and a script
    of answers that keeps it from noticing that it could not. */
module FlashProgress {
  import opened Arithmetic
  import opened Bits
  import opened FlashController
  import opened FlashControl
  import opened FlashContents
  import opened FlashStages
  import opened MemoryBlocks
  import opened Wire
  import opened SerialWire
  import opened Target

  /** The number of transfers of a pass of `write_pages` up to the poll of the status. */
  ghost function PageCount(d: Device, page: nat): nat {
    PrepareCount(d, page) + BLOCK_COUNT
  }

  /** A pass for one page: `done` of its events have happened. If the page can be taken and the pass
      succeeds, all of them have. They cannot all happen otherwise, and with acknowledged polls the
      pass does not succeed then. */
  ghost predicate PageDone(d: Device, e: Device, page: nat, words: seq<Word>, window: nat, done: nat, acked: bool,
                           ok: bool)
    requires window > 0
  {
    && done <= |words| + 1
    && e.history == d.history + PageEvents(Bit(d.cr, CR_MER), page, words, window)[..done]
    && (ok && TakesPage(d, page, words, window) ==> done == |words| + 1 && !HasError(e) && !Bit(e.cr, CR_MER))
    && ((ok && acked) || done == |words| + 1 ==> TakesPage(d, page, words, window))
    && (done > 0 ==> EraseTakes(d, page))
  }

  /** What is left of a pass whose poll was answered with a garbled zero. */
  ghost predicate PageMissed(d: Device, e: Device, page: nat, words: seq<Word>, window: nat)
    requires window > 0
  {
    && e.busy == (if EraseTakes(d, page) then Minus(d.latency, 1) else 0)
    && (!TakesPage(d, page, words, window) ==> HasError(e))
    && (EraseTakes(d, page) && !NoOverwrite(words, window) ==> SR_PROGERR in e.flags)
  }

  lemma {:induction false} ProgramEventsPrefix(page: nat, words: seq<Word>, n: nat, window: nat)
    requires n <= |words| && window > 0
    ensures ProgramEvents(page, words[..n], window) == ProgramEvents(page, words, window)[..n]
  {
    if n < |words| {
      var k := |words| - 1;
      ProgramEventsPrefix(page, words[..k], n, window);
      assert words[..k][..n] == words[..n];
    } else {
      assert words[..n] == words;
    }
  }

  lemma PageEventsPrefix(d: Device, page: nat, words: seq<Word>, n: nat, window: nat)
    requires n <= |words| && window > 0
    ensures var events := PageEvents(Bit(d.cr, CR_MER), page, words, window);
      && events[..0] == [] && events[..1] == [EraseEvent(d, page)]
      && events[..1 + n] == [EraseEvent(d, page)] + ProgramEvents(page, words[..n], window)
  {
    ProgramEventsPrefix(page, words, n, window);
  }

  /** A pass that failed before the words were written. */
  lemma PageBegun(d: Device, e: Device, page: nat, words: seq<Word>, window: nat, acked: bool) returns (done: nat)
    requires window > 0 && words != [] && (e.history == d.history || EraseRecorded(d, e, page))
    ensures PageDone(d, e, page, words, window, done, acked, false)
  {
    hide Bit, EraseTakes, HasError, NoOverwrite, ProgramEvents;
    PageEventsPrefix(d, page, words, 0, window);
    done := if e.history == d.history then 0 else 1;
  }

  /** A pass whose words were written: `e` is the controller before that, `f` the one after it. */
  lemma PageEnded(d: Device, e: Device, f: Device, page: nat, words: seq<Word>, window: nat, placed: nat, acked: bool,
                  ok: bool) returns (done: nat)
    requires window > 0 && words != [] && Steady(e, f) && Prepared(e, page, EraseTakes(d, page))
    requires if EraseTakes(d, page) then EraseRecorded(d, e, page) else e.history == d.history
    requires Placed(e, f, page, words, window, EraseTakes(d, page), placed)
    requires ok && TakesPage(d, page, words, window) ==> placed == |words| && !HasError(f)
    requires ok && acked ==> TakesPage(d, page, words, window)
    ensures PageDone(d, f, page, words, window, done, acked, ok)
  {
    hide Bit, EraseTakes, HasError, NoOverwrite, ProgramEvents, Follows;
    PageEventsPrefix(d, page, words, placed, window);
    done := if EraseTakes(d, page) then 1 + placed else 0;
  }

  // ----- what can be taken

  /** From `d` on, every page of the range can be taken. */
  ghost predicate AllTake(d: Device, start: nat, n: nat, source: seq<Word>, window: nat)
    requires window > 0 && PAGE_WORDS * (start + n) <= |source|
  {
    n == 0 || (
      && d.lock == Unlocked && !HasError(d) && (Bit(d.cr, CR_MER) ==> d.protectedPages == {})
      && forall p | start <= p < start + n :: p !in d.protectedPages && NoOverwrite(PageOfSource(p, source), window))
  }

  /** `write_pages` can do its work: the controller can be unlocked, no error is pending, nothing that
      would be erased is protected, and no page needs a place twice. */
  ghost predicate CanWrite(d: Device, start: nat, n: nat, source: seq<Word>, window: nat)
    requires window > 0 && PAGE_WORDS * (start + n) <= |source|
  {
    n == 0 || ((d.lock == Locked || d.lock == Unlocked) && AllTake(d.(lock := Unlocked), start, n, source, window))
  }

  /** After `m` of `n` pages. Nothing more than their events can have happened, and all of these only
      if all pages so far could be taken. If all polls were acknowledged, or all pages can be taken,
      then what happened is a beginning of the whole history. */
  ghost predicate Sofar(d0: Device, e: Device, start: nat, n: nat, source: seq<Word>, window: nat, m: nat, acked: bool,
                        ok: bool)
    requires window > 0 && m <= n && PAGE_WORDS * (start + n) <= |source|
  {
    var mass := Bit(d0.cr, CR_MER);
    && |e.history| <= |d0.history| + m * (PAGE_WORDS + 1)
    && (|e.history| == |d0.history| + m * (PAGE_WORDS + 1) ==> AllTake(d0, start, m, source, window))
    && (m == 0 ==> ok && e == d0) && (d0.lock != Unlocked ==> e.history == d0.history)
    && (acked || AllTake(d0, start, n, source, window) ==>
          && e.history <= d0.history + Trace(mass, start, n, source, window)
          && (ok ==>
                && e.history == d0.history + Trace(mass, start, m, source, window)
                && (m > 0 ==> !Bit(e.cr, CR_MER) && !HasError(e))))
  }

  lemma SofarStart(d0: Device, start: nat, n: nat, source: seq<Word>, window: nat)
    requires window > 0 && PAGE_WORDS * (start + n) <= |source|
    ensures Steady(d0, d0) && Apart(d0, d0, start, start + n)
    ensures Sofar(d0, d0, start, n, source, window, 0, true, true)
  {
    hide Bit, HasError;
    FollowsSelf(d0, d0);
    assert d0.history[|d0.history|..] == [];
    assert d0.history + Trace(Bit(d0.cr, CR_MER), start, 0, source, window) == d0.history;
  }

  /** The pages done so far and the next one are a beginning of the whole history. */
  lemma {:induction false} TraceNext(mass: bool, start: nat, m: nat, n: nat, source: seq<Word>, window: nat)
    requires m < n && window > 0 && PAGE_WORDS * (start + n) <= |source|
    ensures Trace(mass, start, m + 1, source, window)
            == Trace(mass, start, m, source, window)
               + PageEvents(mass && m == 0, start + m, PageOfSource(start + m, source), window)
    ensures Trace(mass, start, m + 1, source, window) <= Trace(mass, start, n, source, window)
  {
    hide PageEvents;
    if m + 1 < n { TraceNext(mass, start, m, n - 1, source, window); }
  }

  /** One more page whose events are those of the history that is meant. */
  lemma PageAdded(h0: seq<Event>, h: seq<Event>, h1: seq<Event>, mass: bool, start: nat, n: nat, source: seq<Word>,
                  window: nat, m: nat, done: nat)
    requires m < n && window > 0 && PAGE_WORDS * (start + n) <= |source|
    requires h == h0 + Trace(mass, start, m, source, window) && done <= PAGE_WORDS + 1
    requires h1 == h + PageEvents(mass && m == 0, start + m, PageOfSource(start + m, source), window)[..done]
    ensures h1 <= h0 + Trace(mass, start, n, source, window)
    ensures done == PAGE_WORDS + 1 ==> h1 == h0 + Trace(mass, start, m + 1, source, window)
  {
    hide PageEvents, Trace;
    TraceNext(mass, start, m, n, source, window);
    var events := PageEvents(mass && m == 0, start + m, PageOfSource(start + m, source), window);
    assert events[..|events|] == events;
  }

  lemma SofarNext(d0: Device, d: Device, e: Device, start: nat, n: nat, source: seq<Word>, window: nat, m: nat,
                  acked: bool, done: nat, polled: bool, ok: bool)
    requires m < n && window > 0 && PAGE_WORDS * (start + n) <= |source|
    requires Steady(d0, d) && Sofar(d0, d, start, n, source, window, m, acked, true)
    requires PageDone(d, e, start + m, PageOfSource(start + m, source), window, done, polled, ok)
    ensures Sofar(d0, e, start, n, source, window, m + 1, acked && polled, ok)
  {
    hide Bit, HasError, NoOverwrite, PageEvents, Trace, Follows;
    SteadyParts(d0, d);
    var mass, page := Bit(d0.cr, CR_MER), start + m;
    if done > 0 { TakenMeans(d, page); }
    if |e.history| == |d0.history| + (m + 1) * (PAGE_WORDS + 1) {
      assert TakesPage(d, page, PageOfSource(page, source), window);
    }
    if acked || AllTake(d0, start, n, source, window) {
      PageAdded(d0.history, d.history, e.history, mass, start, n, source, window, m, done);
    }
  }

  /** Where all pages can be taken, the next one can still be taken after those before it. */
  lemma SofarTakes(d0: Device, d: Device, start: nat, n: nat, source: seq<Word>, window: nat, m: nat, acked: bool)
    requires m < n && window > 0 && PAGE_WORDS * (start + n) <= |source|
    requires Steady(d0, d) && Sofar(d0, d, start, n, source, window, m, acked, true)
    requires AllTake(d0, start, n, source, window)
    ensures TakesPage(d, start + m, PageOfSource(start + m, source), window)
  {
    hide Bit, HasError, NoOverwrite, Trace, Replay;
    SteadyParts(d0, d);
    assert start <= start + m < start + n;
  }

  /** The end of the loop of `write_pages`. */
  ghost predicate Ended(d0: Device, e: Device, start: nat, n: nat, source: seq<Word>, window: nat, acked: bool,
                        ok: bool)
    requires window > 0 && PAGE_WORDS * (start + n) <= |source|
  {
    var whole := d0.history + Trace(Bit(d0.cr, CR_MER), start, n, source, window);
    && (acked || AllTake(d0, start, n, source, window) ==> e.history <= whole && (ok ==> e.history == whole))
    && (e.history == whole ==> AllTake(d0, start, n, source, window))
    && (d0.lock != Unlocked ==> e.history == d0.history)
  }

  /** Unless a mass erase was selected, only pages of the range have been touched. */
  ghost predicate Apart(d0: Device, e: Device, low: nat, high: nat) {
    Bit(d0.cr, CR_MER) || GoesOnIn(d0.history, e.history, low, high)
  }

  lemma ApartNext(d0: Device, d: Device, e: Device, low: nat, high: nat, page: nat, words: seq<Word>, window: nat,
                  done: nat, polled: bool, ok: bool)
    requires window > 0 && low <= page < high && Steady(d0, d) && Apart(d0, d, low, high)
    requires PageDone(d, e, page, words, window, done, polled, ok)
    ensures Apart(d0, e, low, high)
  {
    hide Bit, HasError, NoOverwrite, PageEvents, Follows;
    if !Bit(d0.cr, CR_MER) {
      PageEventsOnlyIn(page, words, window);
      assert GoesOnIn(d.history, e.history, low, high);
      GoesOnTransitive(d0.history, d.history, e.history, low, high);
    }
  }

  // ----- answers that hide every failure

  /** What the length of a pass depends on: the reads for which the controller will be busy, whether it
      accepts anything, and whether a mass erase is selected. */
  datatype Course = Course(busy: nat, ready: bool, mass: bool)

  function CourseOf(d: Device): Course {
    var ready := d.lock == Unlocked && !HasError(d);
    Course(d.busy, ready, ready && Bit(d.cr, CR_MER))
  }

  predicate Takes(c: Course, locked: set<nat>, page: nat) {
    c.ready && if c.mass then locked == {} else page !in locked
  }

  /** After a pass whose poll showed nothing. */
  function NextCourse(c: Course, latency: nat, locked: set<nat>, page: nat, words: seq<Word>, window: nat): Course
    requires window > 0
  {
    var takes := Takes(c, locked, page);
    Course(if takes then Minus(latency, 1) else 0, takes && NoOverwrite(words, window), false)
  }

  function Oks(k: nat): (script: seq<Response>)
    ensures |script| == k && forall i | 0 <= i < k :: script[i] == Response(ACK_OK, false, 0)
  {
    seq(k, _ => Response(ACK_OK, false, 0))
  }

  /** Good answers, but for a garbled zero to the poll after `k` transfers. */
  function PageScript(k: nat): seq<Response> {
    Oks(k + 3) + [Response(ACK_OK, true, 0)] + Oks(8)
  }

  lemma PageScriptFools(k: nat, more: seq<Response>)
    ensures Fools(PageScript(k) + more, k) && Drop(PageScript(k) + more, k + 12) == more
    ensures ValidScript(more) ==> ValidScript(PageScript(k) + more)
  {
    hide PageScript, Oks;
    var script := PageScript(k) + more;
    PageScriptIs(k);
    assert forall i | 0 <= i < k + 12 :: script[i] == PageScript(k)[i];
    assert Drop(script, k)[3] == script[k + 3];
    var rest := Drop(script, k + 4);
    forall i | 0 <= i < 8 ensures rest[i] == Response(ACK_OK, false, 0) {
      assert rest[i] == script[k + 4 + i];
    }
  }

  lemma PageScriptIs(k: nat)
    ensures |PageScript(k)| == k + 12
    ensures forall i | 0 <= i < k + 12 :: PageScript(k)[i] == Response(ACK_OK, i == k + 3, 0)
  {}

  /** The number of transfers of a pass up to its poll. */
  function CourseCount(c: Course, latency: nat, locked: set<nat>, page: nat): nat {
    4 * c.busy + 4 * (if Takes(c, locked, page) then latency else 0) + 40 + BLOCK_COUNT
  }

  lemma PassCount(d: Device, page: nat)
    ensures CourseCount(CourseOf(d), d.latency, d.protectedPages, page) == PageCount(d, page)
  {
    hide Bit, HasError;
  }

  /** Such answers for every one of `n` pages. `locked` are the protected pages. */
  function PagesScript(c: Course, latency: nat, locked: set<nat>, page: nat, n: nat, source: seq<Word>, window: nat):
    (script: seq<Response>)
    requires window > 0 && PAGE_WORDS * (page + n) <= |source|
    ensures ValidScript(script)
    decreases n
  {
    if n == 0 then []
    else
      var count := CourseCount(c, latency, locked, page);
      var next := NextCourse(c, latency, locked, page, PageOfSource(page, source), window);
      var more := PagesScript(next, latency, locked, page + 1, n - 1, source, window);
      PageScriptFools(count, more);
      PageScript(count) + more
  }

  /** The script hides every failure of `n` more passes, from `page` on, and ends then. */
  ghost predicate HidesAll(script: seq<Response>, d: Device, page: nat, n: nat, source: seq<Word>, window: nat) {
    && window > 0 && PAGE_WORDS * (page + n) <= |source|
    && script == PagesScript(CourseOf(d), d.latency, d.protectedPages, page, n, source, window)
  }

  lemma HidesFirst(script: seq<Response>, d: Device, page: nat, n: nat, source: seq<Word>, window: nat)
    requires HidesAll(script, d, page, n, source, window) && n > 0
    ensures var next := NextCourse(CourseOf(d), d.latency, d.protectedPages, page, PageOfSource(page, source), window);
      && Fools(script, PageCount(d, page))
      && Drop(script, PageCount(d, page) + 12)
         == PagesScript(next, d.latency, d.protectedPages, page + 1, n - 1, source, window)
  {
    hide Bit, HasError, NoOverwrite, PageScript, Fools, Drop, PageCount, CourseOf, NextCourse, ValidScript, Takes;
    PassCount(d, page);
    var next := NextCourse(CourseOf(d), d.latency, d.protectedPages, page, PageOfSource(page, source), window);
    var more := PagesScript(next, d.latency, d.protectedPages, page + 1, n - 1, source, window);
    PageScriptFools(PageCount(d, page), more);
  }

  lemma NextCourseIs(d: Device, e: Device, page: nat, words: seq<Word>, window: nat, done: nat, polled: bool)
    requires window > 0 && Steady(d, e) && PageDone(d, e, page, words, window, done, polled, true)
    requires PageMissed(d, e, page, words, window)
    ensures CourseOf(e) == NextCourse(CourseOf(d), d.latency, d.protectedPages, page, words, window)
  {
    hide Bit, HasError, NoOverwrite, PageEvents, Follows;
  }

  lemma HidesRest(script: seq<Response>, d: Device, e: Device, page: nat, n: nat, source: seq<Word>, window: nat,
                  done: nat, polled: bool)
    requires HidesAll(script, d, page, n, source, window) && n > 0 && Steady(d, e)
    requires PageDone(d, e, page, PageOfSource(page, source), window, done, polled, true)
    requires PageMissed(d, e, page, PageOfSource(page, source), window)
    ensures HidesAll(Drop(script, PageCount(d, page) + 12), e, page + 1, n - 1, source, window)
  {
    hide Bit, HasError, NoOverwrite, PageDone, PageMissed, PagesScript, CourseOf, NextCourse, Drop;
    HidesFirst(script, d, page, n, source, window);
    NextCourseIs(d, e, page, PageOfSource(page, source), window, done, polled);
  }

  lemma HidesNothing(script: seq<Response>, d: Device, page: nat, source: seq<Word>, window: nat)
    requires HidesAll(script, d, page, 0, source, window)
    ensures script == []
  {}

  /** The answers that make `write_pages` succeed whatever the controller does. */
  function FoolingScript(d: Device, start: nat, n: nat, source: seq<Word>, window: nat): (script: seq<Response>)
    requires window > 0 && PAGE_WORDS * (start + n) <= |source|
    ensures ValidScript(script)
  {
    var unlocked := d.(lock := if d.lock == Locked || d.lock == Unlocked then Unlocked else Jammed);
    Oks(8) + PagesScript(CourseOf(unlocked), d.latency, d.protectedPages, start, n, source, window)
  }

  // ----- contents

  /** Where the whole history has happened, every page of the range holds its words. Where no mass
      erase was selected, every other page holds what it held, whatever happened. */
  lemma ContentsFollow(d: Device, e: Device, start: nat, n: nat, source: seq<Word>, window: nat)
    requires Follows(d, e) && start + n <= |d.flash| && PAGE_WORDS * (start + n) <= |source| && ValidWindow(window)
    requires Apart(d, e, start, start + n)
    ensures !Bit(d.cr, CR_MER) ==>
              forall p | 0 <= p < |d.flash| && !(start <= p < start + n) :: e.flash[p] == d.flash[p]
    ensures e.history == d.history + Trace(Bit(d.cr, CR_MER), start, n, source, window)
            && CanWrite(d, start, n, source, window) ==>
              && Written(d, e, start, n, source, window)
              && (window >= PAGE_BYTES ==>
                    forall p | start <= p < start + n :: e.flash[p] == PageOfSource(p, source))
  {
    hide Bit, Trace, Holds, NoOverwrite, HasError;
    var events, mass := e.history[|d.history|..], Bit(d.cr, CR_MER);
    if !mass {
      forall p | 0 <= p < |d.flash| && !(start <= p < start + n) ensures e.flash[p] == d.flash[p] {
        OtherPagesKept(d.flash, events, start, start + n, p);
      }
    }
    if e.history == d.history + Trace(mass, start, n, source, window) && CanWrite(d, start, n, source, window) {
      assert events == Trace(mass, start, n, source, window);
      forall p | 0 <= p < |d.flash| ensures PageIsWritten(d, e, start, n, source, window, p) {
        TraceContents(d.flash, mass, start, n, source, window, p);
      }
      if window >= PAGE_BYTES { WrittenExactly(d, e, start, n, source, window); }
    }
  }

  ghost predicate PageIsWritten(d: Device, e: Device, start: nat, n: nat, source: seq<Word>, window: nat, p: nat)
    requires window > 0 && PAGE_WORDS * (start + n) <= |source| && |e.flash| == |d.flash| && p < |d.flash|
  {
    if start <= p < start + n then Holds(e.flash[p], PageOfSource(p, source), window)
    else if Bit(d.cr, CR_MER) && n > 0 then Blank(e.flash[p])
    else e.flash[p] == d.flash[p]
  }

  /** Every page of the range holds its words, and every other page is as it was, or blank if a mass
      erase was selected. */
  ghost predicate Written(d: Device, e: Device, start: nat, n: nat, source: seq<Word>, window: nat)
    requires window > 0 && PAGE_WORDS * (start + n) <= |source| && |e.flash| == |d.flash|
  {
    forall p: nat | p < |d.flash| :: PageIsWritten(d, e, start, n, source, window, p)
  }

  /** In a window that is long enough every page of the range is the page of the source. */
  lemma WrittenExactly(d: Device, e: Device, start: nat, n: nat, source: seq<Word>, window: nat)
    requires window >= PAGE_BYTES && PAGE_WORDS * (start + n) <= |source| && start + n <= |d.flash| == |e.flash|
    requires Written(d, e, start, n, source, window)
    ensures forall p | start <= p < start + n :: e.flash[p] == PageOfSource(p, source)
  {
    hide Holds;
    forall p | start <= p < start + n ensures e.flash[p] == PageOfSource(p, source) {
      assert PageIsWritten(d, e, start, n, source, window, p);
      WholePage(e.flash[p], PageOfSource(p, source), window);
    }
  }

  /** There no source is in the way either: whether `write_pages` can do its work depends on the
      controller alone. */
  lemma CanWriteInLongWindow(d: Device, start: nat, n: nat, source: seq<Word>, window: nat)
    requires window >= PAGE_BYTES && PAGE_WORDS * (start + n) <= |source|
    ensures CanWrite(d, start, n, source, window)
            <==> n == 0 || (
                   && (d.lock == Locked || d.lock == Unlocked) && !HasError(d)
                   && (Bit(d.cr, CR_MER) ==> d.protectedPages == {})
                   && forall p | start <= p < start + n :: p !in d.protectedPages)
  {
    hide NoOverwrite;
    SameErrors(d, d.(lock := Unlocked));
    forall p | start <= p < start + n ensures NoOverwrite(PageOfSource(p, source), window) {
      LongWindowFits(PageOfSource(p, source), window);
    }
  }

  lemma SofarEnds(d0: Device, e: Device, start: nat, n: nat, source: seq<Word>, window: nat, m: nat, acked: bool,
                  ok: bool)
    requires m <= n && window > 0 && PAGE_WORDS * (start + n) <= |source| && (ok ==> m == n)
    requires Sofar(d0, e, start, n, source, window, m, acked, ok)
    ensures Ended(d0, e, start, n, source, window, acked, ok)
  {
    hide Bit, Trace, NoOverwrite, HasError;
  }

  /** What `write_pages` has done by its end: everything that is meant has happened only from a start
      that allows it; and if the start does, or all polls were acknowledged, then on success all of it
      has happened and on failure a beginning. */
  ghost predicate Accomplished(d: Device, e: Device, start: nat, n: nat, source: seq<Word>, window: nat, acked: bool,
                               ok: bool)
    requires window > 0 && PAGE_WORDS * (start + n) <= |source|
  {
    var whole := d.history + Trace(Bit(d.cr, CR_MER), start, n, source, window);
    && (e.history == whole ==> CanWrite(d, start, n, source, window))
    && (acked || CanWrite(d, start, n, source, window) ==> e.history <= whole && (ok ==> e.history == whole))
    && (d.lock != Locked && d.lock != Unlocked ==> e.history == d.history)
  }

  // ----- the start

  /** Unlocking succeeded: the loop starts from a controller from which all pages can be taken exactly
      if `write_pages` can do its work. */
  lemma UnlockedStart(d0: Device, d: Device, start: nat, n: nat, source: seq<Word>, window: nat)
    requires window > 0 && PAGE_WORDS * (start + n) <= |source| && d == d0.(lock := d.lock)
    requires d.lock == if d0.lock == Locked || d0.lock == Unlocked then Unlocked else Jammed
    ensures AllTake(d, start, n, source, window) <==> CanWrite(d0, start, n, source, window)
  {
    hide Bit, NoOverwrite;
    SameErrors(d0, d);
  }

  /** What the loop has done is what the whole call has done. */
  lemma UnlockedEnd(d0: Device, d: Device, e: Device, start: nat, n: nat, source: seq<Word>, window: nat, acked: bool,
                    ok: bool)
    requires window > 0 && PAGE_WORDS * (start + n) <= |source| && d == d0.(lock := d.lock)
    requires d.lock == if d0.lock == Locked || d0.lock == Unlocked then Unlocked else Jammed
    requires Steady(d, e) && Ended(d, e, start, n, source, window, acked, ok) && Apart(d, e, start, start + n)
    ensures Follows(d0, e) && Apart(d0, e, start, start + n)
    ensures Accomplished(d0, e, start, n, source, window, acked, ok)
    ensures ok && acked ==> CanWrite(d0, start, n, source, window)
  {
    hide Bit, NoOverwrite, Replay, Trace, CanWrite, AllTake;
    UnlockedStart(d0, d, start, n, source, window);
    FollowsSelf(d0, d);
    FollowsTransitive(d0, d, e);
  }

  /** A last step that only polls and locks. */
  lemma StaysAccomplished(d: Device, e: Device, f: Device, start: nat, n: nat, source: seq<Word>, window: nat,
                          acked: bool, ok: bool)
    requires window > 0 && PAGE_WORDS * (start + n) <= |source|
    requires Follows(d, e) && Follows(e, f) && f.history == e.history && Apart(d, e, start, start + n)
    requires Accomplished(d, e, start, n, source, window, acked, true)
    ensures Follows(d, f) && Apart(d, f, start, start + n)
    ensures Accomplished(d, f, start, n, source, window, acked, ok)
  {
    hide Bit, Replay, Trace, CanWrite;
    FollowsTransitive(d, e, f);
  }

  /** Unlocking failed: nothing has happened. */
  lemma NotUnlocked(d0: Device, d: Device, start: nat, n: nat, source: seq<Word>, window: nat)
    requires window > 0 && PAGE_WORDS * (start + n) <= |source| && d == d0.(lock := d.lock)
    ensures Follows(d0, d) && Apart(d0, d, start, start + n)
    ensures Accomplished(d0, d, start, n, source, window, true, false)
  {
    hide Bit, NoOverwrite, Replay;
    FollowsSelf(d0, d);
    assert d.history[|d0.history|..] == [];
  }

  lemma FooledStart(d0: Device, d: Device, script: seq<Response>, start: nat, n: nat, source: seq<Word>, window: nat)
    requires window > 0 && PAGE_WORDS * (start + n) <= |source| && d == d0.(lock := d.lock)
    requires d.lock == if d0.lock == Locked || d0.lock == Unlocked then Unlocked else Jammed
    requires script == Drop(FoolingScript(d0, start, n, source, window), 8)
    ensures HidesAll(script, d, start, n, source, window)
  {
    hide Bit, NoOverwrite, PagesScript, CourseOf;
    assert script == PagesScript(CourseOf(d), d.latency, d.protectedPages, start, n, source, window);
  }
}
