/** Reference-counted peripherals and the handles that keep them powered (`hal/peripheral.h`), with the
    layers of `hal/gpio/gpio.h` and `hal/led/hal_led.cc`: an LED sits on a pin, and a pin on a port. */
module Peripherals {
  /** A `Functional`: null, or a reference to a peripheral. */
  class Functional {
    var peripheral: Peripheral?

    constructor (peripheral: Peripheral?)
      ensures this.peripheral == peripheral
    {
      this.peripheral := peripheral;
    }
  }

  /** A port has level 0 and is switched itself. A pin has level 1, an LED level 2: they are switched
      by holding what they sit on, through a handle of their own. */
  class Peripheral {
    const level: nat
    const parent: Peripheral?
    const inner: Functional?
    var refCount: int
    var powered: bool
    /** For a pin: in use as an output, and its level. */
    var output: bool
    var high: bool
    /** The handles that count. */
    ghost var holders: set<Functional>
    /** All calls of `enable` (true) and `disable` (false). */
    ghost var switches: seq<bool>

    constructor Port()
      ensures level == 0 && parent == null && inner == null
      ensures refCount == 0 && !powered && holders == {} && switches == []
    {
      level, parent, inner := 0, null, null;
      refCount, powered, output, high := 0, false, false, false;
      holders, switches := {}, [];
    }

    constructor On(parent: Peripheral)
      ensures level == parent.level + 1 && this.parent == parent
      ensures inner != null && fresh(inner) && inner.peripheral == null
      ensures refCount == 0 && !powered && holders == {} && switches == []
    {
      level, this.parent := parent.level + 1, parent;
      inner := new Functional(null);
      refCount, powered, output, high := 0, false, false, false;
      holders, switches := {}, [];
    }

    /** Pin operations reach the registers of the port, which must have power. */
    method SetPinMode(output: bool)
      requires level == 1 && parent != null && powered && parent.powered
      modifies this`output
      ensures this.output == output
    {
      this.output := output;
    }

    method WritePin(on: bool)
      requires level == 1 && parent != null && powered && parent.powered
      modifies this`high
      ensures high == on
    {
      high := on;
    }
  }

  // ----- what holds between calls

  /** Enabling and disabling alternate, beginning with enabling. */
  ghost predicate Alternating(switches: seq<bool>) {
    forall i | 0 <= i < |switches| :: switches[i] == (i % 2 == 0)
  }

  /** The layers: this never changes. */
  ghost predicate Layered(ps: set<Peripheral>, hs: set<Functional>) {
    && (forall p <- ps ::
          p.level <= 2 && (p.level == 0 <==> p.parent == null) && (p.parent == null <==> p.inner == null))
    && (forall p <- ps | p.parent != null :: p.parent in ps && p.parent.level + 1 == p.level && p.inner in hs)
    && (forall p, q | p in ps && q in ps && p != q && p.inner != null :: p.inner != q.inner)
  }

  /** The handle belongs to a peripheral, not to a program. */
  ghost predicate Inner(ps: set<Peripheral>, h: Functional) {
    exists p <- ps :: p.inner == h
  }

  ghost predicate Switched(p: Peripheral, stale: set<Functional>)
    reads p`refCount, p`powered, p`switches, (if p.inner == null then {} else {p.inner})`peripheral
  {
    && (p.powered <==> p.refCount > 0) && p.refCount >= 0
    && Alternating(p.switches) && p.powered == (|p.switches| % 2 == 1)
    && (p.inner != null && p.powered ==> p.inner.peripheral == p.parent && p.inner !in stale)
    && (p.inner != null && !p.powered ==> p.inner.peripheral == null || p.inner in stale)
  }

  ghost predicate Counted(ps: set<Peripheral>, debtor: Peripheral?, debt: int)
    reads ps`refCount, ps`holders
  {
    forall p <- ps :: p.refCount == |p.holders| + if p == debtor then debt else 0
  }

  ghost predicate AllSwitched(ps: set<Peripheral>, hs: set<Functional>, turning: Peripheral?, stale: set<Functional>)
    reads ps`refCount, ps`powered, ps`switches, hs`peripheral
  {
    forall p <- ps | p != turning :: (p.inner != null ==> p.inner in hs) && Switched(p, stale)
  }

  /** The handles that count for a peripheral are those that point at it. */
  ghost predicate Linked(ps: set<Peripheral>, hs: set<Functional>, stale: set<Functional>)
    reads ps`holders, hs`peripheral
  {
    && (forall p <- ps, h <- p.holders :: h in hs && h !in stale && h.peripheral == p)
    && (forall h <- hs | h !in stale && h.peripheral != null :: h.peripheral in ps && h in h.peripheral.holders)
  }

  /** `debtor` is a peripheral whose count is `debt` too high and `turning` one that is being switched,
      in the middle of a change; `stale` are handles that still point at a peripheral but no longer
      count. */
  ghost predicate Inv(ps: set<Peripheral>, hs: set<Functional>, debtor: Peripheral?, debt: int,
                      turning: Peripheral?, stale: set<Functional>)
    reads ps, hs
  {
    Layered(ps, hs) && Counted(ps, debtor, debt) && AllSwitched(ps, hs, turning, stale) && Linked(ps, hs, stale)
  }

  /** Between calls: every count is the number of handles, and what is counted has power. */
  ghost predicate Valid(ps: set<Peripheral>, hs: set<Functional>)
    reads ps, hs
  {
    Inv(ps, hs, null, 0, null, {})
  }

  /** The handles of the program point where they pointed. */
  twostate predicate OthersKept(ps: set<Peripheral>, hs: set<Functional>)
    reads hs
  {
    forall h <- hs | !Inner(ps, h) :: h.peripheral == old(h.peripheral)
  }

  /** What lies above a level stays as it is, and so do the uses of the pins at that level. */
  twostate predicate AboveKept(ps: set<Peripheral>, level: int)
    reads ps
  {
    && (forall q <- ps | q.level > level ::
          q.refCount == old(q.refCount) && q.powered == old(q.powered) && q.holders == old(q.holders))
    && forall q <- ps | q.level >= level :: q.output == old(q.output) && q.high == old(q.high)
  }

  /** An LED that was switched on uses its pin as an output; one that was switched off has left it low
      and unused. */
  ghost predicate PinFollows(p: Peripheral, on: bool)
    reads p, p.parent
  {
    p.level == 2 && p.parent != null ==> if on then p.parent.output else !p.parent.output && !p.parent.high
  }

  /** What a counted handle points at has power, and so has everything below it. */
  lemma HolderPowers(p: Peripheral, h: Functional, ps: set<Peripheral>, hs: set<Functional>, turning: Peripheral?,
                     stale: set<Functional>)
    requires Inv(ps, hs, null, 0, turning, stale) && p in ps && p != turning && h in p.holders
    ensures p.powered && (p.parent != null && p.parent != turning ==> p.inner in p.parent.holders && p.parent.powered)
  {
    assert |p.holders| > 0;
    if p.parent != null && p.parent != turning {
      assert p.inner.peripheral == p.parent && p.inner !in stale;
      assert |p.parent.holders| > 0;
    }
  }

  /** The inner handle counts for what it points at. */
  lemma InnerCounts(p: Peripheral, ps: set<Peripheral>, hs: set<Functional>, stale: set<Functional>)
    requires Layered(ps, hs) && Linked(ps, hs, stale) && p in ps && p.inner != null && p.inner !in stale
    requires p.inner.peripheral == p.parent
    ensures p.inner in p.parent.holders
  {}

  lemma PowerHolds(p: Peripheral, ps: set<Peripheral>, hs: set<Functional>)
    requires Valid(ps, hs) && p in ps && p.powered && p.inner != null
    ensures p.parent != null && p.inner in p.parent.holders
  {
    InnerCounts(p, ps, hs, {});
  }

  // ----- counting up and down

  /** A peripheral that is being enabled comes to hold what it sits on, which has yet to count it. */
  method TakeHold(p: Peripheral, ghost ps: set<Peripheral>, ghost hs: set<Functional>)
    requires p in ps && Inv(ps, hs, null, 0, p, {}) && p.refCount > 0 && p.powered && p.inner != null
    requires Alternating(p.switches) && |p.switches| % 2 == 1 && p.inner.peripheral == null
    modifies p.inner`peripheral, p.parent`holders
    ensures Inv(ps, hs, p.parent, -1, null, {}) && OthersKept(ps, hs)
  {
    hide Alternating;
    assert Inner(ps, p.inner);
    assert p.inner !in p.parent.holders;
    p.inner.peripheral := p.parent;
    p.parent.holders := p.parent.holders + {p.inner};
    assert Counted(ps, p.parent, -1) by { hide AllSwitched, Linked; }
    assert AllSwitched(ps, hs, null, {}) by { hide Counted, Linked; }
    assert Linked(ps, hs, {}) by { hide Counted, AllSwitched; }
    hide Counted, AllSwitched, Linked;
  }

  /** A peripheral that is being disabled ceases to count for what it sits on. */
  ghost method Release(p: Peripheral, ps: set<Peripheral>, hs: set<Functional>, stale: set<Functional>)
    requires p in ps && Inv(ps, hs, null, 0, p, stale) && p.refCount == 0 && !p.powered && p.inner != null
    requires Alternating(p.switches) && |p.switches| % 2 == 0
    requires p.inner.peripheral == p.parent && p.inner !in stale
    modifies p.parent`holders
    ensures Inv(ps, hs, p.parent, 1, null, stale + {p.inner}) && OthersKept(ps, hs)
  {
    hide Alternating;
    p.parent.holders := p.parent.holders - {p.inner};
  }

  /** The handle that no longer counts is cleared. */
  method Forget(p: Peripheral, ghost ps: set<Peripheral>, ghost hs: set<Functional>, ghost stale: set<Functional>)
    requires p in ps && !p.powered && p.inner != null && Inv(ps, hs, null, 0, null, stale + {p.inner})
    requires p.inner !in stale
    modifies p.inner`peripheral
    ensures Inv(ps, hs, null, 0, null, stale) && OthersKept(ps, hs)
  {
    hide Alternating;
    assert Inner(ps, p.inner);
    p.inner.peripheral := null;
  }

  /** What an LED does to its pin after it took hold of it, and before it gives it up. */
  method UsePin(p: Peripheral, on: bool, ghost ps: set<Peripheral>, ghost hs: set<Functional>,
                ghost turning: Peripheral?, ghost stale: set<Functional>)
    requires p in ps && p.level == 2 && Inv(ps, hs, null, 0, turning, stale)
    requires p.parent != null && p.inner != null && p.inner in p.parent.holders && (turning == null || turning == p)
    modifies p.parent`output, p.parent`high
    ensures Inv(ps, hs, null, 0, turning, stale) && (on ==> p.parent.output)
    ensures !on ==> !p.parent.output && !p.parent.high
  {
    hide Counted, AllSwitched, Linked;
    HolderPowers(p.parent, p.inner, ps, hs, turning, stale);
    if on {
      p.parent.SetPinMode(true);
    } else {
      p.parent.WritePin(false);
      p.parent.SetPinMode(false);
    }
  }

  /** Power and clock on or off. */
  method Switch(p: Peripheral, on: bool, ghost ps: set<Peripheral>, ghost hs: set<Functional>,
                ghost stale: set<Functional>)
    requires p in ps && Inv(ps, hs, null, 0, p, stale) && Alternating(p.switches)
    requires on == (|p.switches| % 2 == 0)
    modifies p`powered, p`switches
    ensures Inv(ps, hs, null, 0, p, stale) && p.powered == on
    ensures p.switches == old(p.switches) + [on] && Alternating(p.switches)
  {
    hide Counted, Linked;
    p.powered := on;
    p.switches := p.switches + [on];
  }

  /** `inc_ref_count`, after a new handle has come to count. */
  method IncRefCount(p: Peripheral, ghost ps: set<Peripheral>, ghost hs: set<Functional>)
    requires p in ps && Inv(ps, hs, p, -1, null, {})
    modifies ps, hs
    ensures Valid(ps, hs) && OthersKept(ps, hs) && AboveKept(ps, p.level)
    ensures p.refCount == old(p.refCount) + 1 && (p.refCount == 1 ==> PinFollows(p, true))
    decreases p.level, 3
  {
    hide Counted, AllSwitched, Linked, Alternating, PinFollows;
    CountUp(p, ps, hs);
    if p.refCount == 1 {
      Enable(p, ps, hs);
    }
  }

  /** The count itself, which may leave the peripheral without the power that it is to have. */
  method CountUp(p: Peripheral, ghost ps: set<Peripheral>, ghost hs: set<Functional>)
    requires p in ps && Inv(ps, hs, p, -1, null, {})
    modifies p`refCount
    ensures p.refCount == old(p.refCount) + 1 && p.refCount > 0
    ensures Inv(ps, hs, null, 0, if p.refCount == 1 then p else null, {})
    ensures p.refCount == 1 ==>
              !p.powered && Alternating(p.switches) && |p.switches| % 2 == 0
              && (p.inner != null ==> p.inner.peripheral == null)
  {
    hide Linked, Alternating;
    p.refCount := p.refCount + 1;
  }

  /** `enable`: a pin takes hold of its port, an LED of its pin, which becomes an output. */
  method Enable(p: Peripheral, ghost ps: set<Peripheral>, ghost hs: set<Functional>)
    requires p in ps && Inv(ps, hs, null, 0, p, {}) && p.refCount > 0 && !p.powered
    requires Alternating(p.switches) && |p.switches| % 2 == 0 && (p.inner != null ==> p.inner.peripheral == null)
    modifies ps, hs
    ensures Valid(ps, hs) && OthersKept(ps, hs) && AboveKept(ps, p.level)
    ensures p.refCount == old(p.refCount) && PinFollows(p, true)
    decreases p.level, 2
  {
    hide Counted, Linked, AllSwitched;
    TurnOn(p, ps, hs);
    if p.level == 2 {
      PowerHolds(p, ps, hs);
      UsePin(p, true, ps, hs, null, {});
    }
  }

  /** The part of `enable` that is about power. */
  method TurnOn(p: Peripheral, ghost ps: set<Peripheral>, ghost hs: set<Functional>)
    requires p in ps && Inv(ps, hs, null, 0, p, {}) && p.refCount > 0 && !p.powered
    requires Alternating(p.switches) && |p.switches| % 2 == 0 && (p.inner != null ==> p.inner.peripheral == null)
    modifies ps, hs
    ensures Valid(ps, hs) && OthersKept(ps, hs) && AboveKept(ps, p.level)
    ensures p.refCount == old(p.refCount) && p.powered
    decreases p.level, 1
  {
    hide Counted, Linked, Alternating;
    Switch(p, true, ps, hs, {});
    if p.inner != null {
      EnableBelow(p, ps, hs);
    } else {
      assert AllSwitched(ps, hs, null, {});
    }
    hide AllSwitched;
  }

  /** `ensure_valid` of the inner handle. */
  method EnableBelow(p: Peripheral, ghost ps: set<Peripheral>, ghost hs: set<Functional>)
    requires p in ps && Inv(ps, hs, null, 0, p, {}) && p.refCount > 0 && p.powered && p.inner != null
    requires Alternating(p.switches) && |p.switches| % 2 == 1 && p.inner.peripheral == null
    modifies ps, hs
    ensures Valid(ps, hs) && OthersKept(ps, hs) && AboveKept(ps, p.level - 1)
    ensures p.refCount == old(p.refCount) && p.powered
    decreases p.level, 0
  {
    hide Counted, AllSwitched, Linked;
    TakeHold(p, ps, hs);
    IncRefCount(p.parent, ps, hs);
  }

  /** `dec_ref_count`, after a handle has ceased to count. */
  method DecRefCount(p: Peripheral, ghost ps: set<Peripheral>, ghost hs: set<Functional>, ghost stale: set<Functional>)
    requires p in ps && Inv(ps, hs, p, 1, null, stale)
    modifies ps, hs
    ensures Inv(ps, hs, null, 0, null, stale) && OthersKept(ps, hs) && AboveKept(ps, p.level)
    ensures p.refCount == old(p.refCount) - 1 && (p.refCount == 0 ==> PinFollows(p, false))
    decreases p.level, 2
  {
    hide Counted, AllSwitched, Linked, Alternating, PinFollows;
    CountDown(p, ps, hs, stale);
    if p.refCount == 0 {
      Disable(p, ps, hs, stale);
    }
  }

  /** The count itself, which may leave the peripheral with power that it is no longer to have. */
  method CountDown(p: Peripheral, ghost ps: set<Peripheral>, ghost hs: set<Functional>, ghost stale: set<Functional>)
    requires p in ps && Inv(ps, hs, p, 1, null, stale)
    modifies p`refCount
    ensures p.refCount == old(p.refCount) - 1 && p.refCount >= 0
    ensures Inv(ps, hs, null, 0, if p.refCount == 0 then p else null, stale)
    ensures p.refCount == 0 ==>
              p.powered && Alternating(p.switches) && |p.switches| % 2 == 1
              && (p.inner != null ==> p.inner.peripheral == p.parent && p.inner !in stale)
  {
    hide Linked, Alternating;
    p.refCount := p.refCount - 1;
  }

  /** The part of `disable` that is about the peripheral itself: power goes off, and an LED leaves its
      pin low and out of use. */
  method TurnOff(p: Peripheral, ghost ps: set<Peripheral>, ghost hs: set<Functional>, ghost stale: set<Functional>)
    requires p in ps && Inv(ps, hs, null, 0, p, stale) && p.refCount == 0 && p.powered
    requires Alternating(p.switches) && |p.switches| % 2 == 1
    requires p.inner != null ==> p.inner.peripheral == p.parent && p.inner !in stale
    modifies p`powered, p`switches, (if p.parent == null then {} else {p.parent})`output
    modifies (if p.parent == null then {} else {p.parent})`high
    ensures Inv(ps, hs, null, 0, p, stale) && !p.powered && PinFollows(p, false)
    ensures Alternating(p.switches) && |p.switches| % 2 == 0
  {
    hide Counted, Linked, AllSwitched;
    Switch(p, false, ps, hs, stale);
    if p.level == 2 {
      InnerCounts(p, ps, hs, stale);
      UsePin(p, false, ps, hs, p, stale);
    }
  }

  lemma NothingBelow(p: Peripheral, ps: set<Peripheral>, hs: set<Functional>, stale: set<Functional>)
    requires p in ps && Inv(ps, hs, null, 0, p, stale) && p.refCount == 0 && !p.powered && p.inner == null
    requires Alternating(p.switches) && |p.switches| % 2 == 0
    ensures Inv(ps, hs, null, 0, null, stale)
  {}

  /** `disable`: an LED goes off and its pin out of use; then what is below is given up. */
  method Disable(p: Peripheral, ghost ps: set<Peripheral>, ghost hs: set<Functional>, ghost stale: set<Functional>)
    requires p in ps && Inv(ps, hs, null, 0, p, stale) && p.refCount == 0 && p.powered
    requires Alternating(p.switches) && |p.switches| % 2 == 1
    requires p.inner != null ==> p.inner.peripheral == p.parent && p.inner !in stale
    modifies ps, hs
    ensures Inv(ps, hs, null, 0, null, stale) && OthersKept(ps, hs) && AboveKept(ps, p.level)
    ensures p.refCount == old(p.refCount) && PinFollows(p, false)
    decreases p.level, 1
  {
    hide Counted, Linked, AllSwitched, Alternating;
    TurnOff(p, ps, hs, stale);
    assert AboveKept(ps, p.level);
    if p.inner == null {
      NothingBelow(p, ps, hs, stale);
    } else {
      DisableBelow(p, ps, hs, stale);
    }
  }

  /** `invalidate` of the inner handle. */
  method DisableBelow(p: Peripheral, ghost ps: set<Peripheral>, ghost hs: set<Functional>, ghost stale: set<Functional>)
    requires p in ps && Inv(ps, hs, null, 0, p, stale) && p.refCount == 0 && !p.powered && p.inner != null
    requires Alternating(p.switches) && |p.switches| % 2 == 0
    requires p.inner.peripheral == p.parent && p.inner !in stale
    modifies ps, hs
    ensures Inv(ps, hs, null, 0, null, stale) && OthersKept(ps, hs) && AboveKept(ps, p.level - 1)
    ensures p.level == 2 && p.parent != null ==>
              p.parent.output == old(p.parent.output) && p.parent.high == old(p.parent.high)
    decreases p.level, 0
  {
    hide Counted, AllSwitched, Linked;
    Release(p, ps, hs, stale);
    DecRefCount(p.parent, ps, hs, stale + {p.inner});
    Forget(p, ps, hs, stale);
  }

  // ----- handles of a program

  /** A handle that belongs to a program rather than to a pin or an LED. */
  ghost predicate Outer(ps: set<Peripheral>, hs: set<Functional>, h: Functional) {
    h in hs && !Inner(ps, h)
  }

  /** All handles of the program but `h` point where they pointed. */
  twostate predicate OthersKeptBut(ps: set<Peripheral>, hs: set<Functional>, h: Functional)
    reads hs
  {
    forall g <- hs | !Inner(ps, g) && g != h :: g.peripheral == old(g.peripheral)
  }

  /** A handle is pointed at a peripheral, which has yet to count it. */
  method Point(h: Functional, p: Peripheral, ghost ps: set<Peripheral>, ghost hs: set<Functional>, ghost debt: int)
    requires Inv(ps, hs, p, debt, null, {}) && Outer(ps, hs, h) && h.peripheral == null && p in ps
    modifies h, p`holders
    ensures Inv(ps, hs, p, debt - 1, null, {}) && h.peripheral == p
  {
    hide Alternating;
    assert h !in p.holders;
    h.peripheral := p;
    p.holders := p.holders + {h};
    assert Counted(ps, p, debt - 1) by { hide AllSwitched, Linked; }
    assert AllSwitched(ps, hs, null, {}) by { hide Counted, Linked; }
    assert Linked(ps, hs, {}) by { hide Counted, AllSwitched; }
    hide Counted, AllSwitched, Linked;
  }

  /** A handle that points nowhere comes to hold a peripheral. */
  method Attach(h: Functional, p: Peripheral, ghost ps: set<Peripheral>, ghost hs: set<Functional>)
    requires Valid(ps, hs) && Outer(ps, hs, h) && h.peripheral == null && p in ps
    modifies ps, hs
    ensures Valid(ps, hs) && h.peripheral == p && OthersKeptBut(ps, hs, h)
  {
    Point(h, p, ps, hs, 0);
    IncRefCount(p, ps, hs);
  }

  /** A handle ceases to count. */
  ghost method Unlink(h: Functional, p: Peripheral, ps: set<Peripheral>, hs: set<Functional>)
    requires Valid(ps, hs) && Outer(ps, hs, h) && h.peripheral == p && p in ps
    modifies p`holders
    ensures Inv(ps, hs, p, 1, null, {h})
  {
    hide Alternating;
    p.holders := p.holders - {h};
  }

  method Clear(h: Functional, ghost p: Peripheral?, ghost ps: set<Peripheral>, ghost hs: set<Functional>,
               ghost debt: int)
    requires Inv(ps, hs, p, debt, null, {h}) && Outer(ps, hs, h)
    modifies h
    ensures Inv(ps, hs, p, debt, null, {}) && h.peripheral == null
  {
    hide Counted, Alternating;
    h.peripheral := null;
  }

  /** A handle gives up what it holds. */
  method Detach(h: Functional, ghost ps: set<Peripheral>, ghost hs: set<Functional>)
    requires Valid(ps, hs) && Outer(ps, hs, h) && h.peripheral != null
    modifies ps, hs
    ensures Valid(ps, hs) && h.peripheral == null && OthersKeptBut(ps, hs, h)
  {
    Unlink(h, h.peripheral, ps, hs);
    DecRefCount(h.peripheral, ps, hs, {h});
    Clear(h, null, ps, hs, 0);
  }

  /** A handle that points nowhere takes over what another one holds; nothing is switched. */
  method TakeOver(h: Functional, rhs: Functional, ghost ps: set<Peripheral>, ghost hs: set<Functional>)
    requires Valid(ps, hs) && Outer(ps, hs, h) && Outer(ps, hs, rhs) && h.peripheral == null
    modifies h, rhs, ps`holders
    ensures Valid(ps, hs) && h.peripheral == old(rhs.peripheral) && (h != rhs ==> rhs.peripheral == null)
  {
    if rhs.peripheral != null {
      var p := rhs.peripheral;
      Unlink(rhs, p, ps, hs);
      Clear(rhs, p, ps, hs, 1);
      Point(h, p, ps, hs, 1);
    }
  }

  /** A handle that points nowhere is not missed. */
  lemma Discard(h: Functional, ps: set<Peripheral>, hs: set<Functional>)
    requires Valid(ps, hs) && Outer(ps, hs, h) && h.peripheral == null
    ensures Valid(ps, hs - {h})
  {}
}
