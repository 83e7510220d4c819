/** What programs do with handles (`hal/peripheral.h`): take, copy, move, assign, revalidate, give up.
    Whatever they do, every peripheral counts exactly the handles that point at it, and has power if
    and only if something holds it or something that sits on it. */
module Handles {
  import opened Peripherals

  class Program {
    ghost var ps: set<Peripheral>
    ghost var hs: set<Functional>

    ghost predicate Valid()
      reads this, ps, hs
    {
      Peripherals.Valid(ps, hs)
    }

    ghost predicate Mine(h: Functional)
      reads this
    {
      Outer(ps, hs, h)
    }

    constructor ()
      ensures Valid() && ps == {} && hs == {}
    {
      ps, hs := {}, {};
    }

    method AddPort() returns (p: Peripheral)
      requires Valid()
      modifies this
      ensures Valid() && fresh(p) && p.level == 0 && ps == old(ps) + {p} && hs == old(hs)
    {
      p := new Peripheral.Port();
      NewPeripheral(p, ps, hs, {});
      ps := ps + {p};
    }

    method AddOn(parent: Peripheral) returns (p: Peripheral)
      requires Valid() && parent in ps && parent.level < 2
      modifies this
      ensures Valid() && fresh(p) && p.parent == parent && p.inner != null && fresh(p.inner)
      ensures ps == old(ps) + {p} && hs == old(hs) + {p.inner}
    {
      p := new Peripheral.On(parent);
      NewPeripheral(p, ps, hs, {p.inner});
      ps, hs := ps + {p}, hs + {p.inner};
    }

    /** The constructor of a functional, and `access`. */
    method Access(p: Peripheral) returns (h: Functional)
      requires Valid() && p in ps
      modifies this`hs, ps, hs
      ensures Valid() && fresh(h) && h.peripheral == p && hs == old(hs) + {h} && Mine(h)
      ensures forall g <- old(hs) | old(Mine(g)) :: g.peripheral == old(g.peripheral)
    {
      hide Alternating, Counted;
      h := new Functional(null);
      hs := hs + {h};
      Attach(h, p, ps, hs);
    }

    /** The copy constructor. */
    method Copy(rhs: Functional) returns (h: Functional)
      requires Valid() && Mine(rhs)
      modifies this`hs, ps, hs
      ensures Valid() && fresh(h) && h.peripheral == rhs.peripheral && hs == old(hs) + {h} && Mine(h)
      ensures forall g <- old(hs) | old(Mine(g)) :: g.peripheral == old(g.peripheral)
    {
      if rhs.peripheral == null {
        h := new Functional(null);
        hs := hs + {h};
      } else {
        h := Access(rhs.peripheral);
      }
    }

    /** The move constructor: nothing is switched. */
    method Move(rhs: Functional) returns (h: Functional)
      requires Valid() && Mine(rhs)
      modifies this`hs, rhs, ps`holders
      ensures Valid() && fresh(h) && h.peripheral == old(rhs.peripheral) && rhs.peripheral == null
      ensures hs == old(hs) + {h} && Mine(h)
    {
      h := new Functional(null);
      hs := hs + {h};
      TakeOver(h, rhs, ps, hs);
    }

    /** Move assignment swaps the two handles, by way of a third: nothing is switched. */
    method MoveAssign(h: Functional, rhs: Functional)
      requires Valid() && Mine(h) && Mine(rhs)
      modifies h, rhs, ps`holders
      ensures Valid() && h.peripheral == old(rhs.peripheral) && rhs.peripheral == old(h.peripheral)
    {
      var temp := new Functional(null);
      ghost var all := hs + {temp};
      TakeOver(temp, h, ps, all);
      TakeOver(h, rhs, ps, all);
      TakeOver(rhs, temp, ps, all);
      Discard(temp, ps, all);
      assert all - {temp} == hs;
    }

    /** `ensure_valid`. */
    method EnsureValid(h: Functional, p: Peripheral)
      requires Valid() && Mine(h) && p in ps
      modifies ps, hs
      ensures Valid() && h.peripheral == if old(h.peripheral) == null then p else old(h.peripheral)
      ensures forall g <- hs | Mine(g) && g != h :: g.peripheral == old(g.peripheral)
    {
      if h.peripheral == null {
        Attach(h, p, ps, hs);
      }
    }

    /** `invalidate`. */
    method Invalidate(h: Functional)
      requires Valid() && Mine(h)
      modifies ps, hs
      ensures Valid() && h.peripheral == null
      ensures forall g <- hs | Mine(g) && g != h :: g.peripheral == old(g.peripheral)
    {
      if h.peripheral != null {
        Detach(h, ps, hs);
      }
    }

    /** Copy assignment. */
    method CopyAssign(h: Functional, rhs: Functional)
      requires Valid() && Mine(h) && Mine(rhs)
      modifies ps, hs
      ensures Valid() && h.peripheral == old(rhs.peripheral)
      ensures forall g <- hs | Mine(g) && g != h :: g.peripheral == old(g.peripheral)
    {
      if h.peripheral != rhs.peripheral {
        if h.peripheral != null {
          Detach(h, ps, hs);
        }
        if rhs.peripheral != null {
          Attach(h, rhs.peripheral, ps, hs);
        }
      }
    }

    /** The destructor. */
    method Destroy(h: Functional)
      requires Valid() && Mine(h)
      modifies this`hs, ps, hs
      ensures Valid() && hs == old(hs) - {h}
      ensures forall g <- hs | Mine(g) :: g.peripheral == old(g.peripheral)
    {
      if h.peripheral != null {
        Detach(h, ps, hs);
      }
      Discard(h, ps, hs);
      hs := hs - {h};
    }
  }

  /** A peripheral that nothing holds yet, with its inner handle if it has one, can be added. */
  lemma NewPeripheral(p: Peripheral, ps: set<Peripheral>, hs: set<Functional>, inner: set<Functional>)
    requires Peripherals.Valid(ps, hs) && p !in ps
    requires p.refCount == 0 && !p.powered && p.holders == {} && p.switches == []
    requires p.level <= 2 && if p.parent == null then p.level == 0 && p.inner == null && inner == {}
                             else p.parent in ps && p.level == p.parent.level + 1 && p.inner != null
                                  && p.inner !in hs && p.inner.peripheral == null && inner == {p.inner}
    requires forall q <- ps :: q.inner == null || q.inner in hs
    ensures Peripherals.Valid(ps + {p}, hs + inner)
  {}

  // ----- what has power

  /** `q` is `p` or sits on it, directly or not. */
  ghost predicate SitsOn(q: Peripheral, p: Peripheral)
    decreases q.level
  {
    q == p || (q.parent != null && q.parent.level < q.level && SitsOn(q.parent, p))
  }

  /** The program holds `p`, or something that sits on it. */
  ghost predicate Held(p: Peripheral, ps: set<Peripheral>, hs: set<Functional>)
    reads hs
  {
    exists h <- hs :: !Inner(ps, h) && h.peripheral != null && SitsOn(h.peripheral, p)
  }

  /** The count of a peripheral is the number of handles that point at it. */
  lemma CountIsHandles(p: Peripheral, ps: set<Peripheral>, hs: set<Functional>)
    requires Valid(ps, hs) && p in ps
    ensures p.refCount == |set h <- hs | h.peripheral == p|
  {
    assert (set h <- hs | h.peripheral == p) == p.holders;
  }

  lemma {:induction false} PowerComesUp(q: Peripheral, p: Peripheral, ps: set<Peripheral>, hs: set<Functional>)
    requires Valid(ps, hs) && q in ps && p in ps && q.powered && SitsOn(q, p)
    ensures p.powered
    decreases q.level
  {
    if q != p {
      assert q.inner.peripheral == q.parent;
      assert |q.parent.holders| > 0;
      PowerComesUp(q.parent, p, ps, hs);
    }
  }

  lemma {:induction false} PowerIsWanted(p: Peripheral, ps: set<Peripheral>, hs: set<Functional>)
    requires Valid(ps, hs) && p in ps && p.powered
    ensures Held(p, ps, hs)
    decreases 2 - p.level
  {
    assert p.holders != {};
    var h :| h in p.holders;
    if Inner(ps, h) {
      var q :| q in ps && q.inner == h;
      assert q.parent == p && q.powered;
      PowerIsWanted(q, ps, hs);
      var g :| g in hs && !Inner(ps, g) && g.peripheral != null && SitsOn(g.peripheral, q);
      SitsTransitive(g.peripheral, q, p);
    } else {
      assert SitsOn(h.peripheral, p);
    }
  }

  lemma {:induction false} SitsTransitive(r: Peripheral, q: Peripheral, p: Peripheral)
    requires SitsOn(r, q) && q.parent == p && p.level < q.level
    ensures SitsOn(r, p)
    decreases r.level
  {
    if r != q { SitsTransitive(r.parent, q, p); }
  }

  /** A port, a pin or an LED has power exactly while a program holds it, or something on it. */
  lemma PoweredIffHeld(p: Peripheral, ps: set<Peripheral>, hs: set<Functional>)
    requires Valid(ps, hs) && p in ps
    ensures p.powered <==> Held(p, ps, hs)
  {
    if p.powered {
      PowerIsWanted(p, ps, hs);
    }
    if Held(p, ps, hs) {
      var h :| h in hs && !Inner(ps, h) && h.peripheral != null && SitsOn(h.peripheral, p);
      assert |h.peripheral.holders| > 0;
      PowerComesUp(h.peripheral, p, ps, hs);
    }
  }

  // ----- whole programs

  /** What a program may do with the handles it has, numbered from zero. */
  datatype Operation =
    | Take(p: Peripheral)
    | CopyOf(i: nat)
    | MoveOf(i: nat)
    | AssignMoved(i: nat, j: nat)
    | AssignCopy(i: nat, j: nat)
    | Revalidate(i: nat, p: Peripheral)
    | GiveUp(i: nat)
    | End(i: nat)

  /** The operation is about handles and peripherals that there are. */
  ghost predicate Possible(op: Operation, n: nat, ps: set<Peripheral>) {
    match op
    case Take(p) => p in ps
    case CopyOf(i) => i < n
    case MoveOf(i) => i < n
    case AssignMoved(i, j) => i < n && j < n
    case AssignCopy(i, j) => i < n && j < n
    case Revalidate(i, p) => i < n && p in ps
    case GiveUp(i) => i < n
    case End(i) => i < n
  }

  /** The number of handles after an operation. */
  function CountAfter(op: Operation, n: nat): nat {
    match op
    case Take(_) => n + 1
    case CopyOf(_) => n + 1
    case MoveOf(_) => n + 1
    case End(_) => if n > 0 then n - 1 else 0
    case _ => n
  }

  ghost predicate AllPossible(ops: seq<Operation>, n: nat, ps: set<Peripheral>)
    decreases |ops|
  {
    ops == [] || (Possible(ops[0], n, ps) && AllPossible(ops[1..], CountAfter(ops[0], n), ps))
  }

  /** The handles of the program, each once. */
  ghost predicate Owned(program: Program, handles: seq<Functional>)
    reads program
  {
    && (forall i | 0 <= i < |handles| :: program.Mine(handles[i]))
    && forall i, j | 0 <= i < j < |handles| :: handles[i] != handles[j]
  }

  method PerformOne(program: Program, handles: seq<Functional>, op: Operation) returns (now: seq<Functional>)
    requires program.Valid() && Owned(program, handles) && Possible(op, |handles|, program.ps)
    modifies program`hs, program.ps, program.hs
    ensures program.Valid() && Owned(program, now) && |now| == CountAfter(op, |handles|)
    ensures fresh(program.hs - old(program.hs))
  {
    now := handles;
    match op {
      case Take(p) =>
        var h := program.Access(p);
        now := handles + [h];
      case CopyOf(i) =>
        var h := program.Copy(handles[i]);
        now := handles + [h];
      case MoveOf(i) =>
        var h := program.Move(handles[i]);
        now := handles + [h];
      case AssignMoved(i, j) => program.MoveAssign(handles[i], handles[j]);
      case AssignCopy(i, j) => program.CopyAssign(handles[i], handles[j]);
      case Revalidate(i, p) => program.EnsureValid(handles[i], p);
      case GiveUp(i) => program.Invalidate(handles[i]);
      case End(i) =>
        program.Destroy(handles[i]);
        now := handles[..i] + handles[i + 1..];
    }
  }

  /** Every program: after any sequence of operations each peripheral counts exactly the handles that
      point at it, has power if and only if it or something on it is held, and has been enabled and
      disabled in turn. */
  method Perform(program: Program, handles: seq<Functional>, ops: seq<Operation>) returns (now: seq<Functional>)
    requires program.Valid() && Owned(program, handles) && AllPossible(ops, |handles|, program.ps)
    modifies program`hs, program.ps, program.hs
    ensures program.Valid() && Owned(program, now)
    ensures forall p <- program.ps ::
              && p.refCount == |set h <- program.hs | h.peripheral == p|
              && (p.powered <==> Held(p, program.ps, program.hs))
              && Alternating(p.switches) && p.powered == (|p.switches| % 2 == 1)
  {
    now := handles;
    for i := 0 to |ops|
      invariant program.Valid() && Owned(program, now) && AllPossible(ops[i..], |now|, program.ps)
      invariant fresh(program.hs - old(program.hs))
    {
      assert ops[i..][1..] == ops[i + 1..];
      now := PerformOne(program, now, ops[i]);
    }
    forall p <- program.ps
      ensures p.refCount == |set h <- program.hs | h.peripheral == p|
      ensures p.powered <==> Held(p, program.ps, program.hs)
    {
      CountIsHandles(p, program.ps, program.hs);
      PoweredIffHeld(p, program.ps, program.hs);
    }
  }
}
