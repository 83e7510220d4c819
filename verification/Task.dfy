/** Ownership of coroutines by task objects (`system/task.h`). */
module Task {
  /** A coroutine with its promise. `destroyed` counts how often its frame was destroyed. */
  class Coroutine {
    var waitUntil: int
    var done: bool
    ghost var destroyed: nat

    constructor ()
      ensures waitUntil == 0 && !done && destroyed == 0
    {
      waitUntil, done, destroyed := 0, false, 0;
    }

    method Destroy()
      modifies this`destroyed
      ensures destroyed == old(destroyed) + 1
    {
      destroyed := destroyed + 1;
    }
  }

  class Task {
    var handle: Coroutine?

    /** A task without a coroutine. */
    constructor Default()
      ensures handle == null
    {
      handle := null;
    }

    /** `get_return_object`: a task for a new coroutine. */
    constructor Begin()
      ensures handle != null && fresh(handle) && handle.destroyed == 0 && !handle.done && handle.waitUntil == 0
    {
      handle := new Coroutine();
    }

    /** The move constructor. */
    constructor Move(rhs: Task)
      modifies rhs`handle
      ensures handle == old(rhs.handle) && rhs.handle == null
    {
      handle := rhs.handle;
      new;
      rhs.handle := null;
    }

    /** Move assignment. Moving a task onto itself destroys its coroutine. */
    method Assign(rhs: Task)
      modifies this`handle, rhs`handle, (if handle == null then {} else {handle})`destroyed
      ensures rhs.handle == null && (rhs != this ==> handle == old(rhs.handle))
      ensures old(handle) != null ==> old(handle).destroyed == old(handle.destroyed) + 1
    {
      if handle != null { handle.Destroy(); }
      handle := rhs.handle;
      rhs.handle := null;
    }

    /** The destructor. */
    method Destruct()
      modifies (if handle == null then {} else {handle})`destroyed
      ensures handle != null ==> handle.destroyed == old(handle.destroyed) + 1
    {
      if handle != null { handle.Destroy(); }
    }
  }

  /** All tasks and coroutines of a program. */
  class Program {
    ghost var tasks: set<Task>
    ghost var coroutines: set<Coroutine>

    ghost predicate Owns(t: Task, c: Coroutine)
      reads t
    {
      t.handle == c
    }

    /** Every coroutine has at most one owner, and was destroyed once if and only if it has none. */
    ghost predicate Valid()
      reads this, tasks, coroutines
    {
      && (forall t <- tasks :: t.handle == null || t.handle in coroutines)
      && (forall t, u | t in tasks && u in tasks && t != u :: t.handle == null || t.handle != u.handle)
      && (forall c <- coroutines :: c.destroyed == if exists t <- tasks :: Owns(t, c) then 0 else 1)
    }

    constructor ()
      ensures Valid() && tasks == {} && coroutines == {}
    {
      tasks, coroutines := {}, {};
    }

    method NewTask() returns (t: Task)
      requires Valid()
      modifies this
      ensures Valid() && fresh(t) && t.handle != null && fresh(t.handle)
      ensures tasks == old(tasks) + {t} && coroutines == old(coroutines) + {t.handle}
    {
      t := new Task.Begin();
      tasks, coroutines := tasks + {t}, coroutines + {t.handle};
      assert Owns(t, t.handle);
      forall c <- old(coroutines), u <- old(tasks) | Owns(u, c) ensures u in tasks && Owns(u, c) {}
    }

    method MoveConstruct(rhs: Task) returns (t: Task)
      requires Valid() && rhs in tasks
      modifies this`tasks, rhs`handle
      ensures Valid() && fresh(t) && tasks == old(tasks) + {t} && coroutines == old(coroutines)
      ensures t.handle == old(rhs.handle) && rhs.handle == null
    {
      t := new Task.Move(rhs);
      tasks := tasks + {t};
      forall c <- coroutines ensures (exists u <- tasks :: Owns(u, c)) == old(exists u <- tasks :: Owns(u, c)) {
        if old(exists u <- tasks :: Owns(u, c)) {
          var u :| u in old(tasks) && old(Owns(u, c));
          assert Owns(if u == rhs then t else u, c);
        }
        if exists u <- tasks :: Owns(u, c) {
          var u :| u in tasks && Owns(u, c);
          assert old(Owns(if u == t then rhs else u, c));
        }
      }
    }

    /** Assignment, also of a task to itself. */
    method Assign(t: Task, rhs: Task)
      requires Valid() && t in tasks && rhs in tasks
      modifies t`handle, rhs`handle, (if t.handle == null then {} else {t.handle})`destroyed
      ensures Valid() && rhs.handle == null && (t != rhs ==> t.handle == old(rhs.handle))
    {
      ghost var lost := t.handle;
      t.Assign(rhs);
      forall c <- coroutines
        ensures (exists u <- tasks :: Owns(u, c)) == (c != lost && old(exists u <- tasks :: Owns(u, c)))
      {
        if c != lost && old(exists u <- tasks :: Owns(u, c)) {
          var u :| u in tasks && old(Owns(u, c));
          assert Owns(if u == rhs then t else u, c);
        }
        if exists u <- tasks :: Owns(u, c) {
          var u :| u in tasks && Owns(u, c);
          assert old(Owns(if u == t then rhs else u, c));
        }
      }
      if lost != null { assert old(Owns(t, lost)); }
    }

    method Destruct(t: Task)
      requires Valid() && t in tasks
      modifies this`tasks, (if t.handle == null then {} else {t.handle})`destroyed
      ensures Valid() && tasks == old(tasks) - {t}
    {
      ghost var lost := t.handle;
      t.Destruct();
      tasks := tasks - {t};
      forall c <- coroutines
        ensures (exists u <- tasks :: Owns(u, c)) == (c != lost && old(exists u <- tasks :: Owns(u, c)))
      {
        if c != lost && old(exists u <- tasks :: Owns(u, c)) {
          var u :| u in old(tasks) && old(Owns(u, c));
          assert Owns(u, c);
        }
        if exists u <- tasks :: Owns(u, c) {
          var u :| u in tasks && Owns(u, c);
          assert old(Owns(u, c));
        }
      }
      if lost != null { assert old(Owns(t, lost)); }
    }
  }
}
