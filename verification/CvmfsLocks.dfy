/**
  The reference-counted table of cache publication locks, as interleaved steps of any number of
  threads. Each method is one atomic step: a critical section of the table's own mutex, or taking or
  leaving a path's mutex.
 */
module CvmfsLocks {
  import opened Common

  type Path = string
  type Thread = nat

  class Lock {
    var refs: int
    var held: bool
    ghost const path: Path

    constructor (ghost path: Path)
      ensures refs == 0 && !held && this.path == path
    {
      refs, held, this.path := 0, false, path;
    }
  }

  /** Where a thread is between entering the table and leaving it, with the lock it has in its hands. */
  datatype Stage = Waiting(path: Path, lock: Lock) | Holding(path: Path, lock: Lock) | Leaving(path: Path, lock: Lock)

  /** The threads that reference a path's lock. */
  function Users(threads: map<Thread, Stage>, p: Path): set<Thread> {
    set t | t in threads && threads[t].path == p
  }

  function Holders(threads: map<Thread, Stage>, p: Path): set<Thread> {
    set t | t in threads && threads[t].path == p && threads[t].Holding?
  }

  lemma {:induction false} UsersAfter(threads: map<Thread, Stage>, t: Thread, s: Stage, p: Path)
    ensures Users(threads[t := s], p) == if s.path == p then Users(threads, p) + {t} else Users(threads, p) - {t}
    ensures Holders(threads[t := s], p) ==
            if s.path == p && s.Holding? then Holders(threads, p) + {t} else Holders(threads, p) - {t}
  {}

  lemma {:induction false} UsersWithout(threads: map<Thread, Stage>, t: Thread, p: Path)
    ensures Users(threads - {t}, p) == Users(threads, p) - {t}
    ensures Holders(threads - {t}, p) == Holders(threads, p) - {t}
  {}

  /** The lock of a path counts its users, and is held by one of them if at all. */
  ghost predicate Counts(threads: map<Thread, Stage>, refs: int, held: bool, p: Path) {
    && refs == |Users(threads, p)| > 0
    && |Holders(threads, p)| == if held then 1 else 0
  }

  /** Every thread has in its hands the lock that the table has for its path. */
  ghost predicate Linked(locks: map<Path, Lock>, threads: map<Thread, Stage>) {
    forall t {:trigger threads[t]} :: t in threads ==>
      threads[t].path in locks && locks[threads[t].path] == threads[t].lock
  }

  lemma {:induction false} Unused(locks: map<Path, Lock>, threads: map<Thread, Stage>, p: Path)
    requires Linked(locks, threads) && p !in locks
    ensures Users(threads, p) == {} && Holders(threads, p) == {}
  {
    forall t | t in threads ensures threads[t].path != p {}
  }

  lemma {:induction false} Membership(s: set<Thread>, t: Thread)
    ensures t in s ==> s + {t} == s && |s - {t}| == |s| - 1 && (|s| == 1 ==> s - {t} == {})
    ensures t !in s ==> s - {t} == s && |s + {t}| == |s| + 1
  {
    if t in s {
      assert s == (s - {t}) + {t};
    }
  }

  lemma {:induction false} EnterCounts(threads: map<Thread, Stage>, t: Thread, p: Path, lock: Lock, q: Path, refs: int,
                                       held: bool)
    requires t !in threads
    requires Counts(threads, refs, held, q) ||
             (p == q && refs == 0 && !held && Users(threads, p) == {} && Holders(threads, p) == {})
    ensures Counts(threads[t := Waiting(p, lock)], if p == q then refs + 1 else refs, held, q)
  {
    UsersAfter(threads, t, Waiting(p, lock), q);
    Membership(Users(threads, q), t);
    Membership(Holders(threads, q), t);
  }

  lemma {:induction false} TakeCounts(threads: map<Thread, Stage>, t: Thread, q: Path, refs: int, held: bool)
    requires t in threads && threads[t].Waiting? && Counts(threads, refs, held, q) && (threads[t].path == q ==> !held)
    ensures Counts(threads[t := Holding(threads[t].path, threads[t].lock)], refs, held || threads[t].path == q, q)
  {
    UsersAfter(threads, t, Holding(threads[t].path, threads[t].lock), q);
    Membership(Users(threads, q), t);
    Membership(Holders(threads, q), t);
  }

  lemma {:induction false} ReleaseCounts(threads: map<Thread, Stage>, t: Thread, q: Path, refs: int, held: bool)
    requires t in threads && threads[t].Holding? && Counts(threads, refs, held, q)
    ensures Counts(threads[t := Leaving(threads[t].path, threads[t].lock)], refs, held && threads[t].path != q, q)
  {
    UsersAfter(threads, t, Leaving(threads[t].path, threads[t].lock), q);
    Membership(Users(threads, q), t);
    Membership(Holders(threads, q), t);
  }

  lemma {:induction false} LeaveCounts(threads: map<Thread, Stage>, t: Thread, q: Path, refs: int, held: bool)
    requires t in threads && threads[t].Leaving? && Counts(threads, refs, held, q)
    ensures threads[t].path != q ==> Counts(threads - {t}, refs, held, q)
    ensures threads[t].path == q && refs > 1 ==> Counts(threads - {t}, refs - 1, held, q)
    ensures threads[t].path == q && refs == 1 ==> Users(threads - {t}, q) == {}
  {
    UsersWithout(threads, t, q);
    Membership(Users(threads, q), t);
    Membership(Holders(threads, q), t);
  }

  lemma {:induction false} LeaveLinked(locks: map<Path, Lock>, threads: map<Thread, Stage>, t: Thread, p: Path)
    requires Linked(locks, threads) && t in threads
    ensures Linked(locks, threads - {t})
    ensures Users(threads - {t}, p) == {} ==> Linked(locks - {p}, threads - {t})
  {
    if Users(threads - {t}, p) == {} {
      forall u | u in threads - {t} ensures threads[u].path != p { assert u !in Users(threads - {t}, p); }
    }
  }

  /** Any step a thread may take next. */
  datatype Step =
    | Enters(thread: Thread, path: Path) | Takes(thread: Thread) | Releases(thread: Thread) | Leaves(thread: Thread)

  lemma {:induction false} TwoMembers(s: set<Thread>, t: Thread, u: Thread)
    requires t in s && u in s && t != u
    ensures |s| >= 2
  {
    assert |s - {t}| >= 1 by { assert u in s - {t}; }
  }

  /** Where a thread is, without the lock in its hands. */
  datatype Place = Waits(path: Path) | Holds(path: Path) | GoesOut(path: Path)

  function PlaceOf(s: Stage): Place {
    match s
    case Waiting(p, _) => Waits(p)
    case Holding(p, _) => Holds(p)
    case Leaving(p, _) => GoesOut(p)
  }

  function Places(threads: map<Thread, Stage>): map<Thread, Place> {
    map t | t in threads :: PlaceOf(threads[t])
  }

  /** A step is taken if the thread is at the right place; a mutex is given only if no other thread holds it. */
  function PlacesAfter(m: map<Thread, Place>, step: Step): map<Thread, Place> {
    var t := step.thread;
    match step
    case Enters(_, p) => if t in m then m else m[t := Waits(p)]
    case Takes(_) =>
      if t in m && m[t].Waits? && forall u :: u in m ==> m[u] != Holds(m[t].path) then m[t := Holds(m[t].path)] else m
    case Releases(_) => if t in m && m[t].Holds? then m[t := GoesOut(m[t].path)] else m
    case Leaves(_) => if t in m && m[t].GoesOut? then m - {t} else m
  }

  function PlacesAfterAll(m: map<Thread, Place>, schedule: seq<Step>): map<Thread, Place> {
    if schedule == [] then m
    else PlacesAfter(PlacesAfterAll(m, schedule[..|schedule| - 1]), schedule[|schedule| - 1])
  }

  lemma {:induction false} NoneHolds(threads: map<Thread, Stage>, p: Path)
    ensures Holders(threads, p) == {} <==> forall u :: u in Places(threads) ==> Places(threads)[u] != Holds(p)
  {
    if Holders(threads, p) == {} {
      forall u | u in Places(threads) ensures Places(threads)[u] != Holds(p) { assert u !in Holders(threads, p); }
    } else {
      var u :| u in Holders(threads, p);
      assert Places(threads)[u] == Holds(p);
    }
  }

  lemma {:induction false} EntersPlace(threads: map<Thread, Stage>, t: Thread, p: Path, lock: Lock)
    requires t !in threads
    ensures Places(threads[t := Waiting(p, lock)]) == PlacesAfter(Places(threads), Enters(t, p))
  {}

  lemma {:induction false} TakesPlace(threads: map<Thread, Stage>, t: Thread)
    requires t in threads && threads[t].Waiting?
    ensures var p := threads[t].path;
            PlacesAfter(Places(threads), Takes(t)) ==
            if Holders(threads, p) == {} then Places(threads[t := Holding(p, threads[t].lock)]) else Places(threads)
  {
    NoneHolds(threads, threads[t].path);
  }

  lemma {:induction false} ReleasesPlace(threads: map<Thread, Stage>, t: Thread)
    requires t in threads && threads[t].Holding?
    ensures Places(threads[t := Leaving(threads[t].path, threads[t].lock)]) == PlacesAfter(Places(threads), Releases(t))
  {}

  lemma {:induction false} LeavesPlace(threads: map<Thread, Stage>, t: Thread)
    requires t in threads && threads[t].Leaving?
    ensures Places(threads - {t}) == PlacesAfter(Places(threads), Leaves(t))
  {}

  class LockTable {
    var locks: map<Path, Lock>
    var threads: map<Thread, Stage>

    constructor ()
      ensures Valid() && locks == map[] && threads == map[]
    {
      locks, threads := map[], map[];
    }

    ghost predicate Valid()
      reads this, locks.Values
    {
      && Linked(locks, threads)
      && forall p {:trigger locks[p]} :: p in locks ==>
           locks[p].path == p && Counts(threads, locks[p].refs, locks[p].held, p)
    }

    method FindOrCreate(p: Path) returns (lock: Lock)
      requires Valid()
      ensures lock.path == p && (if p in locks then lock == locks[p] else fresh(lock))
      ensures Counts(threads, lock.refs, lock.held, p) ||
              (lock.refs == 0 && !lock.held && Users(threads, p) == {} && Holders(threads, p) == {})
    {
      if p in locks {
        lock := locks[p];
      } else {
        lock := new Lock(p);
        Unused(locks, threads, p);
      }
    }

    /** lockCachePublication up to the release of the table's mutex. */
    method Enter(t: Thread, p: Path)
      requires Valid() && t !in threads
      modifies this, locks.Values
      ensures Valid() && p in locks && threads == old(threads)[t := Waiting(p, locks[p])]
      ensures forall q :: q in locks <==> q == p || q in old(locks)
      ensures forall q :: q in locks ==> if q in old(locks) then locks[q] == old(locks)[q] else fresh(locks[q])
    {
      ghost var ls, ts := locks, threads;
      var lock := FindOrCreate(p);
      EnterCounts(ts, t, p, lock, p, lock.refs, lock.held);
      forall q | q in ls && q != p ensures Counts(ts[t := Waiting(p, lock)], ls[q].refs, ls[q].held, q) {
        EnterCounts(ts, t, p, lock, q, ls[q].refs, ls[q].held);
      }
      lock.refs := lock.refs + 1;
      if p !in locks {
        locks := locks[p := lock];
      }
      threads := threads[t := Waiting(p, lock)];
      forall q | q in locks ensures locks[q].path == q && Counts(threads, locks[q].refs, locks[q].held, q) {
        assert q != p ==> q in ls && locks[q] == ls[q];
      }
    }

    /** Taking a path's mutex; a thread that finds it taken waits on. */
    method Take(t: Thread) returns (ok: bool)
      requires Valid() && t in threads && threads[t].Waiting?
      modifies this`threads, threads[t].lock
      ensures Valid()
      ensures ok <==> Holders(old(threads), old(threads)[t].path) == {}
      ensures threads == if ok then old(threads)[t := Holding(old(threads)[t].path, old(threads)[t].lock)]
                         else old(threads)
    {
      var s := threads[t];
      assert Counts(threads, locks[s.path].refs, locks[s.path].held, s.path);
      if s.lock.held {
        return false;
      }
      ghost var threads' := threads[t := Holding(s.path, s.lock)];
      forall q | q in locks ensures Counts(threads', locks[q].refs, locks[q].held || q == s.path, q) {
        TakeCounts(threads, t, q, locks[q].refs, locks[q].held);
      }
      s.lock.held := true;
      threads := threads[t := Holding(s.path, s.lock)];
      ok := true;
    }

    /** Leaving a path's mutex, at the end of a publication or because the lock file could not be locked. */
    method Release(t: Thread)
      requires Valid() && t in threads && threads[t].Holding?
      modifies this`threads, threads[t].lock
      ensures Valid()
      ensures threads == old(threads)[t := Leaving(old(threads)[t].path, old(threads)[t].lock)]
    {
      var s := threads[t];
      ghost var threads' := threads[t := Leaving(s.path, s.lock)];
      forall q | q in locks ensures Counts(threads', locks[q].refs, locks[q].held && q != s.path, q) {
        ReleaseCounts(threads, t, q, locks[q].refs, locks[q].held);
      }
      s.lock.held := false;
      threads := threads[t := Leaving(s.path, s.lock)];
    }

    /** The last critical section of the table's mutex: the reference goes, and the lock with the last one. */
    method Leave(t: Thread)
      requires Valid() && t in threads && threads[t].Leaving?
      modifies this, threads[t].lock
      ensures Valid() && threads == old(threads) - {t}
      ensures forall p :: p in locks ==> p in old(locks) && locks[p] == old(locks)[p]
    {
      var s := threads[t];
      ghost var ls, ts := locks, threads;
      assert s.lock == ls[s.path] && Counts(ts, s.lock.refs, s.lock.held, s.path);
      LeaveCounts(ts, t, s.path, s.lock.refs, s.lock.held);
      LeaveLinked(ls, ts, t, s.path);
      forall q | q in ls && q != s.path ensures Counts(ts - {t}, ls[q].refs, ls[q].held, q) {
        LeaveCounts(ts, t, q, ls[q].refs, ls[q].held);
      }
      s.lock.refs := s.lock.refs - 1;
      var remaining := if s.lock.refs == 0 then locks - {s.path} else locks;
      forall q | q in remaining ensures Counts(ts - {t}, ls[q].refs, ls[q].held, q) {}
      locks, threads := remaining, threads - {t};
    }

    /** One step of a schedule, taken if its thread is at the right place. */
    method DoStep(step: Step)
      requires Valid()
      modifies this, locks.Values
      ensures Valid()
      ensures forall p :: p in locks ==> if p in old(locks) then locks[p] == old(locks)[p] else fresh(locks[p])
      ensures Places(threads) == PlacesAfter(old(Places(threads)), step)
    {
      var t := step.thread;
      assert t in threads ==> threads[t].lock == locks[threads[t].path];
      match step
      case Enters(_, p) =>
        if t !in threads {
          ghost var ts := threads;
          Enter(t, p);
          EntersPlace(ts, t, p, locks[p]);
        }
      case Takes(_) =>
        if t in threads && threads[t].Waiting? {
          TakesPlace(threads, t);
          var taken := Take(t);
        }
      case Releases(_) =>
        if t in threads && threads[t].Holding? {
          ReleasesPlace(threads, t);
          Release(t);
        }
      case Leaves(_) =>
        if t in threads && threads[t].Leaving? {
          LeavesPlace(threads, t);
          Leave(t);
        }
    }

    /** Any interleaving is the fold of its steps. */
    method Run(schedule: seq<Step>)
      requires Valid() && threads == map[] && locks == map[]
      modifies this
      ensures Valid() && Places(threads) == PlacesAfterAll(map[], schedule)
    {
      for i := 0 to |schedule|
        invariant Valid() && forall p :: p in locks ==> fresh(locks[p])
        invariant Places(threads) == PlacesAfterAll(map[], schedule[..i])
      {
        TakeNext(schedule, i);
        DoStep(schedule[i]);
      }
      assert schedule[..|schedule|] == schedule;
    }

    /** What every reachable state promises. */
    lemma {:induction false} Safe(p: Path, t: Thread, u: Thread)
      requires Valid()
      ensures p in locks <==> Users(threads, p) != {}
      ensures p in locks ==> locks[p].refs == |Users(threads, p)|
      ensures t in Users(threads, p) ==> p in locks && threads[t].lock == locks[p]
      ensures t in Holders(threads, p) && u in Holders(threads, p) ==> t == u
      ensures p in locks && !locks[p].held ==> Holders(threads, p) == {}
    {
      if p in locks {
        assert Counts(threads, locks[p].refs, locks[p].held, p);
        if t in Holders(threads, p) && u in Holders(threads, p) && t != u { TwoMembers(Holders(threads, p), t, u); }
      } else {
        Unused(locks, threads, p);
      }
    }
  }

  lemma {:induction false} RemovedAnyway(threads: map<Thread, Stage>, t: Thread, s: Stage)
    ensures threads[t := s] - {t} == threads - {t}
  {}

  /** A cache file being written, whose publication lock its thread holds until it is closed or aborted. */
  class AtomicFile {
    const table: LockTable
    const thread: Thread
    var closed: bool

    constructor (table: LockTable, thread: Thread)
      ensures this.table == table && this.thread == thread && !closed
    {
      this.table, this.thread, closed := table, thread, false;
    }

    /** The lock side of Close and of Abort: however often they are called, the lock is given back once. */
    method Finish()
      requires table.Valid() && (!closed ==> thread in table.threads && table.threads[thread].Holding?)
      modifies this`closed, table, table.locks.Values
      ensures table.Valid() && closed
      ensures table.threads == if old(closed) then old(table.threads) else old(table.threads) - {thread}
    {
      if closed {
        return;
      }
      closed := true;
      ghost var ts := table.threads;
      var s := table.threads[thread];
      assert s.lock == table.locks[s.path];
      table.Release(thread);
      table.Leave(thread);
      RemovedAnyway(ts, thread, Leaving(s.path, s.lock));
    }
  }
}
