/** The cycle of all threads in kernel/processor/task_manager.cpp: every
    thread points at the next one through next_thread, and the last points
    back at the first. start_of_thread_cycle is where the cycle is entered.
    The order of the threads, starting there, is the ghost sequence `ring`. */
module TaskManager {

  class TaskThread {
    var nextThread: TaskThread?

    constructor ()
      ensures nextThread == null
    {
      nextThread := null;
    }
  }

  /** The i-th thread of the ring points at the one after it, the last at
      the first. */
  ghost predicate NextIs(ring: seq<TaskThread>, i: int)
    requires 0 <= i < |ring|
    reads ring[i]
  {
    ring[i].nextThread == ring[if i + 1 == |ring| then 0 else i + 1]
  }

  /** No thread occurs twice. */
  ghost predicate Distinct(ring: seq<TaskThread>)
  {
    forall i, j :: 0 <= i < j < |ring| ==> ring[i] != ring[j]
  }

  /** The cycle as a whole: the global start_of_thread_cycle and the threads
      it reaches. */
  class ThreadCycle {
    var startOfThreadCycle: TaskThread?
    /** The threads in cycle order, from startOfThreadCycle on. */
    ghost var ring: seq<TaskThread>

    /** The cycle is a single loop through exactly the threads of `ring`. */
    ghost predicate Valid()
      reads this, ring
    {
      (|ring| == 0 <==> startOfThreadCycle == null) &&
      (|ring| > 0 ==> startOfThreadCycle == ring[0]) &&
      (forall i :: 0 <= i < |ring| ==> NextIs(ring, i)) &&
      Distinct(ring)
    }

    /** At boot the cycle is empty. */
    constructor ()
      ensures Valid() && ring == []
    {
      startOfThreadCycle := null;
      ring := [];
    }

    /** task_thread_cycle_add: into an empty cycle the thread goes as a loop
        of one; otherwise it goes straight after the start of the cycle. */
    method Add(newThread: TaskThread)
      requires Valid() && newThread !in ring
      modifies this, newThread, startOfThreadCycle
      ensures Valid()
      ensures ring == if old(ring) == [] then [newThread]
                      else [old(ring)[0], newThread] + old(ring)[1..]
      ensures old(ring) == [] ==> newThread.nextThread == newThread
    {
      ghost var r0 := ring;
      if startOfThreadCycle == null {
        startOfThreadCycle := newThread;
        startOfThreadCycle.nextThread := newThread;
        ring := [newThread];
        assert NextIs(ring, 0);
      } else {
        assert NextIs(r0, 0);
        newThread.nextThread := startOfThreadCycle.nextThread;
        startOfThreadCycle.nextThread := newThread;
        ring := [r0[0], newThread] + r0[1..];
        ghost var m := ring;
        forall i | 0 <= i < |m|
          ensures NextIs(m, i)
        {
          if i > 1 {
            assert m[i] == r0[i - 1] != r0[0];
            assert old(NextIs(r0, i - 1));
            assert i + 1 < |m| ==> m[i + 1] == r0[i];
          }
        }
        forall i, j | 0 <= i < j < |m|
          ensures m[i] != m[j]
        {
          if i > 1 {
            assert m[i] == r0[i - 1] && m[j] == r0[j - 1];
          } else if j > 1 {
            assert m[j] == r0[j - 1];
          }
        }
      }
    }

    /** task_thread_cycle_remove: the thread leaves the cycle, which keeps
        the others in their order; when the thread was the start, the start
        moves on to its successor, and removing the only thread empties the
        cycle. Only the thread before it is relinked: the removed thread's
        own next_thread is left as it was. */
    method Remove(thread: TaskThread, ghost k: nat)
      requires Valid() && k < |ring| && ring[k] == thread
      modifies this, ring[Before(|ring|, k)]
      ensures Valid() && ring == old(ring)[..k] + old(ring)[k + 1..]
      ensures startOfThreadCycle == null <==> |old(ring)| == 1
      ensures startOfThreadCycle != thread
      ensures thread.nextThread == old(thread.nextThread)
    {
      ghost var r0 := ring;
      ghost var n := |r0|;
      ghost var q := Before(n, k);
      assert NextIs(r0, k) && NextIs(r0, q);
      if thread.nextThread == thread {
        startOfThreadCycle := null;
        ring := [];
      } else {
        assert n > 1;
        if startOfThreadCycle == thread {
          startOfThreadCycle := thread.nextThread;
        }
        var searchThread := startOfThreadCycle;
        ghost var j := if k == 0 then 1 else 0;
        while searchThread.nextThread != thread
          invariant j < n && searchThread == r0[j] && j != k
          invariant k == 0 || j < k
          decreases if k == 0 then n - j else k - j
        {
          assert NextIs(r0, j);
          j := j + 1;
          searchThread := searchThread.nextThread;
        }
        assert NextIs(r0, j);
        assert j == q;
        searchThread.nextThread := searchThread.nextThread.nextThread;
        ring := r0[..k] + r0[k + 1..];
        ghost var m := ring;
        forall i | 0 <= i < |m|
          ensures NextIs(m, i)
        {
          var o := if i < k then i else i + 1;
          assert m[i] == r0[o];
          if o != q {
            assert r0[o] != r0[q] && old(NextIs(r0, o));
          }
        }
        forall a, b | 0 <= a < b < |m|
          ensures m[a] != m[b]
        {
          assert m[a] == r0[if a < k then a else a + 1];
          assert m[b] == r0[if b < k then b else b + 1];
        }
      }
    }
  }

  /** The position of the thread before position k in a ring of n. */
  function Before(n: nat, k: nat): (q: nat)
    requires k < n
    ensures q < n && (if k == 0 then q + 1 == n else q + 1 == k)
  {
    if k == 0 then n - 1 else k - 1
  }

  /** The thread reached from t by following next_thread steps times, as the
      scheduler walks the cycle. */
  ghost function Follow(t: TaskThread, steps: nat): (r: TaskThread?)
    reads *
    decreases steps
  {
    if steps == 0 then t
    else if t.nextThread == null then null
    else Follow(t.nextThread, steps - 1)
  }

  /** Walking the cycle from the i-th thread visits the ring in order, and
      reaches the start again at the ring's end. */
  lemma {:induction false} FollowAlongRing(c: ThreadCycle, i: nat, steps: nat)
    requires c.Valid() && i < |c.ring| && i + steps <= |c.ring|
    ensures Follow(c.ring[i], steps) == if i + steps == |c.ring| then c.ring[0] else c.ring[i + steps]
    decreases steps
  {
    if steps > 0 {
      assert NextIs(c.ring, i);
      if i + 1 < |c.ring| {
        FollowAlongRing(c, i + 1, steps - 1);
      }
    }
  }

  /** The cycle is a single loop: from its start every thread is reached
      within |ring| steps, and after exactly |ring| steps the walk is back
      at the start. */
  lemma SingleCycle(c: ThreadCycle)
    requires c.Valid() && c.startOfThreadCycle != null
    ensures forall i :: 0 <= i < |c.ring| ==> Follow(c.startOfThreadCycle, i) == c.ring[i]
    ensures Follow(c.startOfThreadCycle, |c.ring|) == c.startOfThreadCycle
  {
    forall i | 0 <= i < |c.ring|
      ensures Follow(c.startOfThreadCycle, i) == c.ring[i]
    {
      FollowAlongRing(c, 0, i);
    }
    FollowAlongRing(c, 0, |c.ring|);
  }
}
