/**
  The chain that hands dependent input and output positions to concurrent workers.

  Each worker runs the four calls of an iteration one lock or memory operation at a time;
  a run is any interleaving of such steps by any number of workers. A lock records the
  iteration (for the ticket lock, the worker) on whose behalf it is held, and the history
  records what every iteration passed on; neither is read by a step's guard except to see
  whether a lock is free.
 */
module IoChain {

  const IOC_SIZE := 33

  function Slot(i: nat): (s: nat)
    ensures s < IOC_SIZE
  {
    i % IOC_SIZE
  }

  datatype Lock = Free | HeldBy(id: nat)

  // Where a worker is in the four calls; an iteration that has ended has rank DONE.
  const IDLE := 0            // between iterations
  const TICKET := 1          // holds the ticket lock
  const TAKEN := 2           // has its iteration number
  const HAVE_IN := 3         // holds its input slot
  const HAVE_IN_NEXT := 4    // and the next input slot
  const HAVE_OUT_NEXT := 5   // and the next output slot
  const RELEASED := 6        // gave the ticket lock back
  const GOT_IN := 7          // read its input position
  const WROTE_IN := 8        // wrote the next input position
  const PASSED_IN := 9       // freed the next input slot
  const HAVE_OUT := 10       // holds its output slot
  const READ_OUT := 11       // read its output position
  const GOT_OUT := 12        // freed its output slot
  const WROTE_OUT := 13      // wrote the next output position
  const PASSED_OUT := 14     // freed the next output slot
  const DONE := 15           // freed its input slot

  // todo counts the iterations that the worker has still to finish.
  datatype Worker = Worker(pc: nat, iter: nat, input: int, output: int, todo: nat)

  datatype Chain = Chain(ticket: Lock, next: nat, inLock: seq<Lock>, inPtr: seq<int>,
                         outLock: seq<Lock>, outPtr: seq<int>)

  // rank[i] and owner[i] describe iteration i; inSet[i] and outSet[i] are the positions
  // set for it, and lens[i] is how much output it produced.
  datatype History = History(rank: seq<nat>, owner: seq<nat>, inSet: seq<int>, outSet: seq<int>, lens: seq<nat>)

  datatype State = State(c: Chain, ws: seq<Worker>, h: History)

  // ---- steps ----

  ghost predicate Shaped(s: State)
  {
    |s.c.inLock| == |s.c.inPtr| == |s.c.outLock| == |s.c.outPtr| == IOC_SIZE &&
    |s.h.rank| == |s.h.owner| == s.c.next &&
    forall w :: 0 <= w < |s.ws| ==> s.ws[w].pc < DONE && (s.ws[w].pc >= TAKEN ==> s.ws[w].iter < s.c.next)
  }

  // Is worker w's next operation possible? Only taking a lock can block.
  ghost predicate CanStep(s: State, w: nat)
    requires Shaped(s)
  {
    w < |s.ws| &&
    var k := s.ws[w];
    if k.pc == IDLE then k.todo > 0 && s.c.ticket == Free
    else if k.pc == TAKEN then s.c.inLock[Slot(k.iter)] == Free
    else if k.pc == HAVE_IN then s.c.inLock[Slot(k.iter + 1)] == Free
    else if k.pc == HAVE_IN_NEXT then s.c.outLock[Slot(k.iter + 1)] == Free
    else if k.pc == PASSED_IN then s.c.outLock[Slot(k.iter)] == Free
    else true
  }

  // Worker w becomes k, and its iteration's rank follows.
  function Move(s: State, w: nat, k: Worker, c: Chain, h: History): State
    requires w < |s.ws| && k.iter < |h.rank|
  {
    State(c, s.ws[w := k], h.(rank := h.rank[k.iter := if k.pc == IDLE then DONE else k.pc]))
  }

  // The next operation of worker w, where p and len are what its own work yields.
  ghost function Do(s: State, w: nat, p: int, len: nat): State
    requires Shaped(s) && w < |s.ws|
  {
    var k, c, h := s.ws[w], s.c, s.h;
    var me, nx := Slot(k.iter), Slot(k.iter + 1);
    if k.pc == IDLE then
      s.(c := c.(ticket := HeldBy(w)), ws := s.ws[w := k.(pc := TICKET)])
    else if k.pc == TICKET then
      State(c.(next := c.next + 1), s.ws[w := k.(pc := TAKEN, iter := c.next)],
            h.(rank := h.rank + [TAKEN], owner := h.owner + [w]))
    else if k.pc == TAKEN then
      Move(s, w, k.(pc := HAVE_IN), c.(inLock := c.inLock[me := HeldBy(k.iter)]), h)
    else if k.pc == HAVE_IN then
      Move(s, w, k.(pc := HAVE_IN_NEXT), c.(inLock := c.inLock[nx := HeldBy(k.iter)]), h)
    else if k.pc == HAVE_IN_NEXT then
      Move(s, w, k.(pc := HAVE_OUT_NEXT), c.(outLock := c.outLock[nx := HeldBy(k.iter)]), h)
    else if k.pc == HAVE_OUT_NEXT then
      Move(s, w, k.(pc := RELEASED), c.(ticket := Free), h)
    else if k.pc == RELEASED then
      Move(s, w, k.(pc := GOT_IN, input := c.inPtr[me]), c, h)
    else if k.pc == GOT_IN then
      Move(s, w, k.(pc := WROTE_IN), c.(inPtr := c.inPtr[nx := p]), h.(inSet := h.inSet + [p]))
    else if k.pc == WROTE_IN then
      Move(s, w, k.(pc := PASSED_IN), c.(inLock := c.inLock[nx := Free]), h)
    else if k.pc == PASSED_IN then
      Move(s, w, k.(pc := HAVE_OUT), c.(outLock := c.outLock[me := HeldBy(k.iter)]), h)
    else if k.pc == HAVE_OUT then
      Move(s, w, k.(pc := READ_OUT, output := c.outPtr[me]), c, h)
    else if k.pc == READ_OUT then
      Move(s, w, k.(pc := GOT_OUT), c.(outLock := c.outLock[me := Free]), h)
    else if k.pc == GOT_OUT then
      Move(s, w, k.(pc := WROTE_OUT), c.(outPtr := c.outPtr[nx := k.output + len]),
           h.(outSet := h.outSet + [k.output + len], lens := h.lens + [len]))
    else if k.pc == WROTE_OUT then
      Move(s, w, k.(pc := PASSED_OUT), c.(outLock := c.outLock[nx := Free]), h)
    else
      Move(s, w, k.(pc := IDLE, todo := if k.todo > 0 then k.todo - 1 else 0), c.(inLock := c.inLock[me := Free]), h)
  }

  ghost predicate Next(s: State, t: State)
  {
    Shaped(s) && exists w, p, len: nat :: CanStep(s, w) && t == Do(s, w, p, len)
  }

  // ioc_init, and workers that have not started; slot contents are otherwise arbitrary.
  ghost predicate Init(s: State, in0: int, out0: int)
  {
    Shaped(s) && s.c.ticket == Free && s.c.next == 0 &&
    (forall i :: 0 <= i < IOC_SIZE ==> s.c.inLock[i] == Free && s.c.outLock[i] == Free) &&
    s.c.inPtr[0] == in0 && s.c.outPtr[0] == out0 &&
    (forall w :: 0 <= w < |s.ws| ==> s.ws[w].pc == IDLE) &&
    s.h.inSet == [in0] && s.h.outSet == [out0] && s.h.lens == []
  }

  // A chain as ioc_init leaves it, and workers with so many iterations each.
  function Started(todo: seq<nat>, in0: int, out0: int): (s: State)
    ensures Init(s, in0, out0) && |s.ws| == |todo|
    ensures forall w :: 0 <= w < |todo| ==> s.ws[w].todo == todo[w]
  {
    var free := seq(IOC_SIZE, _ => Free);
    State(Chain(Free, 0, free, seq(IOC_SIZE, _ => in0), free, seq(IOC_SIZE, _ => out0)),
          seq(|todo|, w requires 0 <= w < |todo| => Worker(IDLE, 0, in0, out0, todo[w])),
          History([], [], [in0], [out0], []))
  }

  // ---- the invariant ----

  // Iterations follow one another: only the latest may still be taking its slots; an
  // iteration holds its input slot only after all earlier ones have passed theirs on, and
  // its output slot likewise; and the ring is never lapped.
  ghost predicate Order(rank: seq<nat>)
  {
    (forall i :: 0 <= i < |rank| ==> TAKEN <= rank[i] <= DONE) &&
    (forall i :: 0 <= i < |rank| - 1 ==> rank[i] >= RELEASED) &&
    (forall k, i :: 0 <= k < i < |rank| && rank[i] >= HAVE_IN ==> rank[k] >= PASSED_IN) &&
    (forall k, i :: 0 <= k < i < |rank| && rank[i] >= HAVE_OUT ==> rank[k] >= PASSED_OUT) &&
    (forall k, i :: 0 <= k && k + IOC_SIZE <= i < |rank| && rank[i] >= HAVE_IN ==> rank[k] == DONE) &&
    (forall k, i :: 0 <= k && k + IOC_SIZE - 1 <= i < |rank| && rank[i] >= HAVE_IN_NEXT ==> rank[k] == DONE)
  }

  // Iteration i holds input slot n, or output slot n.
  ghost predicate Holds(rank: seq<nat>, i: nat, n: nat, out: bool)
  {
    i < |rank| &&
    if out then
      (Slot(i + 1) == n && HAVE_OUT_NEXT <= rank[i] < PASSED_OUT) || (Slot(i) == n && HAVE_OUT <= rank[i] < GOT_OUT)
    else
      (Slot(i) == n && HAVE_IN <= rank[i] < DONE) || (Slot(i + 1) == n && HAVE_IN_NEXT <= rank[i] < PASSED_IN)
  }

  // The locks are held by exactly the iterations whose rank says so.
  ghost predicate Locks(lock: seq<Lock>, rank: seq<nat>, out: bool)
  {
    |lock| == IOC_SIZE &&
    forall i: nat, n: nat :: n < IOC_SIZE ==> Holds(rank, i, n, out) == (lock[n] == HeldBy(i))
  }

  // Workers and unfinished iterations match one to one; the ticket lock is held by the
  // worker that is taking the latest iteration's slots.
  ghost predicate Staffed(s: State)
    requires Shaped(s)
  {
    (forall w :: 0 <= w < |s.ws| && s.ws[w].pc >= TAKEN ==>
      s.h.rank[s.ws[w].iter] == s.ws[w].pc && s.h.owner[s.ws[w].iter] == w) &&
    (forall i :: 0 <= i < s.c.next && s.h.rank[i] < DONE ==>
      s.h.owner[i] < |s.ws| && s.ws[s.h.owner[i]].pc >= TAKEN && s.ws[s.h.owner[i]].iter == i) &&
    (forall w :: 0 <= w < |s.ws| ==> (s.c.ticket == HeldBy(w) <==> TICKET <= s.ws[w].pc <= HAVE_OUT_NEXT)) &&
    (forall w: nat :: s.c.ticket == HeldBy(w) ==> w < |s.ws|) &&
    (forall w :: 0 <= w < |s.ws| && s.ws[w].pc != IDLE ==> s.ws[w].todo > 0)
  }

  // The positions set so far, the latest of which is in its slot.
  ghost predicate Recorded(s: State, in0: int, out0: int)
    requires Shaped(s)
  {
    var h := s.h;
    0 < |h.inSet| <= s.c.next + 1 && 0 < |h.outSet| <= s.c.next + 1 && |h.lens| == |h.outSet| - 1 &&
    (forall i :: 0 <= i < s.c.next ==> (h.rank[i] >= WROTE_IN <==> i + 1 < |h.inSet|)) &&
    (forall i :: 0 <= i < s.c.next ==> (h.rank[i] >= WROTE_OUT <==> i + 1 < |h.outSet|)) &&
    s.c.inPtr[Slot(|h.inSet| - 1)] == h.inSet[|h.inSet| - 1] &&
    s.c.outPtr[Slot(|h.outSet| - 1)] == h.outSet[|h.outSet| - 1] &&
    h.inSet[0] == in0 && h.outSet[0] == out0 &&
    (forall i :: 0 <= i < |h.lens| ==> h.outSet[i + 1] == h.outSet[i] + h.lens[i])
  }

  // What the workers were handed.
  ghost predicate Handed(s: State)
    requires Shaped(s)
  {
    (forall w :: 0 <= w < |s.ws| && s.ws[w].pc >= GOT_IN ==>
      s.ws[w].iter < |s.h.inSet| && s.ws[w].input == s.h.inSet[s.ws[w].iter]) &&
    (forall w :: 0 <= w < |s.ws| && s.ws[w].pc >= READ_OUT ==>
      s.ws[w].iter < |s.h.outSet| && s.ws[w].output == s.h.outSet[s.ws[w].iter])
  }

  ghost predicate Inv(s: State, in0: int, out0: int)
  {
    Shaped(s) && Order(s.h.rank) && Locks(s.c.inLock, s.h.rank, false) && Locks(s.c.outLock, s.h.rank, true) &&
    Staffed(s) && Recorded(s, in0, out0) && Handed(s)
  }

  // ---- preservation, part by part ----

  // Iteration i's rank rises to r.
  lemma OrderRises(rank: seq<nat>, i: nat, r: nat)
    requires Order(rank) && i < |rank| && rank[i] < r <= DONE
    requires rank[i] < HAVE_IN <= r ==>
               forall k :: 0 <= k < i ==> rank[k] >= PASSED_IN && (k + IOC_SIZE <= i ==> rank[k] == DONE)
    requires rank[i] < HAVE_IN_NEXT <= r ==> forall k :: 0 <= k && k + IOC_SIZE - 1 <= i ==> rank[k] == DONE
    requires rank[i] < HAVE_OUT <= r ==> forall k :: 0 <= k < i ==> rank[k] >= PASSED_OUT
    ensures Order(rank[i := r])
  {
  }

  // A step that neither takes nor gives back one of these locks.
  lemma LocksSame(lock: seq<Lock>, rank: seq<nat>, i: nat, r: nat, out: bool)
    requires Locks(lock, rank, out) && i < |rank|
    requires forall n :: 0 <= n < IOC_SIZE ==> Holds(rank[i := r], i, n, out) == Holds(rank, i, n, out)
    ensures Locks(lock, rank[i := r], out)
  {
    hide Slot;
    var after := lock;
    forall j: nat, n: nat | n < IOC_SIZE
      ensures Holds(rank[i := r], j, n, out) == (after[n] == HeldBy(j))
    {
      assert j != i ==> Holds(rank[i := r], j, n, out) == Holds(rank, j, n, out);
      assert Holds(rank, j, n, out) == (lock[n] == HeldBy(j));
    }
  }

  // Iteration i takes the free lock m.
  lemma LocksTaken(lock: seq<Lock>, rank: seq<nat>, i: nat, r: nat, m: nat, out: bool)
    requires Locks(lock, rank, out) && i < |rank| && m < IOC_SIZE && lock[m] == Free
    requires forall n :: 0 <= n < IOC_SIZE ==> Holds(rank[i := r], i, n, out) == (Holds(rank, i, n, out) || n == m)
    ensures Locks(lock[m := HeldBy(i)], rank[i := r], out)
  {
    hide Slot;
    var after := lock[m := HeldBy(i)];
    forall j: nat, n: nat | n < IOC_SIZE
      ensures Holds(rank[i := r], j, n, out) == (after[n] == HeldBy(j))
    {
      assert j != i ==> Holds(rank[i := r], j, n, out) == Holds(rank, j, n, out);
      assert Holds(rank, j, n, out) == (lock[n] == HeldBy(j));
    }
  }

  // Iteration i gives lock m back.
  lemma LocksGiven(lock: seq<Lock>, rank: seq<nat>, i: nat, r: nat, m: nat, out: bool)
    requires Locks(lock, rank, out) && i < |rank| && m < IOC_SIZE && Holds(rank, i, m, out)
    requires forall n :: 0 <= n < IOC_SIZE ==> Holds(rank[i := r], i, n, out) == (Holds(rank, i, n, out) && n != m)
    ensures Locks(lock[m := Free], rank[i := r], out)
  {
    hide Slot;
    var after := lock[m := Free];
    forall j: nat, n: nat | n < IOC_SIZE
      ensures Holds(rank[i := r], j, n, out) == (after[n] == HeldBy(j))
    {
      assert j != i ==> Holds(rank[i := r], j, n, out) == Holds(rank, j, n, out);
      assert Holds(rank, j, n, out) == (lock[n] == HeldBy(j));
      assert Holds(rank, i, m, out) == (lock[m] == HeldBy(i));
    }
  }

  lemma SlotsDiffer(i: nat)
    ensures Slot(i) != Slot(i + 1)
    ensures i >= IOC_SIZE ==> Slot(i - IOC_SIZE) == Slot(i)
    ensures i + 1 >= IOC_SIZE ==> Slot(i + 1 - IOC_SIZE) == Slot(i + 1)
  {
    LapBack(i);
    LapBack(i + 1);
    NextSlot(i);
  }

  lemma LapBack(i: nat)
    ensures i >= IOC_SIZE ==> Slot(i - IOC_SIZE) == Slot(i)
  {
    if i >= IOC_SIZE {
      var j := i - IOC_SIZE;
      assert j == IOC_SIZE * (j / IOC_SIZE) + j % IOC_SIZE;
      assert i == IOC_SIZE * (j / IOC_SIZE + 1) + j % IOC_SIZE;
    }
  }

  lemma NextSlot(i: nat)
    ensures Slot(i + 1) == if Slot(i) == IOC_SIZE - 1 then 0 else Slot(i) + 1
  {
  }

  // ---- what a free lock tells ----

  // The input slot of the latest iteration is free: all earlier ones have passed theirs
  // on, and the iteration that used this slot a lap ago is over.
  lemma InputSlotFree(rank: seq<nat>, lock: seq<Lock>, i: nat)
    requires Order(rank) && Locks(lock, rank, false) && i + 1 == |rank| && lock[Slot(i)] == Free
    ensures forall k :: 0 <= k < i ==> rank[k] >= PASSED_IN && (k + IOC_SIZE <= i ==> rank[k] == DONE)
  {
    SlotsDiffer(i);
    hide Slot;
    if i > 0 {
      assert Holds(rank, i - 1, Slot(i), false) == (lock[Slot(i)] == HeldBy(i - 1));
      assert rank[i - 1] >= PASSED_IN;
    }
    if i >= IOC_SIZE {
      assert Holds(rank, i - IOC_SIZE, Slot(i), false) == (lock[Slot(i)] == HeldBy(i - IOC_SIZE));
    }
  }

  lemma NextInputSlotFree(rank: seq<nat>, lock: seq<Lock>, i: nat)
    requires Order(rank) && Locks(lock, rank, false) && i < |rank| && rank[i] >= HAVE_IN && lock[Slot(i + 1)] == Free
    ensures forall k :: 0 <= k && k + IOC_SIZE - 1 <= i ==> rank[k] == DONE
  {
    SlotsDiffer(i);
    hide Slot;
    if i + 1 >= IOC_SIZE {
      var k := i + 1 - IOC_SIZE;
      assert Holds(rank, k, Slot(i + 1), false) == (lock[Slot(i + 1)] == HeldBy(k));
    }
  }

  lemma OutputSlotFree(rank: seq<nat>, lock: seq<Lock>, i: nat)
    requires Order(rank) && Locks(lock, rank, true) && i < |rank| && rank[i] >= HAVE_IN && lock[Slot(i)] == Free
    ensures forall k :: 0 <= k < i ==> rank[k] >= PASSED_OUT
  {
    hide Slot;
    if i > 0 {
      assert Holds(rank, i - 1, Slot(i), true) == (lock[Slot(i)] == HeldBy(i - 1));
    }
  }

  // ---- preservation, step by step ----

  // The part of the invariant that ties workers, ranks and the ticket lock together, over
  // a step that moves worker w on within its iteration.
  lemma StaffedMoves(s: State, t: State, w: nat, k: Worker)
    requires Shaped(s) && Staffed(s) && w < |s.ws| && s.ws[w].pc >= TAKEN
    requires k.iter == s.ws[w].iter && k.todo == s.ws[w].todo && s.ws[w].pc < k.pc < DONE
    requires t.ws == s.ws[w := k] && t.c.next == s.c.next
    requires t.h.rank == s.h.rank[k.iter := k.pc] && t.h.owner == s.h.owner
    requires s.ws[w].pc == HAVE_OUT_NEXT ==> t.c.ticket == Free && k.pc > HAVE_OUT_NEXT
    requires s.ws[w].pc != HAVE_OUT_NEXT ==>
               t.c.ticket == s.c.ticket && (k.pc <= HAVE_OUT_NEXT <==> s.ws[w].pc < HAVE_OUT_NEXT)
    requires |t.c.inLock| == |t.c.inPtr| == |t.c.outLock| == |t.c.outPtr| == IOC_SIZE
    ensures Shaped(t) && Staffed(t)
  {
  }

  lemma RecordedMoves(s: State, t: State, i: nat, in0: int, out0: int)
    requires Shaped(s) && Shaped(t) && Recorded(s, in0, out0) && i < s.c.next == t.c.next
    requires t.h == s.h.(rank := s.h.rank[i := s.h.rank[i] + 1])
    requires t.c.inPtr == s.c.inPtr && t.c.outPtr == s.c.outPtr
    requires s.h.rank[i] != GOT_IN && s.h.rank[i] != GOT_OUT
    ensures Recorded(t, in0, out0)
  {
  }

  lemma HandedMoves(s: State, t: State, w: nat, pc: nat)
    requires Shaped(s) && Shaped(t) && Handed(s) && w < |s.ws| && t.ws == s.ws[w := s.ws[w].(pc := pc)]
    requires t.h.inSet == s.h.inSet && t.h.outSet == s.h.outSet
    requires pc >= GOT_IN ==> s.ws[w].pc >= GOT_IN
    requires pc >= READ_OUT ==> s.ws[w].pc >= READ_OUT
    ensures Handed(t)
  {
  }

  // Setting the next input position.
  lemma RecordedInput(s: State, t: State, i: nat, p: int, in0: int, out0: int)
    requires Shaped(s) && Shaped(t) && Recorded(s, in0, out0) && i < s.c.next == t.c.next
    requires s.h.rank[i] == GOT_IN && |s.h.inSet| == i + 1
    requires t.h == s.h.(rank := s.h.rank[i := WROTE_IN], inSet := s.h.inSet + [p])
    requires t.c.inPtr == s.c.inPtr[Slot(i + 1) := p] && t.c.outPtr == s.c.outPtr
    ensures Recorded(t, in0, out0)
  {
    hide Slot;
    forall k | 0 <= k < t.c.next
      ensures t.h.rank[k] >= WROTE_IN <==> k + 1 < |t.h.inSet|
    {
      assert s.h.rank[k] >= WROTE_IN <==> k + 1 < |s.h.inSet|;
    }
  }

  lemma RecordedOutput(s: State, t: State, i: nat, p: int, len: nat, in0: int, out0: int)
    requires Shaped(s) && Shaped(t) && Recorded(s, in0, out0) && i < s.c.next == t.c.next
    requires s.h.rank[i] == GOT_OUT && |s.h.outSet| == i + 1 && p == s.h.outSet[i] + len
    requires t.h == s.h.(rank := s.h.rank[i := WROTE_OUT], outSet := s.h.outSet + [p], lens := s.h.lens + [len])
    requires t.c.outPtr == s.c.outPtr[Slot(i + 1) := p] && t.c.inPtr == s.c.inPtr
    ensures Recorded(t, in0, out0)
  {
    hide Slot;
    forall k | 0 <= k < t.c.next
      ensures t.h.rank[k] >= WROTE_OUT <==> k + 1 < |t.h.outSet|
    {
      assert s.h.rank[k] >= WROTE_OUT <==> k + 1 < |s.h.outSet|;
    }
  }

  lemma HandedWrites(s: State, t: State, w: nat, pc: nat)
    requires Shaped(s) && Shaped(t) && Handed(s) && w < |s.ws| && t.ws == s.ws[w := s.ws[w].(pc := pc)]
    requires s.h.inSet <= t.h.inSet && s.h.outSet <= t.h.outSet
    requires pc >= GOT_IN ==> s.ws[w].pc >= GOT_IN
    requires pc >= READ_OUT ==> s.ws[w].pc >= READ_OUT
    ensures Handed(t)
  {
  }

  // The position that an iteration is about to read is the latest one set.
  lemma InputIsLatest(s: State, i: nat, in0: int, out0: int)
    requires Shaped(s) && Order(s.h.rank) && Recorded(s, in0, out0)
    requires i < s.c.next && HAVE_IN <= s.h.rank[i] < WROTE_IN
    ensures |s.h.inSet| == i + 1 && s.c.inPtr[Slot(i)] == s.h.inSet[i]
  {
    assert i > 0 ==> s.h.rank[i - 1] >= PASSED_IN;
  }

  lemma OutputIsLatest(s: State, i: nat, in0: int, out0: int)
    requires Shaped(s) && Order(s.h.rank) && Recorded(s, in0, out0)
    requires i < s.c.next && HAVE_OUT <= s.h.rank[i] < WROTE_OUT
    ensures |s.h.outSet| == i + 1 && s.c.outPtr[Slot(i)] == s.h.outSet[i]
  {
    assert i > 0 ==> s.h.rank[i - 1] >= PASSED_OUT;
  }

  lemma TakeInputKeeps(s: State, w: nat, p: int, len: nat, in0: int, out0: int)
    requires Inv(s, in0, out0) && CanStep(s, w) && s.ws[w].pc == TAKEN
    ensures Inv(Do(s, w, p, len), in0, out0)
  {
    hide Slot;
    hide Recorded;
    hide Handed;
    var i, rank, t := s.ws[w].iter, s.h.rank, Do(s, w, p, len);
    var me := Slot(i);
    assert rank[i] == s.ws[w].pc && i < |rank|;
    SlotsDiffer(i);
    InputSlotFree(rank, s.c.inLock, i);
    OrderRises(rank, i, rank[i] + 1);
    LocksTaken(s.c.inLock, rank, i, rank[i] + 1, me, false);
    LocksSame(s.c.outLock, rank, i, rank[i] + 1, true);
    StaffedMoves(s, t, w, t.ws[w]);
    hide Order;
    hide Staffed;
    hide Locks;
    RecordedMoves(s, t, i, in0, out0);
    HandedMoves(s, t, w, s.ws[w].pc + 1);
  }

  lemma TakeNextInputKeeps(s: State, w: nat, p: int, len: nat, in0: int, out0: int)
    requires Inv(s, in0, out0) && CanStep(s, w) && s.ws[w].pc == HAVE_IN
    ensures Inv(Do(s, w, p, len), in0, out0)
  {
    hide Slot;
    hide Recorded;
    hide Handed;
    var i, rank, t := s.ws[w].iter, s.h.rank, Do(s, w, p, len);
    var nx := Slot(i + 1);
    assert rank[i] == s.ws[w].pc && i < |rank|;
    SlotsDiffer(i);
    NextInputSlotFree(rank, s.c.inLock, i);
    OrderRises(rank, i, rank[i] + 1);
    LocksTaken(s.c.inLock, rank, i, rank[i] + 1, nx, false);
    LocksSame(s.c.outLock, rank, i, rank[i] + 1, true);
    StaffedMoves(s, t, w, t.ws[w]);
    hide Order;
    hide Staffed;
    hide Locks;
    RecordedMoves(s, t, i, in0, out0);
    HandedMoves(s, t, w, s.ws[w].pc + 1);
  }

  lemma TakeNextOutputKeeps(s: State, w: nat, p: int, len: nat, in0: int, out0: int)
    requires Inv(s, in0, out0) && CanStep(s, w) && s.ws[w].pc == HAVE_IN_NEXT
    ensures Inv(Do(s, w, p, len), in0, out0)
  {
    hide Slot;
    hide Recorded;
    hide Handed;
    var i, rank, t := s.ws[w].iter, s.h.rank, Do(s, w, p, len);
    var nx := Slot(i + 1);
    assert rank[i] == s.ws[w].pc && i < |rank|;
    SlotsDiffer(i);
    OrderRises(rank, i, rank[i] + 1);
    LocksSame(s.c.inLock, rank, i, rank[i] + 1, false);
    LocksTaken(s.c.outLock, rank, i, rank[i] + 1, nx, true);
    StaffedMoves(s, t, w, t.ws[w]);
    hide Order;
    hide Staffed;
    hide Locks;
    RecordedMoves(s, t, i, in0, out0);
    HandedMoves(s, t, w, s.ws[w].pc + 1);
  }

  lemma GiveTicketKeeps(s: State, w: nat, p: int, len: nat, in0: int, out0: int)
    requires Inv(s, in0, out0) && CanStep(s, w) && s.ws[w].pc == HAVE_OUT_NEXT
    ensures Inv(Do(s, w, p, len), in0, out0)
  {
    hide Slot;
    hide Recorded;
    hide Handed;
    var i, rank, t := s.ws[w].iter, s.h.rank, Do(s, w, p, len);
    assert rank[i] == s.ws[w].pc && i < |rank|;
    SlotsDiffer(i);
    OrderRises(rank, i, rank[i] + 1);
    LocksSame(s.c.inLock, rank, i, rank[i] + 1, false);
    LocksSame(s.c.outLock, rank, i, rank[i] + 1, true);
    StaffedMoves(s, t, w, t.ws[w]);
    hide Order;
    hide Staffed;
    hide Locks;
    RecordedMoves(s, t, i, in0, out0);
    HandedMoves(s, t, w, s.ws[w].pc + 1);
  }

  lemma ReadInputKeeps(s: State, w: nat, p: int, len: nat, in0: int, out0: int)
    requires Inv(s, in0, out0) && CanStep(s, w) && s.ws[w].pc == RELEASED
    ensures Inv(Do(s, w, p, len), in0, out0)
  {
    var i, rank, t := s.ws[w].iter, s.h.rank, Do(s, w, p, len);
    assert rank[i] == s.ws[w].pc && i < |rank|;
    SlotsDiffer(i);
    hide Slot;
    InputIsLatest(s, i, in0, out0);
    OrderRises(rank, i, rank[i] + 1);
    LocksSame(s.c.inLock, rank, i, rank[i] + 1, false);
    LocksSame(s.c.outLock, rank, i, rank[i] + 1, true);
    StaffedMoves(s, t, w, t.ws[w]);
    RecordedMoves(s, t, i, in0, out0);
  }

  lemma WriteInputKeeps(s: State, w: nat, p: int, len: nat, in0: int, out0: int)
    requires Inv(s, in0, out0) && CanStep(s, w) && s.ws[w].pc == GOT_IN
    ensures Inv(Do(s, w, p, len), in0, out0)
  {
    var i, rank, t := s.ws[w].iter, s.h.rank, Do(s, w, p, len);
    assert rank[i] == s.ws[w].pc && i < |rank|;
    SlotsDiffer(i);
    hide Slot;
    InputIsLatest(s, i, in0, out0);
    RecordedInput(s, t, i, p, in0, out0);
    HandedWrites(s, t, w, WROTE_IN);
    hide Recorded;
    hide Handed;
    OrderRises(rank, i, rank[i] + 1);
    LocksSame(s.c.inLock, rank, i, rank[i] + 1, false);
    LocksSame(s.c.outLock, rank, i, rank[i] + 1, true);
    StaffedMoves(s, t, w, t.ws[w]);
  }

  lemma PassInputKeeps(s: State, w: nat, p: int, len: nat, in0: int, out0: int)
    requires Inv(s, in0, out0) && CanStep(s, w) && s.ws[w].pc == WROTE_IN
    ensures Inv(Do(s, w, p, len), in0, out0)
  {
    hide Slot;
    hide Recorded;
    hide Handed;
    var i, rank, t := s.ws[w].iter, s.h.rank, Do(s, w, p, len);
    var nx := Slot(i + 1);
    assert rank[i] == s.ws[w].pc && i < |rank|;
    SlotsDiffer(i);
    OrderRises(rank, i, rank[i] + 1);
    LocksGiven(s.c.inLock, rank, i, rank[i] + 1, nx, false);
    LocksSame(s.c.outLock, rank, i, rank[i] + 1, true);
    StaffedMoves(s, t, w, t.ws[w]);
    hide Order;
    hide Staffed;
    hide Locks;
    RecordedMoves(s, t, i, in0, out0);
    HandedMoves(s, t, w, s.ws[w].pc + 1);
  }

  lemma TakeOutputKeeps(s: State, w: nat, p: int, len: nat, in0: int, out0: int)
    requires Inv(s, in0, out0) && CanStep(s, w) && s.ws[w].pc == PASSED_IN
    ensures Inv(Do(s, w, p, len), in0, out0)
  {
    hide Slot;
    hide Recorded;
    hide Handed;
    var i, rank, t := s.ws[w].iter, s.h.rank, Do(s, w, p, len);
    var me := Slot(i);
    assert rank[i] == s.ws[w].pc && i < |rank|;
    SlotsDiffer(i);
    OutputSlotFree(rank, s.c.outLock, i);
    OrderRises(rank, i, rank[i] + 1);
    LocksSame(s.c.inLock, rank, i, rank[i] + 1, false);
    LocksTaken(s.c.outLock, rank, i, rank[i] + 1, me, true);
    StaffedMoves(s, t, w, t.ws[w]);
    hide Order;
    hide Staffed;
    hide Locks;
    RecordedMoves(s, t, i, in0, out0);
    HandedMoves(s, t, w, s.ws[w].pc + 1);
  }

  lemma ReadOutputKeeps(s: State, w: nat, p: int, len: nat, in0: int, out0: int)
    requires Inv(s, in0, out0) && CanStep(s, w) && s.ws[w].pc == HAVE_OUT
    ensures Inv(Do(s, w, p, len), in0, out0)
  {
    var i, rank, t := s.ws[w].iter, s.h.rank, Do(s, w, p, len);
    assert rank[i] == s.ws[w].pc && i < |rank|;
    SlotsDiffer(i);
    hide Slot;
    OutputIsLatest(s, i, in0, out0);
    OrderRises(rank, i, rank[i] + 1);
    LocksSame(s.c.inLock, rank, i, rank[i] + 1, false);
    LocksSame(s.c.outLock, rank, i, rank[i] + 1, true);
    StaffedMoves(s, t, w, t.ws[w]);
    RecordedMoves(s, t, i, in0, out0);
  }

  lemma GiveOutputKeeps(s: State, w: nat, p: int, len: nat, in0: int, out0: int)
    requires Inv(s, in0, out0) && CanStep(s, w) && s.ws[w].pc == READ_OUT
    ensures Inv(Do(s, w, p, len), in0, out0)
  {
    hide Slot;
    hide Recorded;
    hide Handed;
    var i, rank, t := s.ws[w].iter, s.h.rank, Do(s, w, p, len);
    var me := Slot(i);
    assert rank[i] == s.ws[w].pc && i < |rank|;
    SlotsDiffer(i);
    OrderRises(rank, i, rank[i] + 1);
    LocksSame(s.c.inLock, rank, i, rank[i] + 1, false);
    LocksGiven(s.c.outLock, rank, i, rank[i] + 1, me, true);
    StaffedMoves(s, t, w, t.ws[w]);
    hide Order;
    hide Staffed;
    hide Locks;
    RecordedMoves(s, t, i, in0, out0);
    HandedMoves(s, t, w, s.ws[w].pc + 1);
  }

  lemma WriteOutputKeeps(s: State, w: nat, p: int, len: nat, in0: int, out0: int)
    requires Inv(s, in0, out0) && CanStep(s, w) && s.ws[w].pc == GOT_OUT
    ensures Inv(Do(s, w, p, len), in0, out0)
  {
    var i, rank, t := s.ws[w].iter, s.h.rank, Do(s, w, p, len);
    assert rank[i] == s.ws[w].pc && i < |rank|;
    SlotsDiffer(i);
    hide Slot;
    OutputIsLatest(s, i, in0, out0);
    assert s.ws[w].output == s.h.outSet[i];
    RecordedOutput(s, t, i, s.ws[w].output + len, len, in0, out0);
    HandedWrites(s, t, w, WROTE_OUT);
    hide Recorded;
    hide Handed;
    OrderRises(rank, i, rank[i] + 1);
    LocksSame(s.c.inLock, rank, i, rank[i] + 1, false);
    LocksSame(s.c.outLock, rank, i, rank[i] + 1, true);
    StaffedMoves(s, t, w, t.ws[w]);
  }

  lemma PassOutputKeeps(s: State, w: nat, p: int, len: nat, in0: int, out0: int)
    requires Inv(s, in0, out0) && CanStep(s, w) && s.ws[w].pc == WROTE_OUT
    ensures Inv(Do(s, w, p, len), in0, out0)
  {
    hide Slot;
    hide Recorded;
    hide Handed;
    var i, rank, t := s.ws[w].iter, s.h.rank, Do(s, w, p, len);
    var nx := Slot(i + 1);
    assert rank[i] == s.ws[w].pc && i < |rank|;
    SlotsDiffer(i);
    OrderRises(rank, i, rank[i] + 1);
    LocksSame(s.c.inLock, rank, i, rank[i] + 1, false);
    LocksGiven(s.c.outLock, rank, i, rank[i] + 1, nx, true);
    StaffedMoves(s, t, w, t.ws[w]);
    hide Order;
    hide Staffed;
    hide Locks;
    RecordedMoves(s, t, i, in0, out0);
    HandedMoves(s, t, w, s.ws[w].pc + 1);
  }

  // An idle worker takes the ticket lock.
  lemma StartKeeps(s: State, w: nat, p: int, len: nat, in0: int, out0: int)
    requires Inv(s, in0, out0) && CanStep(s, w) && s.ws[w].pc == IDLE
    ensures Inv(Do(s, w, p, len), in0, out0)
  {
    var t := Do(s, w, p, len);
    hide Slot;
    HandedMoves(s, t, w, TICKET);
    hide Order;
    hide Locks;
    hide Handed;
    assert Recorded(t, in0, out0);
    hide Recorded;
    assert Staffed(t);
  }

  // While the ticket lock is held before numbering, nobody is taking slots.
  lemma NobodyTaking(s: State, w: nat)
    requires Shaped(s) && Staffed(s) && w < |s.ws| && s.ws[w].pc == TICKET && Order(s.h.rank)
    ensures forall i :: 0 <= i < s.c.next ==> s.h.rank[i] >= RELEASED
  {
    forall i | 0 <= i < s.c.next
      ensures s.h.rank[i] >= RELEASED
    {
      var v := s.h.owner[i];
      assert s.h.rank[i] < RELEASED ==> s.c.ticket == HeldBy(v);
      assert s.c.ticket == HeldBy(w);
    }
  }

  lemma LocksNumbered(lock: seq<Lock>, rank: seq<nat>, out: bool)
    requires Locks(lock, rank, out)
    ensures Locks(lock, rank + [TAKEN], out)
  {
    hide Slot;
    forall i: nat, n: nat | n < IOC_SIZE
      ensures Holds(rank + [TAKEN], i, n, out) == (lock[n] == HeldBy(i))
    {
      assert Holds(rank, i, n, out) == (lock[n] == HeldBy(i));
    }
  }

  lemma OrderNumbered(rank: seq<nat>)
    requires Order(rank) && forall i :: 0 <= i < |rank| ==> rank[i] >= RELEASED
    ensures Order(rank + [TAKEN])
  {
  }

  lemma StaffedNumbered(s: State, t: State, w: nat)
    requires Shaped(s) && Staffed(s) && w < |s.ws| && s.ws[w].pc == TICKET
    requires t.ws == s.ws[w := s.ws[w].(pc := TAKEN, iter := s.c.next)]
    requires t.c == s.c.(next := s.c.next + 1)
    requires t.h == s.h.(rank := s.h.rank + [TAKEN], owner := s.h.owner + [w])
    ensures Shaped(t) && Staffed(t)
  {
  }

  lemma RecordedNumbered(s: State, t: State, in0: int, out0: int)
    requires Shaped(s) && Shaped(t) && Recorded(s, in0, out0)
    requires t.c == s.c.(next := s.c.next + 1)
    requires t.h.rank == s.h.rank + [TAKEN] && t.h == s.h.(rank := t.h.rank, owner := t.h.owner)
    ensures Recorded(t, in0, out0)
  {
    hide Slot;
    forall k | 0 <= k < t.c.next
      ensures t.h.rank[k] >= WROTE_IN <==> k + 1 < |t.h.inSet|
      ensures t.h.rank[k] >= WROTE_OUT <==> k + 1 < |t.h.outSet|
    {
      if k < s.c.next {
        assert t.h.rank[k] == s.h.rank[k];
      }
    }
  }

  // The worker that holds the ticket lock numbers its iteration.
  lemma NumberKeeps(s: State, w: nat, p: int, len: nat, in0: int, out0: int)
    requires Inv(s, in0, out0) && CanStep(s, w) && s.ws[w].pc == TICKET
    ensures Inv(Do(s, w, p, len), in0, out0)
  {
    var t := Do(s, w, p, len);
    NobodyTaking(s, w);
    OrderNumbered(s.h.rank);
    LocksNumbered(s.c.inLock, s.h.rank, false);
    LocksNumbered(s.c.outLock, s.h.rank, true);
    StaffedNumbered(s, t, w);
    RecordedNumbered(s, t, in0, out0);
    hide Order;
    hide Locks;
    hide Staffed;
    hide Recorded;
    assert Handed(t);
  }

  lemma StaffedEnds(s: State, t: State, w: nat)
    requires Shaped(s) && Staffed(s) && w < |s.ws| && s.ws[w].pc == PASSED_OUT
    requires t.ws == s.ws[w := s.ws[w].(pc := IDLE, todo := s.ws[w].todo - 1)]
    requires t.c.next == s.c.next && t.c.ticket == s.c.ticket
    requires t.h.rank == s.h.rank[s.ws[w].iter := DONE] && t.h.owner == s.h.owner
    requires |t.c.inLock| == |t.c.inPtr| == |t.c.outLock| == |t.c.outPtr| == IOC_SIZE
    ensures Shaped(t) && Staffed(t)
  {
  }

  // The end of an iteration frees its input slot.
  lemma EndKeeps(s: State, w: nat, p: int, len: nat, in0: int, out0: int)
    requires Inv(s, in0, out0) && CanStep(s, w) && s.ws[w].pc == PASSED_OUT
    ensures Inv(Do(s, w, p, len), in0, out0)
  {
    hide Slot;
    hide Recorded;
    hide Handed;
    var i, rank, t := s.ws[w].iter, s.h.rank, Do(s, w, p, len);
    var me := Slot(i);
    assert rank[i] == PASSED_OUT && i < |rank| && s.ws[w].todo > 0;
    SlotsDiffer(i);
    OrderRises(rank, i, DONE);
    LocksGiven(s.c.inLock, rank, i, DONE, me, false);
    LocksSame(s.c.outLock, rank, i, DONE, true);
    StaffedEnds(s, t, w);
    hide Order;
    hide Staffed;
    hide Locks;
    RecordedMoves(s, t, i, in0, out0);
    EndHanded(s, t, w);
  }

  lemma EndHanded(s: State, t: State, w: nat)
    requires Shaped(s) && Shaped(t) && Handed(s) && w < |s.ws| == |t.ws| && t.ws[w].pc == IDLE
    requires t.ws == s.ws[w := t.ws[w]] && t.h.inSet == s.h.inSet && t.h.outSet == s.h.outSet
    ensures Handed(t)
  {
  }

  lemma InitInv(s: State, in0: int, out0: int)
    requires Init(s, in0, out0)
    ensures Inv(s, in0, out0)
  {
  }

  // Every step of every worker keeps the invariant.
  lemma NextKeeps(s: State, t: State, in0: int, out0: int)
    requires Inv(s, in0, out0) && Next(s, t)
    ensures Inv(t, in0, out0)
  {
    var w: nat, p: int, len: nat :| CanStep(s, w) && t == Do(s, w, p, len);
    assert w < |s.ws| && s.ws[w].pc < DONE;
    StepKeeps(s, w, p, len, in0, out0);
  }

  lemma StepKeeps(s: State, w: nat, p: int, len: nat, in0: int, out0: int)
    requires Inv(s, in0, out0) && CanStep(s, w)
    ensures Inv(Do(s, w, p, len), in0, out0)
  {
    assert w < |s.ws| && s.ws[w].pc < DONE;
    var pc := s.ws[w].pc;
    hide Inv;
    hide Do;
    hide CanStep;
    if pc == IDLE { StartKeeps(s, w, p, len, in0, out0); }
    else if pc == TICKET { NumberKeeps(s, w, p, len, in0, out0); }
    else if pc == TAKEN { TakeInputKeeps(s, w, p, len, in0, out0); }
    else if pc == HAVE_IN { TakeNextInputKeeps(s, w, p, len, in0, out0); }
    else if pc == HAVE_IN_NEXT { TakeNextOutputKeeps(s, w, p, len, in0, out0); }
    else if pc == HAVE_OUT_NEXT { GiveTicketKeeps(s, w, p, len, in0, out0); }
    else if pc == RELEASED { ReadInputKeeps(s, w, p, len, in0, out0); }
    else if pc == GOT_IN { WriteInputKeeps(s, w, p, len, in0, out0); }
    else if pc == WROTE_IN { PassInputKeeps(s, w, p, len, in0, out0); }
    else if pc == PASSED_IN { TakeOutputKeeps(s, w, p, len, in0, out0); }
    else if pc == HAVE_OUT { ReadOutputKeeps(s, w, p, len, in0, out0); }
    else if pc == READ_OUT { GiveOutputKeeps(s, w, p, len, in0, out0); }
    else if pc == GOT_OUT { WriteOutputKeeps(s, w, p, len, in0, out0); }
    else if pc == WROTE_OUT { PassOutputKeeps(s, w, p, len, in0, out0); }
    else { EndKeeps(s, w, p, len, in0, out0); }
  }

  // ---- runs ----

  ghost predicate Run(r: seq<State>, in0: int, out0: int)
  {
    r != [] && Init(r[0], in0, out0) && forall k :: 0 <= k < |r| - 1 ==> Next(r[k], r[k + 1])
  }

  lemma {:induction false} RunInv(r: seq<State>, in0: int, out0: int, k: nat)
    requires Run(r, in0, out0) && k < |r|
    ensures Inv(r[k], in0, out0)
  {
    hide Inv;
    if k == 0 {
      InitInv(r[0], in0, out0);
    } else {
      RunInv(r, in0, out0, k - 1);
      assert Next(r[k - 1], r[k - 1 + 1]);
      NextKeeps(r[k - 1], r[k], in0, out0);
    }
  }

  // ---- safety ----

  // Where iteration i's output starts: the first position plus all earlier lengths.
  ghost function Start(out0: int, lens: seq<nat>, i: nat): int
    requires i <= |lens|
  {
    if i == 0 then out0 else Start(out0, lens, i - 1) + lens[i - 1]
  }

  lemma {:induction false} SetIsStart(s: State, in0: int, out0: int, i: nat)
    requires Shaped(s) && Recorded(s, in0, out0) && i < |s.h.outSet|
    ensures s.h.outSet[i] == Start(out0, s.h.lens, i)
  {
    if i > 0 {
      SetIsStart(s, in0, out0, i - 1);
      assert s.h.outSet[i - 1 + 1] == s.h.outSet[i - 1] + s.h.lens[i - 1];
    }
  }

  // In every state of every run, a worker past its ioc_get_in holds the input position
  // that the iteration before it set, and past its ioc_get_out the first output position
  // plus the lengths of all earlier iterations.
  lemma HandedInOrder(r: seq<State>, in0: int, out0: int, k: nat, w: nat)
    requires Run(r, in0, out0) && k < |r| && w < |r[k].ws|
    ensures var s, v := r[k], r[k].ws[w];
            (v.pc >= GOT_IN ==> v.iter < |s.h.inSet| && v.input == s.h.inSet[v.iter]) &&
            (v.pc >= READ_OUT ==> v.iter <= |s.h.lens| && v.output == Start(out0, s.h.lens, v.iter))
  {
    RunInv(r, in0, out0, k);
    var s, v := r[k], r[k].ws[w];
    if v.pc >= READ_OUT {
      assert v.iter < |s.h.outSet|;
      SetIsStart(s, in0, out0, v.iter);
    }
  }

  lemma {:induction false} StartsGrow(out0: int, lens: seq<nat>, i: nat, j: nat)
    requires i < j <= |lens|
    ensures Start(out0, lens, i) + lens[i] <= Start(out0, lens, j)
    decreases j
  {
    if i + 1 < j {
      StartsGrow(out0, lens, i, j - 1);
    }
  }

  // Output regions are contiguous and never overlap.
  lemma RegionsDisjoint(r: seq<State>, in0: int, out0: int, k: nat, i: nat, j: nat)
    requires Run(r, in0, out0) && k < |r| && i < j < |r[k].h.outSet|
    ensures var h := r[k].h;
            i < |h.lens| && h.outSet[i] + h.lens[i] <= h.outSet[j] &&
            h.outSet[i + 1] == h.outSet[i] + h.lens[i]
  {
    RunInv(r, in0, out0, k);
    var s := r[k];
    SetIsStart(s, in0, out0, i);
    SetIsStart(s, in0, out0, j);
    StartsGrow(out0, s.h.lens, i, j);
  }

  lemma SameSlotIsALap(k: nat, i: nat)
    requires k < i && Slot(k) == Slot(i)
    ensures k + IOC_SIZE <= i
  {
    assert k == IOC_SIZE * (k / IOC_SIZE) + Slot(k);
    assert i == IOC_SIZE * (i / IOC_SIZE) + Slot(i);
  }

  // A slot is overwritten only after its previous reader has finished with it.
  lemma NoEarlyOverwrite(r: seq<State>, in0: int, out0: int, k: nat, w: nat, i: nat)
    requires Run(r, in0, out0) && k < |r| && w < |r[k].ws|
    requires r[k].ws[w].pc in {GOT_IN, GOT_OUT}
    requires i <= r[k].ws[w].iter && Slot(i) == Slot(r[k].ws[w].iter + 1)
    ensures i < |r[k].h.rank| && r[k].h.rank[i] == DONE
  {
    RunInv(r, in0, out0, k);
    SameSlotIsALap(i, r[k].ws[w].iter + 1);
  }

  // ---- progress ----

  lemma LockFree(lock: seq<Lock>, rank: seq<nat>, n: nat, out: bool)
    requires Locks(lock, rank, out) && n < IOC_SIZE
    requires forall i: nat :: i < |rank| ==> !Holds(rank, i, n, out)
    ensures lock[n] == Free
  {
    hide Slot;
    var l := lock[n];
    assert l.HeldBy? ==> Holds(rank, l.id, n, out);
  }

  // The oldest unfinished iteration finds its output slot free.
  lemma OldestGetsOutput(rank: seq<nat>, lock: seq<Lock>, m: nat)
    requires Order(rank) && Locks(lock, rank, true) && m < |rank| && rank[m] == PASSED_IN
    requires forall k :: 0 <= k < m ==> rank[k] == DONE
    ensures lock[Slot(m)] == Free
  {
    SlotsDiffer(m);
    forall i: nat | i < |rank|
      ensures !Holds(rank, i, Slot(m), true)
    {
      if i > m && Slot(i + 1) == Slot(m) {
        SameSlotIsALap(m, i + 1);
      }
    }
    LockFree(lock, rank, Slot(m), true);
  }

  // While it is taking its slots it is also the latest, and finds them free.
  lemma OldestGetsSlots(s: State, m: nat)
    requires Shaped(s) && Order(s.h.rank) && m < s.c.next && s.h.rank[m] < HAVE_OUT_NEXT
    requires Locks(s.c.inLock, s.h.rank, false) && Locks(s.c.outLock, s.h.rank, true)
    requires forall k :: 0 <= k < m ==> s.h.rank[k] == DONE
    ensures s.h.rank[m] == TAKEN ==> s.c.inLock[Slot(m)] == Free
    ensures s.h.rank[m] == HAVE_IN ==> s.c.inLock[Slot(m + 1)] == Free
    ensures s.h.rank[m] == HAVE_IN_NEXT ==> s.c.outLock[Slot(m + 1)] == Free
  {
    var rank := s.h.rank;
    assert m + 1 == |rank|;
    SlotsDiffer(m);
    hide Slot;
    if rank[m] == TAKEN {
      LockFree(s.c.inLock, rank, Slot(m), false);
    } else if rank[m] == HAVE_IN {
      LockFree(s.c.inLock, rank, Slot(m + 1), false);
    } else if rank[m] == HAVE_IN_NEXT {
      LockFree(s.c.outLock, rank, Slot(m + 1), true);
    }
  }

  // The oldest unfinished iteration can always take its next step.
  lemma OldestCanStep(s: State, in0: int, out0: int, m: nat)
    requires Inv(s, in0, out0) && m < s.c.next && s.h.rank[m] < DONE
    requires forall k :: 0 <= k < m ==> s.h.rank[k] == DONE
    ensures CanStep(s, s.h.owner[m])
  {
    if s.h.rank[m] < HAVE_OUT_NEXT {
      OldestGetsSlots(s, m);
    } else if s.h.rank[m] == PASSED_IN {
      OldestGetsOutput(s.h.rank, s.c.outLock, m);
    }
    hide Order;
    hide Locks;
    hide Recorded;
    hide Handed;
  }

  lemma {:induction false} Oldest(rank: seq<nat>, i: nat) returns (m: nat)
    requires i < |rank| && rank[i] < DONE && forall k :: 0 <= k < |rank| ==> rank[k] <= DONE
    ensures m <= i && rank[m] < DONE && forall k :: 0 <= k < m ==> rank[k] == DONE
    decreases i
  {
    if k :| 0 <= k < i && rank[k] < DONE {
      m := Oldest(rank, k);
    } else {
      m := i;
    }
  }

  // No deadlock: while any worker has iterations to finish, some worker can step.
  lemma SomebodyCanStep(s: State, in0: int, out0: int, v: nat)
    requires Inv(s, in0, out0) && v < |s.ws|
    ensures s.ws[v].todo > 0 ==> exists w :: CanStep(s, w)
  {
    if i :| 0 <= i < s.c.next && s.h.rank[i] < DONE {
      var m := Oldest(s.h.rank, i);
      OldestCanStep(s, in0, out0, m);
    } else {
      hide Order;
      hide Locks;
      hide Recorded;
      hide Handed;
      if w: nat :| w < |s.ws| && s.c.ticket == HeldBy(w) {
        assert CanStep(s, w);
      } else {
        assert s.c.ticket == Free && s.ws[v].todo > 0 ==> CanStep(s, v);
      }
    }
  }

  // ---- termination ----

  // Steps left, and iterations not yet numbered.
  ghost function StepsLeft(ws: seq<Worker>): int
  {
    if ws == [] then 0 else StepsLeft(ws[..|ws| - 1]) + 16 * ws[|ws| - 1].todo - ws[|ws| - 1].pc
  }

  ghost function Unnumbered(ws: seq<Worker>): int
  {
    if ws == [] then 0
    else Unnumbered(ws[..|ws| - 1]) + ws[|ws| - 1].todo - (if ws[|ws| - 1].pc >= TAKEN then 1 else 0)
  }

  lemma {:induction false} SumsAfter(ws: seq<Worker>, w: nat, k: Worker)
    requires w < |ws|
    ensures StepsLeft(ws[w := k]) == StepsLeft(ws) + 16 * (k.todo - ws[w].todo) - (k.pc - ws[w].pc)
    ensures Unnumbered(ws[w := k]) == Unnumbered(ws) + (k.todo - ws[w].todo)
              - (if k.pc >= TAKEN then 1 else 0) + (if ws[w].pc >= TAKEN then 1 else 0)
    decreases |ws|
  {
    var n := |ws| - 1;
    if w < n {
      assert ws[w := k][..n] == ws[..n][w := k];
      SumsAfter(ws[..n], w, k);
    } else {
      assert ws[w := k][..n] == ws[..n];
    }
  }

  lemma {:induction false} StepsNonNegative(ws: seq<Worker>)
    requires forall w :: 0 <= w < |ws| ==> ws[w].pc < DONE && (ws[w].pc != IDLE ==> ws[w].todo > 0)
    ensures StepsLeft(ws) >= 0
  {
    if ws != [] {
      StepsNonNegative(ws[..|ws| - 1]);
    }
  }

  // Every step uses up the measure; numbering an iteration takes it off those to come.
  lemma StepCounts(s: State, t: State, in0: int, out0: int)
    requires Inv(s, in0, out0) && Next(s, t)
    ensures StepsLeft(t.ws) < StepsLeft(s.ws)
    ensures t.c.next + Unnumbered(t.ws) == s.c.next + Unnumbered(s.ws)
  {
    hide Inv;
    hide Do;
    hide StepsLeft;
    hide Unnumbered;
    var w: nat, p: int, len: nat :| CanStep(s, w) && t == Do(s, w, p, len);
    WorkerCounts(s, w, p, len, in0, out0);
    SumsAfter(s.ws, w, t.ws[w]);
  }

  // What one operation does to the worker that performs it.
  lemma WorkerCounts(s: State, w: nat, p: int, len: nat, in0: int, out0: int)
    requires Inv(s, in0, out0) && CanStep(s, w)
    ensures var t := Do(s, w, p, len);
            w < |s.ws| == |t.ws| && t.ws == s.ws[w := t.ws[w]] &&
            var v, k := s.ws[w], t.ws[w];
            16 * (k.todo - v.todo) < k.pc - v.pc &&
            t.c.next - s.c.next ==
            (if k.pc >= TAKEN then 1 else 0) - (if v.pc >= TAKEN then 1 else 0) - (k.todo - v.todo)
  {
    hide Slot;
    hide Order;
    hide Locks;
    hide Recorded;
    hide Handed;
    assert s.ws[w].pc != IDLE ==> s.ws[w].todo > 0;
  }

  lemma {:induction false} RunCounts(r: seq<State>, in0: int, out0: int, k: nat)
    requires Run(r, in0, out0) && k < |r|
    ensures StepsLeft(r[k].ws) + k <= StepsLeft(r[0].ws)
    ensures r[k].c.next + Unnumbered(r[k].ws) == Unnumbered(r[0].ws)
  {
    hide Inv;
    if k > 0 {
      RunCounts(r, in0, out0, k - 1);
      RunInv(r, in0, out0, k - 1);
      assert Next(r[k - 1], r[k - 1 + 1]);
      StepCounts(r[k - 1], r[k], in0, out0);
    }
  }

  // No run is longer than the work it starts with.
  lemma RunsEnd(r: seq<State>, in0: int, out0: int)
    requires Run(r, in0, out0)
    ensures |r| <= StepsLeft(r[0].ws) + 1
  {
    var last := |r| - 1;
    RunCounts(r, in0, out0, last);
    RunInv(r, in0, out0, last);
    StepsNonNegative(r[last].ws);
  }

  lemma {:induction false} NothingLeft(ws: seq<Worker>)
    requires forall w :: 0 <= w < |ws| ==> ws[w].pc == IDLE && ws[w].todo == 0
    ensures Unnumbered(ws) == 0
  {
    if ws != [] {
      NothingLeft(ws[..|ws| - 1]);
    }
  }

  ghost predicate Stuck(s: State)
    requires Shaped(s)
  {
    forall w: nat :: !CanStep(s, w)
  }

  // A run that cannot go on has finished every iteration of every worker, and numbered
  // exactly as many as the workers were given.
  lemma StuckMeansFinished(r: seq<State>, in0: int, out0: int)
    requires Run(r, in0, out0) && Shaped(r[|r| - 1]) && Stuck(r[|r| - 1])
    ensures var s := r[|r| - 1];
            (forall w :: 0 <= w < |s.ws| ==> s.ws[w].pc == IDLE && s.ws[w].todo == 0) &&
            s.c.next == Unnumbered(r[0].ws) &&
            forall i :: 0 <= i < s.c.next ==> s.h.rank[i] == DONE
  {
    var s := r[|r| - 1];
    RunInv(r, in0, out0, |r| - 1);
    RunCounts(r, in0, out0, |r| - 1);
    hide Order;
    hide Locks;
    hide Recorded;
    hide Handed;
    hide CanStep;
    forall w | 0 <= w < |s.ws|
      ensures s.ws[w].todo == 0 && s.ws[w].pc == IDLE
    {
      SomebodyCanStep(s, in0, out0, w);
    }
    NothingLeft(s.ws);
  }

  // Every run can be continued until all work is done.
  lemma {:induction false} CanFinish(r: seq<State>, in0: int, out0: int) returns (f: seq<State>)
    requires Run(r, in0, out0)
    ensures Run(f, in0, out0) && r <= f
    ensures Shaped(f[|f| - 1]) && Stuck(f[|f| - 1])
    decreases StepsLeft(r[0].ws) - |r|
  {
    hide StepsLeft;
    hide Init;
    hide Order;
    hide Locks;
    hide Recorded;
    hide Handed;
    hide Staffed;
    hide Do;
    var s := r[|r| - 1];
    RunInv(r, in0, out0, |r| - 1);
    f := r;
    if w: nat :| CanStep(s, w) {
      var t := Do(s, w, 0, 0);
      f := r + [t];
      assert Next(s, t);
      Extended(r, t, in0, out0);
      RunsEnd(f, in0, out0);
      f := CanFinish(f, in0, out0);
    }
  }

  lemma Extended(r: seq<State>, t: State, in0: int, out0: int)
    requires Run(r, in0, out0) && Next(r[|r| - 1], t)
    ensures Run(r + [t], in0, out0)
  {
    hide Next;
    hide Init;
    var f := r + [t];
    forall k | 0 <= k < |f| - 1
      ensures Next(f[k], f[k + 1])
    {
      if k + 1 < |r| {
        assert f[k] == r[k] && f[k + 1] == r[k + 1];
        assert Next(r[k], r[k + 1]);
      }
    }
  }
}
