/** The spin lock of clib/smp.h and clib/smp.c as a transition system.

    A lock is one header word, updated only by compare-and-swap, and n_cpus - 1 waiting
    slots.  One step of a thread performs at most one access to the header or to a slot,
    so a run is any interleaving of such steps: a schedule, the sequence of the threads
    that take them.  Only CLIB_SMP_LOCK_TYPE_SPIN is covered.
 */
module SmpLock {

  /** The header word.  Two headers are equal as words exactly when all fields are. */
  datatype Header = Header(head: nat, nElts: nat, requestCpu: nat, nReaders: nat, writerHasLock: bool)

  datatype WaitType = WaitEmpty | WaitDone | WaitReader | WaitWriter

  /** Where a thread stands; each constructor but Idle and Critical names its next access. */
  datatype Pc =
    | Idle                          // outside lock and unlock
    | LockRead                      // about to read the header
    | LockFast(h0: Header)          // about to swap h0 for a locked header
    | LockSlow(h0: Header)          // about to swap h0 for one with a longer fifo
    | LockRetry(h0: Header)         // queueing failed and the lock looked free: take it
    | AwaitSlot(slot: nat, ticket: nat)          // waiting until the slot is EMPTY
    | ClaimSlot(slot: nat, ticket: nat)          // about to mark the slot WRITER
    | AwaitGrant(slot: nat, ticket: nat)         // waiting until the slot is DONE
    | ReleaseSlot(slot: nat, ticket: nat)        // about to mark the slot EMPTY again
    | Critical                      // lock returned
    | UnlockRead                    // about to read the header
    | UnlockFast(h0: Header)        // about to swap h0 for an unlocked header
    | UnlockSpin(h0: Header)        // waiting until the head slot is not EMPTY
    | UnlockSwap(h0: Header)        // about to swap h0 for one with its head removed
    | Wake(slot: nat)               // about to mark the slot DONE

  /** tickets, served and entered, like the ticket a waiting thread carries,
      are history: the threads in the order of their successful
      tail swaps, how many of them the head has passed, and the threads that have entered
      the critical section from the fifo.  No step depends on them. */
  datatype State = State(
    header: Header, slots: seq<WaitType>, pcs: seq<Pc>,
    tickets: seq<nat>, served: nat, entered: seq<nat>)

  /** clib_smp_lock_init for n cpus, n >= 2. */
  function Init(n: nat): State
    requires n >= 2
  {
    State(Header(0, 0, 0, 0, false), seq(n - 1, _ => WaitEmpty), seq(n, _ => Idle), [], 0, [])
  }

  /** The tail computed from a header: head + n_elts, wrapped once. */
  function TailOf(h: Header, nf: nat): int {
    var t := h.head + h.nElts;
    if t >= nf then t - nf else t
  }

  /** The header an unlocking thread swaps in: the fifo without its head. */
  function AdvanceHead(h: Header, nf: nat, cpu: nat): Header
    requires h.nElts > 0
  {
    h.(head := if h.head + 1 == nf then 0 else h.head + 1, nElts := h.nElts - 1, requestCpu := cpu)
  }

  /** Where clib_smp_lock_inline goes with a header it just saw. */
  function LockWith(h: Header): Pc {
    if h.writerHasLock then LockSlow(h) else LockFast(h)
  }

  function UnlockWith(h: Header): Pc {
    if h.nElts == 0 then UnlockFast(h) else UnlockSpin(h)
  }

  predicate WellFormed(s: State) {
    && |s.pcs| >= 2
    && |s.slots| == |s.pcs| - 1
    && forall t :: 0 <= t < |s.pcs| ==>
         && (s.pcs[t].AwaitSlot? || s.pcs[t].ClaimSlot? || s.pcs[t].AwaitGrant? || s.pcs[t].ReleaseSlot? ||
             s.pcs[t].Wake?
             ==> s.pcs[t].slot < |s.slots|)
         && (s.pcs[t].UnlockSpin? || s.pcs[t].UnlockSwap? ==> s.pcs[t].h0.head < |s.slots| && s.pcs[t].h0.nElts > 0)
         && (s.pcs[t].LockSlow? ==> 0 <= TailOf(s.pcs[t].h0, |s.slots|) < |s.slots|)
  }

  /** One step of thread t. */
  function Step(s: State, t: nat): State
    requires WellFormed(s) && t < |s.pcs|
  {
    var nf := |s.slots|;
    match s.pcs[t]
    case Idle => s.(pcs := s.pcs[t := LockRead])
    case LockRead => s.(pcs := s.pcs[t := LockWith(s.header)])
    case LockFast(h0) =>
      if s.header == h0 then
        s.(header := h0.(requestCpu := t, writerHasLock := true), pcs := s.pcs[t := Critical])
      else
        s.(pcs := s.pcs[t := LockWith(s.header)])
    case LockSlow(h0) =>
      if s.header == h0 then
        s.(header := h0.(nElts := h0.nElts + 1, requestCpu := t),
           pcs := s.pcs[t := AwaitSlot(TailOf(h0, nf), |s.tickets|)],
           tickets := s.tickets + [t])
      else if !s.header.writerHasLock then
        s.(pcs := s.pcs[t := LockRetry(s.header)])
      else
        s.(pcs := s.pcs[t := LockSlow(s.header)])
    case LockRetry(h0) =>
      if s.header == h0 then
        s.(header := h0.(requestCpu := t, writerHasLock := true), pcs := s.pcs[t := Critical])
      else if !s.header.writerHasLock then
        s.(pcs := s.pcs[t := LockRetry(s.header)])
      else
        s.(pcs := s.pcs[t := LockSlow(s.header)])
    case AwaitSlot(slot, j) =>
      if s.slots[slot] == WaitEmpty then s.(pcs := s.pcs[t := ClaimSlot(slot, j)]) else s
    case ClaimSlot(slot, j) =>
      s.(slots := s.slots[slot := WaitWriter], pcs := s.pcs[t := AwaitGrant(slot, j)])
    case AwaitGrant(slot, j) =>
      if s.slots[slot] == WaitDone then s.(pcs := s.pcs[t := ReleaseSlot(slot, j)]) else s
    case ReleaseSlot(slot, j) =>
      s.(slots := s.slots[slot := WaitEmpty], pcs := s.pcs[t := Critical], entered := s.entered + [t])
    case Critical => s.(pcs := s.pcs[t := UnlockRead])
    case UnlockRead => s.(pcs := s.pcs[t := UnlockWith(s.header)])
    case UnlockFast(h0) =>
      if s.header == h0 then
        s.(header := h0.(requestCpu := t, writerHasLock := false), pcs := s.pcs[t := Idle])
      else
        s.(pcs := s.pcs[t := UnlockWith(s.header)])
    case UnlockSpin(h0) =>
      if s.slots[h0.head] == WaitEmpty then s else s.(pcs := s.pcs[t := UnlockSwap(h0)])
    case UnlockSwap(h0) =>
      if s.header == h0 then
        s.(header := AdvanceHead(h0, nf, t), pcs := s.pcs[t := Wake(h0.head)], served := s.served + 1)
      else if s.header.nElts == 0 then
        s.(pcs := s.pcs[t := UnlockRead])
      else
        s.(pcs := s.pcs[t := UnlockSpin(s.header)])
    case Wake(slot) =>
      s.(slots := s.slots[slot := WaitDone], pcs := s.pcs[t := Idle])
  }

  // ---------- What every step keeps ----------

  /** The thread holds the lock and has not yet let go of it. */
  predicate Holding(pc: Pc) {
    pc.Critical? || pc.UnlockRead? || pc.UnlockFast? || pc.UnlockSpin? || pc.UnlockSwap?
  }

  predicate Waiting(pc: Pc) {
    pc.AwaitSlot? || pc.ClaimSlot? || pc.AwaitGrant? || pc.ReleaseSlot?
  }

  /** The head has passed a waiter that has not entered yet: the lock is being handed over. */
  predicate HandOff(s: State) {
    |s.entered| < s.served
  }

  /** Ticket j belongs to a thread still in the fifo or being handed the lock. */
  predicate Active(s: State, j: int) {
    |s.entered| <= j < |s.tickets|
  }

  /** Where ticket j waits: the slots are handed out in turn, round and round. */
  function SlotOf(j: nat, nf: nat): (k: nat)
    requires nf > 0
    ensures k < nf
  {
    if j == 0 then 0
    else if SlotOf(j - 1, nf) + 1 == nf then 0
    else SlotOf(j - 1, nf) + 1
  }

  predicate HistoryOk(s: State) {
    && |s.entered| <= s.served <= |s.entered| + 1
    && s.served <= |s.tickets|
    && s.entered == s.tickets[..|s.entered|]
  }

  /** The header is a function of the history: ticket j waits at slot SlotOf(j). */
  predicate HeaderOk(s: State) {
    && |s.pcs| >= 2
    && |s.slots| == |s.pcs| - 1
    && HistoryOk(s)
    && s.header.head == SlotOf(s.served, |s.slots|)
    && s.header.nElts == |s.tickets| - s.served <= |s.slots|
    && s.header.requestCpu < |s.pcs|
    && s.header.nReaders == 0
    && (!s.header.writerHasLock ==> s.header.nElts == 0)
  }

  /** Active tickets and waiting threads determine each other. */
  ghost predicate TicketsOk(s: State)
    requires |s.slots| > 0
  {
    && (forall t :: 0 <= t < |s.pcs| && Waiting(s.pcs[t]) ==>
          && Active(s, s.pcs[t].ticket)
          && s.tickets[s.pcs[t].ticket] == t
          && s.pcs[t].slot == SlotOf(s.pcs[t].ticket, |s.slots|))
    && (forall j :: Active(s, j) ==>
          && s.tickets[j] < |s.pcs|
          && Waiting(s.pcs[s.tickets[j]])
          && s.pcs[s.tickets[j]].ticket == j)
  }

  /** Some thread has advanced the head but not yet marked the slot DONE. */
  ghost predicate Waking(s: State) {
    exists t :: 0 <= t < |s.pcs| && s.pcs[t].Wake?
  }

  ghost predicate Held(s: State) {
    exists t :: 0 <= t < |s.pcs| && Holding(s.pcs[t])
  }

  /** The previous user of ticket j's slot has not emptied it yet. */
  predicate Blocked(s: State, j: int) {
    j - |s.slots| >= |s.entered|
  }

  /** What the slot of queued ticket j holds. */
  ghost predicate QueuedSlotOk(s: State, j: int)
    requires |s.slots| > 0 && 0 <= j < |s.tickets| && s.tickets[j] < |s.pcs|
  {
    var pc := s.pcs[s.tickets[j]];
    && !pc.ReleaseSlot?
    && (Blocked(s, j) ==> pc.AwaitSlot?)
    && (!Blocked(s, j) ==> s.slots[SlotOf(j, |s.slots|)] == if pc.AwaitGrant? then WaitWriter else WaitEmpty)
  }

  /** What the slot of the waiter being handed the lock holds. */
  ghost predicate GrantedSlotOk(s: State)
    requires |s.slots| > 0 && |s.entered| < |s.tickets| && s.tickets[|s.entered|] < |s.pcs|
  {
    var e := |s.entered|;
    var pc := s.pcs[s.tickets[e]];
    && (pc.AwaitGrant? || pc.ReleaseSlot?)
    && s.slots[SlotOf(e, |s.slots|)] == (if Waking(s) then WaitWriter else WaitDone)
    && (pc.ReleaseSlot? ==> !Waking(s))
  }

  /** Some active ticket uses slot k. */
  ghost predicate InUse(s: State, k: nat)
    requires |s.slots| > 0
  {
    exists j :: Active(s, j) && SlotOf(j, |s.slots|) == k
  }

  ghost predicate SlotsOk(s: State)
    requires |s.slots| > 0
  {
    && (forall j :: Active(s, j) && j >= s.served ==> s.tickets[j] < |s.pcs| && QueuedSlotOk(s, j))
    && (HandOff(s) ==> |s.entered| < |s.tickets| && s.tickets[|s.entered|] < |s.pcs| && GrantedSlotOk(s))
    && (forall k :: 0 <= k < |s.slots| && s.slots[k] != WaitEmpty ==> InUse(s, k))
  }

  ghost predicate OwnersOk(s: State)
    requires |s.slots| > 0
  {
    && (forall t, u :: 0 <= t < |s.pcs| && 0 <= u < |s.pcs| && Holding(s.pcs[t]) && Holding(s.pcs[u]) ==> t == u)
    && (s.header.writerHasLock <==> HandOff(s) || Held(s))
    && (HandOff(s) ==> forall t :: 0 <= t < |s.pcs| ==> !Holding(s.pcs[t]))
    && (forall t :: 0 <= t < |s.pcs| && s.pcs[t].Wake? ==>
        HandOff(s) && s.pcs[t].slot == SlotOf(|s.entered|, |s.slots|))
    && (forall t, u :: 0 <= t < |s.pcs| && 0 <= u < |s.pcs| && s.pcs[t].Wake? && s.pcs[u].Wake? ==> t == u)
  }

  /** What a thread remembers of the header: possibly stale, yet always good enough. */
  predicate MemoryOk(s: State, t: nat)
    requires t < |s.pcs|
  {
    match s.pcs[t]
    case LockFast(h) => !h.writerHasLock && h.nElts == 0 && h.head < |s.slots| && h.nReaders == 0
    case LockRetry(h) => !h.writerHasLock && h.nElts == 0 && h.head < |s.slots| && h.nReaders == 0
    case LockSlow(h) => h.writerHasLock && h.nElts < |s.slots| && h.head < |s.slots| && h.nReaders == 0
    case UnlockFast(h) => h.writerHasLock && h.nElts == 0 && h.head == s.header.head && h.nReaders == 0
    case UnlockSpin(h) => h.writerHasLock && 0 < h.nElts <= s.header.nElts && h.head == s.header.head && h.nReaders == 0
    case UnlockSwap(h) =>
      && h.writerHasLock && 0 < h.nElts <= s.header.nElts && h.head == s.header.head && h.nReaders == 0
      && h.head < |s.slots| && s.slots[h.head] != WaitEmpty
    case _ => true
  }

  ghost predicate Inv(s: State) {
    && HeaderOk(s)
    && TicketsOk(s)
    && SlotsOk(s)
    && OwnersOk(s)
    && forall t :: 0 <= t < |s.pcs| ==> MemoryOk(s, t)
  }

  // ---------- Arithmetic of the circular fifo ----------

  /** k places further along the circle, for k up to once around. */
  lemma {:induction false} SlotAdd(j: nat, k: nat, nf: nat)
    requires nf > 0 && k <= nf
    ensures SlotOf(j + k, nf) == if SlotOf(j, nf) + k >= nf then SlotOf(j, nf) + k - nf else SlotOf(j, nf) + k
  {
    if k > 0 {
      SlotAdd(j, k - 1, nf);
    }
  }

  /** Two tickets at most n_fifo_elts apart share a slot only when equal or exactly that far apart. */
  lemma SlotDistinct(i: nat, j: nat, nf: nat)
    requires nf > 0 && i <= j <= i + nf
    ensures SlotOf(i, nf) == SlotOf(j, nf) <==> i == j || j == i + nf
  {
    SlotAdd(i, j - i, nf);
  }

  /** Distinct numbers below n are at most n many. */
  lemma {:induction false} DistinctBound(q: seq<nat>, n: nat)
    requires forall i :: 0 <= i < |q| ==> q[i] < n
    requires forall i, j :: 0 <= i < j < |q| ==> q[i] != q[j]
    ensures |q| <= n
    decreases n
  {
    if |q| > 0 {
      var last := q[|q| - 1];
      assert n > 0;
      // move n-1 out of the prefix, then drop both
      var p := seq(|q| - 1, i requires 0 <= i < |q| - 1 => if q[i] == n - 1 then last else q[i]);
      DistinctBound(p, n - 1);
    }
  }

  // ---------- The invariant is inductive ----------

  /** An invariant state is one every thread can step in. */
  lemma InvWellFormed(s: State)
    requires Inv(s)
    ensures WellFormed(s)
  {
    forall t | 0 <= t < |s.pcs|
      ensures s.pcs[t].AwaitSlot? || s.pcs[t].ClaimSlot? || s.pcs[t].AwaitGrant? || s.pcs[t].ReleaseSlot? ||
              s.pcs[t].Wake?
              ==> s.pcs[t].slot < |s.slots|
      ensures s.pcs[t].UnlockSpin? || s.pcs[t].UnlockSwap? ==> s.pcs[t].h0.head < |s.slots| && s.pcs[t].h0.nElts > 0
      ensures s.pcs[t].LockSlow? ==> 0 <= TailOf(s.pcs[t].h0, |s.slots|) < |s.slots|
    {
      assert MemoryOk(s, t);
    }
  }

  lemma ActiveTickets(s: State) returns (active: seq<nat>)
    requires HeaderOk(s) && TicketsOk(s)
    ensures |active| == |s.tickets| - |s.entered|
    ensures forall i :: 0 <= i < |active| ==> active[i] < |s.pcs| && Waiting(s.pcs[active[i]])
    ensures forall i, j :: 0 <= j < i < |active| ==> active[j] != active[i]
  {
    var e := |s.entered|;
    active := s.tickets[e..];
    forall i | 0 <= i < |active|
      ensures active[i] < |s.pcs| && Waiting(s.pcs[active[i]])
    {
      assert Active(s, e + i);
    }
    forall i, j | 0 <= j < i < |active| ensures active[j] != active[i] {
      assert Active(s, e + i) && Active(s, e + j);
    }
  }

  /** The active tickets, the owner (if the lock is not being handed over) and one more
      thread outside both are all different. */
  lemma RoomForOneMore(s: State, t: nat)
    requires HeaderOk(s) && TicketsOk(s) && OwnersOk(s) && t < |s.pcs|
    requires !Waiting(s.pcs[t]) && !Holding(s.pcs[t])
    requires s.header.writerHasLock
    ensures s.header.nElts < |s.slots|
  {
    var active := ActiveTickets(s);
    if HandOff(s) {
      AppendDistinct(active, [t], |s.pcs|);
    } else {
      assert Held(s);
      var h :| 0 <= h < |s.pcs| && Holding(s.pcs[h]);
      AppendDistinct(active, [t, h], |s.pcs|);
    }
  }

  lemma AppendDistinct(p: seq<nat>, q: seq<nat>, n: nat)
    requires forall i :: 0 <= i < |p| ==> p[i] < n && p[i] !in q
    requires forall i :: 0 <= i < |q| ==> q[i] < n
    requires forall i, j :: 0 <= j < i < |p| ==> p[j] != p[i]
    requires forall i, j :: 0 <= j < i < |q| ==> q[j] != q[i]
    ensures |p| + |q| <= n
  {
    DistinctBound(p + q, n);
  }

  /** Tickets survive a step of t that neither issues nor retires one. */
  lemma TicketsKept(s: State, s': State, t: nat)
    requires HeaderOk(s) && TicketsOk(s) && HeaderOk(s') && t < |s.pcs| == |s'.pcs|
    requires s'.pcs == s.pcs[t := s'.pcs[t]] && |s'.slots| == |s.slots|
    requires s'.tickets == s.tickets && s'.entered == s.entered
    requires Waiting(s.pcs[t]) == Waiting(s'.pcs[t])
    requires Waiting(s.pcs[t]) ==> s'.pcs[t].slot == s.pcs[t].slot && s'.pcs[t].ticket == s.pcs[t].ticket
    ensures TicketsOk(s')
  {
    assert forall j :: Active(s', j) <==> Active(s, j);
  }

  lemma SameWaking(s: State, s': State, t: nat)
    requires t < |s.pcs| == |s'.pcs| && s'.pcs == s.pcs[t := s'.pcs[t]]
    requires s.pcs[t].Wake? == s'.pcs[t].Wake?
    ensures Waking(s') == Waking(s)
  {
    if Waking(s) { var u :| 0 <= u < |s.pcs| && s.pcs[u].Wake?; assert s'.pcs[u].Wake?; }
    if Waking(s') { var u :| 0 <= u < |s'.pcs| && s'.pcs[u].Wake?; assert s.pcs[u].Wake?; }
  }

  lemma SameHeld(s: State, s': State, t: nat)
    requires t < |s.pcs| == |s'.pcs| && s'.pcs == s.pcs[t := s'.pcs[t]]
    requires Holding(s.pcs[t]) == Holding(s'.pcs[t])
    ensures Held(s') == Held(s)
  {
    if Held(s) { var u :| 0 <= u < |s.pcs| && Holding(s.pcs[u]); assert Holding(s'.pcs[u]); }
    if Held(s') { var u :| 0 <= u < |s'.pcs| && Holding(s'.pcs[u]); assert Holding(s.pcs[u]); }
  }

  /** A step that retires no ticket keeps every slot in use. */
  lemma InUseKept(s: State, s': State)
    requires |s.slots| == |s'.slots| > 0
    requires forall j :: Active(s, j) ==> Active(s', j)
    requires forall k :: 0 <= k < |s.slots| && s.slots[k] != WaitEmpty ==> InUse(s, k)
    ensures forall k ::
              0 <= k < |s'.slots| && (s'.slots[k] == s.slots[k] || s.slots[k] != WaitEmpty) &&
                  s'.slots[k] != WaitEmpty ==>
              InUse(s', k)
  {
    forall k | 0 <= k < |s.slots| && s.slots[k] != WaitEmpty ensures InUse(s', k) {
      assert InUse(s, k);
      var j :| Active(s, j) && SlotOf(j, |s.slots|) == k;
      assert Active(s', j);
    }
  }

  /** Slots survive a step of a thread outside the fifo that writes none. */
  lemma SlotsKept(s: State, s': State, t: nat)
    requires HeaderOk(s) && TicketsOk(s) && SlotsOk(s) && HeaderOk(s') && TicketsOk(s')
    requires t < |s.pcs| == |s'.pcs| && s'.pcs == s.pcs[t := s'.pcs[t]] && s'.slots == s.slots
    requires s'.tickets == s.tickets && s'.entered == s.entered && s'.served == s.served
    requires !Waiting(s.pcs[t]) && s.pcs[t].Wake? == s'.pcs[t].Wake?
    ensures SlotsOk(s')
  {
    assert forall j :: Active(s', j) <==> Active(s, j);
    SameWaking(s, s', t);
    InUseKept(s, s');
  }

  lemma OwnersKept(s: State, s': State, t: nat)
    requires HeaderOk(s) && OwnersOk(s) && HeaderOk(s')
    requires t < |s.pcs| == |s'.pcs| && s'.pcs == s.pcs[t := s'.pcs[t]]
    requires s'.header.writerHasLock == s.header.writerHasLock
    requires s'.entered == s.entered && s'.served == s.served
    requires Holding(s.pcs[t]) == Holding(s'.pcs[t]) && !s.pcs[t].Wake? && !s'.pcs[t].Wake?
    ensures OwnersOk(s')
  {
    SameHeld(s, s', t);
  }

  /** What other threads remember stays good when only t moves and the owner is not misled. */
  lemma MemoryKept(s: State, s': State, t: nat)
    requires HeaderOk(s) && HeaderOk(s') && t < |s.pcs| == |s'.pcs|
    requires forall u :: 0 <= u < |s.pcs| ==> MemoryOk(s, u)
    requires s'.pcs == s.pcs[t := s'.pcs[t]] && |s'.slots| == |s.slots|
    requires forall k :: 0 <= k < |s.slots| && s.slots[k] != WaitEmpty ==> s'.slots[k] != WaitEmpty
    requires s'.header.head == s.header.head && s'.header.nElts >= s.header.nElts
    requires MemoryOk(s', t)
    ensures forall u :: 0 <= u < |s'.pcs| ==> MemoryOk(s', u)
  {
    forall u | 0 <= u < |s'.pcs| ensures MemoryOk(s', u) {
      assert u != t ==> MemoryOk(s, u);
    }
  }

  /** While the lock is free or being handed over nobody remembers a header as its owner. */
  lemma MemoryOfOthers(s: State, s': State, t: nat)
    requires HeaderOk(s) && HeaderOk(s') && t < |s.pcs| == |s'.pcs|
    requires forall u :: 0 <= u < |s.pcs| ==> MemoryOk(s, u)
    requires s'.pcs == s.pcs[t := s'.pcs[t]] && |s'.slots| == |s.slots|
    requires forall u :: 0 <= u < |s.pcs| && u != t ==> !Holding(s.pcs[u])
    requires MemoryOk(s', t)
    ensures forall u :: 0 <= u < |s'.pcs| ==> MemoryOk(s', u)
  {
    forall u | 0 <= u < |s'.pcs| ensures MemoryOk(s', u) {
      assert u != t ==> MemoryOk(s, u);
    }
  }

  /** A step that only moves t between states outside the fifo keeps the invariant. */
  lemma LocalStep(s: State, t: nat, pc: Pc)
    requires Inv(s) && t < |s.pcs|
    requires !Waiting(s.pcs[t]) && !Waiting(pc) && !s.pcs[t].Wake? && !pc.Wake?
    requires Holding(s.pcs[t]) == Holding(pc)
    requires MemoryOk(s.(pcs := s.pcs[t := pc]), t)
    ensures Inv(s.(pcs := s.pcs[t := pc]))
  {
    var s' := s.(pcs := s.pcs[t := pc]);
    TicketsKept(s, s', t);
    SlotsKept(s, s', t);
    OwnersKept(s, s', t);
    MemoryKept(s, s', t);
  }

  /** A header seen by a thread that neither waits nor holds is safe to act on later. */
  lemma ReadIsSafe(s: State, t: nat)
    requires Inv(s) && t < |s.pcs|
    requires !Waiting(s.pcs[t]) && !Holding(s.pcs[t])
    ensures MemoryOk(s.(pcs := s.pcs[t := LockWith(s.header)]), t)
    ensures s.header.writerHasLock ==> MemoryOk(s.(pcs := s.pcs[t := LockSlow(s.header)]), t)
    ensures !s.header.writerHasLock ==> MemoryOk(s.(pcs := s.pcs[t := LockRetry(s.header)]), t)
  {
    if s.header.writerHasLock {
      RoomForOneMore(s, t);
    }
  }

  /** The owner's header differs from the current one at most by a shorter fifo. */
  lemma OwnerMemory(s: State, t: nat)
    requires Inv(s) && t < |s.pcs| && Holding(s.pcs[t])
    ensures s.header.writerHasLock && !HandOff(s)
    ensures MemoryOk(s.(pcs := s.pcs[t := UnlockWith(s.header)]), t)
    ensures s.header.nElts > 0 ==> MemoryOk(s.(pcs := s.pcs[t := UnlockSpin(s.header)]), t)
  {
    assert Held(s);
  }

  /** Nobody holds or is being handed the lock when the header says it is free. */
  lemma FreeMeansFree(s: State)
    requires HeaderOk(s) && OwnersOk(s) && !s.header.writerHasLock
    ensures !HandOff(s) && |s.tickets| == s.served
    ensures forall t :: 0 <= t < |s.pcs| ==> !Holding(s.pcs[t]) && !s.pcs[t].Wake?
  {
    forall t | 0 <= t < |s.pcs| ensures !Holding(s.pcs[t]) && !s.pcs[t].Wake? {
      assert !Held(s);
    }
  }

  /** Taking a free lock. */
  lemma TakeStep(s: State, t: nat)
    requires Inv(s) && t < |s.pcs| && (s.pcs[t].LockFast? || s.pcs[t].LockRetry?) && s.pcs[t].h0 == s.header
    ensures WellFormed(s) && Inv(Step(s, t))
  {
    InvWellFormed(s);
    var s' := Step(s, t);
    assert MemoryOk(s, t);
    FreeMeansFree(s);
    TicketsKept(s, s', t);
    SlotsKept(s, s', t);
    assert Holding(s'.pcs[t]);
    assert Held(s');
    assert OwnersOk(s');
    MemoryKept(s, s', t);
  }

  /** Giving the lock back with nobody queued. */
  lemma FreeStep(s: State, t: nat)
    requires Inv(s) && t < |s.pcs| && s.pcs[t].UnlockFast? && s.pcs[t].h0 == s.header
    ensures WellFormed(s) && Inv(Step(s, t))
  {
    InvWellFormed(s);
    var s' := Step(s, t);
    assert MemoryOk(s, t);
    OwnerMemory(s, t);
    TicketsKept(s, s', t);
    SlotsKept(s, s', t);
    assert !Held(s') by {
      assert forall u :: 0 <= u < |s'.pcs| && u != t ==> s'.pcs[u] == s.pcs[u];
    }
    assert OwnersOk(s');
    MemoryKept(s, s', t);
  }

  /** Two active tickets share a slot only when the older one is being handed the lock. */
  lemma SlotSharing(s: State, i: nat, j: nat)
    requires HeaderOk(s) && Active(s, i) && Active(s, j) && i < j
    ensures SlotOf(i, |s.slots|) == SlotOf(j, |s.slots|) <==> j == i + |s.slots|
    ensures j == i + |s.slots| ==> HandOff(s) && i == |s.entered|
  {
    SlotDistinct(i, j, |s.slots|);
  }

  /** The header with one more waiter matches the history with one more ticket. */
  lemma QueueHeader(s: State, t: nat)
    requires HeaderOk(s) && WellFormed(s) && t < |s.pcs| && s.pcs[t].LockSlow? && MemoryOk(s, t) &&
             s.pcs[t].h0 == s.header
    ensures HeaderOk(Step(s, t))
    ensures Step(s, t).pcs[t] == AwaitSlot(SlotOf(|s.tickets|, |s.slots|), |s.tickets|)
  {
    SlotAdd(s.served, s.header.nElts, |s.slots|);
  }

  /** Joining the fifo: the tail swap issues the next ticket. */
  lemma QueueStep(s: State, t: nat)
    requires Inv(s) && t < |s.pcs| && s.pcs[t].LockSlow? && s.pcs[t].h0 == s.header
    ensures WellFormed(s) && Inv(Step(s, t))
  {
    InvWellFormed(s);
    var s' := Step(s, t);
    QueueHeader(s, t);
    QueueTickets(s, s', t);
    OwnersKept(s, s', t);
    QueueSlots(s, s', t);
    MemoryKept(s, s', t);
  }

  lemma QueueTickets(s: State, s': State, t: nat)
    requires HeaderOk(s) && TicketsOk(s) && HeaderOk(s') && t < |s.pcs| == |s'.pcs|
    requires |s'.slots| == |s.slots| && s'.entered == s.entered && s'.tickets == s.tickets + [t]
    requires !Waiting(s.pcs[t]) && s'.pcs == s.pcs[t := AwaitSlot(SlotOf(|s.tickets|, |s.slots|), |s.tickets|)]
    ensures TicketsOk(s')
  {
    assert forall j :: Active(s', j) <==> Active(s, j) || j == |s.tickets|;
  }

  lemma QueueSlots(s: State, s': State, t: nat)
    requires HeaderOk(s) && TicketsOk(s) && SlotsOk(s) && HeaderOk(s') && TicketsOk(s') && t < |s.pcs|
    requires !Waiting(s.pcs[t]) && !s.pcs[t].Wake?
    requires s' == s.(header := s'.header, tickets := s.tickets + [t],
             pcs := s.pcs[t := AwaitSlot(SlotOf(|s.tickets|, |s.slots|), |s.tickets|)])
    ensures SlotsOk(s')
  {
    var J := |s.tickets|;
    assert forall j :: Active(s', j) <==> Active(s, j) || j == J;
    SameWaking(s, s', t);
    if !Blocked(s', J) && s.slots[SlotOf(J, |s.slots|)] != WaitEmpty {
      assert InUse(s, SlotOf(J, |s.slots|));
      var i :| Active(s, i) && SlotOf(i, |s.slots|) == SlotOf(J, |s.slots|);
      SlotDistinct(i, J, |s.slots|);
    }
    forall j | Active(s', j) && j >= s'.served ensures QueuedSlotOk(s', j) {
      assert j != J ==> QueuedSlotOk(s, j);
    }
    assert HandOff(s') ==> GrantedSlotOk(s');
    InUseKept(s, s');
  }

  /** A waiter that sees its slot EMPTY, or claims it, is past the slot's previous user. */
  lemma ClaimIsSafe(s: State, t: nat, j: nat)
    requires HeaderOk(s) && TicketsOk(s) && SlotsOk(s) && t < |s.pcs|
    requires s.pcs[t].ClaimSlot? || (s.pcs[t].AwaitSlot? && s.slots[s.pcs[t].slot] == WaitEmpty)
    requires Active(s, j) && s.tickets[j] == t
    ensures j >= s.served && !Blocked(s, j) && s.slots[s.pcs[t].slot] == WaitEmpty
  {
    if Blocked(s, j) {
      SlotSharing(s, |s.entered|, j);
    }
  }

  lemma WaiterOwners(s: State, s': State, t: nat)
    requires HeaderOk(s) && OwnersOk(s) && HeaderOk(s') && s'.header == s.header
    requires t < |s.pcs| == |s'.pcs| && s'.pcs == s.pcs[t := s'.pcs[t]] && |s'.slots| == |s.slots|
    requires s'.entered == s.entered && s'.served == s.served
    requires Waiting(s.pcs[t]) && Waiting(s'.pcs[t])
    ensures OwnersOk(s')
  {
    SameHeld(s, s', t);
  }

  /** The waiter saw EMPTY. */
  lemma SeeEmptyStep(s: State, t: nat)
    requires Inv(s) && t < |s.pcs| && s.pcs[t].AwaitSlot? && s.pcs[t].slot < |s.slots| &&
             s.slots[s.pcs[t].slot] == WaitEmpty
    ensures WellFormed(s) && Inv(Step(s, t))
  {
    InvWellFormed(s);
    var s' := Step(s, t);
    var j := s.pcs[t].ticket;
    ClaimIsSafe(s, t, j);
    TicketsKept(s, s', t);
    WaiterOwners(s, s', t);
    SeeEmptySlots(s, s', t, j);
    MemoryKept(s, s', t);
  }

  lemma SeeEmptySlots(s: State, s': State, t: nat, j: nat)
    requires HeaderOk(s) && TicketsOk(s) && SlotsOk(s) && HeaderOk(s') && TicketsOk(s') && t < |s.pcs|
    requires s.pcs[t].AwaitSlot? && s' == s.(pcs := s.pcs[t := ClaimSlot(s.pcs[t].slot, s.pcs[t].ticket)])
    requires Active(s, j) && s.tickets[j] == t && j >= s.served && !Blocked(s, j)
    ensures SlotsOk(s')
  {
    assert forall i :: Active(s', i) <==> Active(s, i);
    SameWaking(s, s', t);
    InUseKept(s, s');
  }

  /** The waiter marks its slot WRITER. */
  lemma ClaimStep(s: State, t: nat)
    requires Inv(s) && t < |s.pcs| && s.pcs[t].ClaimSlot?
    ensures WellFormed(s) && Inv(Step(s, t))
  {
    InvWellFormed(s);
    var s' := Step(s, t);
    var j := s.pcs[t].ticket;
    ClaimIsSafe(s, t, j);
    TicketsKept(s, s', t);
    WaiterOwners(s, s', t);
    ClaimSlots(s, s', t, j);
    MemoryKept(s, s', t);
  }

  lemma ClaimSlots(s: State, s': State, t: nat, j: nat)
    requires HeaderOk(s) && TicketsOk(s) && SlotsOk(s) && HeaderOk(s') && TicketsOk(s') && t < |s.pcs|
    requires s.pcs[t].ClaimSlot? && s.pcs[t].slot == SlotOf(j, |s.slots|)
    requires s' == s.(slots := s.slots[s.pcs[t].slot := WaitWriter],
             pcs := s.pcs[t := AwaitGrant(s.pcs[t].slot, s.pcs[t].ticket)])
    requires Active(s, j) && s.tickets[j] == t && j >= s.served && !Blocked(s, j)
    ensures SlotsOk(s')
  {
    assert forall i :: Active(s', i) <==> Active(s, i);
    SameWaking(s, s', t);
    forall i | Active(s, i) && i != j ensures SlotOf(i, |s.slots|) != SlotOf(j, |s.slots|) {
      if i < j { SlotSharing(s, i, j); } else { SlotSharing(s, j, i); }
    }
    if HandOff(s) {
      assert Active(s, |s.entered|) && GrantedSlotOk(s);
      assert GrantedSlotOk(s');
    }
    forall i | Active(s', i) && i >= s'.served ensures QueuedSlotOk(s', i) {
      assert QueuedSlotOk(s, i);
    }
    InUseKept(s, s');
    assert Active(s', j) && InUse(s', SlotOf(j, |s'.slots|));
  }

  /** Only the waiter at the head, once woken, sees DONE. */
  lemma DoneMeansGranted(s: State, t: nat, j: nat)
    requires HeaderOk(s) && TicketsOk(s) && SlotsOk(s) && t < |s.pcs|
    requires s.pcs[t].ReleaseSlot? || (s.pcs[t].AwaitGrant? && s.slots[s.pcs[t].slot] == WaitDone)
    requires Active(s, j) && s.tickets[j] == t
    ensures HandOff(s) && j == |s.entered| && !Waking(s) && s.slots[s.pcs[t].slot] == WaitDone
  {
    assert j >= s.served ==> QueuedSlotOk(s, j);
  }

  /** The waiter saw DONE. */
  lemma SeeDoneStep(s: State, t: nat)
    requires Inv(s) && t < |s.pcs| && s.pcs[t].AwaitGrant? && s.pcs[t].slot < |s.slots| &&
             s.slots[s.pcs[t].slot] == WaitDone
    ensures WellFormed(s) && Inv(Step(s, t))
  {
    InvWellFormed(s);
    var s' := Step(s, t);
    var j := s.pcs[t].ticket;
    DoneMeansGranted(s, t, j);
    TicketsKept(s, s', t);
    WaiterOwners(s, s', t);
    SeeDoneSlots(s, s', t, j);
    MemoryKept(s, s', t);
  }

  lemma SeeDoneSlots(s: State, s': State, t: nat, j: nat)
    requires HeaderOk(s) && TicketsOk(s) && SlotsOk(s) && HeaderOk(s') && TicketsOk(s') && t < |s.pcs|
    requires s.pcs[t].AwaitGrant? && s' == s.(pcs := s.pcs[t := ReleaseSlot(s.pcs[t].slot, s.pcs[t].ticket)])
    requires Active(s, j) && s.tickets[j] == t && j == |s.entered| && HandOff(s) && !Waking(s)
    ensures SlotsOk(s')
  {
    assert forall i :: Active(s', i) <==> Active(s, i);
    SameWaking(s, s', t);
    InUseKept(s, s');
  }

  /** The woken waiter empties its slot and owns the lock. */
  lemma EnterStep(s: State, t: nat)
    requires Inv(s) && t < |s.pcs| && s.pcs[t].ReleaseSlot?
    ensures WellFormed(s) && Inv(Step(s, t))
  {
    InvWellFormed(s);
    var s' := Step(s, t);
    var j := s.pcs[t].ticket;
    DoneMeansGranted(s, t, j);
    assert HeaderOk(s');
    EnterTickets(s, s', t, j);
    EnterSlots(s, s', t, j);
    assert Holding(s'.pcs[t]);
    assert Held(s');
    assert OwnersOk(s') by {
      forall u | 0 <= u < |s'.pcs| ensures !s'.pcs[u].Wake? {
        assert u != t ==> s'.pcs[u] == s.pcs[u];
      }
    }
    MemoryOfOthers(s, s', t);
  }

  lemma EnterTickets(s: State, s': State, t: nat, j: nat)
    requires HeaderOk(s) && TicketsOk(s) && HeaderOk(s') && t < |s.pcs|
    requires Active(s, j) && s.tickets[j] == t && j == |s.entered|
    requires s'.pcs == s.pcs[t := Critical] && |s'.slots| == |s.slots|
    requires s'.tickets == s.tickets && s'.entered == s.entered + [t]
    ensures TicketsOk(s')
  {
    assert forall i :: Active(s', i) <==> Active(s, i) && i != j;
  }

  lemma EnterSlots(s: State, s': State, t: nat, j: nat)
    requires HeaderOk(s) && TicketsOk(s) && SlotsOk(s) && HeaderOk(s') && TicketsOk(s') && t < |s.pcs|
    requires Active(s, j) && s.tickets[j] == t && j == |s.entered| && HandOff(s)
    requires s' == s.(slots := s.slots[SlotOf(j, |s.slots|) := WaitEmpty], pcs := s.pcs[t := Critical],
             entered := s.entered + [t])
    ensures SlotsOk(s')
  {
    assert forall i :: Active(s', i) <==> Active(s, i) && i != j;
    forall i | Active(s', i)
      ensures !Blocked(s', i)
      ensures SlotOf(i, |s.slots|) == SlotOf(j, |s.slots|) <==> Blocked(s, i)
    {
      SlotSharing(s, j, i);
    }
    forall i | Active(s', i) && i >= s'.served ensures QueuedSlotOk(s', i) {
      assert QueuedSlotOk(s, i);
    }
    forall k | 0 <= k < |s'.slots| && s'.slots[k] != WaitEmpty ensures InUse(s', k) {
      assert InUse(s, k);
      var i :| Active(s, i) && SlotOf(i, |s.slots|) == k;
      assert Active(s', i);
    }
  }

  /** The owner swaps the head out of the fifo: the first waiter becomes the owner. */
  lemma GrantStep(s: State, t: nat)
    requires Inv(s) && t < |s.pcs| && s.pcs[t].UnlockSwap? && s.pcs[t].h0 == s.header
    ensures WellFormed(s) && Inv(Step(s, t))
  {
    InvWellFormed(s);
    var s' := Step(s, t);
    assert MemoryOk(s, t);
    OwnerMemory(s, t);
    var e := |s.entered|;
    assert Active(s, e) && !Blocked(s, e);
    SlotAdd(s.served, 1, |s.slots|);
    assert HeaderOk(s');
    TicketsKept(s, s', t);
    GrantSlots(s, s', t);
    MemoryOfOthers(s, s', t);
  }

  lemma GrantSlots(s: State, s': State, t: nat)
    requires HeaderOk(s) && TicketsOk(s) && SlotsOk(s) && HeaderOk(s') && TicketsOk(s') && t < |s.pcs|
    requires !HandOff(s) && s.header.nElts > 0 && !Waiting(s.pcs[t])
    requires s.slots[SlotOf(s.served, |s.slots|)] != WaitEmpty
    requires s' == s.(header := s'.header, served := s.served + 1, pcs := s.pcs[t := Wake(SlotOf(s.served, |s.slots|))])
    ensures SlotsOk(s') && HandOff(s')
  {
    var e := |s.entered|;
    assert forall i :: Active(s', i) <==> Active(s, i);
    assert Active(s, e) && QueuedSlotOk(s, e);
    assert s'.pcs[t].Wake?;
    assert Waking(s');
    assert GrantedSlotOk(s');
    forall i | Active(s', i) && i >= s'.served ensures QueuedSlotOk(s', i) {
      assert QueuedSlotOk(s, i);
    }
    InUseKept(s, s');
  }

  /** The former owner marks the slot DONE. */
  lemma WakeStep(s: State, t: nat)
    requires Inv(s) && t < |s.pcs| && s.pcs[t].Wake?
    ensures WellFormed(s) && Inv(Step(s, t))
  {
    InvWellFormed(s);
    var s' := Step(s, t);
    TicketsKept(s, s', t);
    SameHeld(s, s', t);
    WakeSlots(s, s', t);
    MemoryKept(s, s', t);
  }

  lemma WakeSlots(s: State, s': State, t: nat)
    requires HeaderOk(s) && TicketsOk(s) && SlotsOk(s) && OwnersOk(s) && HeaderOk(s') && TicketsOk(s')
    requires t < |s.pcs| && s.pcs[t].Wake? && s.pcs[t].slot < |s.slots|
    requires s' == s.(slots := s.slots[s.pcs[t].slot := WaitDone], pcs := s.pcs[t := Idle])
    ensures SlotsOk(s')
  {
    var e := |s.entered|;
    assert Active(s, e);
    assert forall i :: Active(s', i) <==> Active(s, i);
    assert Waking(s);
    assert !Waking(s');
    forall i | Active(s, i) && i != e
      ensures SlotOf(i, |s.slots|) == SlotOf(e, |s.slots|) ==> Blocked(s, i)
    {
      SlotSharing(s, e, i);
    }
    InUseKept(s, s');
  }

  /** The steps of clib_smp_lock. */
  lemma LockStep(s: State, t: nat)
    requires Inv(s) && t < |s.pcs|
    requires s.pcs[t].Idle? || s.pcs[t].LockRead? || s.pcs[t].LockFast? || s.pcs[t].LockSlow? || s.pcs[t].LockRetry?
    ensures WellFormed(s) && Inv(Step(s, t))
  {
    InvWellFormed(s);
    match s.pcs[t]
    case Idle => LocalStep(s, t, LockRead);
    case LockRead => ReadIsSafe(s, t); LocalStep(s, t, LockWith(s.header));
    case LockFast(h0) =>
      if s.header == h0 { TakeStep(s, t); } else { ReadIsSafe(s, t); LocalStep(s, t, LockWith(s.header)); }
    case LockSlow(h0) =>
      if s.header == h0 { QueueStep(s, t); } else { RetryStep(s, t); }
    case LockRetry(h0) =>
      if s.header == h0 { TakeStep(s, t); } else { RetryStep(s, t); }
  }

  lemma RetryStep(s: State, t: nat)
    requires Inv(s) && t < |s.pcs|
    requires s.pcs[t].LockSlow? || s.pcs[t].LockRetry?
    ensures Inv(s.(pcs := s.pcs[t := if s.header.writerHasLock then LockSlow(s.header) else LockRetry(s.header)]))
  {
    ReadIsSafe(s, t);
    LocalStep(s, t, if s.header.writerHasLock then LockSlow(s.header) else LockRetry(s.header));
  }

  /** The steps of clib_smp_unlock. */
  lemma UnlockStep(s: State, t: nat)
    requires Inv(s) && t < |s.pcs| && (Holding(s.pcs[t]) || s.pcs[t].Wake?)
    ensures WellFormed(s) && Inv(Step(s, t))
  {
    InvWellFormed(s);
    assert MemoryOk(s, t);
    match s.pcs[t]
    case Critical => LocalStep(s, t, UnlockRead);
    case UnlockRead => OwnerMemory(s, t); LocalStep(s, t, UnlockWith(s.header));
    case UnlockFast(h0) =>
      if s.header == h0 { FreeStep(s, t); } else { OwnerMemory(s, t); LocalStep(s, t, UnlockWith(s.header)); }
    case UnlockSpin(h0) => if s.slots[h0.head] != WaitEmpty { LocalStep(s, t, UnlockSwap(h0)); }
    case Wake(slot) => WakeStep(s, t);
    case _ => SwapStep(s, t);
  }

  lemma SwapStep(s: State, t: nat)
    requires Inv(s) && t < |s.pcs| && s.pcs[t].UnlockSwap?
    ensures WellFormed(s) && Inv(Step(s, t))
  {
    if s.header == s.pcs[t].h0 {
      GrantStep(s, t);
    } else {
      InvWellFormed(s);
      assert MemoryOk(s, t);
      OwnerMemory(s, t);
      LocalStep(s, t, UnlockSpin(s.header));
    }
  }

  /** Every step of every thread keeps the invariant. */
  lemma InvStep(s: State, t: nat)
    requires Inv(s) && t < |s.pcs|
    ensures WellFormed(s) && Inv(Step(s, t))
  {
    InvWellFormed(s);
    match s.pcs[t]
    case AwaitSlot(slot, j) => if s.slots[slot] == WaitEmpty { SeeEmptyStep(s, t); }
    case ClaimSlot(slot, j) => ClaimStep(s, t);
    case AwaitGrant(slot, j) => if s.slots[slot] == WaitDone { SeeDoneStep(s, t); }
    case ReleaseSlot(slot, j) => EnterStep(s, t);
    case pc => if Holding(pc) || pc.Wake? { UnlockStep(s, t); } else { LockStep(s, t); }
  }

  lemma InvInit(n: nat)
    requires n >= 2
    ensures Inv(Init(n))
  {
  }

  // ---------- Runs ----------

  lemma StepSize(s: State, t: nat)
    requires WellFormed(s) && t < |s.pcs|
    ensures |Step(s, t).pcs| == |s.pcs| && |Step(s, t).slots| == |s.slots|
  {
  }

  /** A schedule names, in order, the threads that take a step. */
  predicate Schedule(n: nat, sched: seq<nat>) {
    forall i :: 0 <= i < |sched| ==> sched[i] < n
  }

  /** The state after a schedule.  A step out of an ill-formed state would be an access
      outside the lock's memory; ReachableInv shows that no run has one. */
  function Run(s: State, sched: seq<nat>): State
    decreases |sched|
  {
    if sched == [] then s
    else Run(if WellFormed(s) && sched[0] < |s.pcs| then Step(s, sched[0]) else s, sched[1..])
  }

  ghost predicate Reachable(s: State, n: nat) {
    n >= 2 && exists sched :: Schedule(n, sched) && s == Run(Init(n), sched)
  }

  lemma {:induction false} RunInv(s: State, sched: seq<nat>)
    requires Inv(s) && Schedule(|s.pcs|, sched)
    ensures Inv(Run(s, sched)) && |Run(s, sched).pcs| == |s.pcs|
    decreases |sched|
  {
    if sched != [] {
      InvStep(s, sched[0]);
      StepSize(s, sched[0]);
      RunInv(Step(s, sched[0]), sched[1..]);
    }
  }

  lemma ReachableInv(s: State, n: nat)
    requires Reachable(s, n)
    ensures Inv(s) && |s.pcs| == n
  {
    var sched :| Schedule(n, sched) && s == Run(Init(n), sched);
    InvInit(n);
    RunInv(Init(n), sched);
  }

  // ---------- Safety ----------

  /** The lock belongs to t: t holds it, or t is the waiter it is being handed to. */
  predicate Owns(s: State, t: nat)
    requires t < |s.pcs|
  {
    || Holding(s.pcs[t])
    || (Waiting(s.pcs[t]) && HandOff(s) && s.pcs[t].ticket == |s.entered|)
  }

  /** Mutual exclusion: at most one owner, and the header bit says whether there is one. */
  lemma MutualExclusion(s: State, n: nat)
    requires Reachable(s, n)
    ensures |s.pcs| == n
    ensures forall t, u :: 0 <= t < n && 0 <= u < n && Owns(s, t) && Owns(s, u) ==> t == u
    ensures s.header.writerHasLock <==> exists t :: 0 <= t < n && Owns(s, t)
  {
    ReachableInv(s, n);
    if HandOff(s) {
      var t := s.tickets[|s.entered|];
      assert Active(s, |s.entered|);
      assert Owns(s, t);
    } else if Held(s) {
      var t :| 0 <= t < |s.pcs| && Holding(s.pcs[t]);
      assert Owns(s, t);
    }
  }

  /** The assertions of the four functions, at the access the thread is about to make. */
  predicate AssertionsHold(s: State, t: nat)
    requires t < |s.pcs|
  {
    match s.pcs[t]
    case LockFast(h0) => h0.nElts == 0
    case LockRetry(h0) => h0.nElts == 0
    case LockSlow(h0) => h0.nElts + 1 <= |s.slots| && 0 <= TailOf(h0, |s.slots|) < |s.slots|
    case UnlockRead => s.header.nReaders == 0 && s.header.writerHasLock
    case UnlockSpin(h0) => h0.nElts != 0 && h0.writerHasLock && h0.head < |s.slots|
    case UnlockSwap(h0) =>
      h0.nElts > 0 && AdvanceHead(h0, |s.slots|, t).head < |s.slots| && AdvanceHead(h0, |s.slots|, t).nElts <= |s.slots|
    case _ => true
  }

  /** No run panics, and up to 65536 cpus no field of the header outgrows its 16 bits. */
  lemma NoPanic(s: State, n: nat, t: nat)
    requires Reachable(s, n) && t < n
    ensures |s.pcs| == n && AssertionsHold(s, t)
    ensures s.header.head < n - 1 && s.header.nElts <= n - 1 && s.header.requestCpu < n && s.header.nReaders == 0
  {
    ReachableInv(s, n);
    assert MemoryOk(s, t);
  }

  /** Waiting threads sit on pairwise distinct slots, but for the waiter being handed the
      lock, whose slot the last thread in a full fifo waits to reuse. */
  lemma DistinctSlots(s: State, n: nat, t: nat, u: nat)
    requires Reachable(s, n) && |s.pcs| == n && t < n && u < n && t != u
    requires Waiting(s.pcs[t]) && Waiting(s.pcs[u]) && s.pcs[t].slot == s.pcs[u].slot
    requires s.pcs[t].ticket < s.pcs[u].ticket
    ensures Owns(s, t) && !Owns(s, u)
    ensures s.pcs[u].AwaitSlot? && s.pcs[u].slot < |s.slots| && s.slots[s.pcs[u].slot] != WaitEmpty
    ensures s.header.nElts == n - 1
  {
    ReachableInv(s, n);
    SlotSharing(s, s.pcs[t].ticket, s.pcs[u].ticket);
    assert QueuedSlotOk(s, s.pcs[u].ticket);
  }

  /** At most one slot at a time is being handed over: one thread may stand between its head
      swap and its DONE mark, and the waiter on that slot is the one that owns the lock. */
  lemma OneHandOff(s: State, n: nat, t: nat)
    requires Reachable(s, n) && |s.pcs| == n && t < n && s.pcs[t].Wake?
    ensures forall u :: 0 <= u < n && s.pcs[u].Wake? ==> u == t
    ensures exists u :: 0 <= u < n && s.pcs[u].AwaitGrant? && s.pcs[u].slot == s.pcs[t].slot && Owns(s, u)
    ensures s.pcs[t].slot < |s.slots| && s.slots[s.pcs[t].slot] == WaitWriter
  {
    ReachableInv(s, n);
    assert Waking(s);
    var u := s.tickets[|s.entered|];
    assert Active(s, |s.entered|) && Owns(s, u);
  }

  /** First come, first served: the threads that went through the fifo entered in the order
      of their tail swaps, and at most one of them is on its way in. */
  lemma FifoOrder(s: State, n: nat)
    requires Reachable(s, n)
    ensures s.entered <= s.tickets
    ensures |s.entered| <= s.served <= |s.entered| + 1
    ensures s.header.nElts == |s.tickets| - s.served
    ensures forall t :: 0 <= t < |s.pcs| && Waiting(s.pcs[t]) ==>
              |s.entered| <= s.pcs[t].ticket < |s.tickets| && s.tickets[s.pcs[t].ticket] == t
  {
    ReachableInv(s, n);
  }

  /** No barging: a step that enters the critical section either finds nobody queued and the
      lock free, or is taken by the thread with the oldest ticket not served before. */
  lemma NoBarging(s: State, n: nat, t: nat)
    requires Reachable(s, n) && |s.pcs| == n && t < n && WellFormed(s)
    requires !s.pcs[t].Critical? && Step(s, t).pcs[t].Critical?
    ensures if Waiting(s.pcs[t]) then s.pcs[t].ticket == |s.entered| && HandOff(s)
            else s.tickets == s.entered && !s.header.writerHasLock
    ensures Step(s, t).header.writerHasLock
  {
    ReachableInv(s, n);
    assert MemoryOk(s, t);
    if s.pcs[t].ReleaseSlot? {
      DoneMeansGranted(s, t, s.pcs[t].ticket);
      assert Owns(s, t);
    } else {
      FreeMeansFree(s);
    }
  }

  // ---------- Progress ----------

  /** Header changes the thread still makes before it is Idle. */
  function Remaining(pc: Pc): nat {
    if pc.Idle? || pc.Wake? then 0
    else if pc.LockRead? || pc.LockFast? || pc.LockSlow? || pc.LockRetry? then 2
    else 1
  }

  /** Steps the thread still makes while the header stays h. */
  function Rank(pc: Pc, h: Header): nat {
    match pc
    case Idle => 0
    case Wake(_) => 1
    case LockRead => 3
    case LockFast(h0) => if h0 == h then 1 else 2
    case LockSlow(h0) => if h0 == h then 1 else 2
    case LockRetry(h0) => if h0 == h then 1 else 2
    case AwaitSlot(_, _) => 10
    case ClaimSlot(_, _) => 9
    case AwaitGrant(_, _) => 8
    case ReleaseSlot(_, _) => 7
    case Critical => 6
    case UnlockRead => 5
    case UnlockFast(h0) => if h0 == h then 1 else 3
    case UnlockSpin(h0) => if h0 == h then 2 else 4
    case UnlockSwap(h0) => if h0 == h then 1 else 3
  }

  function TotalRemaining(pcs: seq<Pc>): nat {
    if pcs == [] then 0 else Remaining(pcs[0]) + TotalRemaining(pcs[1..])
  }

  function TotalRank(pcs: seq<Pc>, h: Header): nat {
    if pcs == [] then 0 else Rank(pcs[0], h) + TotalRank(pcs[1..], h)
  }

  /** A bound on the work left before every thread is Idle again. */
  function Effort(s: State): nat {
    TotalRemaining(s.pcs) * (10 * |s.pcs| + 1) + TotalRank(s.pcs, s.header)
  }

  lemma {:induction false} TotalRemainingUpdate(pcs: seq<Pc>, t: nat, pc: Pc)
    requires t < |pcs|
    ensures TotalRemaining(pcs[t := pc]) + Remaining(pcs[t]) == TotalRemaining(pcs) + Remaining(pc)
  {
    if t > 0 {
      TotalRemainingUpdate(pcs[1..], t - 1, pc);
      assert pcs[t := pc][1..] == pcs[1..][t - 1 := pc];
    } else {
      assert pcs[t := pc][1..] == pcs[1..];
    }
  }

  lemma {:induction false} TotalRankUpdate(pcs: seq<Pc>, t: nat, pc: Pc, h: Header)
    requires t < |pcs|
    ensures TotalRank(pcs[t := pc], h) + Rank(pcs[t], h) == TotalRank(pcs, h) + Rank(pc, h)
  {
    if t > 0 {
      TotalRankUpdate(pcs[1..], t - 1, pc, h);
      assert pcs[t := pc][1..] == pcs[1..][t - 1 := pc];
    } else {
      assert pcs[t := pc][1..] == pcs[1..];
    }
  }

  lemma {:induction false} TotalRankBound(pcs: seq<Pc>, h: Header)
    ensures TotalRank(pcs, h) <= 10 * |pcs|
  {
    if pcs != [] {
      TotalRankBound(pcs[1..], h);
    }
  }

  /** A step of a thread inside lock or unlock spins, changes the header, or gets closer to
      its next header change. */
  lemma StepKinds(s: State, t: nat)
    requires WellFormed(s) && t < |s.pcs| && !s.pcs[t].Idle? && MemoryOk(s, t)
    ensures var s' := Step(s, t);
            || s' == s
            || (s'.pcs == s.pcs[t := s'.pcs[t]] && Remaining(s'.pcs[t]) < Remaining(s.pcs[t]))
            || (s'.pcs == s.pcs[t := s'.pcs[t]] && s'.header == s.header
                && Remaining(s'.pcs[t]) == Remaining(s.pcs[t])
                && Rank(s'.pcs[t], s.header) < Rank(s.pcs[t], s.header))
  {
  }

  /** Fewer header changes left outweigh any number of other steps. */
  lemma EffortCompare(a: nat, b: nat, a': nat, b': nat, k: nat)
    requires b' < k
    requires a' < a || (a' == a && b' < b)
    ensures a' * k + b' < a * k + b
  {
    if a' < a {
      assert (a' + 1) * k <= a * k;
    }
  }

  lemma EffortParts(s: State, t: nat)
    requires Inv(s) && WellFormed(s) && t < |s.pcs| && !s.pcs[t].Idle? && Step(s, t) != s
    ensures var s' := Step(s, t);
            && |s'.pcs| == |s.pcs| && TotalRank(s'.pcs, s'.header) < 10 * |s.pcs| + 1
            && (TotalRemaining(s'.pcs) < TotalRemaining(s.pcs) ||
                (TotalRemaining(s'.pcs) == TotalRemaining(s.pcs) &&
                    TotalRank(s'.pcs, s'.header) < TotalRank(s.pcs, s.header)))
  {
    var s' := Step(s, t);
    assert MemoryOk(s, t);
    StepKinds(s, t);
    TotalRemainingUpdate(s.pcs, t, s'.pcs[t]);
    TotalRankUpdate(s.pcs, t, s'.pcs[t], s.header);
    TotalRankBound(s'.pcs, s'.header);
  }

  /** Every step of a thread inside lock or unlock that is not a spin uses up some effort,
      a failed compare-and-swap included. */
  lemma EffortDecreases(s: State, t: nat)
    requires Inv(s) && WellFormed(s) && t < |s.pcs| && !s.pcs[t].Idle? && Step(s, t) != s
    ensures Effort(Step(s, t)) < Effort(s)
  {
    var s' := Step(s, t);
    EffortParts(s, t);
    EffortCompare(TotalRemaining(s.pcs), TotalRank(s.pcs, s.header),
                  TotalRemaining(s'.pcs), TotalRank(s'.pcs, s'.header), 10 * |s.pcs| + 1);
  }

  /** If the owner waits for the head slot to be claimed, the first waiter can get on with it. */
  lemma DueForOwner(s: State, o: nat) returns (u: nat)
    requires Inv(s) && WellFormed(s) && o < |s.pcs| && Holding(s.pcs[o]) && !s.pcs[o].Critical?
    ensures u < |s.pcs| && !s.pcs[u].Idle? && Step(s, u) != s
  {
    u := o;
    assert MemoryOk(s, o);
    if s.pcs[o].UnlockSpin? && s.slots[s.pcs[o].h0.head] == WaitEmpty {
      OwnerMemory(s, o);
      assert Active(s, s.served) && QueuedSlotOk(s, s.served);
      u := s.tickets[s.served];
    }
  }

  /** The thread whose step is due when nobody is in the critical section but t is on its
      way in or out. */
  lemma DueThread(s: State, t: nat) returns (u: nat)
    requires Inv(s) && WellFormed(s) && t < |s.pcs| && !s.pcs[t].Idle?
    requires forall v :: 0 <= v < |s.pcs| ==> !s.pcs[v].Critical?
    ensures u < |s.pcs| && !s.pcs[u].Idle? && Step(s, u) != s
  {
    if Waking(s) {
      u :| 0 <= u < |s.pcs| && s.pcs[u].Wake?;
    } else if HandOff(s) {
      assert Active(s, |s.entered|);
      u := s.tickets[|s.entered|];
    } else if Held(s) {
      u :| 0 <= u < |s.pcs| && Holding(s.pcs[u]);
      u := DueForOwner(s, u);
    } else {
      u := t;
      assert MemoryOk(s, t);
    }
  }

  lemma SomeStep(s: State, t: nat) returns (u: nat)
    requires Inv(s) && WellFormed(s) && t < |s.pcs| && !s.pcs[t].Idle?
    ensures u < |s.pcs| && !s.pcs[u].Idle? && Step(s, u) != s
  {
    if v :| 0 <= v < |s.pcs| && s.pcs[v].Critical? {
      u := v;
    } else {
      u := DueThread(s, t);
    }
  }

  /** No reachable state is stuck: whenever some thread is inside lock or unlock and none is
      in the critical section, one of the threads inside has a step that is not a spin. */
  lemma NeverStuck(s: State, n: nat, t: nat)
    requires Reachable(s, n) && |s.pcs| == n && t < n && !s.pcs[t].Idle?
    requires forall v :: 0 <= v < n ==> !s.pcs[v].Critical?
    ensures WellFormed(s)
    ensures exists u :: 0 <= u < n && !s.pcs[u].Idle? && Step(s, u) != s
  {
    ReachableInv(s, n);
    InvWellFormed(s);
    var u := DueThread(s, t);
  }

  /** Every step of the schedule continues a call to lock or unlock, or leaves the critical
      section; none starts a new lock call and none spins. */
  predicate Draining(s: State, sched: seq<nat>)
    decreases |sched|
  {
    sched == []
    || (WellFormed(s) && sched[0] < |s.pcs| && !s.pcs[sched[0]].Idle? && Step(s, sched[0]) != s
        && Draining(Step(s, sched[0]), sched[1..]))
  }

  /** With no new calls every run that does not just spin ends within Effort steps. */
  lemma {:induction false} BoundedWork(s: State, sched: seq<nat>)
    requires Inv(s) && Draining(s, sched)
    ensures |sched| <= Effort(s)
    decreases |sched|
  {
    if sched != [] {
      UsefulStep(s, sched[0]);
      BoundedWork(Step(s, sched[0]), sched[1..]);
    }
  }

  predicate AllIdle(s: State) {
    forall t :: 0 <= t < |s.pcs| ==> s.pcs[t].Idle?
  }

  lemma UsefulStep(s: State, u: nat)
    requires Inv(s) && WellFormed(s) && u < |s.pcs| && !s.pcs[u].Idle? && Step(s, u) != s
    ensures Inv(Step(s, u)) && |Step(s, u).pcs| == |s.pcs| && Effort(Step(s, u)) < Effort(s)
  {
    StepSize(s, u);
    EffortDecreases(s, u);
    InvStep(s, u);
  }

  /** Until all are Idle, some thread inside can use up effort. */
  lemma NextStep(s: State) returns (u: nat)
    requires Inv(s) && !AllIdle(s)
    ensures WellFormed(s) && u < |s.pcs| && !s.pcs[u].Idle? && Step(s, u) != s
    ensures Inv(Step(s, u)) && |Step(s, u).pcs| == |s.pcs| && Effort(Step(s, u)) < Effort(s)
  {
    InvWellFormed(s);
    var t :| 0 <= t < |s.pcs| && !s.pcs[t].Idle?;
    u := SomeStep(s, t);
    UsefulStep(s, u);
  }

  lemma RunCons(s: State, u: nat, rest: seq<nat>)
    requires WellFormed(s) && u < |s.pcs| && !s.pcs[u].Idle? && Step(s, u) != s
    requires Draining(Step(s, u), rest)
    ensures Run(s, [u] + rest) == Run(Step(s, u), rest)
    ensures Draining(s, [u] + rest)
  {
    assert ([u] + rest)[0] == u && ([u] + rest)[1..] == rest;
  }

  /** From every reachable state the threads inside can all finish. */
  lemma {:induction false} CanFinish(s: State) returns (sched: seq<nat>)
    requires Inv(s)
    ensures Draining(s, sched)
    ensures |Run(s, sched).pcs| == |s.pcs| && AllIdle(Run(s, sched))
    decreases Effort(s)
  {
    sched := [];
    if !AllIdle(s) {
      var u := NextStep(s);
      var rest := CanFinish(Step(s, u));
      RunCons(s, u, rest);
      sched := [u] + rest;
    }
  }

  /** Nobody starves: every maximal run without new calls that does not just spin is finite
      and leaves every thread Idle, so every waiter has had the lock. */
  lemma NobodyStarves(s: State, n: nat, sched: seq<nat>)
    requires Reachable(s, n) && Draining(s, sched)
    requires forall u :: 0 <= u < n ==> !Draining(s, sched + [u])
    ensures |sched| <= Effort(s)
    ensures |Run(s, sched).pcs| == n && AllIdle(Run(s, sched))
  {
    ReachableInv(s, n);
    BoundedWork(s, sched);
    DrainingInv(s, sched);
    if !AllIdle(Run(s, sched)) {
      var u := NextStep(Run(s, sched));
      DrainingSnoc(s, sched, u);
      assert false;
    }
  }

  lemma {:induction false} DrainingInv(s: State, sched: seq<nat>)
    requires Inv(s) && Draining(s, sched)
    ensures Inv(Run(s, sched)) && |Run(s, sched).pcs| == |s.pcs|
    decreases |sched|
  {
    if sched != [] {
      UsefulStep(s, sched[0]);
      DrainingInv(Step(s, sched[0]), sched[1..]);
    }
  }

  lemma {:induction false} DrainingSnoc(s: State, sched: seq<nat>, u: nat)
    requires Inv(s) && Draining(s, sched)
    requires var r := Run(s, sched); WellFormed(r) && u < |r.pcs| && !r.pcs[u].Idle? && Step(r, u) != r
    ensures Draining(s, sched + [u])
    decreases |sched|
  {
    if sched == [] {
      assert (sched + [u])[1..] == [];
    } else {
      InvStep(s, sched[0]);
      DrainingSnoc(Step(s, sched[0]), sched[1..], u);
      assert (sched + [u])[1..] == sched[1..] + [u];
    }
  }
}
