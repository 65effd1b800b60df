/**
 The slot accounting of TcpClient at the grain of single kernel calls.  Senders, the transmit task,
 the socket callback, the receive task and connection aborts may interleave at any of these points;
 the counters say how many of them are where.
 */
module TcpSlots {
  import opened TcpClient

  // One direction.  Each slot's token is free, or taken and in one of five places.
  datatype Side = Side(
    tokens: nat,      // in the semaphore
    waited: nat,      // token taken, rxCount not yet lowered
    reserved: nat,    // no mail allocated yet
    filling: nat,     // mail allocated, not yet queued
    queued: nat,
    taken: nat,       // mail taken from the queue, not yet freed
    freed: nat,       // mail freed, token not yet given back
    released: nat)    // token given back, rxCount not yet raised

  datatype State = State(tx: Side, rx: Side, rxCount: int)

  datatype Call =
    | Wait | Count | Alloc | AllocFails | Put | Get | Free | Release | CountUp

  // The pool behind a mail queue has TCP_BUFFER_NUM blocks; a block is in use from Alloc to Free.
  predicate PoolFree(s: Side)
  {
    s.filling + s.queued + s.taken < TCP_BUFFER_NUM
  }

  predicate Enabled(s: Side, call: Call)
  {
    match call
    case Wait => s.tokens > 0
    case Count => s.waited > 0
    case Alloc => s.reserved > 0 && PoolFree(s)
    case AllocFails => s.reserved > 0 && !PoolFree(s)
    case Put => s.filling > 0
    case Get => s.queued > 0
    case Free => s.taken > 0
    case Release => s.freed > 0
    case CountUp => s.released > 0
  }

  function After(s: Side, call: Call): Side
    requires Enabled(s, call)
  {
    match call
    case Wait => s.(tokens := s.tokens - 1, waited := s.waited + 1)
    case Count => s.(waited := s.waited - 1, reserved := s.reserved + 1)
    case Alloc => s.(reserved := s.reserved - 1, filling := s.filling + 1)
    case AllocFails => s.(reserved := s.reserved - 1)
    case Put => s.(filling := s.filling - 1, queued := s.queued + 1)
    case Get => s.(queued := s.queued - 1, taken := s.taken + 1)
    case Free => s.(taken := s.taken - 1, freed := s.freed + 1)
    case Release => s.(freed := s.freed - 1, tokens := s.tokens + 1, released := s.released + 1)
    case CountUp => s.(released := s.released - 1)
  }

  datatype Action = Transmit(call: Call) | Receive(call: Call)

  // AllocFails is the NULL branch of the callback, and a sender blocked in osMailAlloc for ever.  On
  // the sending side Count and CountUp stand for the drift of txCount, which decides nothing.
  predicate Can(s: State, a: Action)
  {
    match a
    case Transmit(call) => Enabled(s.tx, call)
    case Receive(call) => Enabled(s.rx, call)
  }

  function Do(s: State, a: Action): State
    requires Can(s, a)
  {
    match a
    case Transmit(call) => s.(tx := After(s.tx, call))
    case Receive(call) =>
      State(s.tx, After(s.rx, call),
            if call.Count? then s.rxCount - 1 else if call.CountUp? then s.rxCount + 1 else s.rxCount)
  }

  predicate PowerUp(s: State)
  {
    AllFree(s.tx) && AllFree(s.rx) && s.rxCount == TCP_BUFFER_NUM
  }

  predicate AllFree(s: Side)
  {
    && s.tokens == TCP_BUFFER_NUM
    && s.waited == 0 && s.reserved == 0 && s.filling == 0 && s.queued == 0
    && s.taken == 0 && s.freed == 0 && s.released == 0
  }

  predicate Possible(s: State, actions: seq<Action>)
    decreases |actions|
  {
    actions == [] || (Can(s, actions[0]) && Possible(Do(s, actions[0]), actions[1..]))
  }

  function DoAll(s: State, actions: seq<Action>): State
    requires Possible(s, actions)
    decreases |actions|
  {
    if actions == [] then s else DoAll(Do(s, actions[0]), actions[1..])
  }

  // Free tokens, and slots in use wherever they are.
  function Slots(s: Side): nat
  {
    s.tokens + s.waited + s.reserved + s.filling + s.queued + s.taken + s.freed
  }

  predicate Conserved(s: State)
  {
    && Slots(s.tx) == TCP_BUFFER_NUM && Slots(s.rx) == TCP_BUFFER_NUM
    && s.rxCount == s.rx.tokens + s.rx.waited - s.rx.released
  }

  // Nobody is between two calls.
  predicate Quiescent(s: Side)
  {
    && s.waited == 0 && s.reserved == 0 && s.filling == 0
    && s.taken == 0 && s.freed == 0 && s.released == 0
  }

  // A task that holds a token always finds a free block.
  lemma AllocSucceeds(s: State)
    requires Conserved(s)
    ensures !Enabled(s.tx, AllocFails) && !Enabled(s.rx, AllocFails)
  {
  }

  lemma StepConserves(s: State, a: Action)
    requires Conserved(s) && Can(s, a)
    ensures Conserved(Do(s, a))
  {
    AllocSucceeds(s);
  }

  lemma {:induction false} RunConserves(s: State, actions: seq<Action>)
    requires Conserved(s) && Possible(s, actions)
    ensures Conserved(DoAll(s, actions))
    decreases |actions|
  {
    if actions != [] {
      StepConserves(s, actions[0]);
      RunConserves(Do(s, actions[0]), actions[1..]);
    }
  }

  // No allocation can fail, and at rest every slot is free or queued.
  predicate Accounted(s: State)
  {
    && !Enabled(s.tx, AllocFails) && !Enabled(s.rx, AllocFails)
    && (Quiescent(s.rx) ==> s.rxCount == s.rx.tokens == TCP_BUFFER_NUM - s.rx.queued)
    && (Quiescent(s.tx) ==> s.tx.tokens == TCP_BUFFER_NUM - s.tx.queued)
  }

  predicate Sound(s: State)
  {
    Conserved(s) && Accounted(s)
  }

  // What power-up leaves is accounted for.
  lemma PowerUpConserved(s: State)
    requires PowerUp(s)
    ensures Conserved(s)
  {
    AllFreeSlots(s.tx);
    AllFreeSlots(s.rx);
  }

  lemma AllFreeSlots(s: Side)
    requires AllFree(s)
    ensures Slots(s) == TCP_BUFFER_NUM
  {
  }

  // Over every interleaving, from any accounted state on: no slot is lost or invented, and no mail allocation
  // fails, so no token is ever dropped; whenever the receive side is at rest rxCount equals its
  // tokens, and every slot is free or holds a queued mail.
  lemma SlotsConserved(initial: State, actions: seq<Action>)
    requires Conserved(initial) && Possible(initial, actions)
    ensures Sound(DoAll(initial, actions))
  {
    RunConserves(initial, actions);
    AtRest(DoAll(initial, actions));
  }

  lemma AtRest(s: State)
    requires Conserved(s)
    ensures Accounted(s)
  {
    AllocSucceeds(s);
  }

  // ----- Everything comes back -----

  // An upper bound of the calls it takes until all slots of a side are free again.
  function Work(s: Side): nat
  {
    7 * s.waited + 6 * s.reserved + 5 * s.filling + 4 * s.queued + 3 * s.taken + 2 * s.freed + s.released
  }

  function AllWork(s: State): nat
  {
    Work(s.tx) + Work(s.rx)
  }

  predicate TakesNone(a: Action)
  {
    !a.call.Wait?
  }

  ghost predicate MayGoOn(s: State)
  {
    exists a :: TakesNone(a) && Can(s, a)
  }

  // From any accounted state, once no new token is taken, the calls under way go on in whatever order,
  // never stuck and each leaving one less to do, until all slots are free as after power-up.
  lemma {:induction false} TokensReturn(s: State, actions: seq<Action>)
    requires Conserved(s) && Possible(s, actions) && forall a :: a in actions ==> TakesNone(a)
    ensures |actions| + AllWork(DoAll(s, actions)) == AllWork(s)
    ensures PowerUp(DoAll(s, actions)) || MayGoOn(DoAll(s, actions))
    decreases |actions|
  {
    if actions == [] {
      CanGoOn(s);
    } else {
      var next := Do(s, actions[0]);
      StepWorks(s, actions[0]);
      TokensReturn(next, actions[1..]);
      assert DoAll(s, actions) == DoAll(next, actions[1..]);
    }
  }

  lemma StepWorks(s: State, a: Action)
    requires Conserved(s) && Can(s, a) && TakesNone(a)
    ensures Conserved(Do(s, a)) && AllWork(Do(s, a)) + 1 == AllWork(s)
  {
    StepConserves(s, a);
    AllocSucceeds(s);
    SideWorks(if a.Transmit? then s.tx else s.rx, a.call);
  }

  lemma SideWorks(s: Side, call: Call)
    requires Enabled(s, call) && !call.Wait? && !call.AllocFails?
    ensures Work(After(s, call)) + 1 == Work(s)
  {
  }

  lemma CanGoOn(s: State)
    requires Conserved(s)
    ensures PowerUp(s) || MayGoOn(s)
  {
    if !AllFree(s.tx) {
      var call := NextCall(s.tx);
      assert TakesNone(Transmit(call)) && Can(s, Transmit(call));
    } else if !AllFree(s.rx) {
      var call := NextCall(s.rx);
      assert TakesNone(Receive(call)) && Can(s, Receive(call));
    }
  }

  lemma NextCall(s: Side) returns (call: Call)
    requires Slots(s) == TCP_BUFFER_NUM && !AllFree(s)
    ensures !call.Wait? && Enabled(s, call)
  {
    call := if s.waited > 0 then Count
            else if s.reserved > 0 then (if PoolFree(s) then Alloc else AllocFails)
            else if s.filling > 0 then Put
            else if s.queued > 0 then Get
            else if s.taken > 0 then Free
            else if s.freed > 0 then Release
            else CountUp;
  }
}
