/** Emulated signal blocking (sigprocmask.c) as a refinement of the machine it stands for: a
  * handler, a blocked bit and a pending bit per signal, and the sequence of deliveries the
  * application sees.
  *
  * The raw signal function has SysV semantics: a caught signal's handler is uninstalled before
  * it is called. It succeeds exactly for the catchable signals. A call and the arrival of a signal
  * are atomic with respect to each other; handlers of the application are recorded, not run.
  */
module SigProcMask {
  import opened Options

  datatype Handler = Default | Ignore | Error | BlockedHandler | App(id: int)

  datatype Delivery = Delivery(sig: nat, handler: Handler)

  datatype Operation = Block | SetMask | Unblock | Other

  // ----- the machine -----------------------------------------------------------------------

  datatype Machine = Machine(handlers: seq<Handler>, blocked: set<nat>, pending: set<nat>, log: seq<Delivery>)

  /** A signal arrives: it becomes pending if blocked, else it is delivered, and a handler of the
    * application is uninstalled.
    */
  function Arrive(m: Machine, sig: nat): (r: Machine)
    requires sig < |m.handlers|
    ensures |r.handlers| == |m.handlers|
  {
    if sig in m.blocked then m.(pending := m.pending + {sig})
    else m.(log := m.log + [Delivery(sig, m.handlers[sig])],
            handlers := if m.handlers[sig].App? then m.handlers[sig := Default] else m.handlers)
  }

  /** The signals of received arrive, in ascending order from from on. */
  function ArriveAll(m: Machine, received: set<nat>, from: nat): (r: Machine)
    requires from <= |m.handlers|
    ensures |r.handlers| == |m.handlers|
    decreases |m.handlers| - from
  {
    if from == |m.handlers| then m
    else ArriveAll(if from in received then Arrive(m, from) else m, received, from + 1)
  }

  function NewBlocked(m: Machine, op: Operation, mask: set<nat>): set<nat> {
    match op
    case Block => m.blocked + mask
    case SetMask => mask
    case Unblock => m.blocked - mask
    case Other => m.blocked
  }

  /** Of the signals wanted blocked, those that are already, or that can be. */
  function Blockable(m: Machine, catchable: set<nat>, wanted: set<nat>): set<nat> {
    set s: nat | s in wanted && (s in m.blocked || (s < |m.handlers| && s in catchable))
  }

  /** The mask is changed; what was pending and is no longer blocked arrives, once. */
  function ChangeMask(m: Machine, catchable: set<nat>, op: Operation, mask: set<nat>): Machine {
    var wanted := NewBlocked(m, op, mask);
    ArriveAll(m.(blocked := Blockable(m, catchable, wanted), pending := m.pending * wanted), m.pending - wanted, 0)
  }

  /** The handler of a signal is set and the previous one returned, blocked or not. */
  function SetHandler(m: Machine, catchable: set<nat>, sig: int, h: Handler): (Handler, Machine) {
    if 0 <= sig < |m.handlers| && sig in catchable && !h.Error?
    then (m.handlers[sig], m.(handlers := m.handlers[sig := h]))
    else (Error, m)
  }

  // ----- the emulation ---------------------------------------------------------------------

  class Emulation {
    const nsig: nat
    const catchable: set<nat>
    var installed: seq<Handler>         // what the system has installed
    var blockedSet: set<nat>
    const pendingArray: array<bool>
    const oldHandlers: array<Handler>
    var log: seq<Delivery>

    /** A blocked signal has blocked_handler installed and its real handler in old_handlers; no
      * other signal has blocked_handler installed or is marked pending.
      */
    ghost predicate Valid()
      reads this, pendingArray, oldHandlers
    {
      && pendingArray.Length == nsig && oldHandlers.Length == nsig && |installed| == nsig
      && (forall s | s in blockedSet :: s < nsig && s in catchable)
      && forall s | 0 <= s < nsig ::
           if s in blockedSet
           then installed[s].BlockedHandler? && IsReal(oldHandlers[s])
           else IsReal(installed[s]) && !pendingArray[s]
    }

    /** The machine the emulation stands for. */
    ghost function Abs(): (m: Machine)
      reads this, pendingArray, oldHandlers
      requires Valid()
      ensures |m.handlers| == nsig
    {
      Machine(
        seq(nsig, s requires 0 <= s < nsig == |installed| && oldHandlers.Length == nsig reads this, oldHandlers =>
          if s in blockedSet then oldHandlers[s] else installed[s]),
        blockedSet,
        (set s: nat | s in blockedSet && pendingArray[s]),
        log)
    }

    constructor (nsig: nat, catchable: set<nat>, initial: seq<Handler>)
      requires |initial| == nsig && forall h | h in initial :: IsReal(h)
      ensures Valid() && fresh(pendingArray) && fresh(oldHandlers)
      ensures this.nsig == nsig && this.catchable == catchable
      ensures Abs() == Machine(initial, {}, {}, [])
    {
      this.nsig := nsig;
      this.catchable := catchable;
      installed := initial;
      blockedSet := {};
      pendingArray := new bool[nsig](_ => false);
      oldHandlers := new Handler[nsig](_ => Default);
      log := [];
    }

    /** The raw signal function. */
    method RawSignal(sig: nat, h: Handler) returns (previous: Handler)
      requires sig < nsig == |installed|
      modifies this`installed
      ensures if sig in catchable then previous == old(installed)[sig] && installed == old(installed)[sig := h]
              else previous == Error && installed == old(installed)
    {
      if sig in catchable {
        previous := installed[sig];
        installed := installed[sig := h];
      } else {
        previous := Error;
      }
    }

    /** blocked_handler: reinstall, and mark the signal pending. */
    method RunBlockedHandler(sig: nat)
      requires sig < nsig == |installed| == pendingArray.Length
      modifies this`installed, pendingArray
      ensures installed == if sig in catchable then old(installed)[sig := BlockedHandler] else old(installed)
      ensures pendingArray[..] == old(pendingArray[..])[sig := true]
    {
      var previous := RawSignal(sig, BlockedHandler);
      pendingArray[sig] := true;
    }

    /** A signal arrives; the system uninstalls a caught signal's handler and calls it. */
    method Raise(sig: nat)
      requires Valid() && sig < nsig
      modifies this`installed, this`log, pendingArray
      ensures Valid() && Abs() == Arrive(old(Abs()), sig)
      ensures sig in blockedSet ==> log == old(log) && sig in Abs().pending && Abs().handlers == old(Abs().handlers)
      ensures sig !in blockedSet ==>
        && log == old(log) + [Delivery(sig, old(installed)[sig])] && Abs().pending == old(Abs().pending)
        && installed[sig] == if old(installed)[sig].App? then Default else old(installed)[sig]
      ensures forall other | 0 <= other < nsig && other != sig ::
        Abs().handlers[other] == old(Abs().handlers[other]) && (other in Abs().pending <==> other in old(Abs().pending))
    {
      ghost var before := Abs();
      if installed[sig].BlockedHandler? {
        installed := installed[sig := Default];
        RunBlockedHandler(sig);
      } else {
        log := log + [Delivery(sig, installed[sig])];
        if installed[sig].App? {
          installed := installed[sig := Default];
        }
      }
      assert Abs().handlers == Arrive(before, sig).handlers;
      assert Abs().pending == Arrive(before, sig).pending;
    }

    /** sigpending. */
    method Sigpending() returns (pending: set<nat>)
      requires Valid()
      ensures pending == Abs().pending
    {
      pending := {};
      for sig := 0 to nsig
        invariant pending == set s: nat | s < sig && s < nsig && pendingArray[s]
      {
        if pendingArray[sig] {
          pending := pending + {sig};
        }
      }
    }

    /** The first loop of sigprocmask: install blocked_handler for what is newly blocked. */
    method BlockLoop(toBlock: set<nat>)
      requires Valid() && toBlock !! blockedSet
      modifies this`installed, this`blockedSet, pendingArray, oldHandlers
      ensures Valid()
      ensures Abs() == old(Abs()).(blocked := old(blockedSet) + set s: nat | s in toBlock && s < nsig && s in catchable)
    {
      ghost var before := Abs();
      for sig := 0 to nsig
        invariant Valid()
        invariant blockedSet == before.blocked + set s: nat | s in toBlock && s < sig && s in catchable
        invariant Abs() == before.(blocked := blockedSet)
      {
        if sig in toBlock {
          label L:
          ghost var m := Abs();
          pendingArray[sig] := false;
          var previous := RawSignal(sig, BlockedHandler);
          oldHandlers[sig] := previous;
          if !oldHandlers[sig].Error? {
            blockedSet := blockedSet + {sig};
          }
          assert Abs().handlers == m.handlers;
          assert Abs().pending == m.pending;
        }
      }
    }

    /** The second loop: restore the handlers of what is unblocked, and note what was pending. */
    method UnblockLoop(toUnblock: set<nat>) returns (received: set<nat>, aborted: bool)
      requires Valid() && toUnblock <= blockedSet
      modifies this`installed, this`blockedSet, pendingArray
      ensures Valid() && !aborted
      ensures received == old(Abs()).pending * toUnblock
      ensures Abs() == old(Abs()).(blocked := old(blockedSet) - toUnblock, pending := old(Abs()).pending - toUnblock)
    {
      ghost var before := Abs();
      received, aborted := {}, false;
      for sig := 0 to nsig
        invariant Valid() && !aborted
        invariant blockedSet == before.blocked - set s: nat | s in toUnblock && s < sig
        invariant received == set s: nat | s in before.pending && s in toUnblock && s < sig
        invariant Abs() == before.(blocked := blockedSet, pending := before.pending * blockedSet)
      {
        if sig in toUnblock {
          ghost var m := Abs();
          assert pendingArray[sig] <==> sig in m.pending;
          assert sig in m.pending <==> sig in before.pending;
          var previous := RawSignal(sig, oldHandlers[sig]);
          if !previous.BlockedHandler? {
            aborted := true;
          }
          if pendingArray[sig] {
            received := received + {sig};
          }
          blockedSet := blockedSet - {sig};
          pendingArray[sig] := false;
          assert Abs().handlers == m.handlers;
          assert Abs().pending == m.pending - {sig};
        }
      }
    }

    /** sigprocmask; without a set it only reports. -1 for an unknown operation, which changes
      * nothing.
      */
    method Sigprocmask(op: Operation, maskArg: Option<set<nat>>) returns (r: int, oldSet: set<nat>, aborted: bool)
      requires Valid()
      modifies this`installed, this`blockedSet, this`log, pendingArray, oldHandlers
      ensures Valid() && !aborted
      ensures oldSet == old(blockedSet)
      ensures r == if maskArg.Some? && op.Other? then -1 else 0
      ensures Abs() == if maskArg.None? || op.Other? then old(Abs())
                       else ChangeMask(old(Abs()), catchable, op, maskArg.value)
      ensures maskArg.None? || op.Other? ==> blockedSet == old(blockedSet) && log == old(log)
      ensures maskArg.Some? && op.Block? ==>
        && log == old(log)
        && forall sig: nat :: sig in blockedSet <==>
             sig in old(blockedSet) || (sig in maskArg.value && sig < nsig && sig in catchable)
      ensures maskArg.Some? && op.Unblock? ==>
        forall sig: nat :: sig in blockedSet <==> sig in old(blockedSet) && sig !in maskArg.value
      ensures maskArg.Some? && op.SetMask? ==>
        forall sig: nat :: sig in blockedSet <==>
          sig in maskArg.value && (sig in old(blockedSet) || (sig < nsig && sig in catchable))
      ensures maskArg.Some? && !op.Other? ==> HasMask(old(Abs()), Abs(), catchable, op, maskArg.value)
    {
      ghost var before := Abs();
      if maskArg.Some? && !op.Other? {
        ChangedMask(before, catchable, op, maskArg.value);
      }
      oldSet := blockedSet;
      aborted := false;
      if maskArg.None? {
        return 0, oldSet, false;
      }
      var mask := maskArg.value;
      var newBlockedSet;
      match op {
        case Block => newBlockedSet := blockedSet + mask;
        case SetMask => newBlockedSet := mask;
        case Unblock => newBlockedSet := blockedSet - mask;
        case Other => return -1, oldSet, false;
      }
      var toUnblock := blockedSet - newBlockedSet;
      var toBlock := newBlockedSet - blockedSet;
      BlockLoop(toBlock);
      var received;
      received, aborted := UnblockLoop(toUnblock);
      ghost var m := Abs();
      assert received == before.pending - newBlockedSet;
      assert m.pending == before.pending * newBlockedSet;
      assert m.blocked == Blockable(before, catchable, newBlockedSet);
      assert ArriveAll(m, received, 0) == ChangeMask(before, catchable, op, mask);
      for sig := 0 to nsig
        invariant Valid()
        invariant ArriveAll(Abs(), received, sig) == ArriveAll(m, received, 0)
      {
        if sig in received {
          Raise(sig);
        }
      }
      return 0, oldSet, aborted;
    }

    /** rpl_signal, for handlers other than the private blocked_handler. The signal numbers it
      * refuses are not catchable.
      */
    method RplSignal(sig: int, h: Handler) returns (previous: Handler)
      requires Valid() && !h.BlockedHandler?
      modifies this`installed, oldHandlers
      ensures Valid()
      ensures (previous, Abs()) == SetHandler(old(Abs()), catchable, sig, h)
    {
      ghost var before := Abs();
      if 0 <= sig < nsig && !h.Error? {
        if sig in blockedSet {
          previous := oldHandlers[sig];
          oldHandlers[sig] := h;
        } else {
          previous := RawSignal(sig, h);
        }
        if sig in catchable {
          assert Abs().handlers == before.handlers[sig := h];
        } else {
          assert Abs().handlers == before.handlers;
        }
        assert Abs().pending == before.pending;
      } else {
        previous := Error;
      }
    }

    /** Whatever is done to the mask, setting the set that was reported restores it. */
    method ChangeAndRestore(op: Operation, mask: set<nat>)
      requires Valid()
      modifies this`installed, this`blockedSet, this`log, pendingArray, oldHandlers
      ensures Valid() && blockedSet == old(blockedSet)
    {
      var _, reported, _ := Sigprocmask(op, Some(mask));
      ghost var between := Abs();
      var _, _, _ := Sigprocmask(SetMask, Some(reported));
      forall sig: nat ensures sig in blockedSet <==> sig in old(blockedSet) {
        assert IsWanted(SetMask, reported, sig, between) <==> sig in reported;
      }
    }

    /** The handler that the application set is the one it is told, however often the signal arrived,
      * as long as it is blocked.
      */
    method QueryAfter(events: seq<Event>, sig: nat, h: Handler, next: Handler) returns (told: Handler)
      requires Valid() && forall e | e in events :: IsApplicationEvent(e) && (e.Handle? ==> e.number != sig)
      requires IsReal(h) && IsReal(next) && !h.Error? && !next.Error?
      requires sig in blockedSet && StaysBlocked(SetHandler(Abs(), catchable, sig, h).1, catchable, events, sig)
      modifies this`installed, this`blockedSet, this`log, pendingArray, oldHandlers
      ensures Valid() && told == h
    {
      var _ := RplSignal(sig, h);
      ghost var start := Abs();
      HandleAll(events);
      BlockedRun(start, catchable, events, sig);
      told := RplSignal(sig, next);
    }

    // ----- runs of the emulation -----------------------------------------------------------

    /** One call or arrival. */
    method Handle(e: Event)
      requires Valid() && IsApplicationEvent(e)
      modifies this`installed, this`blockedSet, this`log, pendingArray, oldHandlers
      ensures Valid() && Abs() == Step(old(Abs()), catchable, e)
    {
      match e {
        case Arrival(sig) =>
          if sig < nsig {
            Raise(sig);
          }
        case Mask(op, mask) =>
          var _, _, _ := Sigprocmask(op, Some(mask));
        case Handle(sig, h) =>
          var _ := RplSignal(sig, h);
      }
    }

    /** Any run of calls and arrivals takes the emulation where it takes the machine. */
    method HandleAll(events: seq<Event>)
      requires Valid() && forall e | e in events :: IsApplicationEvent(e)
      modifies this`installed, this`blockedSet, this`log, pendingArray, oldHandlers
      ensures Valid() && Abs() == Run(old(Abs()), catchable, events)
    {
      ghost var start := Abs();
      for i := 0 to |events|
        invariant Valid() && Abs() == Run(start, catchable, events[..i])
      {
        Handle(events[i]);
        assert events[..i + 1][..i] == events[..i];
      }
      assert events[..|events|] == events;
    }

    /** The emulation delivers a signal exactly once on unblocking, however often it arrived while it
      * was blocked, and not at all if it never arrived.
      */
    method UnblockAfter(events: seq<Event>, sig: nat, op: Operation, mask: set<nat>)
      requires Valid() && forall e | e in events :: IsApplicationEvent(e)
      requires sig in blockedSet && sig !in Abs().pending
      requires StaysBlocked(Abs(), catchable, events, sig)
      requires !op.Other? && sig !in NewBlocked(Run(Abs(), catchable, events), op, mask)
      modifies this`installed, this`blockedSet, this`log, pendingArray, oldHandlers
      ensures Valid() && sig !in blockedSet
      ensures Delivered(log, sig) == Delivered(old(log), sig) + if Arrival(sig) in events then 1 else 0
    {
      ghost var start := Abs();
      HandleAll(events);
      Handle(Mask(op, mask));
      BlockedRun(start, catchable, events, sig);
      ArrivalsWhileBlockedCollapse(start, catchable, events, sig, op, mask);
      ChangeMaskDelivers(Run(start, catchable, events), catchable, op, mask);
      assert (events + [Mask(op, mask)])[..|events|] == events;
    }
  }

  /** The private handler is no application's to install. */
  predicate IsApplicationEvent(e: Event) {
    e.Handle? ==> !e.handler.BlockedHandler?
  }

  /** A handler an application can see. */
  predicate IsReal(h: Handler) {
    !h.Error? && !h.BlockedHandler?
  }

  // ----- what the machine promises ----------------------------------------------------------

  /** The deliveries of the signals of received, in ascending order. */
  function Deliveries(m: Machine, received: set<nat>, from: nat): seq<Delivery>
    requires from <= |m.handlers|
    decreases |m.handlers| - from
  {
    if from == |m.handlers| then []
    else (if from in received then [Delivery(from, m.handlers[from])] else []) + Deliveries(m, received, from + 1)
  }

  lemma DeliveriesDependOnLaterHandlers(m1: Machine, m2: Machine, received: set<nat>, from: nat)
    requires from <= |m1.handlers| == |m2.handlers|
    requires forall s | from <= s < |m1.handlers| :: m1.handlers[s] == m2.handlers[s]
    ensures Deliveries(m1, received, from) == Deliveries(m2, received, from)
    decreases |m1.handlers| - from
  {
  }

  /** Signals that are not blocked and arrive together are each delivered once, to the handler
    * set for them.
    */
  lemma {:induction false} ArriveAllDelivers(m: Machine, received: set<nat>, from: nat)
    requires from <= |m.handlers| && received !! m.blocked
    ensures var r := ArriveAll(m, received, from);
      r.log == m.log + Deliveries(m, received, from) && r.blocked == m.blocked && r.pending == m.pending
    decreases |m.handlers| - from
  {
    if from < |m.handlers| {
      var next := if from in received then Arrive(m, from) else m;
      ArriveAllDelivers(next, received, from + 1);
      DeliveriesDependOnLaterHandlers(m, next, received, from + 1);
    }
  }

  /** Unblocking: each signal that was pending and is no longer blocked is delivered exactly once,
    * in ascending order, to the handler set for it; nothing else is delivered.
    */
  lemma ChangeMaskDelivers(m: Machine, catchable: set<nat>, op: Operation, mask: set<nat>)
    requires m.pending <= m.blocked
    ensures var r := ChangeMask(m, catchable, op, mask);
      var wanted := NewBlocked(m, op, mask);
      && r.log == m.log + Deliveries(m, m.pending - wanted, 0)
      && r.blocked == Blockable(m, catchable, wanted)
      && r.pending == m.pending * wanted
  {
    var wanted := NewBlocked(m, op, mask);
    var next := m.(blocked := Blockable(m, catchable, wanted), pending := m.pending * wanted);
    ArriveAllDelivers(next, m.pending - wanted, 0);
    DeliveriesDependOnLaterHandlers(m, next, m.pending - wanted, 0);
  }

  // ----- whole runs ------------------------------------------------------------------------

  /** The operation asks for the signal to be blocked. */
  predicate IsWanted(op: Operation, mask: set<nat>, sig: nat, m: Machine) {
    (op.Block? && (sig in m.blocked || sig in mask))
    || (op.Unblock? && sig in m.blocked && sig !in mask)
    || (op.SetMask? && sig in mask)
  }

  /** The mask and what follows from it, signal by signal: blocked is what is wanted and was blocked or
    * can be caught; what was pending stays so if wanted, and is delivered otherwise, so blocking
    * delivers nothing.
    */
  ghost predicate HasMask(m: Machine, r: Machine, catchable: set<nat>, op: Operation, mask: set<nat>) {
    && (forall sig: nat :: sig in r.blocked <==>
          IsWanted(op, mask, sig, m) && (sig in m.blocked || (sig < |m.handlers| && sig in catchable)))
    && (forall sig: nat :: sig in r.pending <==> sig in m.pending && IsWanted(op, mask, sig, m))
    && r.log == m.log + Deliveries(m, set sig: nat | sig in m.pending && !IsWanted(op, mask, sig, m), 0)
    && (op.Block? ==> r.log == m.log)
  }

  lemma ChangedMask(m: Machine, catchable: set<nat>, op: Operation, mask: set<nat>)
    requires m.pending <= m.blocked && !op.Other?
    ensures HasMask(m, ChangeMask(m, catchable, op, mask), catchable, op, mask)
  {
    ChangeMaskDelivers(m, catchable, op, mask);
    var wanted := NewBlocked(m, op, mask);
    assert m.pending - wanted == set sig: nat | sig in m.pending && !IsWanted(op, mask, sig, m);
    if op.Block? {
      assert m.pending - wanted == {};
      NoDeliveries(m, 0);
    }
  }

  lemma {:induction false} NoDeliveries(m: Machine, from: nat)
    requires from <= |m.handlers|
    ensures Deliveries(m, {}, from) == []
    decreases |m.handlers| - from
  {
    if from < |m.handlers| {
      NoDeliveries(m, from + 1);
    }
  }

  lemma {:induction false} OtherHandlersStay(m: Machine, received: set<nat>, from: nat, sig: nat)
    requires from <= |m.handlers| && sig < |m.handlers| && sig !in received
    ensures ArriveAll(m, received, from).handlers[sig] == m.handlers[sig]
    decreases |m.handlers| - from
  {
    if from < |m.handlers| {
      OtherHandlersStay(if from in received then Arrive(m, from) else m, received, from + 1, sig);
    }
  }

  datatype Event = Arrival(sig: nat) | Mask(op: Operation, mask: set<nat>) | Handle(number: int, handler: Handler)

  function Step(m: Machine, catchable: set<nat>, e: Event): (r: Machine)
    ensures |r.handlers| == |m.handlers|
  {
    match e
    case Arrival(sig) => if sig < |m.handlers| then Arrive(m, sig) else m
    case Mask(op, mask) => if op.Other? then m else ChangeMask(m, catchable, op, mask)
    case Handle(sig, h) => SetHandler(m, catchable, sig, h).1
  }

  function Run(m: Machine, catchable: set<nat>, events: seq<Event>): (r: Machine)
    ensures |r.handlers| == |m.handlers|
    decreases |events|
  {
    if events == [] then m else Step(Run(m, catchable, events[..|events| - 1]), catchable, events[|events| - 1])
  }

  /** How often a signal was delivered. */
  function Delivered(log: seq<Delivery>, sig: nat): nat {
    if log == [] then 0 else Delivered(log[..|log| - 1], sig) + if log[|log| - 1].sig == sig then 1 else 0
  }

  lemma {:induction false} DeliveredConcat(a: seq<Delivery>, b: seq<Delivery>, sig: nat)
    ensures Delivered(a + b, sig) == Delivered(a, sig) + Delivered(b, sig)
    decreases |b|
  {
    if b == [] {
      assert a + b == a;
    } else {
      assert (a + b)[..|a + b| - 1] == a + b[..|b| - 1];
      DeliveredConcat(a, b[..|b| - 1], sig);
    }
  }

  lemma {:induction false} DeliveredOnce(m: Machine, received: set<nat>, from: nat, sig: nat)
    requires from <= |m.handlers|
    ensures Delivered(Deliveries(m, received, from), sig) ==
      if from <= sig < |m.handlers| && sig in received then 1 else 0
    decreases |m.handlers| - from
  {
    if from < |m.handlers| {
      var first := if from in received then [Delivery(from, m.handlers[from])] else [];
      DeliveredOnce(m, received, from + 1, sig);
      DeliveredConcat(first, Deliveries(m, received, from + 1), sig);
      if from in received {
        assert first[..0] == [];
      }
    }
  }

  /** The event leaves the signal blocked. */
  predicate KeepsBlocked(m: Machine, e: Event, sig: nat) {
    e.Mask? && !e.op.Other? ==> sig in NewBlocked(m, e.op, e.mask)
  }

  ghost predicate StaysBlocked(m: Machine, catchable: set<nat>, events: seq<Event>, sig: nat) {
    forall i | 0 <= i < |events| :: KeepsBlocked(Run(m, catchable, events[..i]), events[i], sig)
  }

  /** Over any run of calls and arrivals that leaves a signal blocked, the signal is not delivered,
    * and it is pending at the end exactly if it was at the start or arrived at least once; it keeps
    * its handler unless another one is set.
    */
  lemma {:induction false} BlockedRun(m: Machine, catchable: set<nat>, events: seq<Event>, sig: nat)
    requires m.pending <= m.blocked && sig in m.blocked && sig < |m.handlers|
    requires StaysBlocked(m, catchable, events, sig)
    ensures var r := Run(m, catchable, events);
      && r.pending <= r.blocked && sig in r.blocked
      && Delivered(r.log, sig) == Delivered(m.log, sig)
      && (sig in r.pending <==> sig in m.pending || Arrival(sig) in events)
      && ((forall e | e in events :: e.Handle? ==> e.number != sig) ==> r.handlers[sig] == m.handlers[sig])
    decreases |events|
  {
    if events != [] {
      var n := |events| - 1;
      var init, e := events[..n], events[n];
      forall i | 0 <= i < n ensures KeepsBlocked(Run(m, catchable, init[..i]), init[i], sig) {
        assert init[..i] == events[..i];
      }
      BlockedRun(m, catchable, init, sig);
      assert events == init + [e];
      BlockedStep(Run(m, catchable, init), catchable, e, sig);
    }
  }

  lemma BlockedStep(m: Machine, catchable: set<nat>, e: Event, sig: nat)
    requires m.pending <= m.blocked && sig in m.blocked && sig < |m.handlers|
    requires KeepsBlocked(m, e, sig)
    ensures var r := Step(m, catchable, e);
      && r.pending <= r.blocked && sig in r.blocked
      && Delivered(r.log, sig) == Delivered(m.log, sig)
      && (sig in r.pending <==> sig in m.pending || e == Arrival(sig))
      && ((e.Handle? ==> e.number != sig) ==> r.handlers[sig] == m.handlers[sig])
  {
    match e
    case Arrival(other) =>
      if other < |m.handlers| && other !in m.blocked {
        DeliveredConcat(m.log, [Delivery(other, m.handlers[other])], sig);
        assert [Delivery(other, m.handlers[other])][..0] == [];
      }
    case Mask(op, mask) =>
      if !op.Other? {
        ChangeMaskDelivers(m, catchable, op, mask);
        var received := m.pending - NewBlocked(m, op, mask);
        DeliveredConcat(m.log, Deliveries(m, received, 0), sig);
        DeliveredOnce(m, received, 0, sig);
        OtherHandlersStay(m.(blocked := Blockable(m, catchable, NewBlocked(m, op, mask)),
                             pending := m.pending * NewBlocked(m, op, mask)), received, 0, sig);
      }
    case Handle(_, _) =>
  }

  /** However often a signal arrives while it is blocked, unblocking it delivers it exactly once;
    * if it never arrived, not at all.
    */
  lemma ArrivalsWhileBlockedCollapse(m: Machine, catchable: set<nat>, events: seq<Event>, sig: nat, op: Operation,
                                     mask: set<nat>)
    requires m.pending <= m.blocked && sig in m.blocked && sig !in m.pending && sig < |m.handlers|
    requires StaysBlocked(m, catchable, events, sig)
    requires !op.Other? && sig !in NewBlocked(Run(m, catchable, events), op, mask)
    ensures Delivered(Run(m, catchable, events + [Mask(op, mask)]).log, sig)
      == Delivered(m.log, sig) + if Arrival(sig) in events then 1 else 0
  {
    BlockedRun(m, catchable, events, sig);
    var r := Run(m, catchable, events);
    assert (events + [Mask(op, mask)])[..|events|] == events;
    ChangeMaskDelivers(r, catchable, op, mask);
    var received := r.pending - NewBlocked(r, op, mask);
    DeliveredConcat(r.log, Deliveries(r, received, 0), sig);
    DeliveredOnce(r, received, 0, sig);
  }
}
