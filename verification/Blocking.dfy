/** Arbitration of blocking operations, and the futures that grant them. */
module Blocking {
  import opened Bytes
  import opened Storage

  /** What a poll returns. */
  datatype Poll<+T> = Ready(value: T) | Pending

  datatype FutioError = Body(error: BodyError) | OpCanceled

  /** A task context: whom to wake. */
  type Context = nat

  /** The states of a BlockingArbiter: not requested, requested (its Pending), granted once, granted for good. */
  datatype Permission = Void | Requested | Once | Always

  /**
   * A StatefulArbiter starts at Void. A LenientArbiter, which always says
   * yes, is one that stays at Always.
   */
  class Arbiter {
    var state: Permission

    constructor (state: Permission)
      ensures this.state == state
    {
      this.state := state;
    }

    method Set(state: Permission)
      modifies this
      ensures this.state == state
    {
      this.state := state;
    }

    /** Records the request, or uses up a grant. */
    method CanBlock() returns (allowed: bool)
      modifies this
      ensures allowed <==> Allows(old(state))
      ensures state == if allowed then Used(old(state)) else Requested
    {
      match state {
        case Void =>
          state := Requested;
          return false;
        case Requested =>
          return false;
        case Once =>
          state := Void;
          return true;
        case Always =>
          return true;
      }
    }
  }

  predicate Allows(p: Permission) {
    p.Once? || p.Always?
  }

  /** A grant after one operation. */
  function Used(p: Permission): Permission {
    if p.Once? then Void else p
  }

  datatype Grant = Granted | Canceled

  /** What becomes of an operation: it is pending so many times, and then it is granted or canceled. */
  datatype Fate = Fate(pendings: nat, outcome: Grant)

  /**
   * What becomes of each operation that is requested of a semaphore or a
   * dispatch pool, in the order of the requests.
   */
  type Schedule = nat -> Fate

  /** All operations from one to before another are granted. */
  ghost predicate AllGranted(schedule: Schedule, first: nat, end: nat) {
    forall k: nat | first <= k < end :: schedule(k).outcome.Granted?
  }

  ghost predicate CanCancel(schedule: Schedule) {
    exists i: nat :: schedule(i).outcome.Canceled?
  }

  /**
   * The future of a blocking permit or of a dispatched operation. While it is
   * pending it remembers whom to wake; after that it is not polled again.
   */
  datatype Operation = Operation(fate: Fate, waker: Option<Context>)
  {
    method Poll(cx: Context) returns (r: Poll<Grant>, next: Operation)
      ensures fate.pendings > 0 ==> r.Pending? && next == Operation(Nearer(fate), Some(cx))
      ensures fate.pendings == 0 ==> r == Ready(fate.outcome) && next == this
    {
      next := this;
      if fate.pendings > 0 {
        next := Operation(Nearer(fate), Some(cx));
        return Pending, next;
      }
      r := Ready(fate.outcome);
    }
  }

  /** After one poll that was pending. */
  function Nearer(fate: Fate): Fate
    requires fate.pendings > 0
  {
    fate.(pendings := fate.pendings - 1)
  }

  /**
   * What decides a poll: the operation that is outstanding, or if there is
   * none and blocking is needed, the next of the schedule.
   */
  function Deciding(outstanding: Option<Operation>, needed: bool, schedule: Schedule, taken: nat): Option<Fate> {
    if outstanding.Some? then Some(outstanding.value.fate)
    else if needed then Some(schedule(taken))
    else None
  }

  function TakenAfter(outstanding: Option<Operation>, needed: bool, taken: nat): nat {
    if outstanding.None? && needed then taken + 1 else taken
  }

  /** How many operations have come to their end. */
  function Ended(outstanding: Option<Operation>, taken: nat): nat {
    if outstanding.Some? && taken > 0 then taken - 1 else taken
  }

  /** An operation that is outstanding is the last that was taken from the schedule. */
  predicate LastTaken(outstanding: Option<Operation>, schedule: Schedule, taken: nat) {
    outstanding.Some? ==>
      && taken > 0 && outstanding.value.fate.outcome == schedule(taken - 1).outcome
      && outstanding.value.fate.pendings <= schedule(taken - 1).pendings
  }

  /** How long an operation may keep its owner waiting: before it is started, then while it is pending. */
  datatype Wait = Wait(idle: nat, pendings: nat)

  function WaitFor(op: Option<Operation>): Wait {
    if op.None? then Wait(1, 0) else Wait(0, op.value.fate.pendings)
  }

  predicate Shorter(a: Wait, b: Wait) {
    a.idle < b.idle || (a.idle == b.idle && a.pendings < b.pendings)
  }
}
