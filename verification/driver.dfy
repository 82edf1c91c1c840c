/** The poll-until-`Ready` driver of the async atoms tests and the tests'
    use of it: a thread-local slot that starts empty, one `HostFuture`
    around a generated async body, and a loop that polls it until it is
    ready. The loop is bounded by `fuel`.
 */
module Driver {
  import opened Cell
  import opened State
  import opened Lexical

  /** How a run ends: the future's output, a panic that escaped `poll`, or
      the fuel ran out with the wrapper in the given state. */
  datatype Outcome<R> = Finished(value: R) | Panicked(cause: Cause) | OutOfFuel(left: HostFuture<R>)

  /** A run's outcome, every address the accessor was handed, and the
      number of polls made. */
  datatype Trace<R> = Trace(outcome: Outcome<R>, seen: seq<Ref>, polls: nat)

  /** The run `t` preceded by `polls` polls that handed out `seen`. */
  function Prepend<R>(seen: seq<Ref>, polls: nat, t: Trace<R>): Trace<R>
  {
    t.(seen := seen + t.seen, polls := polls + t.polls)
  }

  /** The run as a recursion over `HostFuture::poll`: at most `fuel` polls,
      each one made with whatever the previous poll left in the slot. Since
      every poll installs its own address and restores what it found, the
      slot is handed back unchanged from poll to poll. The run stops at the
      first poll that does not return `Pending`; it runs out of fuel only
      after exactly `fuel` polls. */
  function PolledRun<R>(h: HostFuture<R>, slot: Addr, fuel: nat): (t: Trace<R>)
    ensures t.polls <= fuel
    ensures t.outcome.OutOfFuel? ==> t.polls == fuel
    ensures !t.outcome.OutOfFuel? ==> t.polls >= 1
    decreases fuel
  {
    if fuel == 0 then Trace(OutOfFuel(h), [], 0)
    else
      var r := PollHost(h, slot);
      match r.exit
      case Unwound(c) => Trace(Panicked(c), r.seen, 1)
      case Returned(Ready(v)) => Trace(Finished(v), r.seen, 1)
      case Returned(Pending) => Prepend(r.seen, 1, PolledRun(HostFuture(h.ptr, r.rest), r.slot, fuel - 1))
  }

  /** A run does not depend on what the slot held before its first poll. */
  lemma {:induction false} PolledRunIgnoresPriorSlot<R>(h: HostFuture<R>, slot: Addr, other: Addr, fuel: nat)
    ensures PolledRun(h, slot, fuel) == PolledRun(h, other, fuel)
    decreases fuel
  {
    if fuel > 0 {
      var r := PollHost(h, slot);
      if r.exit == Returned(Pending) {
        PolledRunIgnoresPriorSlot(HostFuture(h.ptr, r.rest), slot, other, fuel - 1);
      }
    }
  }

  /** The run in the scoped semantics: at most `fuel` polls, each one a
      scoped resumption with the wrapper's address as environment. It never
      ends because `with` met an empty slot. */
  function ScopedRun<R>(h: HostFuture<R>, fuel: nat): (t: Trace<R>)
    ensures t.outcome != Panicked(EmptySlot)
    ensures PanicFree(h.future) ==> !t.outcome.Panicked?
    decreases fuel
  {
    if fuel == 0 then Trace(OutOfFuel(h), [], 0)
    else
      var q := Scoped(h.future, h.ptr);
      match q.exit
      case Unwound(c) => Trace(Panicked(c), q.seen, 1)
      case Returned(Ready(v)) => Trace(Finished(v), q.seen, 1)
      case Returned(Pending) => Prepend(q.seen, 1, ScopedRun(HostFuture(h.ptr, q.rest), fuel - 1))
  }

  /** For a store-free body, the run through the slot is the scoped run, from
      any slot contents. */
  lemma {:induction false} PolledRunIsScoped<R>(h: HostFuture<R>, slot: Addr, fuel: nat)
    requires StoreFree(h.future)
    ensures PolledRun(h, slot, fuel) == ScopedRun(h, fuel)
    decreases fuel
  {
    if fuel > 0 {
      PollIsScoped(h, slot);
      var q := Scoped(h.future, h.ptr);
      if q.exit == Returned(Pending) {
        PolledRunIsScoped(HostFuture(h.ptr, q.rest), slot, fuel - 1);
      }
    }
  }

  /** `run`: polls `h` until it is ready, for at most `fuel` polls, starting
      from an empty slot. The outcome, the observations and the number of
      polls are those of the recursion over `poll`, for every body. `slots`
      lists the slot's contents after each poll, one entry per poll: all
      empty, however the body used the cell.
      For a store-free body the run is the scoped run: each accessor call saw
      the wrapper that was innermost at that point, and none halted. */
  method Run<R>(h: HostFuture<R>, fuel: nat) returns (outcome: Outcome<R>, seen: seq<Ref>, slots: seq<Addr>)
    ensures Trace(outcome, seen, |slots|) == PolledRun(h, Empty, fuel)
    ensures |slots| <= fuel
    ensures outcome.OutOfFuel? ==> |slots| == fuel
    ensures !outcome.OutOfFuel? ==> |slots| >= 1
    ensures forall i :: 0 <= i < |slots| ==> slots[i] == Empty
    ensures StoreFree(h.future) ==> Trace(outcome, seen, |slots|) == ScopedRun(h, fuel)
  {
    if StoreFree(h.future) {
      PolledRunIsScoped(h, Empty, fuel);
    }
    var slot: Addr := Empty;
    var cur := h;
    seen, slots := [], [];
    while |slots| < fuel
      invariant |slots| <= fuel
      invariant slot == Empty
      invariant forall i :: 0 <= i < |slots| ==> slots[i] == Empty
      invariant PolledRun(h, Empty, fuel) == Prepend(seen, |slots|, PolledRun(cur, slot, fuel - |slots|))
      decreases fuel - |slots|
    {
      var r := PollHost(cur, slot);
      slot := r.slot;
      slots := slots + [slot];
      seen := seen + r.seen;
      match r.exit
      case Unwound(c) =>
        outcome := Panicked(c);
        return;
      case Returned(Ready(v)) =>
        outcome := Finished(v);
        return;
      case Returned(Pending) =>
        cur := HostFuture(cur.ptr, r.rest);
    }
    outcome := OutOfFuel(cur);
  }

  /** A body that calls `with`, suspends, and calls `with` again: the run
      takes two polls, both calls see the wrapper's address, and it
      finishes with the body's output. */
  lemma TwoPollRun<R>(p: Ref, v: R)
    ensures PolledRun(HostFuture(p, Access(Yield(Access(Return(v))))), Empty, 2) == Trace(Finished(v), [p, p], 2)
  {
    assert Resume(Return(v), p) == Step(Returned(Ready(v)), p, Return(v), []);
    assert Resume(Access(Return(v)), p) == Step(Returned(Ready(v)), p, Return(v), [p]);
    assert Resume(Access(Yield(Access(Return(v)))), p) == Step(Returned(Pending), p, Access(Return(v)), [p]);
  }

  /** `IntFloatExercise::test` and `DoubleIntExercise::test`: the generated
      async body calls `with` once to log to the host context and returns.
      Driven from an empty slot, it finishes on the first poll with its
      output, and its one accessor call reached the context, so the
      context's log has exactly one entry. */
  method AtomsExercise<R>(ctx: Ref, output: R) returns (outcome: Outcome<R>, log: seq<Ref>)
    ensures outcome == Finished(output)
    ensures log == [ctx]
  {
    var h := HostFuture(ctx, Access(Return(output)));
    var slots;
    outcome, log, slots := Run(h, 1);
    assert Scoped(h.future, ctx) == Scope(Returned(Ready(output)), Return(output), [ctx]);
    assert ScopedRun(h, 1) == Trace(Finished(output), [ctx], 1);
  }
}
