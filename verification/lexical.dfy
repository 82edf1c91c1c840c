/** Installations as a logical stack.

    `Scoped` is a second semantics of the same scripts in which there is no
    slot at all: the state an accessor sees is simply the address of the
    innermost enclosing `HostFuture`, passed down as an environment. The
    lemmas here show that, for bodies that never write the cell directly,
    the install/restore discipline of `HostFuture::poll` yields exactly
    this stack discipline, at any nesting depth and whatever the slot held
    before the poll.
 */
module Lexical {
  import opened Cell
  import opened State

  /** One resumption in the scoped semantics: no slot to report. */
  datatype Scope<R> = Scope(exit: Exit<R>, rest: Script<R>, seen: seq<Ref>)

  /** Resumes `s` once, with `env` the address of the innermost enclosing
      wrapper. A direct write to the cell has no place in this semantics and
      is passed over. */
  function Scoped<R>(s: Script<R>, env: Ref): (r: Scope<R>)
    ensures StoreFree(s) ==> StoreFree(r.rest)
    ensures r.exit != Unwound(EmptySlot)
    ensures PanicFree(s) ==> r.exit.Returned? && PanicFree(r.rest)
    decreases s
  {
    match s
    case Return(v) => Scope(Returned(Ready(v)), s, [])
    case Access(next) =>
      var q := Scoped(next, env);
      q.(seen := [env] + q.seen)
    case Store(_, next) => Scoped(next, env)
    case Yield(next) => Scope(Returned(Pending), next, [])
    case Panic => Scope(Unwound(BodyPanic), Panic, [])
    case Await(h, next) =>
      var n := Scoped(h.future, h.ptr);
      (match n.exit
       case Unwound(_) => Scope(n.exit, Panic, n.seen)
       case Returned(Pending) => Scope(Returned(Pending), Await(HostFuture(h.ptr, n.rest), next), n.seen)
       case Returned(Ready(_)) =>
         var q := Scoped(next, env);
         q.(seen := n.seen + q.seen))
    case PollOnce(h, next) =>
      var n := Scoped(h.future, h.ptr);
      if n.exit.Unwound? then Scope(n.exit, Panic, n.seen)
      else
        var q := Scoped(next, env);
        q.(seen := n.seen + q.seen)
  }

  /** A resumption of a store-free body that starts with `p` installed
      behaves as the scoped semantics with environment `p`, and leaves `p`
      in the slot. */
  lemma {:induction false} ResumeIsScoped<R>(s: Script<R>, p: Ref)
    requires StoreFree(s)
    ensures Resume(s, p) == Step(Scoped(s, p).exit, p, Scoped(s, p).rest, Scoped(s, p).seen)
    decreases s
  {
    match s
    case Return(_) =>
    case Access(next) =>
      ResumeIsScoped(next, p);
    case Store(_, _) =>
    case Yield(_) =>
    case Panic =>
    case Await(h, next) =>
      PollIsScoped(h, p);
      ResumeIsScoped(next, p);
    case PollOnce(h, next) =>
      PollIsScoped(h, p);
      ResumeIsScoped(next, p);
  }

  /** Polling a wrapper whose body is store-free, from any slot contents
      (empty included), is the scoped resumption of its body with the
      wrapper's own address as environment; the slot is unchanged. */
  lemma {:induction false} PollIsScoped<R>(h: HostFuture<R>, slot: Addr)
    requires StoreFree(h.future)
    ensures PollHost(h, slot)
         == Step(Scoped(h.future, h.ptr).exit, slot, Scoped(h.future, h.ptr).rest, Scoped(h.future, h.ptr).seen)
    decreases h
  {
    ResumeIsScoped(h.future, h.ptr);
  }

  /** Inside a wrapper's poll the accessor never meets an empty slot: a
      store-free body never unwinds because `with`'s assertion failed, even
      when the slot was empty before the poll, and one that does not panic
      by itself returns from every poll. */
  lemma AccessorNeverHaltsInsideWrapper<R>(h: HostFuture<R>, slot: Addr)
    requires StoreFree(h.future)
    ensures PollHost(h, slot).exit != Unwound(EmptySlot)
    ensures PanicFree(h.future) ==> PollHost(h, slot).exit.Returned?
  {
    PollIsScoped(h, slot);
  }

  /** Outside any wrapper the slot is empty and the first accessor call
      halts; the slot stays empty. */
  lemma AccessOutsideWrapperHalts<R>(next: Script<R>)
    ensures Resume(Access(next), Empty) == Step(Unwound(EmptySlot), Empty, Panic, [])
  {
  }

  /** One level of nesting, for any nested wrapper (its body may even write
      the cell): the nested body runs with the nested address installed, and
      when it completes, the rest of the outer step runs with the outer
      address visible again. When it suspends or unwinds, so does the outer
      step, with the outer address back in the slot. */
  lemma NestedPollIsLifo<R>(p: Ref, h: HostFuture<R>, next: Script<R>)
    ensures var n := Resume(h.future, h.ptr);
            n.exit == Returned(Pending) ==>
              Resume(Await(h, next), p) == Step(Returned(Pending), p, Await(HostFuture(h.ptr, n.rest), next), n.seen)
    ensures var n := Resume(h.future, h.ptr);
            n.exit.Returned? && n.exit.poll.Ready? ==>
              Resume(Await(h, next), p) == After(n.seen, Resume(next, p))
    ensures var n := Resume(h.future, h.ptr);
            n.exit.Unwound? ==>
              Resume(Await(h, next), p) == Step(n.exit, p, Panic, n.seen)
  {
  }

  /** Restoration on the unwinding path: a body that empties the cell and
      then calls `with` trips the accessor's assertion, and the `Reset`
      guard still puts back whatever the slot held before the poll. */
  lemma UnwindStillRestores<R>(p: Ref, next: Script<R>, slot: Addr)
    ensures PollHost(HostFuture(p, Store(Empty, Access(next))), slot) == Step(Unwound(EmptySlot), slot, Panic, [])
  {
    assert Resume(Access(next), Empty) == Step(Unwound(EmptySlot), Empty, Panic, []);
    assert Resume(Store(Empty, Access(next)), p) == Step(Unwound(EmptySlot), Empty, Panic, []);
  }

  /** Two wrappers on one slot, distinct addresses: the nested body's
      accessor call sees the nested address, the outer body's call after the
      nested wrapper completes sees the outer address again, and the slot is
      as empty afterwards as before. */
  lemma NestedScenario<R>(outer: Ref, inner: Ref, v: R)
    ensures PollHost(HostFuture(outer, Await(HostFuture(inner, Access(Return(v))), Access(Return(v)))), Empty)
         == Step(Returned(Ready(v)), Empty, Return(v), [inner, outer])
  {
    var body := Access(Return(v));
    assert Resume(Return(v), inner) == Step(Returned(Ready(v)), inner, Return(v), []);
    assert Resume(body, inner) == Step(Returned(Ready(v)), inner, Return(v), [inner]);
    assert PollHost(HostFuture(inner, body), outer) == Step(Returned(Ready(v)), outer, Return(v), [inner]);
    assert Resume(Return(v), outer) == Step(Returned(Ready(v)), outer, Return(v), []);
    assert Resume(body, outer) == Step(Returned(Ready(v)), outer, Return(v), [outer]);
    assert Resume(Await(HostFuture(inner, body), body), outer) == Step(Returned(Ready(v)), outer, Return(v), [inner, outer]);
  }

  /** Polling a nested wrapper and carrying on in the same step: whether the
      nested poll returned `Ready` or `Pending`, the rest of the outer step
      runs with the outer address back in the slot. */
  lemma PollOnceRestoresOuter<R>(p: Ref, h: HostFuture<R>, next: Script<R>)
    ensures var n := Resume(h.future, h.ptr);
            n.exit.Returned? ==> Resume(PollOnce(h, next), p) == After(n.seen, Resume(next, p))
    ensures var n := Resume(h.future, h.ptr);
            n.exit.Unwound? ==> Resume(PollOnce(h, next), p) == Step(n.exit, p, Panic, n.seen)
  {
  }

  /** A nested wrapper that suspends after one accessor call, polled once
      from inside an outer wrapper: the nested call sees the nested address,
      the outer call later in the same step sees the outer address, and the
      outer poll completes with the slot as empty as before. */
  lemma PendingNestedScenario<R>(outer: Ref, inner: Ref, v: R)
    ensures PollHost(HostFuture(outer, PollOnce(HostFuture(inner, Access(Yield(Return(v)))), Access(Return(v)))), Empty)
         == Step(Returned(Ready(v)), Empty, Return(v), [inner, outer])
  {
    var body := Access(Return(v));
    assert Resume(Yield(Return(v)), inner) == Step(Returned(Pending), inner, Return(v), []);
    assert Resume(Access(Yield(Return(v))), inner) == Step(Returned(Pending), inner, Return(v), [inner]);
    assert Resume(Return(v), outer) == Step(Returned(Ready(v)), outer, Return(v), []);
    assert Resume(body, outer) == Step(Returned(Ready(v)), outer, Return(v), [outer]);
  }
}
