/** `HostState` (the typed accessor) and `HostFuture` (the wrapper that
    installs its state address around every poll of the future it wraps).

    The inner future is a script: a finite description of what the generated
    host-function body does between two suspension points. Polling the
    wrapper resumes the script once, with the wrapper's address installed in
    the slot, and writes the previous contents back through the `Reset`
    guard on every way out of the poll, unwinding included.
 */
module State {
  import opened Cell

  /** `std::task::Poll`. */
  datatype Poll<R> = Ready(value: R) | Pending

  /** Why a poll unwinds: the `assert!(p.get() != 0)` in `with` failed, or
      the body panicked on its own account. */
  datatype Cause = EmptySlot | BodyPanic

  /** How one poll call ends: it returns a `Poll`, or it panics and unwinds. */
  datatype Exit<R> = Returned(poll: Poll<R>) | Unwound(cause: Cause)

  /** The inner future, as the sequence of things it does when resumed. */
  datatype Script<R> =
    | Return(output: R)                             // complete with `output`
    | Access(next: Script<R>)                       // `host_state.with(f)`
    | Store(value: Addr, next: Script<R>)           // write the cell directly through the key
    | Yield(next: Script<R>)                        // suspend: this poll returns `Pending`
    | Panic                                         // the body panics
    | Await(inner: HostFuture<R>, next: Script<R>)  // `.await` a nested wrapper on the same slot
    | PollOnce(inner: HostFuture<R>, next: Script<R>) // poll a nested wrapper once, drop it, carry on

  /** `HostFuture { ptr, key, future }`; `HostFuture::new` is this
      constructor. The key is implicit: the model has one slot. */
  datatype HostFuture<R> = HostFuture(ptr: Ref, future: Script<R>)

  /** The result of `HostState::with`: the callback's value, or the halt of
      the `assert!(p.get() != 0)`. */
  datatype WithResult<R> = Value(value: R) | Halted

  /** What one resumption leaves behind: how it ended, the slot's contents
      afterwards, the future's state for the next poll, and the addresses
      the accessor was handed during it, in order. */
  datatype Step<R> = Step(exit: Exit<R>, slot: Addr, rest: Script<R>, seen: seq<Ref>)

  /** `HostState::with`: halts when the slot is empty, and otherwise applies
      the callback to the installed state. A `HostState` holds nothing but
      the key, which is implicit here, so `HostState::new` has no model of
      its own and `with` is a function of the slot's contents. */
  function With<R>(slot: Addr, f: Ref -> R): (r: WithResult<R>)
    ensures r.Halted? <==> slot == Empty
    ensures r.Value? ==> slot != Empty && r.value == f(slot)
  {
    if slot == Empty then Halted else Value(f(slot))
  }

  /** `s` does not write the cell itself; nested wrappers may do anything. */
  predicate NoDirectWrites<R>(s: Script<R>)
  {
    match s
    case Return(_) => true
    case Access(next) => NoDirectWrites(next)
    case Store(_, _) => false
    case Yield(next) => NoDirectWrites(next)
    case Panic => true
    case Await(_, next) => NoDirectWrites(next)
    case PollOnce(_, next) => NoDirectWrites(next)
  }

  /** Neither `s` nor any wrapper nested in it writes the cell directly. */
  predicate StoreFree<R>(s: Script<R>)
  {
    match s
    case Return(_) => true
    case Access(next) => StoreFree(next)
    case Store(_, _) => false
    case Yield(next) => StoreFree(next)
    case Panic => true
    case Await(h, next) => StoreFree(h.future) && StoreFree(next)
    case PollOnce(h, next) => StoreFree(h.future) && StoreFree(next)
  }

  /** Neither `s` nor any wrapper nested in it panics on its own account. */
  predicate PanicFree<R>(s: Script<R>)
  {
    match s
    case Return(_) => true
    case Access(next) => PanicFree(next)
    case Store(_, next) => PanicFree(next)
    case Yield(next) => PanicFree(next)
    case Panic => false
    case Await(h, next) => PanicFree(h.future) && PanicFree(next)
    case PollOnce(h, next) => PanicFree(h.future) && PanicFree(next)
  }

  /** Adds accessor observations made before `st` began. */
  function After<R>(seen: seq<Ref>, st: Step<R>): Step<R>
  {
    st.(seen := seen + st.seen)
  }

  /** Resumes the inner future once with `slot` as the slot's contents. */
  function Resume<R>(s: Script<R>, slot: Addr): (r: Step<R>)
    ensures NoDirectWrites(s) ==> r.slot == slot
    decreases s
  {
    match s
    case Return(v) => Step(Returned(Ready(v)), slot, s, [])
    case Access(next) =>
      (match With(slot, (p: Ref) => p)
       case Halted => Step(Unwound(EmptySlot), slot, Panic, [])
       case Value(p) => After([p], Resume(next, slot)))
    case Store(v, next) => Resume(next, v)
    case Yield(next) => Step(Returned(Pending), slot, next, [])
    case Panic => Step(Unwound(BodyPanic), slot, Panic, [])
    case Await(h, next) =>
      var n := PollHost(h, slot);
      (match n.exit
       case Unwound(_) => Step(n.exit, n.slot, Panic, n.seen)
       case Returned(Pending) => Step(Returned(Pending), n.slot, Await(HostFuture(h.ptr, n.rest), next), n.seen)
       case Returned(Ready(_)) => After(n.seen, Resume(next, n.slot)))
    case PollOnce(h, next) =>
      var n := PollHost(h, slot);
      if n.exit.Unwound? then Step(n.exit, n.slot, Panic, n.seen)
      else After(n.seen, Resume(next, n.slot))
  }

  /** `HostFuture::poll`: install `h.ptr`, poll the inner future once, and
      let the `Reset` guard put the previous contents back. The outcome and
      the future's new state are the inner future's, for one resumption
      made with `h.ptr` installed; the slot ends as it started. */
  function PollHost<R>(h: HostFuture<R>, slot: Addr): (r: Step<R>)
    ensures r.slot == slot
    ensures r.exit == Resume(h.future, h.ptr).exit
    ensures r.rest == Resume(h.future, h.ptr).rest
    ensures r.seen == Resume(h.future, h.ptr).seen
    decreases h
  {
    var (prev, installed) := Replace(slot, h.ptr);
    var reset := Reset(prev);
    var inner := Resume(h.future, installed);
    Step(inner.exit, reset.Drop(inner.slot), inner.rest, inner.seen)
  }
}
