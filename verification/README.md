# Scoped host-state installation in wiggle, in Dafny

Wiggle generates async host functions that read externally owned host
state through a `HostState<T>` accessor rather than through a parameter.
The state reaches the accessor through a thread-local `Cell<usize>`, the
slot. A `HostFuture` wraps the generated future. On every poll it stores
the state's address in the slot, polls the inner future once, and lets a
`Reset` drop guard write the slot's previous contents back, however the
poll ends. `HostState::with` reads the slot, asserts that it is not zero,
and hands the state to a callback.

This project models that mechanism and proves its guarantees:

- `cell.dfy` (module `Cell`): the slot. Its contents are a `nat`, where `0`
  means empty and any other value is an opaque state address. It also
  holds `Cell::replace` and the `Reset` guard.
- `state.dfy` (module `State`): `Poll`, the scripted inner future,
  `HostFuture`, `HostState::with` as `With`, one resumption of the inner
  future as `Resume`, and `HostFuture::poll` as `PollHost`.
  - The inner future is a `Script`: return a value, call the accessor,
    write the cell directly, yield `Pending`, panic, `.await` a nested
    `HostFuture` on the same slot, or poll a nested `HostFuture` once and
    carry on in the same step.
  - A panic is an `Unwound` exit that records its cause: the accessor's
    assertion failed on an empty slot, or the body panicked by itself. It
    passes through every enclosing poll, and each `Reset` guard on the way
    still restores the slot.
- `lexical.dfy` (module `Lexical`): a second semantics, `Scoped`, with no
  slot. Each accessor call sees the address of its innermost enclosing
  wrapper, so installations behave as a stack. The lemmas prove that the
  install/restore discipline produces exactly this stack behaviour, at any
  nesting depth, for bodies that never write the cell directly. A body that
  does write it, as in `Lexical.UnwindStillRestores`, can make a later
  accessor call see something else. The wrapper's own restore still holds.
- `driver.dfy` (module `Driver`): the tests' poll-until-`Ready` loop `run`,
  its recursive counterpart `PolledRun` over `HostFuture::poll`, and the two
  atoms tests that drive one wrapped generated body.

`HostFuture::new` and `HostState::new` only store their arguments. The
first is the `HostFuture` datatype constructor. The second has nothing to
model, because a `HostState` holds only the key and the model has one slot.
Neither constructor takes the slot as an argument, so neither touches it.

## Model

| member | source | states |
|---|---|---|
| `State.With` | crates/wiggle/src/state.rs:62-73 | `with` halts exactly when the slot is empty. Otherwise it returns the callback applied to the installed address. |
| `State.PollHost` | crates/wiggle/src/state.rs:32-49 | The install goes through `Cell.Replace` (line 42). The restore goes through the `Cell.Reset` guard's `Drop` (lines 36-43). A poll leaves the slot holding what it held before, on every exit including unwinding. This holds whatever the inner future did to the cell. The poll's outcome, the future's next state and the accessor's observations are those of exactly one resumption of the inner future, made with the wrapper's own address installed. `Ready(v)` and `Pending` are forwarded unchanged. |
| `State.Resume` | crates/wiggle/src/state.rs:42-47 | A resumption whose body does not write the cell itself leaves the slot as it found it. This holds even when the body awaits or polls nested wrappers, because each nested poll restores on its own. |
| `Lexical.Scoped` | crates/wiggle/src/state.rs:32-49 | This is the stack view of a whole poll: each accessor call gets the innermost enclosing wrapper's address, which is never null. A resumption in this view never ends with the empty-slot cause. A body that does not panic by itself always returns, and the next state stays panic-free. Store-freedom carries into the next state. |
| `Lexical.ResumeIsScoped` | crates/wiggle/src/state.rs:33-48 | Take a store-free body resumed with address `p` installed. It is the stack semantics with environment `p`: same outcome, same next state, same observations, in order. The slot ends holding `p`. This is LIFO layering of nested wrappers at any depth. |
| `Lexical.PollIsScoped` | crates/wiggle/src/state.rs:32-49 | Polling a wrapper whose body is store-free gives the stack semantics of the body under the wrapper's own address. This holds from any prior slot contents, empty included, and the slot is unchanged. |
| `Lexical.AccessorNeverHaltsInsideWrapper` | crates/wiggle/src/state.rs:69-71 | Inside a wrapper's poll, the accessor is never reached with an empty slot. No poll of a store-free body unwinds with the empty-slot cause, even when the slot was empty before the poll. This includes bodies that panic by themselves. If such a body also does not panic by itself, every poll returns. |
| `Lexical.AccessOutsideWrapperHalts` | crates/wiggle/src/state.rs:69-70 | An accessor call with no wrapper installed (empty slot) halts, and the slot stays empty. |
| `Lexical.NestedPollIsLifo` | crates/wiggle/src/state.rs:42-47 | Take a nested wrapper with any body. Its body runs with the nested address installed. When it completes, the rest of the outer step resumes with the outer address visible again. When it suspends or unwinds, so does the outer step, with the outer address back in the slot. |
| `Lexical.UnwindStillRestores` | crates/wiggle/src/state.rs:36-43 | Take a body that empties the cell and then calls `with`. It unwinds, and the guard still restores the slot's earlier contents. |
| `Lexical.PollOnceRestoresOuter` | crates/wiggle/src/state.rs:42-47 | Take a nested wrapper polled once inside an outer step. Whether it returns `Ready` or `Pending`, the rest of the outer step runs with the outer address back in the slot. If it unwinds, the outer step unwinds with the same cause. |
| `Lexical.PendingNestedScenario` | crates/wiggle/src/state.rs:33-48 | A nested wrapper suspends after one accessor call, inside an outer wrapper's poll. The nested call sees the nested address. The outer call later in the same step sees the outer address. The slot ends empty. |
| `Lexical.NestedScenario` | crates/wiggle/src/state.rs:33-48 | Take two wrappers with distinct addresses on one empty slot. The nested accessor call sees the nested address. The outer call after it sees the outer address. The slot ends empty. |
| `Driver.PolledRun` | crates/wiggle/tests/atoms_async.rs:129-139 | This is the recursive model of `run`: repeated `HostFuture::poll` calls, each from the slot the previous one left, stopping at the first poll that does not return `Pending`. The run makes at most `fuel` polls. It runs out of fuel only after exactly `fuel` polls, and any other ending takes at least one poll. |
| `Driver.ScopedRun` | crates/wiggle/tests/atoms_async.rs:129-139 | A run in the stack semantics never ends because `with` met an empty slot. If the body does not panic by itself, the run never ends in a panic. |
| `Driver.PolledRunIgnoresPriorSlot` | crates/wiggle/tests/atoms_async.rs:129-139 | A run of repeated `HostFuture::poll` calls does not depend on what the slot held before the first poll. Each poll installs its own address and hands back what it found. |
| `Driver.PolledRunIsScoped` | crates/wiggle/tests/atoms_async.rs:129-139 | For a store-free body, the run of repeated polls through the slot, from any prior contents, is the stack-semantics run: same outcome, same observations. |
| `Driver.Run` | crates/wiggle/tests/atoms_async.rs:129-139 | For every body, the outcome, the accessor observations and the number of polls are those of `Driver.PolledRun` from an empty slot. `slots` has one entry per poll made. It finishes with `v` when the last poll returned `Ready(v)`, and it panics, with that poll's cause, when the last poll unwound. The run starts from an empty slot, and the slot is empty again after every poll, whatever the body did to it. The run makes at most `fuel` polls, and exactly `fuel` when it runs out. For a store-free body, the run is also the stack-semantics run. |
| `Driver.TwoPollRun` | crates/wiggle/tests/atoms_async.rs:133-138 | A body that calls `with`, suspends, then calls `with` again is driven to completion in exactly two polls. Both calls see the wrapper's address, and the run finishes with the body's output. |
| `Driver.AtomsExercise` | crates/wiggle/tests/atoms_async.rs:48-64 | A generated body that logs once through `with` and returns finishes with its output. Its single accessor call reached the host context, so the context's log has exactly one entry. `DoubleIntExercise::test` (lines 86-113) has the same shape. |

## Left out

- Thread-local storage mechanics (`LocalKey`, `thread_local!`) and cross-thread misuse. There is one slot, and every `HostState` and `HostFuture` uses it. A wrapper on another key would touch another cell and is not modelled.
- Raw-pointer type erasure and the `unsafe` reinterpretation in `with`. The installed state is its non-zero address, and the callback receives that address. Whether the reinterpreted type is correct cannot be stated here.
- The width of `usize`: addresses are unbounded naturals.
- `Pin`, pin projection, `Context`, `Waker` and the dummy waker (atoms_async.rs:141-161). They are runtime plumbing with no behaviour of their own.
- Panic unwinding is an `Unwound` exit that every enclosing poll propagates. Dafny has no unwinding, so the `Drop` guard runs on both exits.
- The callbacks' own effects, such as appending to the host context's log. The model records the address each accessor call was handed, and a log entry corresponds to one such address.
- `Store` is not an operation of the source. It stands for code that names the thread-local key and sets the cell directly, which `LocalKey` allows. It is there so that "whatever the inner future did" covers such writes.
- Nested futures have the same output type as the outer one, and the outer body ignores their output. Rust allows any output type.
- A body can `.await` a nested wrapper (`Await`) or poll it once and drop it (`PollOnce`). Combinators that keep several nested futures alive across polls, such as `join!` and `select!`, are not modelled as steps of their own. The restore and stack lemmas hold for every `PollHost` call, whatever the caller does around it.
- Polling a future after it completed: Rust leaves the result unspecified, and an `async fn` body panics ("resumed after completion"). The model differs here on purpose: resuming a completed script returns `Ready` with the same value again. The driver stops at `Ready`, so the lemmas about runs never depend on this.
- Driver.Run: the Rust loop has no bound. The model stops after `fuel` polls with `OutOfFuel`, so runs that never finish are only modelled up to that bound.
- `from_witx!` code generation, `HostMemory` and argument marshalling, `impl_errno!`, and the proptest strategies. These are external or generated code.
- The `f32` arithmetic and formatting in the test bodies (atoms_async.rs:35, 107), because it is floating point. The generated body's output is an arbitrary value.
