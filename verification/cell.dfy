/** The thread-bound slot: the `Cell<usize>` behind a `thread_local!` key.

    The cell holds a type-erased address. Zero means that no host state is
    installed. Any other value is normally the address of the state
    installed by the innermost `HostFuture` that is currently being polled;
    code that names the thread-local key and writes the cell directly can
    put any value there.
 */
module Cell {

  /** Contents of the slot. */
  type Addr = nat

  /** The value the slot holds when nothing is installed (`Cell::new(0)`). */
  const Empty: Addr := 0

  /** An address taken from a Rust reference `&T`, which is never null. */
  type Ref = a: Addr | a != Empty witness 1

  /** `Cell::replace`: the slot now holds `v`; the pair is (previous contents, new contents). */
  function Replace(slot: Addr, v: Addr): (Addr, Addr)
  {
    (slot, v)
  }

  /** The `Reset` drop guard of `HostFuture::poll`. It captures the slot's
      previous contents; dropping it writes them back, whatever the slot holds
      at that moment. */
  datatype Reset = Reset(prev: Addr) {

    function Drop(current: Addr): Addr
    {
      prev
    }
  }
}
