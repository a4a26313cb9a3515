/** The TLS slot contract the mxr runtime offers: a process-wide registry that
    hands out slot keys (mxr_tls_allocate), and one storage table per thread
    that keys index (mxr_tls_get, mxr_tls_set). The capacity
    MXR_TLS_SLOT_MAX and the number of slots the runtime reserves for itself
    are left open: they are parameters of the registry, with only
    reserved <= capacity known about them. */
module TlsRuntime {

  /** A TLS key (mxr_tls_t): a slot number, or the sentinel
      MXR_TLS_SLOT_INVALID that allocation returns once the slots run out. */
  datatype Key = Slot(index: nat) | Invalid {
    /** The key names a slot of a table with `capacity` slots. */
    predicate Fits(capacity: nat) {
      Slot? && index < capacity
    }
  }

  /** The process-wide slot registry: a counter of the slots handed out so
      far, the runtime's own reserved slots included. It only grows, and
      slots 0 .. next-1 are the ones handed out, so a slot at or above the
      old counter has never been handed out before. */
  class SlotRegistry {
    const capacity: nat   // MXR_TLS_SLOT_MAX
    const reserved: nat   // slots the runtime takes before user code runs
    var next: nat         // slots 0 .. next-1 are taken

    ghost predicate Valid()
      reads this
    {
      reserved <= next <= capacity
    }

    constructor (capacity: nat, reserved: nat)
      requires reserved <= capacity
      ensures Valid()
      ensures this.capacity == capacity && this.reserved == reserved
      ensures next == reserved
    {
      this.capacity := capacity;
      this.reserved := reserved;
      next := reserved;
    }

    /** mxr_tls_allocate: a fresh slot while any is left, after that the
        sentinel, every time. No slot is handed out twice. */
    method Allocate() returns (k: Key)
      requires Valid()
      modifies this
      ensures Valid()
      ensures old(next) < capacity ==> k == Slot(old(next)) && next == old(next) + 1
      ensures old(next) == capacity ==> k == Invalid && next == capacity
      ensures k.Slot? ==> k.Fits(capacity) && old(next) <= k.index < next
    {
      if next == capacity {
        k := Invalid;
      } else {
        k := Slot(next);
        next := next + 1;
      }
    }
  }

  /** One thread's storage: MXR_TLS_SLOT_MAX 64-bit words, zero when the
      thread starts. Each thread owns its own table. */
  class ThreadTable {
    const slots: array<bv64>

    /** The table a thread starts with: every slot zero. */
    constructor (capacity: nat)
      ensures fresh(slots) && slots.Length == capacity
      ensures forall i :: 0 <= i < capacity ==> slots[i] == 0
    {
      slots := new bv64[capacity](_ => 0);
    }

    /** mxr_tls_get: the value this thread last stored in the key's slot. */
    method Get(k: Key) returns (v: bv64)
      requires k.Fits(slots.Length)
      ensures v == slots[k.index]
    {
      v := slots[k.index];
    }

    /** mxr_tls_set: overwrites the key's slot of this thread's table and
        nothing else. */
    method Set(k: Key, v: bv64)
      requires k.Fits(slots.Length)
      modifies slots
      ensures slots[..] == old(slots[..])[k.index := v]
    {
      slots[k.index] := v;
    }
  }
}
