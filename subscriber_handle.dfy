/**
 * `SubscriberHandle`: an id from a process-wide counter and a weak
 * reference to the subscriber thread's keep-alive flag.
 *
 * The shared `AtomicBool` is a `KeepAlive` object; whether the thread still
 * holds its strong `Arc` (so that the handle's `Weak` upgrades) is the
 * field `held`.
 */
module SubscriberHandles {

  /** Width of the `AtomicU64` counter. */
  const U64Modulus: nat := 0x1_0000_0000_0000_0000

  type u64 = x: int | 0 <= x < U64Modulus

  /** The keep-alive cell shared by a handle and its subscriber thread. */
  class KeepAlive {
    /** The `AtomicBool`: true while the subscriber should keep running. */
    var value: bool
    /** The thread still holds the strong `Arc`, so `Weak::upgrade` succeeds. */
    var held: bool

    /** `Arc::new(AtomicBool::new(true))`, held by the thread-to-be. */
    constructor ()
      ensures value && held
    {
      value := true;
      held := true;
    }

    /** The thread ends and drops its strong reference. */
    method Release()
      modifies this
      ensures !held && value == old(value)
    {
      held := false;
    }
  }

  datatype SubscriberHandle = SubscriberHandle(subscriberId: u64, keepAlive: KeepAlive) {

    /** `is_closed`: the flag is gone or reads false. */
    predicate IsClosed()
      reads keepAlive
    {
      !keepAlive.held || !keepAlive.value
    }

    /** `close`: store false when the flag still exists; otherwise do nothing. */
    method Close()
      modifies keepAlive
      ensures IsClosed()
      ensures keepAlive.held == old(keepAlive.held)
      ensures keepAlive.value == (old(keepAlive.value) && !old(keepAlive.held))
      ensures old(IsClosed()) ==> unchanged(keepAlive)
    {
      if keepAlive.held {
        keepAlive.value := false;
      }
    }
  }

  /** `PartialEq`: handles are equal when their ids are, which is exactly when they feed the hasher alike. */
  predicate HandleEq(a: SubscriberHandle, b: SubscriberHandle)
    ensures HandleEq(a, b) <==> HashInput(a) == HashInput(b)
  {
    assert HashInput(a) == HashInput(b) ==> HashInput(a)[0] == HashInput(b)[0];
    a.subscriberId == b.subscriberId
  }

  /** What `Hash` feeds to the hasher: the id alone. */
  function HashInput(h: SubscriberHandle): seq<u64> {
    [h.subscriberId]
  }

  /** Equal handles hash alike, whatever their flags; equality is an equivalence. */
  lemma EqAndHashAgree(a: SubscriberHandle, b: SubscriberHandle, c: SubscriberHandle, k: KeepAlive)
    ensures HandleEq(a, b) <==> HashInput(a) == HashInput(b)
    ensures HandleEq(a, a.(keepAlive := k))
    ensures HandleEq(a, b) ==> HandleEq(b, a)
    ensures HandleEq(a, b) && HandleEq(b, c) ==> HandleEq(a, c)
  {
    if HashInput(a) == HashInput(b) {
      assert HashInput(a)[0] == HashInput(b)[0];
    }
  }

  /** The `static COUNTER: AtomicU64`, starting at 1. */
  class IdCounter {
    var next: u64

    constructor ()
      ensures next == 1
    {
      next := 1;
    }

    /**
     * `SubscriberHandle::new`: take the counter's value as the id
     * (`fetch_add` wraps at 2^64), and make a fresh flag reading true.
     * Returns the handle and the thread's strong reference.
     */
    method NewHandle() returns (h: SubscriberHandle, strong: KeepAlive)
      modifies this
      ensures h.subscriberId == old(next)
      ensures next == (old(next) + 1) % U64Modulus
      ensures old(next) + 1 < U64Modulus ==> next > h.subscriberId
      ensures fresh(strong) && h.keepAlive == strong
      ensures strong.value && strong.held && !h.IsClosed()
    {
      strong := new KeepAlive();
      h := SubscriberHandle(next, strong);
      next := (next + 1) % U64Modulus;
    }
  }
}
