/**
 The waiting table of kernel/system/Futex.c as values: 64 slots, each free or naming an
 address and a thread.
 */
module FutexTable {

  const FUTEX_COUNT: nat := 64

  datatype Slot = Slot(addr: int, thread: int, valid: bool)

  predicate WaitsOn(s: Slot, addr: int) { s.valid && s.addr == addr }

  /** How many of the first k slots wait on addr. */
  function Count(slots: seq<Slot>, addr: int, k: nat): nat
    requires k <= |slots|
  {
    if k == 0 then 0 else Count(slots, addr, k - 1) + if WaitsOn(slots[k - 1], addr) then 1 else 0
  }

  function Waiters(slots: seq<Slot>, addr: int): nat { Count(slots, addr, |slots|) }

  /** How many waiters a call with count n releases: a negative n, all of them. */
  function ToRelease(n: int, waiters: nat): nat {
    if n < 0 || n > waiters then waiters else n
  }

  /** Slot i is among those a wake on addr with count n releases: the first ones in slot order. */
  predicate Released(slots: seq<Slot>, addr: int, n: int, i: int)
    requires 0 <= i < |slots|
  {
    WaitsOn(slots[i], addr) && (n < 0 || Count(slots, addr, i) < n)
  }

  /** The slots after a wake: exactly the released ones are free. */
  ghost predicate WokenSlots(slots: seq<Slot>, slots': seq<Slot>, addr: int, n: int) {
    && |slots'| == |slots|
    && forall i :: 0 <= i < |slots| ==> slots'[i] == if Released(slots, addr, n, i) then slots[i].(valid := false)
                                                     else slots[i]
  }

  lemma {:induction false} CountMonotone(slots: seq<Slot>, addr: int, i: nat, k: nat)
    requires i <= k <= |slots|
    ensures Count(slots, addr, i) <= Count(slots, addr, k)
    decreases k
  {
    if i < k {
      CountMonotone(slots, addr, i, k - 1);
    }
  }

  /** A wake releases exactly min(n, waiters), and leaves the waiters of every other address. */
  lemma {:induction false} WokenCount(slots: seq<Slot>, slots': seq<Slot>, addr: int, n: int, a: int, k: nat)
    requires WokenSlots(slots, slots', addr, n) && k <= |slots|
    ensures Count(slots', a, k) == if a == addr then Count(slots, a, k) - ToRelease(n, Count(slots, a, k))
                                   else Count(slots, a, k)
  {
    if k > 0 {
      WokenCount(slots, slots', addr, n, a, k - 1);
      assert slots'[k - 1] == if Released(slots, addr, n, k - 1) then slots[k - 1].(valid := false) else slots[k - 1];
    }
  }

  /** The slots after a requeue: the released ones are free, the rest of addr's waiters wait on `to`. */
  ghost predicate RequeuedSlots(slots: seq<Slot>, slots': seq<Slot>, addr: int, n: int, to: int) {
    && |slots'| == |slots|
    && forall i :: 0 <= i < |slots| ==>
         slots'[i] == if Released(slots, addr, n, i) then slots[i].(valid := false)
                      else if WaitsOn(slots[i], addr) then slots[i].(addr := to) else slots[i]
  }

  /** A requeue loses nobody: all waiters that are not released are on the new address. */
  lemma {:induction false} RequeuedCount(slots: seq<Slot>, slots': seq<Slot>, addr: int, n: int, to: int, k: nat)
    requires RequeuedSlots(slots, slots', addr, n, to) && k <= |slots| && to != addr
    ensures Count(slots', addr, k) == 0
    ensures Count(slots', to, k) == Count(slots, to, k) + Count(slots, addr, k) - ToRelease(n, Count(slots, addr, k))
  {
    if k > 0 {
      RequeuedCount(slots, slots', addr, n, to, k - 1);
      assert Released(slots, addr, n, k - 1) ==> WaitsOn(slots[k - 1], addr);
    }
  }
}
