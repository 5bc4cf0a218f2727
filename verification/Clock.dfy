/** The kernel's clock: a counter of ticks that wraps. */
module Clock {

  /** `unsigned long` is 32 bits wide on the 32-bit ARM target. */
  const ULONG := 0x1_0000_0000

  type Tick = t: int | 0 <= t < ULONG

  /** `time_after(a, b)` */
  predicate TimeAfter(a: Tick, b: Tick) {
    (b - a) % ULONG >= ULONG / 2
  }

  /** `time_before_eq(a, b)`: the signed 32-bit difference `b - a` is not negative. */
  predicate TimeBeforeEq(a: Tick, b: Tick) {
    (b - a) % ULONG < ULONG / 2
  }

  function Age(t: Tick, now: Tick): nat {
    (now - t) % ULONG
  }
}
