/** A value or nothing. */
module Options {

  datatype Option<+T> = None | Some(value: T)
}

/** Durations, in nanoseconds. */
module Durations {

  const SECOND: nat := 1_000_000_000
  const MINUTE: nat := 60 * SECOND
  const HOUR: nat := 60 * MINUTE
}

/** Unsigned words of the kernel programs and their wrap-around. */
module Words {

  const U32: nat := 0x1_0000_0000
  const U64: nat := 0x1_0000_0000_0000_0000

  type u32 = x: int | 0 <= x < 0x1_0000_0000
  type u64 = x: int | 0 <= x < 0x1_0000_0000_0000_0000

  /** Time since the start of a window, by unsigned subtraction. */
  function Elapsed(now: u64, windowStart: u64): (d: u64)
    ensures windowStart <= now ==> d == now - windowStart
  {
    (now - windowStart) % U64
  }

  function One(b: bool): nat { if b then 1 else 0 }
}
