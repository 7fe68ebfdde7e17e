/** Limits that several executors and adapters share. */
module Limits {
  const MAX_FILE_SIZE := 104857600

  /** The clock, asked after every 10000th of the first n rows, is never late. */
  ghost predicate NeverLate(clock: nat -> bool, n: nat) {
    forall k: nat :: 0 < k <= n && k % 10000 == 0 ==> !clock(k)
  }
}
