/**
 The bound on the number of worker threads the user asks for: at least one,
 and no more than the hardware can run in parallel.

 `hardware` is the value the standard library reports for the number of
 concurrent threads the hardware supports, which it reports as 0 when it
 cannot tell.
 */
module ThreadCount {

  /** The clamp as the program writes it: a request below 1 becomes 1, and
      otherwise a request above the hardware count becomes the hardware count. */
  function ClampThreads(requested: int, hardware: nat): (n: int)
    ensures requested < 1 ==> n == 1
    ensures 1 <= requested <= hardware ==> n == requested
    ensures 1 <= requested && hardware < requested ==> n == hardware
    ensures hardware >= 1 ==> 1 <= n <= hardware
  {
    if requested < 1 then 1
    else if requested > hardware then hardware
    else requested
  }

  /** When the hardware count is unknown (reported as 0), every request of at
      least one thread is clamped to zero threads, so no worker runs. */
  lemma ClampThreadsUnknownHardware(requested: int)
    requires requested >= 1
    ensures ClampThreads(requested, 0) == 0
  {
  }

  /** The same request of four threads on a machine that reports 0: the clamp
      yields no worker at all. */
  lemma ClampThreadsZeroWorkers()
    ensures ClampThreads(4, 0) < 1
  {
    ClampThreadsUnknownHardware(4);
  }

  /** The hardware bound the clamp should use: the reported count, or 1 when
      it is reported as unknown. */
  function HardwareBound(hardware: nat): (b: nat)
    ensures b >= 1
    ensures hardware >= 1 ==> b == hardware
  {
    if hardware == 0 then 1 else hardware
  }

  /** The clamp with an unknown hardware count read as one thread: the result
      is always at least one worker and at most the hardware bound, a request
      in that range is kept, and on every machine that reports its count the
      result is that of `ClampThreads`. */
  function WorkerCount(requested: int, hardware: nat): (n: int)
    ensures 1 <= n <= HardwareBound(hardware)
    ensures 1 <= requested <= HardwareBound(hardware) ==> n == requested
    ensures hardware >= 1 ==> n == ClampThreads(requested, hardware)
  {
    ClampThreads(requested, HardwareBound(hardware))
  }
}
