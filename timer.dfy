/**
 * The round's countdown. The host interval that drives it is abstracted to
 * a synchronous `Tick`, called once per second while time is left; a reset
 * (a new reset key from the round controller) refills the clock.
 */
module Countdown {

  class Timer {
    /** Length of a round in seconds. */
    const duration: int
    /** Seconds left on the clock. */
    var timeLeft: int
    /** Ticks since the clock was last filled. */
    ghost var ticks: nat

    /** The clock has lost one second per tick since it was filled, and a
        tick never takes it below zero. */
    ghost predicate Valid()
      reads this
    {
      timeLeft == duration - ticks && (ticks > 0 ==> timeLeft >= 0)
    }

    /** Mounting the timer starts it full. */
    constructor (duration: int)
      ensures Valid()
      ensures this.duration == duration && timeLeft == duration && ticks == 0
    {
      this.duration := duration;
      timeLeft := duration;
      ticks := 0;
    }

    /** A new reset key fills the clock again. */
    method Reset()
      requires Valid()
      modifies this
      ensures Valid()
      ensures timeLeft == duration && ticks == 0
    {
      timeLeft := duration;
      ticks := 0;
    }

    /** One firing of the interval. It is installed only while time is left.
        Returns the elapsed time it reports and whether it signals expiry. */
    method Tick() returns (elapsed: nat, expired: bool)
      requires Valid() && timeLeft > 0
      modifies this
      ensures Valid()
      ensures timeLeft == old(timeLeft) - 1 && ticks == old(ticks) + 1
      ensures elapsed == duration - timeLeft
      ensures elapsed == ticks
      ensures expired <==> timeLeft <= 0
      ensures expired <==> ticks == duration
      ensures expired ==> timeLeft == 0
    {
      var newTime := timeLeft - 1;
      elapsed := duration - newTime;
      expired := newTime <= 0;
      timeLeft := newTime;
      ticks := ticks + 1;
    }
  }
}
