/** The 64-bit tick count of the firmware, kept by watching a free-running 32-bit down-counter wrap. */
module TickClock {
  import opened Words

  const TWO_32: int := 0x1_0000_0000

  /** What the counter shows after the given number of ticks: it starts at its largest value and counts down. */
  function Counter(ticks: nat): word32 { TWO_32 - 1 - ticks % TWO_32 }

  datatype Clock = Clock(lastVal: word32, wrapAcc: word64)

  /** One reading: the count returned and what is kept for the next. */
  function Read(c: Clock, value: word32): (word64, Clock) {
    var acc := if value > c.lastVal then (c.wrapAcc + TWO_32) % TWO_64 else c.wrapAcc;
    ((acc + (TWO_32 - 1 - value)) % TWO_64, Clock(value, acc))
  }

  /** Was the clock last read at the given number of ticks, with no wrap missed? */
  ghost predicate Exact(c: Clock, ticks: nat) {
    c.lastVal == Counter(ticks) && c.wrapAcc == Turns(ticks) * TWO_32
  }

  /** The number of wraps, as far as 64 bits hold them. */
  function Turns(ticks: nat): (r: nat)
    ensures r < TWO_32
  {
    ticks / TWO_32 % TWO_32
  }

  lemma TurnsAndRest(ticks: nat)
    ensures Turns(ticks) * TWO_32 + ticks % TWO_32 == ticks % TWO_64
  {
    var q, r := ticks / TWO_32, ticks % TWO_32;
    assert ticks == q / TWO_32 * TWO_64 + (q % TWO_32 * TWO_32 + r);
  }

  /** The counter shows a wrap exactly when the rest of the ticks got smaller. */
  lemma OneCarry(before: nat, now: nat)
    requires before <= now
    ensures now / TWO_32 == before / TWO_32 + (now - before) / TWO_32 + if Counter(now) > Counter(before) then 1 else 0
  {
  }

  lemma RestIs(n: nat, turns: nat, rest: nat)
    requires n == turns * TWO_32 + rest && rest < TWO_32
    ensures n % TWO_32 == rest
  {
  }

  lemma SameRest(q: nat, d: nat)
    ensures (q + d) % TWO_32 == q % TWO_32 <==> d % TWO_32 == 0
  {
    var sum := q % TWO_32 + d % TWO_32;
    var turns := q / TWO_32 + d / TWO_32;
    if sum < TWO_32 {
      RestIs(q + d, turns, sum);
    } else {
      RestIs(q + d, turns + 1, sum - TWO_32);
    }
  }

  lemma NextTurn(q: nat)
    ensures (q % TWO_32 * TWO_32 + TWO_32) % TWO_64 == (q + 1) % TWO_32 * TWO_32
  {
    var turns, rest := q / TWO_32, q % TWO_32;
    if rest + 1 < TWO_32 {
      RestIs(q + 1, turns, rest + 1);
    } else {
      RestIs(q + 1, turns + 1, 0);
    }
  }

  /** An exact clock stays exact if and only if fewer than 2^32 ticks passed since it was read last
      (or so many that whole 64-bit turns went by); then and only then it returns the true count. */
  lemma ReadingIsTrue(c: Clock, before: nat, now: nat)
    requires Exact(c, before) && before <= now
    ensures var (r, c1) := Read(c, Counter(now));
      && (Exact(c1, now) <==> (now - before) / TWO_32 % TWO_32 == 0)
      && (r == now % TWO_64 <==> Exact(c1, now))
  {
    var q, d := before / TWO_32, (now - before) / TWO_32;
    var carry := if Counter(now) > Counter(before) then 1 else 0;
    OneCarry(before, now);
    TurnsAndRest(now);
    NextTurn(q);
    SameRest(q + carry, d);
    ReadIs(c, before, now);
    hide Read, Counter;
    assert Turns(now) == (q + carry + d) % TWO_32;
  }

  lemma ReadIs(c: Clock, before: nat, now: nat)
    requires Exact(c, before)
    ensures var (r, c1) := Read(c, Counter(now)); var q := before / TWO_32;
      && c1.lastVal == Counter(now)
      && c1.wrapAcc == (if Counter(now) > Counter(before) then q + 1 else q) % TWO_32 * TWO_32
      && r == c1.wrapAcc + now % TWO_32
  {
    NextTurn(before / TWO_32);
  }

  /** The counts returned by readings at the given times. */
  function ReadAll(c: Clock, times: seq<nat>): (rs: seq<word64>)
    ensures |rs| == |times|
    decreases |times|
  {
    if times == [] then []
    else
      var (r, c1) := Read(c, Counter(times[0]));
      [r] + ReadAll(c1, times[1..])
  }

  /** Each reading less than 2^32 ticks after the one before. */
  ghost predicate Spaced(before: nat, times: seq<nat>)
    decreases |times|
  {
    times == [] || (0 <= times[0] - before < TWO_32 && Spaced(times[0], times[1..]))
  }

  /** For every sequence of readings fewer than 2^32 ticks apart, each returns the true number of ticks. */
  lemma {:induction false} ReadingsAreTrue(c: Clock, before: nat, times: seq<nat>)
    requires Exact(c, before) && Spaced(before, times)
    ensures forall i :: 0 <= i < |times| ==> ReadAll(c, times)[i] == times[i] % TWO_64
    decreases |times|
  {
    if times != [] {
      hide Exact, Counter, Read;
      ReadingIsTrue(c, before, times[0]);
      ReadingsAreTrue(Read(c, Counter(times[0])).1, times[0], times[1..]);
    }
  }

  lemma {:induction false} TimesRise(before: nat, times: seq<nat>, i: nat, j: nat)
    requires Spaced(before, times) && i <= j < |times|
    ensures before <= times[i] <= times[j]
    decreases |times|
  {
    if i > 0 {
      TimesRise(times[0], times[1..], i - 1, j - 1);
    } else if j > 0 {
      TimesRise(times[0], times[1..], 0, j - 1);
    }
  }

  /** ... so that the clock never runs backwards while the ticks fit 64 bits. */
  lemma ClockIsMonotone(c: Clock, before: nat, times: seq<nat>, i: nat, j: nat)
    requires Exact(c, before) && Spaced(before, times) && i <= j < |times| && times[j] < TWO_64
    ensures ReadAll(c, times)[i] <= ReadAll(c, times)[j]
  {
    hide Exact, ReadAll;
    ReadingsAreTrue(c, before, times);
    TimesRise(before, times, i, j);
  }

  class Timer {
    var lastVal: word32
    var wrapAcc: word64

    ghost function State(): Clock
      reads this
    {
      Clock(lastVal, wrapAcc)
    }

    /** dtls_timer_init; the counter is first read when it has counted the given ticks. */
    constructor (ghost ticks: nat, value: word32)
      requires ticks < TWO_32 && value == Counter(ticks)
      ensures Exact(State(), ticks)
    {
      lastVal, wrapAcc := value, 0;
    }

    /** dtls_timer_ticks */
    method Ticks(value: word32) returns (r: word64)
      modifies this
      ensures (r, State()) == Read(old(State()), value)
    {
      if value > lastVal {
        wrapAcc := (wrapAcc + TWO_32) % TWO_64;
      }
      lastVal := value;
      r := (wrapAcc + (TWO_32 - 1 - value)) % TWO_64;
    }
  }
}
