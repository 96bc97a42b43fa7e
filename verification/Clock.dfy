/** The microsecond clock of the framer: a millisecond counter joined with the down-counting SysTick timer. */
module Clock {
  import opened RtuFramer
  import Arith

  /** `rtu_time_us` on the registers it samples: all arithmetic is unsigned 32-bit. */
  function Micros(msTick: micros, val: nat, load: nat, pending: bool): micros
    requires val <= load
  {
    var ms := (msTick + (if pending then 1 else 0)) % CLOCK;
    (ms * 1000 % CLOCK + (load - val) * 1000 % CLOCK / (load + 1)) % CLOCK
  }

  /** The registers after `cycles` timer cycles, when the tick interrupt has served all but `late` periods. */
  function TickCount(cycles: nat, load: nat, late: nat): micros
    requires late <= cycles / (load + 1)
  {
    (cycles / (load + 1) - late) % CLOCK
  }

  function TimerValue(cycles: nat, load: nat): (val: nat)
    ensures val <= load
  {
    load - cycles % (load + 1)
  }

  function TrueMicros(cycles: nat, load: nat): nat {
    cycles * 1000 / (load + 1)
  }

  lemma ModStep(a: nat, b: nat)
    ensures (a % CLOCK * 1000 % CLOCK + b) % CLOCK == (a * 1000 + b) % CLOCK
  {
    var q := a / CLOCK;
    var x := a % CLOCK * 1000;
    assert a * 1000 == q * 1000 * CLOCK + x;
    var y := x / CLOCK;
    assert x == y * CLOCK + x % CLOCK;
    assert a * 1000 + b == (q * 1000 + y) * CLOCK + (x % CLOCK + b);
    ModShift(x % CLOCK + b, q * 1000 + y);
  }

  lemma {:induction false} ModShift(n: nat, k: nat)
    ensures (k * CLOCK + n) % CLOCK == n % CLOCK
  {
    if k > 0 {
      ModShift(n, k - 1);
      assert k * CLOCK + n == (k - 1) * CLOCK + n + CLOCK;
    }
  }

  /** With at most one tick pending the reading is the elapsed time in whole microseconds, modulo 2^32. */
  lemma ReadingIsTrueTime(cycles: nat, load: nat, pending: bool)
    requires load * 1000 < CLOCK
    requires pending ==> cycles / (load + 1) >= 1
    ensures Micros(TickCount(cycles, load, if pending then 1 else 0), TimerValue(cycles, load), load, pending)
            == TrueMicros(cycles, load) % 0x1_0000_0000
  {
    var p := load + 1;
    var k, r := cycles / p, cycles % p;
    var late := if pending then 1 else 0;
    Arith.DivFacts(cycles, p);
    Arith.DivThousandfold(k, r, p);
    TickIsPeriod(k, late);
    SmallTurn(r, load);
    ModStep(k, r * 1000 / p);
  }

  lemma SmallTurn(r: nat, load: nat)
    requires r <= load && load * 1000 < CLOCK
    ensures r * 1000 % CLOCK == r * 1000
  {
  }

  lemma TickIsPeriod(k: nat, late: nat)
    requires late <= 1 && late <= k
    ensures ((k - late) % CLOCK + late) % CLOCK == k % CLOCK
  {
  }

  /** Subtracting two readings gives the elapsed microseconds, to within one, across wraps of the clock. */
  lemma ElapsedIsTrueTime(early: nat, late: nat, load: nat)
    requires early <= late && TrueMicros(late - early, load) + 1 < CLOCK
    ensures var d := Elapsed(TrueMicros(late, load) % 0x1_0000_0000, TrueMicros(early, load) % 0x1_0000_0000);
            TrueMicros(late - early, load) <= d <= TrueMicros(late - early, load) + 1
  {
    Arith.DivDifference(early * 1000, late * 1000, load + 1);
    assert late * 1000 - early * 1000 == (late - early) * 1000;
    DifferenceOfReadings(TrueMicros(late, load), TrueMicros(early, load));
  }

  lemma DifferenceOfReadings(t: nat, since: nat)
    requires since <= t < since + CLOCK
    ensures Elapsed(t % CLOCK, since % CLOCK) == t - since
  {
    var a, b := t / CLOCK, since / CLOCK;
    assert a == b || a == b + 1;
  }
}
