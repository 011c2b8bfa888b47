/** Conversion between timestamp-counter ticks and nanoseconds in 64 bits. */
module Clock {
  import opened Common

  const GIGA: nat := 1_000_000_000

  /** ns_to_ticks: whole seconds and the rest converted apart. */
  function NsToTicks(ns: nat, freq: nat): nat
  {
    Wrap(Wrap(ns / GIGA * freq) + Wrap(ns % GIGA * freq) / GIGA)
  }

  /** get_time_ns, from a raw counter value and the one at boot. */
  function TimeNs(tsc: nat, boot: nat, freq: nat): nat
    requires freq > 0
  {
    TicksToNs(Wrap(tsc - boot), freq)
  }

  function TicksToNs(ticks: nat, freq: nat): nat
    requires freq > 0
  {
    Wrap(Wrap(ticks / freq * GIGA) + Wrap(ticks % freq * GIGA) / freq)
  }

  function NsToRawTicks(ns: nat, boot: nat, freq: nat): nat { Wrap(NsToTicks(ns, freq) + boot) }

  // ---------- Floors ----------

  lemma Distribute(a: nat, b: nat, m: nat)
    ensures (a + b) * m == a * m + b * m
  {
  }

  lemma Floor(n: nat, m: nat)
    requires m > 0
    ensures n / m * m <= n < n / m * m + m
  {
  }

  lemma QuotientMonotone(a: nat, b: nat, m: nat)
    requires m > 0 && a <= b
    ensures a / m <= b / m
  {
    var p, q := a / m, b / m;
    Floor(a, m);
    Floor(b, m);
    Distribute(q, 1, m);
    if q < p {
      Ordered(q + 1, p, m);
    }
  }

  lemma Regroup(s: nat, g: nat, f: nat)
    ensures s * g * f == s * f * g
  {
  }

  /** Converting seconds and rest apart is the exact floor of the product. */
  lemma SplitFloor(a: nat, f: nat, g: nat)
    requires g > 0
    ensures a / g * f + a % g * f / g == a * f / g
  {
    var s, r := a / g, a % g;
    var q := r * f / g;
    assert a == s * g + r;
    Distribute(s * g, r, f);
    Regroup(s, g, f);
    Floor(r * f, g);
    Distribute(s * f, q, g);
    QuotientIs(a * f, g, s * f + q);
  }

  /** The 64-bit sum of the two shares, when the product fits. */
  lemma Assemble(seconds: nat, product: nat, g: nat, total: nat)
    requires g > 0 && product < WORD && seconds + product / g == total
    ensures Wrap(Wrap(seconds) + Wrap(product) / g) == Wrap(total)
  {
    WrapFirst(seconds, product / g);
  }

  lemma WrapFirst(a: nat, b: int)
    ensures Wrap(Wrap(a) + b) == Wrap(a + b)
  {
  }

  // ---------- Nanoseconds to ticks ----------

  /** The remainder's product fits in 64 bits for every time exactly up to this
      frequency. */
  lemma RemainderFits(freq: nat)
    ensures (forall ns: nat :: ns < WORD ==> ns % GIGA * freq < WORD) <==> freq <= 18446744092
  {
    if freq <= 18446744092 {
      forall ns: nat | ns < WORD ensures ns % GIGA * freq < WORD {
        Ordered(ns % GIGA, GIGA - 1, freq);
      }
    } else {
      Ordered(18446744093, freq, GIGA - 1);
      var ns: nat := GIGA - 1;
      assert ns < WORD && ns % GIGA * freq >= WORD;
    }
  }

  /** The result is the floor of ns * freq / 10^9 in 64 bits, for every time. */
  lemma NsToTicksExact(ns: nat, freq: nat)
    requires ns < WORD && freq <= 18446744092
    ensures NsToTicks(ns, freq) == Wrap(ns * freq / GIGA)
  {
    var s: nat, r: nat := ns / GIGA, ns % GIGA;
    Ordered(r, GIGA - 1, freq);
    SplitFloor(ns, freq, GIGA);
    Assemble(s * freq, r * freq, GIGA, ns * freq / GIGA);
  }

  /** `x` times `f / g`, rounded down. */
  function Scale(x: nat, f: nat, g: nat): nat
    requires g > 0
  {
    x * f / g
  }

  lemma ScaleMonotone(a: nat, b: nat, f: nat, g: nat)
    requires g > 0 && a <= b
    ensures Scale(a, f, g) <= Scale(b, f, g)
  {
    Ordered(a, b, f);
    QuotientMonotone(a * f, b * f, g);
  }

  /** One more step adds at most `f`. */
  lemma ScaleStep(a: nat, f: nat, g: nat)
    requires g > 0
    ensures Scale(a + 1, f, g) <= Scale(a, f, g) + f + 1
  {
    var p, q := Scale(a, f, g), Scale(a + 1, f, g);
    Distribute(a, 1, f);
    Floor(a * f, g);
    Floor((a + 1) * f, g);
    if q > p + f + 1 {
      Ordered(p + f + 2, q, g);
      Distribute(p, f + 2, g);
      Distribute(f, 2, g);
      Ordered(1, g, f);
    }
  }

  /** Past 64 bits the rounded product, wrapped, falls at some step. */
  lemma {:induction false} ScaleFalls(b: nat, f: nat, g: nat) returns (c: nat)
    requires g > 0 && f + 1 < WORD && Scale(b, f, g) >= WORD
    ensures c < b && Wrap(Scale(c, f, g)) > Wrap(Scale(c + 1, f, g))
    decreases b
  {
    ScaleOfZero(f, g);
    c := b - 1;
    if Scale(c, f, g) < WORD {
      ScaleStep(c, f, g);
      WrapsOnce(Scale(b, f, g));
    } else {
      c := ScaleFalls(c, f, g);
    }
  }

  lemma ScaleOfZero(f: nat, g: nat)
    requires g > 0
    ensures Scale(0, f, g) == 0
  {
  }

  lemma WrapsOnce(x: nat)
    requires WORD <= x < 2 * WORD
    ensures Wrap(x) == x - WORD
  {
  }

  /** Later times give no fewer ticks, for all times up to `b`, exactly if the
      tick count of `b` fits 64 bits. */
  lemma NsToTicksMonotone(b: nat, freq: nat)
    requires b < WORD && freq <= 18446744092
    ensures (forall a: nat, c: nat | a <= c <= b :: NsToTicks(a, freq) <= NsToTicks(c, freq)) <==>
      b * freq / GIGA < WORD
  {
    if Scale(b, freq, GIGA) < WORD {
      forall a: nat, c: nat | a <= c <= b ensures NsToTicks(a, freq) <= NsToTicks(c, freq) {
        TicksOrdered(a, c, b, freq);
      }
    } else {
      var c := ScaleFalls(b, freq, GIGA);
      NsToTicksExact(c, freq);
      NsToTicksExact(c + 1, freq);
    }
  }

  lemma TicksOrdered(a: nat, c: nat, b: nat, freq: nat)
    requires a <= c <= b < WORD && freq <= 18446744092 && Scale(b, freq, GIGA) < WORD
    ensures NsToTicks(a, freq) <= NsToTicks(c, freq)
  {
    NsToTicksExact(a, freq);
    NsToTicksExact(c, freq);
    ScaleMonotone(a, c, freq, GIGA);
    ScaleMonotone(c, b, freq, GIGA);
  }

  // ---------- Ticks to nanoseconds ----------

  lemma CyclesFit(freq: nat)
    requires freq > 0
    ensures (forall ticks: nat :: ticks < WORD ==> ticks % freq * GIGA < WORD) <==> freq <= 18446744074
  {
    if freq <= 18446744074 {
      forall ticks: nat | ticks < WORD ensures ticks % freq * GIGA < WORD {
        RemainderBelow(ticks, freq);
      }
    } else {
      var ticks: nat := 18446744074;
      SmallRemainder(ticks, freq);
      assert ticks < WORD && ticks % freq * GIGA >= WORD;
    }
  }

  lemma RemainderBelow(a: nat, m: nat)
    requires m > 0
    ensures a % m <= m - 1
  {
  }

  lemma SmallRemainder(a: nat, m: nat)
    requires a < m
    ensures a % m == a
  {
  }

  lemma TicksToNsExact(ticks: nat, freq: nat)
    requires ticks < WORD && 0 < freq <= 18446744074
    ensures TicksToNs(ticks, freq) == Wrap(ticks * GIGA / freq)
  {
    var s: nat, r: nat := ticks / freq, ticks % freq;
    RemainderBelow(ticks, freq);
    SplitFloor(ticks, GIGA, freq);
    Assemble(s * GIGA, r * GIGA, freq, ticks * GIGA / freq);
  }

  /** The clock does not run backwards, for all counter values up to `b`,
      exactly if the time at `b` fits 64 bits. */
  lemma TicksMonotone(b: nat, freq: nat)
    requires b < WORD && 0 < freq <= 18446744074
    ensures (forall a: nat, c: nat | a <= c <= b :: TicksToNs(a, freq) <= TicksToNs(c, freq)) <==>
      b * GIGA / freq < WORD
  {
    if Scale(b, GIGA, freq) < WORD {
      forall a: nat, c: nat | a <= c <= b ensures TicksToNs(a, freq) <= TicksToNs(c, freq) {
        NsOrdered(a, c, b, freq);
      }
    } else {
      var c := ScaleFalls(b, GIGA, freq);
      TicksToNsExact(c, freq);
      TicksToNsExact(c + 1, freq);
    }
  }

  lemma NsOrdered(a: nat, c: nat, b: nat, freq: nat)
    requires a <= c <= b < WORD && 0 < freq <= 18446744074 && Scale(b, GIGA, freq) < WORD
    ensures TicksToNs(a, freq) <= TicksToNs(c, freq)
  {
    TicksToNsExact(a, freq);
    TicksToNsExact(c, freq);
    ScaleMonotone(a, c, GIGA, freq);
    ScaleMonotone(c, b, GIGA, freq);
  }

  /** With a counter of at least 1 GHz the clock never runs backwards. */
  lemma TimeMonotone(a: nat, b: nat, boot: nat, freq: nat)
    requires boot <= a <= b < WORD && GIGA <= freq <= 18446744074
    ensures TimeNs(a, boot, freq) <= TimeNs(b, boot, freq)
  {
    ScaleShrinks(b - boot, GIGA, freq);
    NsOrdered(a - boot, b - boot, b - boot, freq);
  }

  lemma ScaleShrinks(x: nat, f: nat, g: nat)
    requires 0 < g && f <= g
    ensures Scale(x, f, g) <= x
  {
    Ordered(f, g, x);
    Floor(x * f, g);
    var q := Scale(x, f, g);
    if q > x {
      Ordered(x + 1, q, g);
      Distribute(x, 1, g);
    }
  }

  lemma TicksToNsFits(ticks: nat, freq: nat, ns: nat)
    requires ticks < WORD && 0 < freq <= 18446744074 && ns == ticks * GIGA / freq < WORD
    ensures TicksToNs(ticks, freq) == ns
  {
    TicksToNsExact(ticks, freq);
  }

  // ---------- There and back ----------

  lemma FloorsLose(n: nat, f: nat, g: nat) returns (t: nat, back: nat)
    requires 0 < g <= f
    ensures t == n * f / g && back == t * g / f && n - 1 <= back <= n
  {
    t := n * f / g;
    back := t * g / f;
    Floor(n * f, g);
    Floor(t * g, f);
    FloorsBetween(n, f, g, t, back);
  }

  lemma FloorsBetween(n: nat, f: nat, g: nat, t: nat, back: nat)
    requires 0 < g <= f && t * g <= n * f < t * g + g && back * f <= t * g < back * f + f
    ensures n - 1 <= back <= n
  {
    Distribute(n, 1, f);
    Distribute(back, 2, f);
    if back > n {
      Ordered(n + 1, back, f);
    }
    if back + 1 < n {
      Ordered(back + 2, n, f);
    }
  }

  /** With a counter of at least 1 GHz a time survives the round trip to ticks
      and back up to one nanosecond. */
  lemma RoundTrip(ns: nat, freq: nat)
    requires ns < WORD && GIGA <= freq <= 18446744074 && ns * freq / GIGA < WORD
    ensures ns - 1 <= TicksToNs(NsToTicks(ns, freq), freq) <= ns
  {
    var ticks, back := FloorsLose(ns, freq, GIGA);
    BackAndForth(ns, freq, ticks, back);
  }

  lemma BackAndForth(ns: nat, freq: nat, ticks: nat, back: nat)
    requires ns < WORD && 0 < freq <= 18446744074 && ticks == ns * freq / GIGA < WORD
    requires back == ticks * GIGA / freq < WORD
    ensures NsToTicks(ns, freq) == ticks && TicksToNs(ticks, freq) == back
  {
    NsToTicksExact(ns, freq);
    TicksToNsFits(ticks, freq, back);
  }

  /** A deadline armed in raw ticks is met within a nanosecond of its time. */
  lemma DeadlineTime(ns: nat, boot: nat, freq: nat)
    requires ns < WORD && GIGA <= freq <= 18446744074 && ns * freq / GIGA + boot < WORD
    ensures ns - 1 <= TimeNs(NsToRawTicks(ns, boot, freq), boot, freq) <= ns
  {
    var ticks, back := FloorsLose(ns, freq, GIGA);
    BackAndForth(ns, freq, ticks, back);
    RawTime(ns, boot, freq, ticks);
  }

  lemma RawTime(ns: nat, boot: nat, freq: nat, ticks: nat)
    requires freq > 0 && NsToTicks(ns, freq) == ticks && ticks + boot < WORD
    ensures TimeNs(NsToRawTicks(ns, boot, freq), boot, freq) == TicksToNs(ticks, freq)
  {
  }
}
