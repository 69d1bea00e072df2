/** do_sysinfo and compat sysinfo: rescaling memory counters between units
    without losing bits (kernel/sys.c). */
module SysInfo {
  import opened Machine

  const PAGE_SIZE: nat := 4096
  const TWO32: nat := 0x1_0000_0000

  // The counters, in declaration order.
  const TOTALRAM: nat := 0
  const FREERAM: nat := 1
  const SHAREDRAM: nat := 2
  const BUFFERRAM: nat := 3
  const TOTALSWAP: nat := 4
  const FREESWAP: nat := 5
  const TOTALHIGH: nat := 6
  const FREEHIGH: nat := 7

  type Counters = c: seq<u64> | |c| == 8 witness seq(8, _ => 0)

  function Pow2(k: nat): (p: nat) {
    Times(1, k)
  }

  /** `x` doubled `k` times. */
  function Times(x: nat, k: nat): nat {
    if k == 0 then x else 2 * Times(x, k - 1)
  }

  /** `x` halved `k` times, rounding down. */
  function Halved(x: nat, k: nat): (h: nat)
    ensures h <= x
  {
    if k == 0 then x else Halved(x, k - 1) / 2
  }

  /** Number of halvings until at most 1 is left. */
  function Log2(n: nat): nat {
    if n <= 1 then 0 else 1 + Log2(n / 2)
  }

  /** Number of doublings of a unit until it is at least a page. */
  function Doublings(unit: nat): (n: nat)
    requires unit >= 1
    decreases PAGE_SIZE - unit
  {
    if unit >= PAGE_SIZE then 0 else 1 + Doublings(2 * unit)
  }

  function HalvedWord(x: u64, k: nat): u64 {
    Halved(x, k)
  }

  /** `c << k` and `c >> k` on 64-bit words. */
  function ShiftedLeft(c: Counters, k: nat): Counters {
    seq(8, i requires 0 <= i < 8 => Low64(Times(c[i], k)))
  }

  function ShiftedRight(c: Counters, k: nat): Counters {
    seq(8, i requires 0 <= i < 8 => HalvedWord(c[i], k))
  }

  // ----- arithmetic of doubling and halving

  lemma {:induction false} TimesIsProduct(x: nat, k: nat)
    ensures Times(x, k) == x * Pow2(k)
  {
    if k > 0 {
      TimesIsProduct(x, k - 1);
      assert x * (2 * Pow2(k - 1)) == 2 * (x * Pow2(k - 1));
    }
  }

  lemma {:induction false} TimesMonotone(x: nat, y: nat, k: nat)
    requires x <= y
    ensures Times(x, k) <= Times(y, k)
    ensures x < y ==> Times(x, k) < Times(y, k)
  {
    if k > 0 {
      TimesMonotone(x, y, k - 1);
    }
  }

  lemma {:induction false} TimesGrows(x: nat, j: nat, k: nat)
    requires j <= k
    ensures Times(x, j) <= Times(x, k)
    decreases k - j
  {
    if j < k {
      TimesGrows(x, j, k - 1);
    }
  }

  lemma {:induction false} TimesTwice(x: nat, j: nat, k: nat)
    ensures Times(Times(x, j), k) == Times(x, j + k)
  {
    if k > 0 {
      TimesTwice(x, j, k - 1);
    }
  }

  lemma {:induction false} HalvedEarly(x: nat, k: nat)
    requires k > 0
    ensures Halved(x, k) == Halved(x / 2, k - 1)
  {
    if k > 1 {
      HalvedEarly(x, k - 1);
    }
  }

  /** Halving undoes doubling, and doubling a halved value misses less than one unit. */
  lemma {:induction false} HalvedTimes(x: nat, k: nat)
    ensures Halved(Times(x, k), k) == x
    ensures Times(Halved(x, k), k) <= x < Times(Halved(x, k) + 1, k)
  {
    if k > 0 {
      HalvedEarly(Times(x, k), k);
      assert Times(x, k) / 2 == Times(x, k - 1);
      HalvedTimes(x, k - 1);
      HalvedEarly(x, k);
      HalvedTimes(x / 2, k - 1);
    }
  }

  // ----- the two calls

  /** RAM and swap together, counted in bytes, fit in a word. */
  predicate BytesFit(c: Counters, unit: nat) {
    Times(Total(c), Log2(unit)) < TWO64
  }

  function Total(c: Counters): nat {
    var ram: int, swap: int := c[TOTALRAM], c[TOTALSWAP];
    ram + swap
  }

  /** The loop shifts the total and compares it with its value before the shift. */
  method DoSysinfo(c0: Counters, unit0: nat) returns (c: Counters, unit: nat)
    ensures (c, unit) == Scaled(c0, unit0)
  {
    c, unit := c0, unit0;
    var memTotal: int := U64(Total(c0));
    if memTotal < c0[TOTALRAM] || memTotal < c0[TOTALSWAP] {
      TimesGrows(Total(c0), 0, Log2(unit0));
      return;
    }
    var bitcount := 0;
    var memUnit := unit0;
    while memUnit > 1
      invariant bitcount + Log2(memUnit) == Log2(unit0)
      invariant 0 <= memTotal < TWO64 && memTotal == Times(Total(c0), bitcount)
    {
      bitcount := bitcount + 1;
      memUnit := memUnit / 2;
      var savTotal := memTotal;
      memTotal := U64(2 * savTotal);
      if memTotal < savTotal {
        TimesGrows(Total(c0), bitcount, Log2(unit0));
        return;
      }
    }
    unit := 1;
    c := ShiftedLeft(c0, bitcount);
  }

  function Scaled(c: Counters, unit: nat): (Counters, nat) {
    if BytesFit(c, unit) then (ShiftedLeft(c, Log2(unit)), 1) else (c, unit)
  }

  predicate NeedsScaling(c: Counters) {
    c[TOTALRAM] >= TWO32 || c[TOTALSWAP] >= TWO32
  }

  /** compat sysinfo, up to the copy into 32-bit fields.  A unit of 0 would keep the source's loop going for ever. */
  method CompatRescale(c0: Counters, unit0: nat) returns (c: Counters, unit: nat)
    requires unit0 >= 1
    ensures (c, unit) == Rescaled(c0, unit0)
  {
    c, unit := c0, unit0;
    if c[TOTALRAM] / TWO32 != 0 || c[TOTALSWAP] / TWO32 != 0 {
      var bitcount := 0;
      while unit < PAGE_SIZE
        invariant unit >= 1 && unit == Times(unit0, bitcount)
        invariant bitcount + Doublings(unit) == Doublings(unit0)
        decreases PAGE_SIZE - unit
      {
        unit := 2 * unit;
        bitcount := bitcount + 1;
      }
      c := ShiftedRight(c0, bitcount);
    }
  }

  function Rescaled(c: Counters, unit: nat): (Counters, nat)
    requires unit >= 1
  {
    if NeedsScaling(c) then (ShiftedRight(c, Doublings(unit)), Times(unit, Doublings(unit))) else (c, unit)
  }

  // ----- what the rescaling means

  /** Free, shared, buffered and high memory are parts of what they are taken from. */
  predicate PartsWithinTotals(c: Counters) {
    && c[FREERAM] <= c[TOTALRAM] && c[SHAREDRAM] <= c[TOTALRAM] && c[BUFFERRAM] <= c[TOTALRAM]
    && c[TOTALHIGH] <= c[TOTALRAM] && c[FREEHIGH] <= c[TOTALRAM] && c[FREESWAP] <= c[TOTALSWAP]
  }

  lemma {:induction false} LogOfPow(k: nat)
    ensures Log2(Pow2(k)) == k && Pow2(k) >= 1
  {
    if k > 0 {
      LogOfPow(k - 1);
      assert Pow2(k) / 2 == Pow2(k - 1) && Pow2(k) > 1;
    }
  }

  /** Scaling keeps the byte counts: what was counted in units of 2^k is now counted in the new unit. */
  lemma ScaledBytes(c: Counters, k: nat, i: nat)
    requires PartsWithinTotals(c) && i < 8
    ensures var (d, unit) := Scaled(c, Pow2(k));
            if BytesFit(c, Pow2(k)) then unit == 1 && d[i] == Times(c[i], k) else unit == Pow2(k) && d == c
  {
    LogOfPow(k);
    if BytesFit(c, Pow2(k)) {
      TimesMonotone(c[i], Total(c), k);
    }
  }

  /** For a power-of-two unit no byte is lost or invented: every counter times its unit is preserved,
      and the counters stay as they were only when their sum in bytes would overflow. */
  lemma ScalingPreservesBytes(c: Counters, k: nat, i: nat)
    requires PartsWithinTotals(c) && i < 8
    ensures var (d, unit) := Scaled(c, Pow2(k));
            && d[i] * unit == c[i] * Pow2(k)
            && (unit == 1 <==> k == 0 || Total(c) * Pow2(k) < TWO64)
  {
    ScaledBytes(c, k, i);
    LogOfPow(k);
    TimesIsProduct(c[i], k);
    TimesIsProduct(Total(c), k);
    if k > 0 {
      LogOfPow(k - 1);
    }
  }

  lemma {:induction false} DoublingsOfPow(k: nat)
    requires k <= 12
    ensures Pow2(k) >= 1 && Doublings(Pow2(k)) == 12 - k && Pow2(12) == PAGE_SIZE
    decreases 12 - k
  {
    assert Pow2(4) == 16 && Times(Pow2(4), 4) == 256 && Times(Times(Pow2(4), 4), 4) == PAGE_SIZE;
    TimesTwice(1, 4, 4);
    TimesTwice(1, 8, 4);
    LogOfPow(k);
    if k < 12 {
      DoublingsOfPow(k + 1);
      TimesMonotone(1, 2, 12 - k - 1);
      TimesTwice(1, k, 12 - k);
      TimesGrows(1, k, 11);
    }
  }

  /** Scaling up and then down loses less than one new unit per counter. */
  lemma CompatLosesLessThanAUnit(c: Counters, k: nat, i: nat)
    requires PartsWithinTotals(c) && i < 8
    ensures Scaled(c, Pow2(k)).1 >= 1
    ensures var (d, unit) := Scaled(c, Pow2(k));
            var (e, unit') := Rescaled(d, unit);
            && e[i] * unit' <= c[i] * Pow2(k) < (e[i] + 1) * unit'
            && (unit' == unit || unit' == PAGE_SIZE)
  {
    var (d, unit) := Scaled(c, Pow2(k));
    ScaledBytes(c, k, i);
    LogOfPow(k);
    var j := if BytesFit(c, Pow2(k)) then 0 else k;
    TimesIsProduct(c[i], k);
    assert c[i] * Pow2(k) == Times(d[i], j);
    RescaleLoss(d, j, i);
  }

  lemma RescaleLoss(d: Counters, j: nat, i: nat)
    requires i < 8
    ensures Pow2(j) >= 1
    ensures var (e, unit') := Rescaled(d, Pow2(j));
            && e[i] * unit' <= Times(d[i], j) < (e[i] + 1) * unit'
            && (unit' == Pow2(j) || unit' == PAGE_SIZE)
  {
    LogOfPow(j);
    UnscaledBytes(d[i], j);
    if NeedsScaling(d) {
      if j <= 12 {
        RescaledSmallUnit(d, j, i);
      } else {
        LargeUnitStays(j);
        assert Rescaled(d, Pow2(j)).0[i] == HalvedWord(d[i], 0) == d[i];
      }
    }
  }

  lemma LargeUnitStays(j: nat)
    requires j > 12
    ensures Pow2(j) >= PAGE_SIZE && Doublings(Pow2(j)) == 0
  {
    DoublingsOfPow(12);
    TimesGrows(1, 12, j);
  }

  lemma RescaledSmallUnit(d: Counters, j: nat, i: nat)
    requires j <= 12 && i < 8 && NeedsScaling(d)
    ensures Pow2(j) >= 1
    ensures var (e, unit') := Rescaled(d, Pow2(j));
            unit' == PAGE_SIZE && e[i] * PAGE_SIZE <= Times(d[i], j) < (e[i] + 1) * PAGE_SIZE
  {
    RescaledToPage(d, j, i);
    PageBytes(d[i], j);
  }

  lemma RescaledToPage(d: Counters, j: nat, i: nat)
    requires j <= 12 && i < 8 && NeedsScaling(d)
    ensures Pow2(j) >= 1
    ensures var (e, unit') := Rescaled(d, Pow2(j)); e[i] == Halved(d[i], 12 - j) && unit' == PAGE_SIZE
  {
    DoublingsOfPow(j);
    TimesTwice(1, j, 12 - j);
  }

  lemma PageBytes(x: nat, j: nat)
    requires j <= 12
    ensures var h := Halved(x, 12 - j); h * PAGE_SIZE <= Times(x, j) < (h + 1) * PAGE_SIZE
  {
    HalvedTimes(x, 12 - j);
    RescaledBytes(x, Halved(x, 12 - j), j);
  }

  lemma UnscaledBytes(x: nat, j: nat)
    ensures x * Pow2(j) == Times(x, j) < (x + 1) * Pow2(j)
  {
    TimesIsProduct(x, j);
    TimesIsProduct(x + 1, j);
    TimesMonotone(x, x + 1, j);
  }

  lemma RescaledBytes(x: nat, h: nat, j: nat)
    requires j <= 12 && Times(h, 12 - j) <= x < Times(h + 1, 12 - j)
    ensures h * PAGE_SIZE <= Times(x, j) < (h + 1) * PAGE_SIZE
  {
    DoublingsOfPow(12);
    TimesMonotone(Times(h, 12 - j), x, j);
    TimesMonotone(x, Times(h + 1, 12 - j), j);
    TimesTwice(h, 12 - j, j);
    TimesTwice(h + 1, 12 - j, j);
    TimesIsProduct(h, 12);
    TimesIsProduct(h + 1, 12);
  }

  /** Counters that start in pages come back exactly whenever the 32-bit call scales at all. */
  lemma PagesRoundTrip(c: Counters, i: nat)
    requires PartsWithinTotals(c) && i < 8
    ensures Scaled(c, PAGE_SIZE).1 >= 1
    ensures var (d, unit) := Scaled(c, PAGE_SIZE);
            var (e, unit') := Rescaled(d, unit);
            if NeedsScaling(d) then unit' == PAGE_SIZE && e[i] == c[i]
            else unit' == 1 && e[i] == c[i] * PAGE_SIZE
  {
    DoublingsOfPow(12);
    DoublingsOfPow(0);
    ScaledBytes(c, 12, i);
    HalvedTimes(c[i], 12);
    TimesIsProduct(c[i], 12);
    LogOfPow(12);
    TimesIsProduct(Total(c), 12);
    if !BytesFit(c, PAGE_SIZE) {
      assert NeedsScaling(c);
    }
  }

  /** The copy into 32-bit fields then truncates nothing exactly when RAM and swap are below 2^32 pages each. */
  lemma CompatFieldsFit(c: Counters)
    requires PartsWithinTotals(c)
    ensures Scaled(c, PAGE_SIZE).1 >= 1
    ensures var (d, unit) := Scaled(c, PAGE_SIZE);
            (forall i :: 0 <= i < 8 ==> Rescaled(d, unit).0[i] < TWO32) <==> c[TOTALRAM] < TWO32 && c[TOTALSWAP] < TWO32
  {
    PagesRoundTrip(c, TOTALRAM);
    PagesRoundTrip(c, TOTALSWAP);
    var (d, unit) := Scaled(c, PAGE_SIZE);
    var e := Rescaled(d, unit).0;
    forall i | 0 <= i < 8
      ensures e[i] == if NeedsScaling(d) then c[i] else c[i] * PAGE_SIZE
    {
      PagesRoundTrip(c, i);
    }
    assert e[TOTALRAM] == if NeedsScaling(d) then c[TOTALRAM] else d[TOTALRAM];
    assert e[TOTALSWAP] == if NeedsScaling(d) then c[TOTALSWAP] else d[TOTALSWAP];
  }
}
