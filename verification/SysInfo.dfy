/** The memory figures of `sysinfo`, for native callers and for 32-bit ones. */
module SysInfo {
  import opened Powers

  // The values an `unsigned long`, and a 32-bit word, can take.
  const WORD: nat := 0x1_0000_0000_0000_0000
  const HALF_WORD: nat := 0x1_0000_0000

  // The memory figures of the record, all counted in units of `memUnit` bytes.
  const TOTALRAM := 0
  const FREERAM := 1
  const SHAREDRAM := 2
  const BUFFERRAM := 3
  const TOTALSWAP := 4
  const FREESWAP := 5
  const TOTALHIGH := 6
  const FREEHIGH := 7
  const FIGURES := 8

  type Word = x: nat | x < WORD
  type Figures = s: seq<Word> | |s| == FIGURES witness [0, 0, 0, 0, 0, 0, 0, 0]

  /** `v` doubled `n` times. */
  function Doubled(v: nat, n: nat): nat {
    if n == 0 then v else 2 * Doubled(v, n - 1)
  }

  function FloorLog2(n: nat): nat {
    if n <= 1 then 0 else 1 + FloorLog2(n / 2)
  }

  predicate PowerOfTwo(n: nat) {
    n == Pow2(FloorLog2(n))
  }

  function ShiftLeft(s: Figures, n: nat): Figures {
    seq(FIGURES, i requires 0 <= i < FIGURES => Doubled(s[i], n) % WORD)
  }

  function ShiftRight(s: Figures, n: nat): Figures {
    seq(FIGURES, i requires 0 <= i < FIGURES => Quotient(s[i], Pow2(n)))
  }

  function Quotient(x: Word, p: nat): (q: Word)
    requires 0 < p
  {
    x / p
  }

  function Upper32(x: Word): (u: nat)
    ensures u == 0 <==> x < HALF_WORD
  {
    x / HALF_WORD
  }

  function Total(s: Figures): nat {
    s[TOTALRAM] as int + s[TOTALSWAP] as int
  }

  /** No figure exceeds the total it is a part of. */
  predicate PartsOfTotals(s: Figures) {
    && s[FREERAM] <= s[TOTALRAM] && s[SHAREDRAM] <= s[TOTALRAM] && s[BUFFERRAM] <= s[TOTALRAM]
    && s[TOTALHIGH] <= s[TOTALRAM] && s[FREEHIGH] <= s[TOTALRAM]
    && s[FREESWAP] <= s[TOTALSWAP]
  }

  /** The figures in bytes, unless all memory in bytes is more than a word can count. */
  function InBytes(s: Figures, unit: nat): (Figures, nat) {
    if Doubled(Total(s), FloorLog2(unit)) >= WORD then (s, unit) else (ShiftLeft(s, FloorLog2(unit)), 1)
  }

  /** The figures in pages, if a total does not fit 32 bits as it is. */
  function InPages(s: Figures, unit: nat, page: nat): (Figures, nat) {
    if s[TOTALRAM] < HALF_WORD && s[TOTALSWAP] < HALF_WORD then (s, unit)
    else if FloorLog2(page) <= FloorLog2(unit) then (s, unit)
    else (ShiftRight(s, FloorLog2(page) - FloorLog2(unit)), page)
  }

  lemma {:induction false} DoubledMonotone(v: nat, w: nat, n: nat)
    requires v <= w
    ensures Doubled(v, n) <= Doubled(w, n)
  {
    if n != 0 {
      DoubledMonotone(v, w, n - 1);
    }
  }

  lemma {:induction false} DoubledGrows(v: nat, m: nat, n: nat)
    requires m <= n
    ensures Doubled(v, m) <= Doubled(v, n)
    ensures m < n ==> 2 * Doubled(v, m) <= Doubled(v, n)
    decreases n
  {
    if m < n {
      DoubledGrows(v, m, n - 1);
    }
  }

  lemma {:induction false} DoubledTwice(v: nat, m: nat, n: nat)
    ensures Doubled(Doubled(v, m), n) == Doubled(v, m + n)
  {
    if n != 0 {
      DoubledTwice(v, m, n - 1);
    }
  }

  lemma {:induction false} DoubledIsProduct(v: nat, n: nat)
    ensures Doubled(v, n) == v * Pow2(n)
  {
    if n != 0 {
      DoubledIsProduct(v, n - 1);
    }
  }

  lemma Pow2IsDoubled(n: nat)
    ensures Pow2(n) == Doubled(1, n)
  {
    DoubledIsProduct(1, n);
  }

  /** The record both calls fill in and rescale. */
  class Info {
    var figures: Figures
    var memUnit: nat

    /** `do_sysinfo`, after the kernel has filled in the figures. */
    method DoSysinfo()
      requires memUnit < HALF_WORD
      modifies this
      ensures figures == InBytes(old(figures), old(memUnit)).0 && memUnit == InBytes(old(figures), old(memUnit)).1
    {
      hide ShiftLeft;
      ghost var total, bits := Total(figures), FloorLog2(memUnit);
      var memTotal := (figures[TOTALRAM] as int + figures[TOTALSWAP] as int) % WORD;
      SumWraps(figures[TOTALRAM], figures[TOTALSWAP]);
      if memTotal < figures[TOTALRAM] || memTotal < figures[TOTALSWAP] {
        DoubledGrows(total, 0, bits);
        return;
      }
      var bitcount: nat := 0;
      var unit := memUnit;
      while unit > 1
        invariant figures == old(figures) && memUnit == old(memUnit)
        invariant bits == bitcount + FloorLog2(unit)
        invariant memTotal == Doubled(total, bitcount) < WORD
        decreases unit
      {
        bitcount := bitcount + 1;
        unit := unit / 2;
        var savTotal := memTotal;
        memTotal := memTotal * 2 % WORD;
        DoublingWraps(savTotal);
        if memTotal < savTotal {
          DoubledGrows(total, bitcount, bits);
          return;
        }
      }
      assert FloorLog2(unit) == 0 && bitcount == bits;
      memUnit := 1;
      figures := ShiftLeft(figures, bitcount);
    }

    /** What the 32-bit call does next, up to copying the record out. */
    method RescaleForCompat(page: nat)
      requires PowerOfTwo(memUnit) && PowerOfTwo(page) && page < HALF_WORD
      modifies this
      ensures figures == InPages(old(figures), old(memUnit), page).0 && memUnit == InPages(old(figures), old(memUnit), page).1
    {
      hide Upper32, Doubled, FloorLog2, Pow2, ShiftRight;
      if Upper32(figures[TOTALRAM]) != 0 || Upper32(figures[TOTALSWAP]) != 0 {
        var bitcount: nat := 0;
        ghost var from, to := FloorLog2(memUnit), FloorLog2(page);
        while memUnit < page
          invariant memUnit == Pow2(from + bitcount)
          invariant bitcount == 0 || from + bitcount <= to
          invariant figures == old(figures)
          decreases page - memUnit
        {
          BelowPage(from + bitcount, to);
          memUnit := memUnit * 2 % HALF_WORD;
          bitcount := bitcount + 1;
        }
        PageReached(from + bitcount, to);
        PageReached(from, to);
        ShiftByNothing(figures);
        figures := ShiftRight(figures, bitcount);
      }
    }
  }

  /** The sum test, and the one-bit test, notice every overflow and nothing else. */
  lemma SumWraps(x: Word, y: Word)
    ensures var sum := (x as int + y as int) % WORD;
            (sum < x || sum < y <==> WORD <= x as int + y as int) && (WORD <= x as int + y as int || sum == x as int + y as int)
  {
  }

  lemma DoublingWraps(x: Word)
    ensures (x * 2 % WORD < x <==> WORD <= x * 2) && (WORD <= x * 2 || x * 2 % WORD == x * 2)
  {
  }

  lemma BelowPage(m: nat, n: nat)
    requires Pow2(m) < Pow2(n) < HALF_WORD
    ensures m < n && Pow2(m) < Pow2(m) * 2 % HALF_WORD == Pow2(m + 1) <= Pow2(n)
  {
    Pow2IsDoubled(m);
    Pow2IsDoubled(n);
    if n <= m {
      DoubledGrows(1, n, m);
    } else {
      DoubledGrows(1, m, n);
    }
  }

  lemma PageReached(m: nat, n: nat)
    ensures Pow2(n) <= Pow2(m) <==> n <= m
  {
    Pow2IsDoubled(m);
    Pow2IsDoubled(n);
    if n <= m {
      DoubledGrows(1, n, m);
    } else {
      DoubledGrows(1, m, n);
    }
  }

  lemma ShiftByNothing(s: Figures)
    ensures ShiftRight(s, 0) == s
  {
  }

  // ----- nothing is lost -----

  lemma PartOfTotal(s: Figures, i: nat)
    requires PartsOfTotals(s) && i < FIGURES
    ensures s[i] <= Total(s)
  {
    assert i == 0 || i == 1 || i == 2 || i == 3 || i == 4 || i == 5 || i == 6 || i == 7;
  }

  /** When the scaling goes ahead no figure overflows. */
  lemma InBytesValue(s: Figures, unit: nat, i: nat)
    requires PartsOfTotals(s) && i < FIGURES && Doubled(Total(s), FloorLog2(unit)) < WORD
    ensures InBytes(s, unit).0[i] == Doubled(s[i], FloorLog2(unit)) && InBytes(s, unit).1 == 1
  {
    hide Total, PartsOfTotals, Doubled, FloorLog2;
    PartOfTotal(s, i);
    DoubledMonotone(s[i], Total(s), FloorLog2(unit));
    assert ShiftLeft(s, FloorLog2(unit))[i] == Doubled(s[i], FloorLog2(unit)) % WORD;
  }

  lemma InBytesKeepsParts(s: Figures, unit: nat)
    requires PartsOfTotals(s)
    ensures PartsOfTotals(InBytes(s, unit).0)
  {
    var bits := FloorLog2(unit);
    if Doubled(Total(s), bits) < WORD {
      hide Total, InBytes, Doubled;
      forall j, k | 0 <= j < FIGURES && 0 <= k < FIGURES && s[j] <= s[k]
        ensures InBytes(s, unit).0[j] <= InBytes(s, unit).0[k]
      {
        InBytesValue(s, unit, j);
        InBytesValue(s, unit, k);
        DoubledMonotone(s[j], s[k], bits);
      }
    }
  }

  /** Scaling to bytes is exact for every figure. */
  lemma InBytesIsExact(s: Figures, unit: nat, i: nat)
    requires PowerOfTwo(unit) && PartsOfTotals(s) && i < FIGURES
    ensures var (s', unit') := InBytes(s, unit);
            s'[i] * unit' == s[i] * unit && PowerOfTwo(unit') && unit' <= unit
  {
    if Doubled(Total(s), FloorLog2(unit)) < WORD {
      InBytesValue(s, unit, i);
      DoubledIsProduct(s[i], FloorLog2(unit));
    }
  }

  /** When the scaling goes ahead, a unit that is not a power of two falsifies every figure but zero. */
  lemma InBytesExactly(s: Figures, unit: nat, i: nat)
    requires PartsOfTotals(s) && i < FIGURES && Doubled(Total(s), FloorLog2(unit)) < WORD
    ensures var (s', unit') := InBytes(s, unit);
            s'[i] * unit' == s[i] * unit <==> s[i] == 0 || PowerOfTwo(unit)
  {
    hide Doubled, Total, InBytes, PartsOfTotals, FloorLog2, Pow2;
    InBytesValue(s, unit, i);
    DoubledIsProduct(s[i], FloorLog2(unit));
    Cancel(s[i], unit, Pow2(FloorLog2(unit)));
  }

  /** The figures are counted in bytes afterwards exactly when a word can count all memory in bytes. */
  lemma CountsBytesExactly(s: Figures, unit: nat)
    requires PowerOfTwo(unit)
    ensures var (s', unit') := InBytes(s, unit);
            if Total(s) * unit < WORD then unit' == 1 && forall i :: 0 <= i < FIGURES ==> s'[i] == s[i] * unit % WORD
            else s' == s && unit' == unit
  {
    DoubledIsProduct(Total(s), FloorLog2(unit));
    forall i | 0 <= i < FIGURES && Total(s) * unit < WORD
      ensures InBytes(s, unit).0[i] == s[i] * unit % WORD
    {
      DoubledIsProduct(s[i], FloorLog2(unit));
    }
  }

  lemma Cancel(x: nat, y: nat, z: nat)
    ensures x * y == x * z <==> x == 0 || y == z
  {
    if y < z {
      MulMonotone(x, y + 1, z);
    } else if z < y {
      MulMonotone(x, z + 1, y);
    }
  }

  lemma MulMonotone(x: nat, y: nat, z: nat)
    requires y <= z
    ensures x * y <= x * z
  {
  }

  lemma DivideAndScale(v: nat, k: nat, unit: nat)
    requires 0 < k && 0 < unit
    ensures v / k * (k * unit) <= v * unit < v / k * (k * unit) + k * unit
  {
    var q, r := v / k, v % k;
    assert v == q * k + r;
    calc {
      v * unit;
      (q * k + r) * unit;
      q * k * unit + r * unit;
      q * (k * unit) + r * unit;
    }
    MulMonotone(unit, r + 1, k);
  }

  /**
   * What a 32-bit caller is told, multiplied by the unit it is told, is within a page below the
   * original number of bytes, and exactly that number when the kernel counts in pages.
   */
  lemma CompatIsWithinAPage(s: Figures, unit: nat, page: nat, i: nat)
    requires PowerOfTwo(unit) && PowerOfTwo(page) && unit <= page && PartsOfTotals(s) && i < FIGURES
    ensures var (s1, unit1) := InBytes(s, unit);
            var (s2, unit2) := InPages(s1, unit1, page);
            && s2[i] * unit2 <= s[i] * unit < s2[i] * unit2 + page
            && (unit == page ==> s2[i] * unit2 == s[i] * unit)
            && 0 < unit2 <= page
  {
    InBytesIsExact(s, unit, i);
    var (s1, unit1) := InBytes(s, unit);
    InPagesIsWithin(s1, unit1, page, i);
    var (s2, unit2) := InPages(s1, unit1, page);
    var bytes := s1[i] * unit1;
    hide *;
    if unit == page && unit2 == page {
      SameQuotient(s2[i], s[i], page);
    }
  }

  lemma InPagesIsWithin(s: Figures, unit: nat, page: nat, i: nat)
    requires PowerOfTwo(unit) && PowerOfTwo(page) && unit <= page && i < FIGURES
    ensures var (s', unit') := InPages(s, unit, page);
            && s'[i] * unit' <= s[i] * unit < s'[i] * unit' + page && 0 < unit' <= page
            && (unit' != page ==> s'[i] * unit' == s[i] * unit)
  {
    var from, to := FloorLog2(unit), FloorLog2(page);
    if (s[TOTALRAM] >= HALF_WORD || s[TOTALSWAP] >= HALF_WORD) && from < to {
      assert InPages(s, unit, page).0[i] == s[i] / Pow2(to - from);
      hide InPages, FloorLog2;
      PowersDivide(from, to);
      DivideAndScale(s[i], Pow2(to - from), unit);
    }
  }

  /**
   * The 32-bit caller is told whole pages exactly when a total takes more than 32 bits, each figure
   * rounded down; otherwise what the native caller is told.
   */
  lemma CountsPagesExactly(s: Figures, unit: nat, page: nat, i: nat)
    requires PowerOfTwo(unit) && PowerOfTwo(page) && unit < page && i < FIGURES
    ensures var (s', unit') := InPages(s, unit, page);
            if s[TOTALRAM] < 0x1_0000_0000 && s[TOTALSWAP] < 0x1_0000_0000 then s' == s && unit' == unit
            else unit' == page && s'[i] == s[i] * unit / page
  {
    PageReached(FloorLog2(page), FloorLog2(unit));
    InPagesIsWithin(s, unit, page, i);
    var (s', unit') := InPages(s, unit, page);
    if HALF_WORD <= s[TOTALRAM] || HALF_WORD <= s[TOTALSWAP] {
      var bytes := s[i] * unit;
      hide *;
      RoundedDown(s'[i], bytes, page);
    }
  }

  lemma RoundedDown(q: nat, x: nat, k: nat)
    requires q * k <= x < q * k + k
    ensures q == x / k
  {
    var r := x / k;
    assert r * k <= x < r * k + k by {
      assert x == k * r + x % k;
    }
    NextProduct(q, r, k);
    NextProduct(r, q, k);
  }

  lemma PowersDivide(m: nat, n: nat)
    requires m <= n
    ensures Pow2(n - m) * Pow2(m) == Pow2(n)
  {
    Pow2IsDoubled(m);
    Pow2IsDoubled(n);
    DoubledTwice(1, m, n - m);
    DoubledIsProduct(Pow2(m), n - m);
  }

  lemma SameQuotient(q: nat, m: nat, k: nat)
    requires q * k <= m * k < q * k + k
    ensures q == m
  {
    NextProduct(q, m, k);
    NextProduct(m, q, k);
  }

  lemma NextProduct(x: nat, y: nat, k: nat)
    ensures x < y ==> x * k + k <= y * k
  {
    if x < y {
      MulMonotone(k, x + 1, y);
    }
  }

  /** A figure survives being cut to 32 bits exactly when 2^32 pages would hold it. */
  lemma CompatFitsExactly(s: Figures, unit: nat, page: nat, i: nat)
    requires PowerOfTwo(unit) && PowerOfTwo(page) && unit <= page && PartsOfTotals(s) && i < FIGURES
    ensures var (s1, unit1) := InBytes(s, unit);
            var (s2, _) := InPages(s1, unit1, page);
            s2[i] < HALF_WORD <==> s[i] * unit < HALF_WORD * page
  {
    hide *;
    CompatIsWithinAPage(s, unit, page, i);
    LargeIsInPages(s, unit, page, i);
    var (s1, unit1) := InBytes(s, unit);
    var (s2, unit2) := InPages(s1, unit1, page);
    var bytes := s[i] * unit;
    FitsExactly(s2[i], unit2, page, bytes, HALF_WORD);
  }

  lemma LargeIsInPages(s: Figures, unit: nat, page: nat, i: nat)
    requires PowerOfTwo(unit) && PowerOfTwo(page) && unit <= page && PartsOfTotals(s) && i < FIGURES
    ensures var (s1, unit1) := InBytes(s, unit);
            var (s2, unit2) := InPages(s1, unit1, page);
            HALF_WORD <= s2[i] ==> unit2 == page
  {
    InBytesIsExact(s, unit, i);
    InBytesKeepsParts(s, unit);
    var (s1, unit1) := InBytes(s, unit);
    PageReached(FloorLog2(unit1), FloorLog2(page));
    hide InBytes, FloorLog2, Doubled, Pow2, ShiftRight;
    assert s1[TOTALRAM] < HALF_WORD && s1[TOTALSWAP] < HALF_WORD ==> s1[i] < HALF_WORD by {
      assert i == 0 || i == 1 || i == 2 || i == 3 || i == 4 || i == 5 || i == 6 || i == 7;
    }
  }

  lemma FitsExactly(q: nat, unit: nat, page: nat, bytes: nat, bound: nat)
    requires q * unit <= bytes < q * unit + page && unit <= page
    requires bound <= q ==> unit == page
    ensures q < bound <==> bytes < bound * page
  {
    if q < bound {
      MulMonotone(q, unit, page);
      MulMonotone(page, q + 1, bound);
    } else {
      MulMonotone(page, bound, q);
    }
  }
}
