/** The progress-reporting rule of the chapter loop, WebToEpubNovel.py:84
    and 139. Only the decision to report is modelled; the percentage itself
    is printed with floating-point division and is not. */
module Progress {

  /** `max(total_chapters // 100, 1)`: one hundredth of the chapter count,
      rounded down, but never below one. */
  function ProgressInterval(total: nat): (r: nat)
    ensures r >= 1
    ensures total >= 100 ==> r * 100 <= total < (r + 1) * 100
    ensures total < 100 ==> r == 1
  {
    if total / 100 > 1 then total / 100 else 1
  }

  /** Whether the chapter at 1-based position `index` prints a progress line. */
  predicate ShouldReport(index: nat, total: nat)
  {
    index % ProgressInterval(total) == 0 || index == total
  }

  /** The last position and every multiple of the interval are reported;
      any other reported position is a whole number of intervals. */
  lemma ReportedPositions(index: nat, total: nat)
    ensures ShouldReport(total, total)
    ensures ShouldReport(index * ProgressInterval(total), total)
    ensures ShouldReport(index, total) ==>
      index == total || index == index / ProgressInterval(total) * ProgressInterval(total)
  {
    var p := ProgressInterval(total);
    assert (index * p) % p == 0 by {
      MultipleModulo(index, p);
    }
  }

  lemma MultipleModulo(k: nat, p: nat)
    requires p >= 1
    ensures (k * p) % p == 0
  {
    ModuloUnique(k * p, p, k, 0);
  }

  /** The remainder is the unique `r` in `[0, p)` with `a == q * p + r`. */
  lemma ModuloUnique(a: int, p: int, q: int, r: int)
    requires p >= 1 && 0 <= r < p && a == q * p + r
    ensures a % p == r
  {
    var q', r' := a / p, a % p;
    assert (q - q') * p == r' - r;
    if q > q' {
      ProductAtLeast(q - q', p);
    } else if q < q' {
      ProductAtLeast(q' - q, p);
    }
  }

  lemma ProductAtLeast(d: int, p: int)
    requires d >= 1 && p >= 1
    ensures d * p >= p
  {
  }

  /** From every position of the book, a reported position is less than one
      interval away, and the interval is at most one percent of the book once
      it has a hundred chapters or more: progress is printed at least once
      every percent. */
  lemma ReportGap(index: nat, total: nat)
    requires 1 <= index <= total
    ensures exists j :: index <= j < index + ProgressInterval(total) && j <= total && ShouldReport(j, total)
    ensures total >= 100 ==> ProgressInterval(total) * 100 <= total
  {
    var p := ProgressInterval(total);
    var m := (index + p - 1) / p * p;
    assert index <= m < index + p by {
      DivisionBounds(index + p - 1, p);
    }
    MultipleModulo((index + p - 1) / p, p);
    if m <= total {
      assert ShouldReport(m, total);
    } else {
      assert ShouldReport(total, total);
    }
  }

  lemma DivisionBounds(n: nat, p: nat)
    requires p >= 1
    ensures n - p < n / p * p <= n
  {
  }
}
