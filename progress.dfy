/**
 * The three progress callbacks of the download loop and the choice between
 * them. Each callback is modelled by the quantities it computes (percent,
 * sizes, bar geometry, the completion newline) or by the exception it raises;
 * the printed text itself is left abstract. Python's true division is
 * modelled as exact `real` division (not as a rounded double) and `int()`
 * truncates toward zero.
 */
module Progress {
  import opened Wrappers
  import opened SizeFormat

  /** `report_bar`, `report_onlysize` or `report_unknown`. */
  datatype Reporter = Bar | OnlySize | Unknown

  /** The exceptions a callback can raise. */
  datatype ReportError =
    | ZeroDivision              // a known total of 0
    | BadSize(cause: SizeError) // from approximate_size
    | IntStrComparison          // `int >= str` under Python 3

  /** What one callback call computes. `fill` is the number of '=' and
      `spaces` the number of ' ' around the single '>' of the bar. */
  datatype Report =
    | BarReport(percent: int, current: Approx, total: Approx, shaded: int, fill: nat, spaces: nat, newline: bool)
    | SizeReport(percent: int, current: Approx, total: Approx, newline: bool)
    | UnknownReport(current: Approx, newline: bool)

  /** The console width the bar needs more than to be drawn at all. */
  const BarThreshold: int := 57

  /** The room the text around the bar takes, on POSIX and on Windows. */
  const PosixReserve: int := 57
  const WindowsReserve: int := 59

  /** The reporter picked once the response headers are known. */
  function ChooseReporter(total: Option<int>, consoleWidth: int): Reporter
  {
    if total.Some? then
      if consoleWidth > BarThreshold then Bar else OnlySize
    else Unknown
  }

  /** AVAIL_WIDTH: the number of cells between the brackets of the bar;
      two more are kept free on Windows to avoid a line feed. */
  function AvailWidth(consoleWidth: int, windows: bool): int
  {
    if windows then consoleWidth - WindowsReserve else consoleWidth - PosixReserve
  }

  /** Python's `int(x)` on a float: truncation toward zero. */
  function TruncReal(x: real): int
  {
    if x >= 0.0 then x.Floor else -((-x).Floor)
  }

  /** `text * n` has length `max(0, n)`: a negative count repeats nothing. */
  function Repeats(n: int): nat
  {
    if n < 0 then 0 else n
  }

  /** `int(bytes_so_far * 100 / total_size)`. */
  function Percent(bytes: nat, total: int): int
    requires total != 0
  {
    TruncReal((bytes * 100) as real / total as real)
  }

  /** `int(float(bytes_so_far) / total_size * AVAIL_WIDTH)`. */
  function Shaded(bytes: nat, total: int, avail: int): int
    requires total != 0
  {
    TruncReal(bytes as real / total as real * avail as real)
  }

  /** `report_bar(bytes_so_far, total_size, ...)`, in the order its
      expressions are evaluated: the percent (division by the total), the two
      sizes, then the bar; the newline guard comes last. */
  function ReportBar(bytes: nat, total: int, avail: int): (r: Result<Report, ReportError>)
    ensures r == Failure(ZeroDivision) <==> total == 0
    ensures r == Failure(BadSize(Negative)) ==> total < 0
    ensures total < 0 ==> r.Failure?
    ensures r.Success? <==> total > 0 && Approximate(bytes as real, true).Success? && Approximate(total as real, true).Success?
    ensures r.Success? ==> total > 0 && r.value.BarReport?
    ensures r.Success? ==> (r.value.newline <==> bytes >= total)
    ensures r.Success? ==> r.value.percent == bytes * 100 / total
    ensures r.Success? ==> r.value.current == Approximate(bytes as real, true).value
    ensures r.Success? ==> r.value.total == Approximate(total as real, true).value
    ensures r.Success? && avail >= 0 ==> r.value.shaded == bytes * avail / total
  {
    if total == 0 then Failure(ZeroDivision)
    else
      var percent := Percent(bytes, total);
      assert total > 0 ==> percent == bytes * 100 / total by {
        if total > 0 {
          PercentBounds(bytes, total);
        }
      }
      match Approximate(bytes as real, true)
      case Failure(e) => Failure(BadSize(e))
      case Success(current) =>
        match Approximate(total as real, true)
        case Failure(e) => Failure(BadSize(e))
        case Success(totalText) =>
          var shaded := Shaded(bytes, total, avail);
          assert avail >= 0 ==> shaded == bytes * avail / total by {
            if avail >= 0 {
              ShadedIsQuotient(bytes, total, avail);
            }
          }
          Success(BarReport(percent, current, totalText, shaded, Repeats(shaded - 1), Repeats(avail - shaded), bytes >= total))
  }

  /** `report_onlysize`: the same percent and sizes, no bar. */
  function ReportOnlySize(bytes: nat, total: int): (r: Result<Report, ReportError>)
    ensures r == Failure(ZeroDivision) <==> total == 0
    ensures r == Failure(BadSize(Negative)) ==> total < 0
    ensures total < 0 ==> r.Failure?
    ensures r.Success? <==> total > 0 && Approximate(bytes as real, true).Success? && Approximate(total as real, true).Success?
    ensures r.Success? ==> total > 0 && r.value.SizeReport?
    ensures r.Success? ==> (r.value.newline <==> bytes >= total)
    ensures r.Success? ==> r.value.percent == bytes * 100 / total
    ensures r.Success? ==> r.value.current == Approximate(bytes as real, true).value
    ensures r.Success? ==> r.value.total == Approximate(total as real, true).value
  {
    if total == 0 then Failure(ZeroDivision)
    else
      var percent := Percent(bytes, total);
      assert total > 0 ==> percent == bytes * 100 / total by {
        if total > 0 {
          PercentBounds(bytes, total);
        }
      }
      match Approximate(bytes as real, true)
      case Failure(e) => Failure(BadSize(e))
      case Success(current) =>
        match Approximate(total as real, true)
        case Failure(e) => Failure(BadSize(e))
        case Success(totalText) => Success(SizeReport(percent, current, totalText, bytes >= total))
  }

  /** `report_unknown` as written: it is only ever handed the string
      'unknown' as total, and `bytes_so_far >= 'unknown'` raises TypeError
      under Python 3 once the size has been formatted. */
  function ReportUnknownAsWritten(bytes: nat, total: Option<int>): (r: Result<Report, ReportError>)
    ensures total.None? ==> r.Failure?
  {
    match Approximate(bytes as real, true)
    case Failure(e) => Failure(BadSize(e))
    case Success(current) =>
      match total
      case None => Failure(IntStrComparison)
      case Some(t) => Success(UnknownReport(current, bytes >= t))
  }

  /** `report_unknown` with the comparison guarded: the newline is written
      only when there is a numeric total and it has been reached (under
      Python 2 an int never compares >= a str, so no newline was printed). */
  function ReportUnknown(bytes: nat, total: Option<int>): (r: Result<Report, ReportError>)
    ensures r.Failure? ==> r.error == BadSize(TooLarge)
    ensures r.Success? ==> r.value.UnknownReport? && (r.value.newline <==> total.Some? && bytes >= total.value)
  {
    match Approximate(bytes as real, true)
    case Failure(e) => Failure(BadSize(e))
    case Success(current) => Success(UnknownReport(current, total.Some? && bytes >= total.value))
  }

  /** The callback the loop calls, with the total as the loop holds it
      (`None` for 'unknown'). A known-size reporter is never picked for an
      unknown total, so that case does not arise. */
  function Call(reporter: Reporter, bytes: nat, total: Option<int>, avail: int): Result<Report, ReportError>
    requires reporter != Unknown ==> total.Some?
  {
    match reporter
    case Bar => ReportBar(bytes, total.value, avail)
    case OnlySize => ReportOnlySize(bytes, total.value)
    case Unknown => ReportUnknown(bytes, total)
  }

  // --------------------------------------------------------------- properties

  /** The three-way choice: the size decides between unknown and the other
      two, and only then does the width matter. */
  lemma ChooseReporterCases(total: Option<int>, consoleWidth: int)
    ensures ChooseReporter(total, consoleWidth) == Unknown <==> total.None?
    ensures ChooseReporter(total, consoleWidth) == Bar <==> total.Some? && consoleWidth > 57
    ensures ChooseReporter(total, consoleWidth) == OnlySize <==> total.Some? && consoleWidth <= 57
    ensures ChooseReporter(total, consoleWidth) != Unknown ==> total.Some?
  {
  }

  /** Where the bar is drawn it has room for at least one cell on POSIX; on
      Windows, consoles of 58 and 59 columns leave it -1 or 0 cells. */
  lemma BarRoom(total: Option<int>, consoleWidth: int, windows: bool)
    requires ChooseReporter(total, consoleWidth) == Bar
    ensures AvailWidth(consoleWidth, windows) >= -1
    ensures AvailWidth(consoleWidth, windows) < 1 <==> windows && consoleWidth <= 59
  {
  }

  /** On a non-negative ratio, truncation is integer division. */
  lemma {:induction false} TruncRatio(n: int, d: int)
    requires n >= 0 && d > 0
    ensures TruncReal(n as real / d as real) == n / d
  {
    var q := n / d;
    var rest := n % d;
    assert n == q * d + rest;
    assert n as real / d as real == q as real + rest as real / d as real;
    assert 0.0 <= rest as real / d as real < 1.0;
  }

  /** The percent is the integer quotient `bytes * 100 / total`, lies in
      0..100 while the count has not passed the total, and is 100 exactly
      when the count equals the total. */
  lemma PercentBounds(bytes: nat, total: int)
    requires total > 0
    ensures Percent(bytes, total) == bytes * 100 / total
    ensures bytes <= total ==> 0 <= Percent(bytes, total) <= 100
    ensures bytes <= total ==> (Percent(bytes, total) == 100 <==> bytes == total)
  {
    TruncRatio(bytes * 100, total);
    if bytes < total {
      assert bytes * 100 < total * 100;
      DivBelow(bytes * 100, total, 100);
    } else if bytes == total {
      DivExact(total, 100);
    }
  }

  /** `n < d * k` with `n >= 0` gives a quotient below `k`. */
  lemma DivBelow(n: int, d: int, k: int)
    requires n >= 0 && d > 0 && n < d * k
    ensures n / d < k
  {
    var q := n / d;
    assert n == q * d + n % d;
  }

  /** Dividing `d * k` by `d` gives back `k`. */
  lemma DivExact(d: int, k: int)
    requires d > 0
    ensures (d * k) / d == k
  {
    var n := d * k;
    var q := n / d;
    assert n == q * d + n % d;
    assert (k - q) * d == n % d;
    if q < k {
      MulAtLeast(k - q, d);
    } else if q > k {
      MulAtLeast(q - k, d);
    }
  }

  lemma MulAtLeast(m: int, d: int)
    requires m >= 1 && d > 0
    ensures m * d >= d
  {
    assert m * d == (m - 1) * d + d;
  }

  /** `n <= d * k` with `n >= 0` gives a quotient at most `k`. */
  lemma DivAtMost(n: int, d: int, k: int)
    requires n >= 0 && d > 0 && n <= d * k
    ensures n / d <= k
  {
    var q := n / d;
    assert n == q * d + n % d;
  }

  /** The number of shaded cells is `bytes * avail / total`, so it stays
      between 0 and the bar width and fills the bar exactly at completion. */
  lemma {:induction false} ShadedBounds(bytes: nat, total: int, avail: int)
    requires total > 0 && avail >= 0 && bytes <= total
    ensures Shaded(bytes, total, avail) == bytes * avail / total
    ensures 0 <= Shaded(bytes, total, avail) <= avail
    ensures bytes == total ==> Shaded(bytes, total, avail) == avail
  {
    ShadedIsQuotient(bytes, total, avail);
    assert bytes * avail <= total * avail by {
      assert (total - bytes) * avail >= 0;
    }
    DivAtMost(bytes * avail, total, avail);
    if bytes == total {
      DivExact(total, avail);
    }
  }

  lemma ShadedIsQuotient(bytes: nat, total: int, avail: int)
    requires total > 0 && avail >= 0
    ensures Shaded(bytes, total, avail) == bytes * avail / total
  {
    assert bytes as real / total as real * avail as real == (bytes * avail) as real / total as real;
    TruncRatio(bytes * avail, total);
  }

  /** The drawn bar: once at least one cell is shaded (and no more than the
      width), '=' cells, the '>' and the spaces fill exactly the width; with
      nothing shaded the '>' sticks out one cell beyond it. */
  lemma BarInteriorWidth(bytes: nat, total: int, avail: int)
    requires ReportBar(bytes, total, avail).Success?
    ensures var b := ReportBar(bytes, total, avail).value;
      && (1 <= b.shaded <= avail ==> b.fill + 1 + b.spaces == avail)
      && (b.shaded == 0 && avail >= 0 ==> b.fill + 1 + b.spaces == avail + 1)
  {
  }

  /** Every callback of a known size writes its newline exactly when the
      count has reached the total; the corrected unknown-size callback
      never raises the comparison error and never writes one without a total. */
  lemma NewlineGuard(reporter: Reporter, bytes: nat, total: Option<int>, avail: int)
    requires reporter != Unknown ==> total.Some?
    requires Call(reporter, bytes, total, avail).Success?
    ensures Call(reporter, bytes, total, avail).value.newline <==> total.Some? && bytes >= total.value
  {
  }

  /** The finding: as written, every unknown-size report of a count that can
      be formatted raises, so the first non-empty chunk aborts the download. */
  lemma ReportUnknownAsWrittenRaises(bytes: nat)
    requires Approximate(bytes as real, true).Success?
    ensures ReportUnknownAsWritten(bytes, None) == Failure(IntStrComparison)
    ensures ReportUnknown(bytes, None).Success?
    ensures !ReportUnknown(bytes, None).value.newline
  {
  }
}
