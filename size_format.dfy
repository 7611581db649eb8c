/**
 * `approximate_size`: a byte count in units of 1024 (KiB, MiB, ...) or 1000
 * (KB, MB, ...). The size is divided by the unit multiple once per table entry
 * and the first quotient below the multiple is kept together with its unit.
 * Arithmetic is exact on `real`; the one-decimal text rendering is left abstract.
 */
module SizeFormat {
  import opened Wrappers

  const DecimalUnits: seq<string> := ["KB", "MB", "GB", "TB", "PB", "EB", "ZB", "YB"]
  const BinaryUnits: seq<string> := ["KiB", "MiB", "GiB", "TiB", "PiB", "EiB", "ZiB", "YiB"]

  /** The divisor: 1024 when a kilobyte is 1024 bytes, else 1000. */
  function Multiple(kibi: bool): real
  {
    if kibi then 1024.0 else 1000.0
  }

  function Units(kibi: bool): (u: seq<string>)
    ensures |u| == 8
  {
    if kibi then BinaryUnits else DecimalUnits
  }

  /** A quotient and the position of its unit in the suffix table
      ('{0:.1f}{1}' renders the quotient and `Suffix`). */
  datatype Approx = Approx(value: real, unit: nat)

  /** The suffix text of a formatted size. */
  function Suffix(a: Approx, kibi: bool): string
    requires a.unit < 8
  {
    Units(kibi)[a.unit]
  }

  /** The two ValueErrors: 'number must be non-negative', 'number too large'. */
  datatype SizeError = Negative | TooLarge

  function Pow(m: real, n: nat): (r: real)
    requires m > 0.0
    ensures r > 0.0
  {
    if n == 0 then 1.0 else m * Pow(m, n - 1)
  }

  /** After `k + 1` divisions the quotient is below the multiple. */
  predicate Fits(size: real, kibi: bool, k: nat)
  {
    size / Pow(Multiple(kibi), k + 1) < Multiple(kibi)
  }

  /** The loop of `approximate_size` once `q` has been divided `k` times. */
  function Scan(q: real, kibi: bool, k: nat): (r: Result<Approx, SizeError>)
    requires k <= 8
    ensures r.Failure? ==> r.error == TooLarge
    ensures r.Success? ==> k <= r.value.unit < 8
    decreases 8 - k
  {
    if k == 8 then Failure(TooLarge)
    else
      var q' := q / Multiple(kibi);
      if q' < Multiple(kibi) then Success(Approx(q', k))
      else Scan(q', kibi, k + 1)
  }

  /** What `approximate_size(size, kibi)` returns or raises. */
  function Approximate(size: real, kibi: bool): (r: Result<Approx, SizeError>)
    ensures r == Failure(Negative) <==> size < 0.0
  {
    if size < 0.0 then Failure(Negative) else Scan(size, kibi, 0)
  }

  /** The imperative form: one division per table entry, as the source's for-loop. */
  method ApproximateSize(size: real, kibi: bool) returns (r: Result<Approx, SizeError>)
    ensures r == Approximate(size, kibi)
  {
    if size < 0.0 {
      return Failure(Negative);
    }
    var multiple := Multiple(kibi);
    var q := size;
    for k := 0 to 8
      invariant Scan(q, kibi, k) == Scan(size, kibi, 0)
    {
      q := q / multiple;
      if q < multiple {
        return Success(Approx(q, k));
      }
    }
    return Failure(TooLarge);
  }

  lemma DivideAgain(size: real, m: real, k: nat)
    requires m > 0.0
    ensures size / Pow(m, k) / m == size / Pow(m, k + 1)
  {
    var p := Pow(m, k);
    assert Pow(m, k + 1) == m * p;
    calc {
      size / p / m;
      == { assert (size / p / m) * (m * p) == size; }
      size / (m * p);
    }
  }

  /** A quotient below the multiple stays below it after one more division. */
  lemma FitsPersists(size: real, kibi: bool, k: nat)
    requires size >= 0.0 && Fits(size, kibi, k)
    ensures Fits(size, kibi, k + 1)
  {
    var m := Multiple(kibi);
    DivideAgain(size, m, k + 1);
    assert size / Pow(m, k + 2) == size / Pow(m, k + 1) / m;
  }

  /** The scan ends at the first fitting entry, or raises when there is none. */
  lemma {:induction false} ScanFrom(size: real, kibi: bool, k: nat)
    requires k <= 8
    ensures Scan(size / Pow(Multiple(kibi), k), kibi, k) ==
      var j := FirstFitIndex(size, kibi, k);
      if j < 8 then Success(Approx(size / Pow(Multiple(kibi), j + 1), j))
      else Failure(TooLarge)
    decreases 8 - k
  {
    if k < 8 {
      DivideAgain(size, Multiple(kibi), k);
      if !Fits(size, kibi, k) {
        ScanFrom(size, kibi, k + 1);
      }
    }
  }

  /**
   * Negative sizes are rejected; otherwise the unit is the first table entry k
   * whose quotient size / m^(k+1) drops below m, and the value is that quotient.
   */
  lemma ApproximatePicksFirstFit(size: real, kibi: bool, k: nat)
    requires k < 8
    ensures Approximate(size, kibi).Success? && Approximate(size, kibi).value.unit == k
      <==> 0.0 <= size && Fits(size, kibi, k) && forall i :: 0 <= i < k ==> !Fits(size, kibi, i)
    ensures 0.0 <= size && Fits(size, kibi, k) && (forall i :: 0 <= i < k ==> !Fits(size, kibi, i)) ==>
      Approximate(size, kibi) == Success(Approx(size / Pow(Multiple(kibi), k + 1), k))
  {
    if 0.0 <= size {
      ScanFrom(size, kibi, 0);
      assert size / Pow(Multiple(kibi), 0) == size;
    }
  }

  /** The first index at or after `k` that fits, or 8 if none does. */
  function FirstFitIndex(size: real, kibi: bool, k: nat): (j: nat)
    requires k <= 8
    ensures k <= j <= 8
    ensures j < 8 ==> Fits(size, kibi, j)
    ensures forall i :: k <= i < j ==> !Fits(size, kibi, i)
    decreases 8 - k
  {
    if k == 8 || Fits(size, kibi, k) then k else FirstFitIndex(size, kibi, k + 1)
  }

  /** 'number too large' exactly when even the last unit leaves a quotient of at least m. */
  lemma TooLargeExactly(size: real, kibi: bool)
    ensures Approximate(size, kibi) == Failure(TooLarge)
      <==> 0.0 <= size && size / Pow(Multiple(kibi), 8) >= Multiple(kibi)
  {
    if 0.0 <= size {
      ScanFrom(size, kibi, 0);
      assert size / Pow(Multiple(kibi), 0) == size;
      var j := FirstFitIndex(size, kibi, 0);
      if j < 8 {
        var i := j;
        while i < 7
          invariant j <= i <= 7 && Fits(size, kibi, i)
        {
          FitsPersists(size, kibi, i);
          i := i + 1;
        }
        assert Fits(size, kibi, 7);
      }
    }
  }

  /** Sizes below one multiple are still shown in the first unit (KiB or KB). */
  lemma SmallSizesInFirstUnit(size: real, kibi: bool)
    requires 0.0 <= size < Multiple(kibi)
    ensures Approximate(size, kibi) == Success(Approx(size / Multiple(kibi), 0))
    ensures Suffix(Approximate(size, kibi).value, kibi) == if kibi then "KiB" else "KB"
  {
  }
}
