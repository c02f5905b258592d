/** The size attributes of a COS file: `size`, `format_size` and its helper `human_rep`.
    The source computes the unit with a floating-point logarithm and renders with
    "%.2f"; this model uses exact integer arithmetic throughout: the exponent is the
    largest power of 1024 not above the size, and the rendered number is the size in
    that unit rounded half-up to hundredths. */
module SizeFormat {
  import opened Wrappers
  import opened Decimal

  const StorageUnits: seq<string> := ["B", "KB", "MB", "GB"]
  const StorageBase: nat := 1024
  /** Index of the largest unit, GB. */
  const MaxExponent: nat := |StorageUnits| - 1

  function Pow(b: nat, e: nat): nat
  {
    if e == 0 then 1 else b * Pow(b, e - 1)
  }

  lemma {:induction false} PowMonotonic(b: nat, i: nat, j: nat)
    requires b >= 1 && i <= j
    ensures 1 <= Pow(b, i) <= Pow(b, j)
    decreases j
  {
    if i < j {
      PowMonotonic(b, i, j - 1);
    } else if j > 0 {
      PowMonotonic(b, 0, j - 1);
    }
  }

  /** `filesize.to_i`: an absent size is 0. */
  function ToI(filesize: Option<int>): int
  {
    if filesize.Some? then filesize.value else 0
  }

  /** `filesize.to_s`: an absent size renders as the empty string. */
  function ToS(filesize: Option<int>): string
  {
    if filesize.Some? then IntToString(filesize.value) else ""
  }

  /** Searches upwards from exponent e for the exponent of `human_rep`: it stops at GB or
      at the first e whose next power of 1024 exceeds the size. */
  function ExponentFrom(bytes: int, e: nat): (r: nat)
    requires e <= MaxExponent && Pow(StorageBase, e) <= bytes
    ensures e <= r <= MaxExponent
    ensures Pow(StorageBase, r) <= bytes
    ensures r < MaxExponent ==> bytes < Pow(StorageBase, r + 1)
    decreases MaxExponent - e
  {
    if e == MaxExponent || bytes < Pow(StorageBase, e + 1) then e else ExponentFrom(bytes, e + 1)
  }

  /** The exponent `human_rep` picks for a positive size: floor(log_1024(bytes)),
      clamped at the index of GB. */
  function Exponent(bytes: int): (e: nat)
    requires bytes >= 1
    ensures e <= MaxExponent && Pow(StorageBase, e) <= bytes
    ensures e < MaxExponent ==> bytes < Pow(StorageBase, e + 1)
  {
    ExponentFrom(bytes, 0)
  }

  /** The exponent is the LARGEST one up to GB whose power of 1024 fits in the size. */
  lemma ExponentIsLargest(bytes: int, k: nat)
    requires bytes >= 1 && k <= MaxExponent && Pow(StorageBase, k) <= bytes
    ensures k <= Exponent(bytes)
  {
    var e := Exponent(bytes);
    if e < k {
      PowMonotonic(StorageBase, e + 1, k);
    }
  }

  /** An exact non-negative rational number num / den. */
  datatype Fraction = Fraction(num: nat, den: nat)

  /** What `human_rep` returns: the size in the chosen unit (as an exact fraction) and
      the index of that unit in StorageUnits. */
  datatype HumanSize = HumanSize(size: Fraction, exponent: nat)

  /** `human_rep(bytes)`: the size scaled down by 1024^exponent. The scaled size is at
      least 1, and below 1024 unless the unit was clamped at GB. */
  function HumanRep(bytes: int): (rep: HumanSize)
    requires bytes >= 1
    ensures rep.exponent <= MaxExponent && rep.size.den >= 1
    ensures rep.size.num * Pow(StorageBase, rep.exponent) == bytes * rep.size.den
    ensures rep.size.den <= rep.size.num
    ensures rep.exponent < MaxExponent ==> rep.size.num < StorageBase * rep.size.den
  {
    var e := Exponent(bytes);
    PowMonotonic(StorageBase, 0, e);
    HumanSize(Fraction(bytes, Pow(StorageBase, e)), e)
  }

  /** `Float#round(2)` of num / den, counted in hundredths: the nearest integer to
      100 * num / den, with a tie rounded up (away from zero, as num is non-negative). */
  function RoundHundredths(num: nat, den: nat): (h: nat)
    requires den > 0
    ensures (2 * h - 1) * den <= 200 * num < (2 * h + 1) * den
  {
    var t := 200 * num + den;
    var q := t / (2 * den);
    assert t == 2 * den * q + t % (2 * den);
    q
  }

  /** `COSFile#format_size`. Below 1024 bytes: the Ruby text of the size and "B". From
      1024 on: the size in the unit `human_rep` picks, with two decimals, and the unit.
      The no-decimals branch for unit "B" is kept as the source has it; the lemma
      FormatSizeScaled shows it is never taken. */
  function FormatSize(filesize: Option<int>): string
  {
    var bytes := ToI(filesize);
    if bytes < StorageBase then ToS(filesize) + StorageUnits[0]
    else
      var rep := HumanRep(bytes);
      var number :=
        if rep.exponent > 0 then FixedTwo(RoundHundredths(rep.size.num, rep.size.den))
        else IntToString(rep.size.num);  // "%.0f": the byte unit has denominator 1
      number + StorageUnits[rep.exponent]
  }

  /** Below 1024 bytes (an absent size counts as 0) the text is the size's own Ruby text
      followed by "B"; for an absent size that text is empty. */
  lemma FormatSizeBytes(filesize: Option<int>)
    requires ToI(filesize) < StorageBase
    ensures filesize.Some? ==> FormatSize(filesize) == IntToString(filesize.value) + "B"
    ensures filesize.None? ==> FormatSize(filesize) == "B"
  {
  }

  /** From 1024 bytes on, the text is h hundredths with exactly two decimals, followed by
      KB, MB or GB (never B, never past GB); the unit is the largest one whose power of
      1024 fits in the size, and h is the size in that unit rounded half-up. */
  lemma FormatSizeScaled(filesize: Option<int>)
    requires ToI(filesize) >= StorageBase
    ensures var bytes := ToI(filesize);
      var e := Exponent(bytes);
      var d := Pow(StorageBase, e);
      var h := RoundHundredths(bytes, d);
      && 1 <= e <= MaxExponent
      && StorageUnits[e] in {"KB", "MB", "GB"}
      && d <= bytes && (e < MaxExponent ==> bytes < StorageBase * d)
      && FormatSize(filesize) == FixedTwo(h) + StorageUnits[e]
      && (2 * h - 1) * d <= 200 * bytes < (2 * h + 1) * d
  {
    var bytes := ToI(filesize);
    var e := Exponent(bytes);
    assert Pow(StorageBase, 1) == StorageBase;
    ExponentIsLargest(bytes, 1);
    assert e + 1 - 1 == e;
  }

  /** Worked values of format_size. */
  lemma FormatSizeSmallExamples()
    ensures FormatSize(Some(0)) == "0B"
    ensures FormatSize(Some(1023)) == "1023B"
  {
  }

  lemma FormatSizeKilobyteExample()
    ensures FormatSize(Some(1024)) == "1.00KB"
  {
    assert Exponent(1024) == 1 && RoundHundredths(1024, 1024) == 100;
    assert FixedTwo(100) == "1.00";
  }

  lemma FormatSizeHalfKilobyteExample()
    ensures FormatSize(Some(1536)) == "1.50KB"
  {
    assert Exponent(1536) == 1 && RoundHundredths(1536, 1024) == 150;
    assert FixedTwo(150) == "1.50";
  }

  lemma FormatSizeMegabyteExample()
    ensures FormatSize(Some(1572864)) == "1.50MB"
  {
    assert Exponent(1572864) == 2 && RoundHundredths(1572864, 1048576) == 150;
    assert FixedTwo(150) == "1.50";
  }

  /** A tie in the hundredths rounds up: 1152 bytes is exactly 1.125 KB. */
  lemma FormatSizeTieExample()
    ensures FormatSize(Some(1152)) == "1.13KB"
  {
    assert Exponent(1152) == 1;
    assert RoundHundredths(1152, 1024) == 113;
    assert FixedTwo(113) == "1.13";
  }

  /** 1024^4 bytes stays in GB rather than moving to a fifth unit. */
  lemma FormatSizeClampExample()
    ensures FormatSize(Some(1099511627776)) == "1024.00GB"
  {
    assert Pow(1024, 3) == 1073741824;
    assert Exponent(1099511627776) == 3;
    assert RoundHundredths(1099511627776, 1073741824) == 102400;
    assert FixedTwo(102400) == "1024.00";
  }

  /** An absent size and a negative size both take the byte branch. */
  lemma FormatSizeEdgeExamples()
    ensures FormatSize(None) == "B"
    ensures FormatSize(Some(-5)) == "-5B"
  {
  }
}
