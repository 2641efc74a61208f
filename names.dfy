/**
  Attribute names of the per-probe files: `"probe"` followed by the decimal
  digits of the probe ordinal, built with `snprintf(number, 16, "%d", i-2)` and
  copied behind the prefix (usbtemp.c lines 124-151), and read back by `show`
  with `kstrtol(&name[5], 10, &probe_pos)` (line 504).
 */
module Names {
  import opened Wrappers

  const PROBE_PREFIX: string := "probe"
  const RESCAN_NAME: string := "temp_rescan"
  const RESTART_NAME: string := "temp_restart"

  /** The largest value a `long` holds on the 64-bit kernels the driver targets. */
  const LONG_MAX: nat := 0x7FFF_FFFF_FFFF_FFFF

  predicate IsDigit(c: char) {
    '0' <= c <= '9'
  }

  predicate AllDigits(s: string) {
    forall i :: 0 <= i < |s| ==> IsDigit(s[i])
  }

  function DigitChar(d: nat): (c: char)
    requires d < 10
    ensures IsDigit(c)
  {
    ('0' as int + d) as char
  }

  /** `"%d"` of a non-negative number: no sign, no leading zeros. */
  function DecimalString(n: nat): (s: string)
    ensures 1 <= |s| && AllDigits(s)
    ensures |s| > 1 ==> s[0] != '0'
  {
    if n < 10 then [DigitChar(n)] else DecimalString(n / 10) + [DigitChar(n % 10)]
  }

  /** The value of a string of decimal digits. */
  function DigitsValue(s: string): nat
    requires AllDigits(s)
  {
    if s == [] then 0 else 10 * DigitsValue(s[..|s| - 1]) + (s[|s| - 1] as int - '0' as int)
  }

  /** Base-10 parse as kstrtol does it for unsigned digit strings: at least one digit,
      nothing else, and the value must fit in a `long`. */
  function Kstrtol(s: string): (r: Option<int>)
    ensures r.Some? ==> 0 <= r.value <= LONG_MAX
    ensures r.Some? ==> s != [] && AllDigits(s)
  {
    if s != [] && AllDigits(s) && DigitsValue(s) <= LONG_MAX then Some(DigitsValue(s)) else None
  }

  /** The name of the attribute for probe ordinal `k` (slot `k + 2`). */
  function ProbeName(k: nat): (name: string)
    ensures |name| > |PROBE_PREFIX| && name[..|PROBE_PREFIX|] == PROBE_PREFIX
    ensures AllDigits(name[|PROBE_PREFIX|..])
  {
    PROBE_PREFIX + DecimalString(k)
  }

  /** What `show` recovers from an attribute name: the number after its first five characters. */
  function ProbeOrdinal(name: string): (r: Option<int>)
    requires |name| >= |PROBE_PREFIX|
    ensures r.Some? <==> |name| > |PROBE_PREFIX| && AllDigits(name[|PROBE_PREFIX|..])
                         && DigitsValue(name[|PROBE_PREFIX|..]) <= LONG_MAX
    ensures r.Some? ==> 0 <= r.value <= LONG_MAX
  {
    Kstrtol(name[|PROBE_PREFIX|..])
  }

  lemma {:induction false} DecimalRoundTrip(n: nat)
    ensures DigitsValue(DecimalString(n)) == n
    decreases n
  {
    var s := DecimalString(n);
    if n >= 10 {
      DecimalRoundTrip(n / 10);
      assert s[..|s| - 1] == DecimalString(n / 10);
    }
  }

  /** Parsing a probe name from offset 5 gives back its ordinal, whatever its digit count. */
  lemma ProbeNameRoundTrip(k: nat)
    requires k <= LONG_MAX
    ensures |ProbeName(k)| >= |PROBE_PREFIX|
    ensures ProbeOrdinal(ProbeName(k)) == Some(k)
  {
    assert ProbeName(k)[|PROBE_PREFIX|..] == DecimalString(k);
    DecimalRoundTrip(k);
  }

  /** Distinct ordinals get distinct names, so no two probe files collide. */
  lemma ProbeNameInjective(j: nat, k: nat)
    requires ProbeName(j) == ProbeName(k)
    ensures j == k
  {
    assert ProbeName(j)[|PROBE_PREFIX|..] == DecimalString(j);
    assert ProbeName(k)[|PROBE_PREFIX|..] == DecimalString(k);
    DecimalRoundTrip(j);
    DecimalRoundTrip(k);
  }

  /** No probe name is one of the two control attribute names. */
  lemma ProbeNameNotControl(k: nat)
    ensures ProbeName(k) != RESCAN_NAME && ProbeName(k) != RESTART_NAME
  {
    assert ProbeName(k)[0] == 'p';
  }
}
