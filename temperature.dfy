/**
  The temperature decoder `print_temp` (usbtemp.c lines 85-95) and the
  `struct temp` it fills (lines 19-22).

  The raw sample is `low + (high << 8)` computed in `int`. When bit 0x800 is
  set the code applies `temperature || 0xFFFFF000`, a logical OR, which yields
  1 rather than a sign-extended value. The two results are stored into
  `uint8_t` fields, so both are reduced modulo 256. Every intermediate value
  is non-negative, so C's truncating division agrees with Dafny's `/`.
 */
module Temperature {
  import opened Wire

  datatype Temp = Temp(full: byte, decimal: byte)

  /** The 16-bit raw sample `low + (high << 8)`. */
  function Raw(low: byte, high: byte): nat {
    low as int + 256 * high as int
  }

  /** `0x800 & temperature` is non-zero. */
  predicate SignBit(raw: nat) {
    (raw / 0x800) % 2 == 1
  }

  /** C's `a || b` on two integers: 1 when either is non-zero, else 0. */
  function LogicalOr(a: int, b: int): int {
    if a != 0 || b != 0 then 1 else 0
  }

  /** `val * (temperature * 4)` after `val = temperature / 4; temperature = temperature / 16`. */
  function DecimalProduct(temperature: int): int {
    (temperature / 4) * ((temperature / 16) * 4)
  }

  function PrintTemp(low: byte, high: byte): Temp {
    var temperature := Raw(low, high);
    var adjusted := if SignBit(temperature) then LogicalOr(temperature, 0xFFFF_F000) else temperature;
    Temp(U8(adjusted / 16), U8(DecimalProduct(adjusted)))
  }

  /** No intermediate of print_temp leaves the range of a 32-bit `int`. */
  lemma DecimalProductFitsInt(low: byte, high: byte)
    ensures var t := Raw(low, high);
            0 <= DecimalProduct(t) <= 16383 * 16380 < 0x8000_0000
            && 0 <= DecimalProduct(if SignBit(t) then 1 else t)
  {
    var t := Raw(low, high);
    var a, b := t / 4, (t / 16) * 4;
    assert 0 <= a <= 16383 && 0 <= b <= 16380;
    MulMonotone(a, 16383, b, 16380);
  }

  lemma MulMonotone(a: int, x: int, b: int, y: int)
    requires 0 <= a <= x && 0 <= b <= y
    ensures 0 <= a * b <= x * y
  {
    assert a * b <= x * b;
    assert x * b <= x * y;
  }

  /** With bit 0x800 set the logical OR collapses the sample to 1, so the reading is 0.0. */
  lemma SignSetReadsZero(low: byte, high: byte)
    requires SignBit(Raw(low, high))
    ensures PrintTemp(low, high) == Temp(0, 0)
  {
  }

  /** With bit 0x800 clear, `full` is the sample's middle byte: the low nibble of `high`
      above the high nibble of `low`; it is then below 128. */
  lemma SignClearFull(low: byte, high: byte)
    requires !SignBit(Raw(low, high))
    ensures PrintTemp(low, high).full as int == (high as int % 16) * 16 + low as int / 16
    ensures PrintTemp(low, high).full < 128
  {
    var raw := Raw(low, high);
    var h, l := high as int, low as int;
    assert raw / 16 == 16 * h + l / 16;
    assert h == 16 * (h / 16) + h % 16;
    assert raw / 16 == 256 * (h / 16) + (16 * (h % 16) + l / 16);
    assert (raw / 16) % 256 == 16 * (h % 16) + l / 16;
    assert raw / 0x800 == h / 8;
    assert (h / 8) % 2 == 0;
    assert h % 16 < 8 by {
      assert h == 16 * (h / 16) + h % 16;
      assert h / 8 == 2 * (h / 16) + (h % 16) / 8;
    }
  }

  /** With bit 0x800 clear, `decimal` is `(16 f^2 + 4 f q) mod 256` where `f` is `full` and
      `q` is bits 2-3 of `low`: a multiple of 4 fixed by `full` and two bits of `low`,
      not a fractional digit. */
  lemma SignClearDecimal(low: byte, high: byte)
    requires !SignBit(Raw(low, high))
    ensures var t := PrintTemp(low, high);
            var f, q := t.full as int, (low as int / 4) % 4;
            t.decimal as int == (16 * f * f + 4 * f * q) % 256
    ensures PrintTemp(low, high).decimal as int % 4 == 0
  {
    var raw := Raw(low, high);
    var t := PrintTemp(low, high);
    ClearFields(low, high);
    QuarterBits(low, high);
    DecimalOfRaw(raw, t.full as int, (low as int / 4) % 4);
    MultipleOf4(t.full as int, (low as int / 4) % 4);
  }

  lemma ClearFields(low: byte, high: byte)
    requires !SignBit(Raw(low, high))
    ensures PrintTemp(low, high).full as int == (Raw(low, high) / 16) % 256
    ensures PrintTemp(low, high).decimal as int == DecimalProduct(Raw(low, high)) % 256
  {
  }

  lemma QuarterBits(low: byte, high: byte)
    ensures (Raw(low, high) / 4) % 4 == (low as int / 4) % 4
  {
    assert Raw(low, high) / 4 == 64 * high as int + low as int / 4;
  }

  lemma MultipleOf4(f: int, q: int)
    ensures ((16 * f * f + 4 * f * q) % 256) % 4 == 0
  {
    var s := 4 * f * f + f * q;
    assert 16 * f * f + 4 * f * q == 4 * s;
    Mod256OfMultipleOf4(s);
  }

  /** The product modulo 256 depends only on `raw / 16` modulo 256 and bits 2-3 of `raw`. */
  lemma DecimalOfRaw(raw: nat, f: int, q: int)
    requires f == (raw / 16) % 256 && q == (raw / 4) % 4
    ensures DecimalProduct(raw) % 256 == (16 * f * f + 4 * f * q) % 256
  {
    var F := raw / 16;
    assert raw / 4 == 4 * F + q;
    var k := F / 256;
    assert F == f + 256 * k;
    ProductExpansion(F, f, k, q);
    ModShift(16 * f * f + 4 * f * q, 32 * f * k + 4096 * k * k + 4 * k * q);
  }

  lemma ProductExpansion(F: int, f: int, k: int, q: int)
    requires F == f + 256 * k
    ensures (4 * F + q) * (4 * F) == 16 * f * f + 4 * f * q + 256 * (32 * f * k + 4096 * k * k + 4 * k * q)
  {
    assert F * F == f * f + 512 * f * k + 65536 * k * k;
    assert F * q == f * q + 256 * k * q;
  }

  lemma ModShift(a: int, m: int)
    ensures (a + 256 * m) % 256 == a % 256
  {
  }

  lemma Mod256OfMultipleOf4(s: int)
    ensures ((4 * s) % 256) % 4 == 0
  {
    assert 4 * s == 256 * (s / 64) + 4 * (s % 64);
    assert (4 * s) % 256 == 4 * (s % 64);
  }

  /** raw = 0x0100 reads as full 16 and decimal (64 * 64) mod 256 = 0. */
  lemma RawTwoFiftySix()
    ensures PrintTemp(0x00, 0x01) == Temp(16, 0)
  {
  }
}
