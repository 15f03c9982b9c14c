/**
 * The BME280 driver of user/bme280/bme280.c: bring-up (reset, chip id,
 * calibration, configuration), the assembly of raw readings from the
 * measurement registers and their check against the reset value, the
 * integer parts of the datasheet's compensation formulas, and the
 * standby-time table.
 *
 * The I2C transfers are not visible here: each one's HAL outcome, and the
 * bytes a read returns, are parameters, and every transfer is appended to
 * the device's `ops` log so that the order of the bring-up is observable.
 */
module Bme280 {
  import opened BitOps
  import opened Constants

  const BME280_NUM_CALIB_REG: nat := 33
  const BME280_NUM_MEAS_REG: nat := 8

  const REG_PRESS_MSB: u8 := 0xF7
  const REG_CONFIG: u8 := 0xF5
  const REG_CTRL_MEAS: u8 := 0xF4
  const REG_CTRL_HUM: u8 := 0xF2
  const REG_CALIB_32: u8 := 0xE7
  const REG_CALIB_26: u8 := 0xE1
  const REG_RESET: u8 := 0xE0
  const REG_ID: u8 := 0xD0
  const REG_CALIB_25: u8 := 0xA1
  const REG_CALIB_00: u8 := 0x88

  /** Chip id, start-up time in ms, and the soft-reset key. */
  const CID: u8 := 0x60
  const T_STARTUP: nat := 3
  const RESET_VAL: u8 := 0xB6

  /** bme280_status_t; the first four share their values with HAL_StatusTypeDef. */
  const BME280_OK: nat := 0
  const BME280_I2C_ERROR: nat := 1
  const BME280_I2C_BUSY: nat := 2
  const BME280_I2C_TIMEOUT: nat := 3
  const BME280_BAD_CHIP_ID: nat := 4
  const BME280_BAD_OUTPUT: nat := 5

  /** HAL_OK, HAL_ERROR, HAL_BUSY or HAL_TIMEOUT. */
  type HalStatus = x: nat | x <= 3

  /** One I2C read as the bus answered it: its HAL outcome and the bytes received. */
  datatype Transfer = Transfer(status: HalStatus, data: seq<u8>)

  /** A transfer on the I2C bus, or the start-up wait, as the chip sees them. */
  datatype Op = Write(reg: u8, value: u8) | Read(reg: u8, num: nat) | Delay(ticks: nat)

  /** The trimming parameters of bme280_dig_t, with the signed fields as signed integers. */
  datatype Calibration = Calibration(
    T1: int, T2: int, T3: int,
    P1: int, P2: int, P3: int, P4: int, P5: int, P6: int, P7: int, P8: int, P9: int,
    H1: int, H2: int, H3: int, H4: int, H5: int, H6: int)

  /** The temperature, pressure and humidity before their conversion to float. */
  datatype Reading = Reading(centiCelsius: int, pressureQ8: int, humidityQ10: int)

  // ---------------------------------------------------------------------
  // Raw readings and the reset-value check

  /** A 20-bit temperature or pressure: msb<<12 | lsb<<4 | xlsb>>4. */
  function RawTempPress(msb: u8, lsb: u8, xlsb: u8): (r: nat)
    ensures r < 0x10_0000 && r == msb * 0x1000 + lsb * 0x10 + xlsb / 0x10
  {
    Pow2Values();
    OrDisjoint(msb, 12, lsb * Pow2(4));
    assert msb * Pow2(12) + lsb * Pow2(4) == (msb * 0x100 + lsb) * Pow2(4);
    OrDisjoint(msb * 0x100 + lsb, 4, xlsb / 0x10);
    Or(Or(Shl(msb, 12), Shl(lsb, 4)), Shr(xlsb, 4))
  }

  /** A 16-bit humidity: msb<<8 | lsb. */
  function RawHumidity(msb: u8, lsb: u8): (r: nat)
    ensures r < 0x1_0000 && r == msb * 0x100 + lsb
  {
    Pow2Values();
    OrDisjoint(msb, 8, lsb);
    Or(Shl(msb, 8), lsb)
  }

  /** The three fields of a 20-bit raw value read back the register bits they came from. */
  lemma RawTempPressFields(msb: u8, lsb: u8, xlsb: u8)
    ensures var r := RawTempPress(msb, lsb, xlsb);
            r / 0x1000 == msb && r / 0x10 % 0x100 == lsb && r % 0x10 == xlsb / 0x10
  {
    var r := RawTempPress(msb, lsb, xlsb);
    DivModUnique(r, 0x1000, msb, lsb * 0x10 + xlsb / 0x10);
    DivModUnique(r, 0x10, msb * 0x100 + lsb, xlsb / 0x10);
    DivModUnique(msb * 0x100 + lsb, 0x100, msb, lsb);
  }

  /** bme280_meas_t: press msb, lsb, xlsb, temp msb, lsb, xlsb, hum msb, lsb. */
  datatype Raw = Raw(t: nat, p: nat, h: nat)

  function RawReading(meas: seq<u8>): (r: Raw)
    requires |meas| == BME280_NUM_MEAS_REG
    ensures r.t < 0x10_0000 && r.p < 0x10_0000 && r.h < 0x1_0000
  {
    Raw(RawTempPress(meas[3], meas[4], meas[5]), RawTempPress(meas[0], meas[1], meas[2]), RawHumidity(meas[6], meas[7]))
  }

  /** The reset-value test of BME280_ReadEnvironment as written: t and p against 0x80000000. */
  function ResetCheckAsWritten(r: Raw): (rc: nat)
    ensures rc == BME280_OK || rc == BME280_BAD_OUTPUT
  {
    if r.t == 0x8000_0000 || r.p == 0x8000_0000 || r.h == 0x8000 then BME280_BAD_OUTPUT else BME280_OK
  }

  /** The test against the registers' reset values 0x80000, 0x80000 and 0x8000. */
  function ResetCheck(r: Raw): (rc: nat)
    ensures rc == BME280_OK || rc == BME280_BAD_OUTPUT
  {
    if r.t == 0x8_0000 || r.p == 0x8_0000 || r.h == 0x8000 then BME280_BAD_OUTPUT else BME280_OK
  }

  /**
   * A 20-bit value never equals 0x80000000: as written, only the humidity
   * registers can flag a reading that is still at its reset value.
   */
  lemma ResetCheckAsWrittenMeaning(meas: seq<u8>)
    requires |meas| == BME280_NUM_MEAS_REG
    ensures ResetCheckAsWritten(RawReading(meas)) == BME280_BAD_OUTPUT <==> meas[6] == 0x80 && meas[7] == 0
  {
    var h := RawReading(meas).h;
    if h == 0x8000 {
      DivModUnique(h, 0x100, meas[6], meas[7]);
    }
  }

  /** A temperature held at its reset value while humidity is not passes the as-written test. */
  lemma ResetTemperatureAccepted()
    ensures var meas := [0x50, 0, 0, 0x80, 0, 0, 0x66, 0];
            ResetCheckAsWritten(RawReading(meas)) == BME280_OK
            && ResetCheck(RawReading(meas)) == BME280_BAD_OUTPUT
  {
    var meas: seq<u8> := [0x50, 0, 0, 0x80, 0, 0, 0x66, 0];
    assert RawReading(meas).t == 0x8_0000;
  }

  /** The corrected test flags exactly the readings where some measurement is at its reset value. */
  lemma ResetCheckMeaning(meas: seq<u8>)
    requires |meas| == BME280_NUM_MEAS_REG
    ensures ResetCheck(RawReading(meas)) == BME280_BAD_OUTPUT <==>
              (meas[3] == 0x80 && meas[4] == 0 && meas[5] < 0x10)
              || (meas[0] == 0x80 && meas[1] == 0 && meas[2] < 0x10)
              || (meas[6] == 0x80 && meas[7] == 0)
  {
    var r := RawReading(meas);
    RawTempPressFields(meas[3], meas[4], meas[5]);
    RawTempPressFields(meas[0], meas[1], meas[2]);
    if r.h == 0x8000 {
      DivModUnique(r.h, 0x100, meas[6], meas[7]);
    }
  }

  // ---------------------------------------------------------------------
  // Calibration

  function S16(v: u16): int
  {
    if v < 0x8000 then v else v - 0x1_0000
  }

  function S8(v: u8): int
  {
    if v < 0x80 then v else v - 0x100
  }

  /**
   * The packed `dig` view of the 33-byte union: T1..P9 in buf[0..23], then
   * H1 at 24, H2 at 25..26, H3 at 27, H4 at 28..29, H5 at 30..31, H6 at 32.
   */
  function PackedView(buf: seq<u8>): (c: Calibration)
    requires |buf| == BME280_NUM_CALIB_REG
    ensures c.H1 == buf[24] && c.H3 == buf[27]
  {
    Calibration(
      Le16(buf[0], buf[1]), S16(Le16(buf[2], buf[3])), S16(Le16(buf[4], buf[5])),
      Le16(buf[6], buf[7]), S16(Le16(buf[8], buf[9])), S16(Le16(buf[10], buf[11])),
      S16(Le16(buf[12], buf[13])), S16(Le16(buf[14], buf[15])), S16(Le16(buf[16], buf[17])),
      S16(Le16(buf[18], buf[19])), S16(Le16(buf[20], buf[21])), S16(Le16(buf[22], buf[23])),
      buf[24], S16(Le16(buf[25], buf[26])), buf[27],
      S16(Le16(buf[28], buf[29])), S16(Le16(buf[30], buf[31])), S8(buf[32]))
  }

  /** H4 = buf[29] << 4 | (buf[30] & 0xF): E4 holds bits 11..4, E5's low nibble bits 3..0. */
  function H4Of(e4: u8, e5: u8): (v: nat)
    ensures v < 0x1000 && v == e4 * 0x10 + e5 % 0x10
  {
    Pow2Values();
    AndLow(e5, 4);
    OrDisjoint(e4, 4, e5 % 0x10);
    Or(Shl(e4, 4), And(e5, 0xF))
  }

  /** H5 = (buf[30] & 0xF0) >> 4 | buf[31] << 4: E5's high nibble bits 3..0, E6 bits 11..4. */
  function H5Of(e5: u8, e6: u8): (v: nat)
    ensures v < 0x1000 && v == e5 / 0x10 + e6 * 0x10
  {
    Pow2Values();
    AndField(e5, 4, 4);
    assert And(e5, 0xF0) == (e5 / 0x10) % 0x10 * 0x10;
    assert e5 / 0x10 < 0x10;
    DivModUnique(e5 / 0x10, 0x10, 0, e5 / 0x10);
    DivModUnique((e5 / 0x10) * 0x10, 0x10, e5 / 0x10, 0);
    OrDisjointLowFirst(e5 / 0x10, e6, 4);
    Or(Shr(And(e5, 0xF0), 4), Shl(e6, 4))
  }

  /**
   * The union after ReadCalibration as written: registers 0x88..0xA1 in
   * buf[0..25], 0xE1..0xE7 in buf[26..32], then H4 and H5 stored into their
   * struct fields (little-endian) over buf[28..31]; storing H6 rewrites
   * buf[32] with its own value.
   */
  function StoredBuffer(lo: seq<u8>, hi: seq<u8>): (buf: seq<u8>)
    requires |lo| == 26 && |hi| == 7
    ensures |buf| == BME280_NUM_CALIB_REG
  {
    var h4 := H4Of(hi[3], hi[4]);
    var h5 := H5Of(hi[4], hi[5]);
    (lo + hi)[28 := h4 % 0x100][29 := h4 / 0x100][30 := h5 % 0x100][31 := h5 / 0x100]
  }

  /** The calibration register at address `reg`, for the two blocks ReadCalibration reads. */
  function Reg(lo: seq<u8>, hi: seq<u8>, reg: nat): u8
    requires |lo| == 26 && |hi| == 7
    requires REG_CALIB_00 <= reg <= REG_CALIB_25 || REG_CALIB_26 <= reg <= REG_CALIB_32
  {
    if reg <= REG_CALIB_25 then lo[reg - REG_CALIB_00] else hi[reg - REG_CALIB_26]
  }

  /**
   * The parameters decoded from the union with the offsets its layout
   * comments give: H1 at buf[25] (0xA1), H2 at buf[26..27], H3 at buf[28],
   * and H4/H5 assembled from buf[29..31] without storing them back.
   */
  function RegisterCalibration(buf: seq<u8>): (c: Calibration)
    requires |buf| == BME280_NUM_CALIB_REG
    ensures 0 <= c.H4 < 0x1000 && 0 <= c.H5 < 0x1000 && 0 <= c.H1 < 0x100 && 0 <= c.H3 < 0x100
  {
    PackedView(buf).(H1 := buf[25], H2 := S16(Le16(buf[26], buf[27])), H3 := buf[28],
                     H4 := H4Of(buf[29], buf[30]), H5 := H5Of(buf[30], buf[31]))
  }

  /** Every corrected parameter comes from the register the BME280 memory map assigns it. */
  lemma RegisterCalibrationRegisters(lo: seq<u8>, hi: seq<u8>)
    requires |lo| == 26 && |hi| == 7
    ensures var c := RegisterCalibration(lo + hi);
            c.T1 == Le16(Reg(lo, hi, 0x88), Reg(lo, hi, 0x89))
            && c.T2 == S16(Le16(Reg(lo, hi, 0x8A), Reg(lo, hi, 0x8B)))
            && c.T3 == S16(Le16(Reg(lo, hi, 0x8C), Reg(lo, hi, 0x8D)))
            && c.P1 == Le16(Reg(lo, hi, 0x8E), Reg(lo, hi, 0x8F))
            && c.P2 == S16(Le16(Reg(lo, hi, 0x90), Reg(lo, hi, 0x91)))
            && c.P3 == S16(Le16(Reg(lo, hi, 0x92), Reg(lo, hi, 0x93)))
            && c.P4 == S16(Le16(Reg(lo, hi, 0x94), Reg(lo, hi, 0x95)))
            && c.P5 == S16(Le16(Reg(lo, hi, 0x96), Reg(lo, hi, 0x97)))
            && c.P6 == S16(Le16(Reg(lo, hi, 0x98), Reg(lo, hi, 0x99)))
            && c.P7 == S16(Le16(Reg(lo, hi, 0x9A), Reg(lo, hi, 0x9B)))
            && c.P8 == S16(Le16(Reg(lo, hi, 0x9C), Reg(lo, hi, 0x9D)))
            && c.P9 == S16(Le16(Reg(lo, hi, 0x9E), Reg(lo, hi, 0x9F)))
            && c.H1 == Reg(lo, hi, 0xA1)
            && c.H2 == S16(Le16(Reg(lo, hi, 0xE1), Reg(lo, hi, 0xE2)))
            && c.H3 == Reg(lo, hi, 0xE3)
            && c.H4 == Reg(lo, hi, 0xE4) * 0x10 + Reg(lo, hi, 0xE5) % 0x10
            && c.H5 == Reg(lo, hi, 0xE5) / 0x10 + Reg(lo, hi, 0xE6) * 0x10
            && c.H6 == S8(Reg(lo, hi, 0xE7))
  {
    var buf := lo + hi;
    assert buf[0] == lo[0] && buf[1] == lo[1] && buf[22] == lo[22] && buf[23] == lo[23] && buf[25] == lo[25];
    assert buf[26] == hi[0] && buf[27] == hi[1] && buf[28] == hi[2] && buf[29] == hi[3];
    assert buf[30] == hi[4] && buf[31] == hi[5] && buf[32] == hi[6];
  }

  /**
   * The parameters read from the two register blocks with H1 taken from
   * 0xA0, H2 from 0xA1 and 0xE1, and H3 from 0xE2, every other parameter
   * from its own register.
   */
  function FirmwareCalibration(lo: seq<u8>, hi: seq<u8>): Calibration
    requires |lo| == 26 && |hi| == 7
  {
    RegisterCalibration(lo + hi).(H1 := Reg(lo, hi, 0xA0), H2 := S16(Le16(Reg(lo, hi, 0xA1), Reg(lo, hi, 0xE1))),
                                  H3 := Reg(lo, hi, 0xE2))
  }

  /**
   * What the firmware's `dig` holds after ReadCalibration: T1..P9, H4, H5
   * and H6 are right, but H1 is register 0xA0, H2 is 0xA1 and 0xE1, and H3
   * is 0xE2 — each one register before the one the memory map names.
   */
  lemma StoredBufferView(lo: seq<u8>, hi: seq<u8>)
    requires |lo| == 26 && |hi| == 7
    ensures PackedView(StoredBuffer(lo, hi)) == FirmwareCalibration(lo, hi)
  {
    var buf := lo + hi;
    var stored := StoredBuffer(lo, hi);
    var h4 := H4Of(hi[3], hi[4]);
    var h5 := H5Of(hi[4], hi[5]);
    assert stored[..28] == buf[..28] && stored[32] == buf[32];
    assert Le16(stored[28], stored[29]) == h4 && Le16(stored[30], stored[31]) == h5;
    assert buf[24] == lo[24] && buf[25] == lo[25] && buf[26] == hi[0] && buf[27] == hi[1];
    assert buf[29] == hi[3] && buf[30] == hi[4] && buf[31] == hi[5];
    var v := PackedView(stored);
    var w := RegisterCalibration(buf);
    assert v.T1 == w.T1 && v.T2 == w.T2 && v.T3 == w.T3;
    assert v.P1 == w.P1 && v.P2 == w.P2 && v.P3 == w.P3 && v.P4 == w.P4 && v.P5 == w.P5;
    assert v.P6 == w.P6 && v.P7 == w.P7 && v.P8 == w.P8 && v.P9 == w.P9;
    assert v.H4 == w.H4 && v.H5 == w.H5 && v.H6 == w.H6;
  }

  /** A chip whose 0xA0 is 0 and 0xA1 is 75 gets dig_H1 = 0 as written, 75 corrected. */
  lemma H1FromReservedRegister()
    ensures var lo := seq(26, i => if i == 25 then 75 else 0);
            var hi := seq(7, i => 0);
            PackedView(StoredBuffer(lo, hi)).H1 == 0 && RegisterCalibration(lo + hi).H1 == 75
  {
    var lo: seq<u8> := seq(26, i => if i == 25 then 75 else 0);
    var hi: seq<u8> := seq(7, i => 0);
    assert StoredBuffer(lo, hi)[24] == 0;
    assert (lo + hi)[25] == 75;
  }

  // ---------------------------------------------------------------------
  // Compensation (integer part of the datasheet formulas)

  /** `x >> n` on a signed operand: an arithmetic shift, rounding towards minus infinity. */
  function Asr(x: int, n: nat): int
  {
    x / Pow2(n)
  }

  /** C's `/` on signed integers: the quotient truncated towards zero. */
  function TruncDiv(a: int, b: int): int
    requires b != 0
  {
    var q := (if a < 0 then -a else a) / (if b < 0 then -b else b);
    if (a < 0) != (b < 0) then -q else q
  }

  /** t_fine, the fine temperature the pressure and humidity formulas share. */
  function TFine(c: Calibration, t: int): int
  {
    var var1 := Asr((Asr(t, 3) - c.T1 * 2) * c.T2, 11);
    var var2 := Asr(Asr((Asr(t, 4) - c.T1) * (Asr(t, 4) - c.T1), 12) * c.T3, 14);
    var1 + var2
  }

  /** The divisor of the pressure formula: ((1 << 47) + var1) * P1 >> 33. */
  function PressureDivisor(c: Calibration, tFine: int): int
  {
    var var1 := tFine - 128000;
    var v1 := Asr(var1 * var1 * c.P3, 8) + var1 * c.P2 * Pow2(12);
    Asr((Pow2(47) + v1) * c.P1, 33)
  }

  /** Pressure in Pa as a Q24.8 number; a zero divisor gives 0 rather than a division. */
  function CompensatePressure(c: Calibration, tFine: int, p: int): (q: int)
    ensures PressureDivisor(c, tFine) == 0 ==> q == 0
  {
    var var1 := tFine - 128000;
    var var2 := var1 * var1 * c.P6 + var1 * c.P5 * Pow2(17) + c.P4 * Pow2(35);
    var divisor := PressureDivisor(c, tFine);
    if divisor == 0 then 0
    else
      var var3 := TruncDiv(((0x10_0000 - p) * Pow2(31) - var2) * 3125, divisor);
      var w1 := Asr(c.P9 * Asr(var3, 13) * Asr(var3, 13), 25);
      var w2 := Asr(c.P8 * var3, 19);
      Asr(var3 + w1 + w2, 8) + c.P7 * Pow2(4)
  }

  /** The humidity intermediate before clamping. */
  function HumidityVar(c: Calibration, tFine: int, h: int): int
  {
    var v := tFine - 76800;
    var a := Asr(h * Pow2(14) - c.H4 * Pow2(20) - c.H5 * v + 16384, 15);
    var b := Asr((Asr(Asr(v * c.H6, 10) * (Asr(v * c.H3, 11) + 32768), 10) + 2097152) * c.H2 + 8192, 14);
    var w := a * b;
    w - Asr(Asr(Asr(w, 15) * Asr(w, 15), 7) * c.H1, 4)
  }

  /** Relative humidity in % as a Q22.10 number: the intermediate is clamped to [0, 419430400] first. */
  function CompensateHumidity(c: Calibration, tFine: int, h: int): (q: int)
    ensures 0 <= q <= 102400
    ensures 0 <= HumidityVar(c, tFine, h) <= 419430400 ==> q == Asr(HumidityVar(c, tFine, h), 12)
  {
    var w := HumidityVar(c, tFine, h);
    var clamped := if w < 0 then 0 else if w > 419430400 then 419430400 else w;
    Pow2Values();
    assert 419430400 == 102400 * Pow2(12);
    clamped / Pow2(12)
  }

  /** Temperature in hundredths of a degree, and the three readings together. */
  function Compensate(c: Calibration, r: Raw): (out: Reading)
    ensures 0 <= out.humidityQ10 <= 102400
    ensures PressureDivisor(c, TFine(c, r.t)) == 0 ==> out.pressureQ8 == 0
  {
    var tFine := TFine(c, r.t);
    Reading(Asr(tFine * 5 + 128, 8), CompensatePressure(c, tFine, r.p), CompensateHumidity(c, tFine, r.h))
  }

  // ---------------------------------------------------------------------
  // Standby time

  /** The datasheet's standby times t_sb in tenths of a millisecond, by code 0..7. */
  function NominalStandby(code: nat): nat
    requires code < 8
  {
    [5, 625, 1250, 2500, 5000, 10000, 100, 200][code]
  }

  /**
   * BME280_GetStandbyTime: whole milliseconds; any other code trips the
   * firmware's ASSERT, and returns 1000 when assertions are compiled out.
   */
  function StandbyTime(standby: nat): (ms: nat)
    ensures standby >= 8 ==> ms == 1000
  {
    match standby
    case 0 => 1
    case 1 => 63
    case 2 => 125
    case 3 => 250
    case 4 => 500
    case 5 => 1000
    case 6 => 10
    case 7 => 20
    case _ => 1000
  }

  /** Each valid code gives its nominal time rounded up to a whole millisecond, and never zero. */
  lemma StandbyRoundsUp(standby: nat)
    requires standby < 8
    ensures var ms := StandbyTime(standby);
            ms > 0 && ms * 10 >= NominalStandby(standby) && ms * 10 - NominalStandby(standby) < 10
  {
  }

  // ---------------------------------------------------------------------
  // The device

  /** The Init sequence as it appears on the bus when every step succeeds. */
  function InitOps(tickRate: nat, config: u8, meas: u8, hum: u8): (ops: seq<Op>)
    ensures |ops| == 8 && ops[0] == Write(REG_RESET, RESET_VAL) && ops[7] == Write(REG_CTRL_MEAS, meas)
  {
    [Write(REG_RESET, RESET_VAL), Delay(tickRate / 1000 * T_STARTUP), Read(REG_ID, 1),
     Read(REG_CALIB_00, 26), Read(REG_CALIB_26, 7),
     Write(REG_CONFIG, config), Write(REG_CTRL_HUM, hum), Write(REG_CTRL_MEAS, meas)]
  }

  /** The prefixes of the Init sequence, one step at a time. */
  lemma InitOpsSteps(tickRate: nat, config: u8, meas: u8, hum: u8)
    ensures var t := InitOps(tickRate, config, meas, hum);
            t[..1] == [Write(REG_RESET, RESET_VAL)]
            && t[..3] == t[..1] + [Delay(tickRate / 1000 * T_STARTUP), Read(REG_ID, 1)]
            && t[..4] == t[..3] + [Read(REG_CALIB_00, 26)]
            && t[..5] == t[..3] + [Read(REG_CALIB_00, 26), Read(REG_CALIB_26, 7)]
            && t[..6] == t[..5] + [Write(REG_CONFIG, config)]
            && t[..7] == t[..6] + [Write(REG_CTRL_HUM, hum)]
            && t == t[..6] + [Write(REG_CTRL_HUM, hum), Write(REG_CTRL_MEAS, meas)]
  {
  }

  /** The last n steps of a successful calibration are the config and sample-setting writes. */
  lemma InitOpsTail(tickRate: nat, config: u8, meas: u8, hum: u8, n: nat)
    requires 1 <= n <= 3
    ensures InitOps(tickRate, config, meas, hum)[..5 + n]
            == InitOps(tickRate, config, meas, hum)[..5]
               + [Write(REG_CONFIG, config), Write(REG_CTRL_HUM, hum), Write(REG_CTRL_MEAS, meas)][..n]
  {
  }

  /** bme280_dev_t: the calibration union and the parameters decoded from it. */
  class Device {
    /** configTICK_RATE_HZ */
    const tickRate: nat
    /** dev->cal.buf */
    const cal: array<u8>
    /** The transfers so far, oldest first. */
    var ops: seq<Op>

    predicate Valid()
      reads this
    {
      cal.Length == BME280_NUM_CALIB_REG
    }

    /** dev->cal.dig: the packed struct laid over the union's bytes. */
    function Dig(): Calibration
      requires cal.Length == BME280_NUM_CALIB_REG
      reads cal
    {
      PackedView(cal[..])
    }

    constructor (tickRate: nat)
      ensures Valid() && fresh(cal) && this.tickRate == tickRate && ops == []
    {
      this.tickRate := tickRate;
      cal := new u8[BME280_NUM_CALIB_REG](i => 0);
      ops := [];
    }

    /** BME280_Reset: write the reset key to the reset register. */
    method Reset(write: HalStatus) returns (rc: nat)
      modifies this`ops
      ensures rc == write && ops == old(ops) + [Write(REG_RESET, RESET_VAL)]
    {
      ops := ops + [Write(REG_RESET, RESET_VAL)];
      rc := write;
    }

    /** BME280_SetConfig: write the standby/filter byte. */
    method SetConfig(config: u8, write: HalStatus) returns (rc: nat)
      modifies this`ops
      ensures rc == write && ops == old(ops) + [Write(REG_CONFIG, config)]
    {
      ops := ops + [Write(REG_CONFIG, config)];
      rc := write;
    }

    /** BME280_SetSampleSettings: ctrl_hum first, then ctrl_meas, which makes the former take effect. */
    method SetSampleSettings(meas: u8, hum: u8, humWrite: HalStatus, measWrite: HalStatus) returns (rc: nat)
      modifies this`ops
      ensures humWrite != BME280_OK ==> rc == humWrite && ops == old(ops) + [Write(REG_CTRL_HUM, hum)]
      ensures humWrite == BME280_OK ==>
                rc == measWrite && ops == old(ops) + [Write(REG_CTRL_HUM, hum), Write(REG_CTRL_MEAS, meas)]
    {
      ops := ops + [Write(REG_CTRL_HUM, hum)];
      rc := humWrite;
      if rc != BME280_OK {
        return;
      }
      ops := ops + [Write(REG_CTRL_MEAS, meas)];
      rc := measWrite;
    }

    /**
     * ReadCalibration: the two register blocks are read into the union,
     * then H4 and H5 are assembled from its bytes and stored through the
     * packed struct over buf[28..31]; a failed read is returned at once.
     * Each Transfer's data is what the read leaves in its part of the union,
     * whether or not it reports success.
     */
    method ReadCalibration(lo: Transfer, hi: Transfer) returns (rc: nat)
      requires Valid() && |lo.data| == 26 && |hi.data| == 7
      modifies this`ops, cal
      ensures Valid()
      ensures cal[..26] == lo.data
      ensures lo.status != BME280_OK ==>
                rc == lo.status && ops == old(ops) + [Read(REG_CALIB_00, 26)] && cal[26..] == old(cal[26..])
      ensures lo.status == BME280_OK ==>
                rc == hi.status && ops == old(ops) + [Read(REG_CALIB_00, 26), Read(REG_CALIB_26, 7)]
      ensures lo.status == BME280_OK && hi.status != BME280_OK ==> cal[26..] == hi.data
      ensures rc == BME280_OK ==> cal[..] == StoredBuffer(lo.data, hi.data)
      ensures rc == BME280_OK ==> Dig() == FirmwareCalibration(lo.data, hi.data)
    {
      rc := ReadBlocks(lo, hi);
      if rc != BME280_OK {
        return;
      }
      StoreH4H5(lo.data, hi.data);
      assert cal[..][..26] == StoredBuffer(lo.data, hi.data)[..26] == lo.data;
      StoredBufferView(lo.data, hi.data);
    }

    /** The two register reads of ReadCalibration, each into its part of the union. */
    method ReadBlocks(lo: Transfer, hi: Transfer) returns (rc: nat)
      requires Valid() && |lo.data| == 26 && |hi.data| == 7
      modifies this`ops, cal
      ensures Valid()
      ensures cal[..26] == lo.data
      ensures lo.status != BME280_OK ==>
                rc == lo.status && ops == old(ops) + [Read(REG_CALIB_00, 26)] && cal[26..] == old(cal[26..])
      ensures lo.status == BME280_OK ==>
                rc == hi.status && ops == old(ops) + [Read(REG_CALIB_00, 26), Read(REG_CALIB_26, 7)] && cal[26..] == hi.data
    {
      ops := ops + [Read(REG_CALIB_00, 26)];
      forall i | 0 <= i < 26 {
        cal[i] := lo.data[i];
      }
      rc := lo.status;
      if rc != BME280_OK {
        return;
      }
      ops := ops + [Read(REG_CALIB_26, 7)];
      forall i | 26 <= i < BME280_NUM_CALIB_REG {
        cal[i] := hi.data[i - 26];
      }
      rc := hi.status;
    }

    /**
     * The stores of H4 and H5 through the packed struct, over buf[28..31];
     * dig.H6 = buf[32] stores that byte onto itself and changes nothing.
     */
    method StoreH4H5(ghost lo: seq<u8>, ghost hi: seq<u8>)
      requires Valid() && |lo| == 26 && |hi| == 7 && cal[..26] == lo && cal[26..] == hi
      modifies cal
      ensures cal[..] == StoredBuffer(lo, hi)
    {
      assert cal[29] == hi[3] && cal[30] == hi[4] && cal[31] == hi[5];
      var h4 := H4Of(cal[29], cal[30]);
      cal[28] := h4 % 0x100;
      cal[29] := h4 / 0x100;
      var h5 := H5Of(cal[30], cal[31]);
      cal[30] := h5 % 0x100;
      cal[31] := h5 / 0x100;
      assert cal[..] == StoredBuffer(lo, hi);
    }

    /**
     * BME280_Init: reset, wait for start-up, check the chip id, read the
     * calibration, then write the configuration and the sample settings,
     * stopping at the first failure and returning it.
     */
    method Init(config: u8, meas: u8, hum: u8, reset: HalStatus, id: Transfer, lo: Transfer, hi: Transfer,
                configWrite: HalStatus, humWrite: HalStatus, measWrite: HalStatus) returns (rc: nat, ghost steps: nat)
      requires Valid() && |id.data| == 1 && |lo.data| == 26 && |hi.data| == 7
      modifies this`ops, cal
      ensures Valid() && steps <= 8 && ops == old(ops) + InitOps(tickRate, config, meas, hum)[..steps]
      ensures reset != BME280_OK ==> rc == reset && steps == 1
      ensures reset == BME280_OK && id.status != BME280_OK ==> rc == id.status && steps == 3
      ensures reset == BME280_OK && id.status == BME280_OK && id.data[0] != CID ==> rc == BME280_BAD_CHIP_ID && steps == 3
      ensures reset == BME280_OK && id.status == BME280_OK && id.data[0] == CID ==>
                (lo.status != BME280_OK ==> rc == lo.status && steps == 4)
                && (lo.status == BME280_OK && hi.status != BME280_OK ==> rc == hi.status && steps == 5)
                && (lo.status == BME280_OK && hi.status == BME280_OK ==>
                      cal[..] == StoredBuffer(lo.data, hi.data) && Dig() == FirmwareCalibration(lo.data, hi.data)
                      && (configWrite != BME280_OK ==> rc == configWrite && steps == 6)
                      && (configWrite == BME280_OK && humWrite != BME280_OK ==> rc == humWrite && steps == 7)
                      && (configWrite == BME280_OK && humWrite == BME280_OK ==> rc == measWrite && steps == 8))
      ensures rc == BME280_OK <==>
                reset == BME280_OK && id.status == BME280_OK && id.data[0] == CID && lo.status == BME280_OK
                && hi.status == BME280_OK && configWrite == BME280_OK && humWrite == BME280_OK && measWrite == BME280_OK
    {
      InitOpsSteps(tickRate, config, meas, hum);
      rc := Reset(reset);
      steps := 1;
      if rc != BME280_OK {
        return;
      }
      ops := ops + [Delay(tickRate / 1000 * T_STARTUP), Read(REG_ID, 1)];
      steps := 3;
      rc := id.status;
      if rc != BME280_OK {
        return;
      }
      if id.data[0] != CID {
        return BME280_BAD_CHIP_ID, steps;
      }
      ghost var k;
      rc, k := Calibrate(config, meas, hum, lo, hi, configWrite, humWrite, measWrite);
      steps := 3 + k;
      assert InitOps(tickRate, config, meas, hum)[..steps]
             == InitOps(tickRate, config, meas, hum)[..3] + InitOps(tickRate, config, meas, hum)[3..steps];
    }

    /** The part of BME280_Init after the chip id: the calibration read, then the settings. */
    method Calibrate(config: u8, meas: u8, hum: u8, lo: Transfer, hi: Transfer,
                     configWrite: HalStatus, humWrite: HalStatus, measWrite: HalStatus) returns (rc: nat, ghost k: nat)
      requires Valid() && |lo.data| == 26 && |hi.data| == 7
      modifies this`ops, cal
      ensures Valid() && 1 <= k <= 5 && ops == old(ops) + InitOps(tickRate, config, meas, hum)[3..3 + k]
      ensures lo.status != BME280_OK ==> rc == lo.status && k == 1
      ensures lo.status == BME280_OK && hi.status != BME280_OK ==> rc == hi.status && k == 2
      ensures lo.status == BME280_OK && hi.status == BME280_OK ==>
                cal[..] == StoredBuffer(lo.data, hi.data) && Dig() == FirmwareCalibration(lo.data, hi.data)
                && (configWrite != BME280_OK ==> rc == configWrite && k == 3)
                && (configWrite == BME280_OK && humWrite != BME280_OK ==> rc == humWrite && k == 4)
                && (configWrite == BME280_OK && humWrite == BME280_OK ==> rc == measWrite && k == 5)
    {
      InitOpsSteps(tickRate, config, meas, hum);
      rc := ReadCalibration(lo, hi);
      k := if lo.status == BME280_OK then 2 else 1;
      if rc != BME280_OK {
        return;
      }
      ghost var n;
      rc, n := Settle(config, meas, hum, configWrite, humWrite, measWrite);
      k := 2 + n;
      InitOpsTail(tickRate, config, meas, hum, n);
      assert InitOps(tickRate, config, meas, hum)[3..3 + k]
             == InitOps(tickRate, config, meas, hum)[3..5] + InitOps(tickRate, config, meas, hum)[5..5 + n];
    }

    /** The configuration and sample-setting writes that end BME280_Init. */
    method Settle(config: u8, meas: u8, hum: u8, configWrite: HalStatus, humWrite: HalStatus, measWrite: HalStatus)
      returns (rc: nat, ghost n: nat)
      modifies this`ops
      ensures 1 <= n <= 3
      ensures ops == old(ops) + [Write(REG_CONFIG, config), Write(REG_CTRL_HUM, hum), Write(REG_CTRL_MEAS, meas)][..n]
      ensures configWrite != BME280_OK ==> rc == configWrite && n == 1
      ensures configWrite == BME280_OK && humWrite != BME280_OK ==> rc == humWrite && n == 2
      ensures configWrite == BME280_OK && humWrite == BME280_OK ==> rc == measWrite && n == 3
    {
      rc := SetConfig(config, configWrite);
      n := 1;
      if rc != BME280_OK {
        return;
      }
      rc := SetSampleSettings(meas, hum, humWrite, measWrite);
      n := if humWrite == BME280_OK then 3 else 2;
    }

    /**
     * BME280_ReadEnvironment: read the eight measurement registers, reject
     * a reading by the reset test as written, and compensate it with the
     * parameters the packed struct shows.
     */
    method ReadEnvironment(read: Transfer) returns (rc: nat, reading: Reading)
      requires Valid() && |read.data| == BME280_NUM_MEAS_REG
      modifies this`ops
      ensures ops == old(ops) + [Read(REG_PRESS_MSB, BME280_NUM_MEAS_REG as nat)]
      ensures read.status != BME280_OK ==> rc == read.status
      ensures read.status == BME280_OK ==> rc == ResetCheckAsWritten(RawReading(read.data))
      ensures read.status == BME280_OK ==> (rc == BME280_BAD_OUTPUT <==> read.data[6] == 0x80 && read.data[7] == 0)
      ensures rc == BME280_OK ==> reading == Compensate(Dig(), RawReading(read.data)) && 0 <= reading.humidityQ10 <= 102400
    {
      ops := ops + [Read(REG_PRESS_MSB, BME280_NUM_MEAS_REG)];
      reading := Reading(0, 0, 0);
      rc := read.status;
      if rc != BME280_OK {
        return;
      }
      var raw := RawReading(read.data);
      rc := ResetCheckAsWritten(raw);
      ResetCheckAsWrittenMeaning(read.data);
      if rc != BME280_OK {
        return;
      }
      reading := Compensate(Dig(), raw);
    }
  }
}
