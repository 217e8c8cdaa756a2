/** The PMBus transactions the program performs on a SiC45x power stage:
    writing a VOUT_COMMAND setpoint, reading the READ_VOUT and READ_IOUT
    telemetry registers, and the order in which the program validates its
    parameters and issues them. */
module PMBus {
  import opened Bytes
  import opened Linear11
  import opened I2cBus
  import opened Linear11Properties

  /** PMBus command codes. */
  const VOUT_COMMAND: Byte := 0x21
  const READ_VOUT: Byte := 0x8B
  const READ_IOUT: Byte := 0x8C
  /** The ioctl request that binds a slave address to the descriptor. */
  const I2C_SLAVE: int := 0x0703

  /** A 7-bit bus address. */
  predicate ValidAddress(address: int) {
    0 <= address <= 0x7F
  }

  /** The setpoint range the program accepts, in volts. */
  predicate ValidVoltage(volts: real) {
    0.3 <= volts <= 5.0
  }

  /** The one packet a setpoint write sends: the command byte, then the
      LINEAR11 word of the setpoint, low byte first. */
  function SetVoltagePacket(volts: real): (p: seq<Byte>)
    ensures |p| == 3 && p[0] == VOUT_COMMAND
    ensures p[1] as int + 0x100 * (p[2] as int) == Pack(EncodeFields(volts))
  {
    [VOUT_COMMAND] + EncodedBytes(volts)
  }

  /** The value a telemetry read returns, given the answers the coming reads
      will get: 0.0 when the read fails, otherwise the decoded 2-byte buffer,
      which starts zeroed and keeps a zero wherever no byte was delivered. */
  function TelemetryValue(answers: seq<ReadAnswer>): (v: real)
    ensures NextRead(answers, 2).err.Some? ==> v == 0.0
    ensures answers != [] && answers[0].Delivered? && |answers[0].data| >= 2 ==>
              v == Linear11ToFloat(answers[0].data[..2])
    ensures answers != [] && answers[0].Delivered? && |answers[0].data| == 1 ==>
              v == Linear11ToFloat([answers[0].data[0], 0])
    ensures answers != [] && answers[0].Delivered? && answers[0].data == [] ==> v == 0.0
  {
    if NextRead(answers, 2).err.Some? then 0.0
    else Linear11ToFloat(AfterRead([0, 0], answers))
  }

  /** `initDCandSetVoltage`: encode the setpoint and send it in a single
      write. Only the error is returned; a short count is not noticed. */
  method InitDCandSetVoltage(bus: Bus, targetVoltage: real) returns (err: Option<Errno>)
    modifies bus
    ensures bus.log == old(bus.log) + [Op.Write(SetVoltagePacket(targetVoltage))]
    ensures err == NextWrite(old(bus.writeAnswers)).err
    ensures bus.writeAnswers == Rest(old(bus.writeAnswers))
    ensures bus.readAnswers == old(bus.readAnswers)
  {
    var data := FloatToLinear11(targetVoltage);
    var packet := [VOUT_COMMAND, data[0], data[1]];
    assert packet == [VOUT_COMMAND] + data;
    var t := bus.Write(packet);
    err := t.err;
  }

  /** `readPMBusLinear11`: write the command byte; if that fails, return 0.0
      and the error without reading. Otherwise read into a zeroed 2-byte
      buffer; if that fails, return 0.0 and the error; else decode the
      buffer. Byte counts are ignored, so a short read is decoded too. */
  method ReadPMBusLinear11(bus: Bus, command: Byte) returns (value: real, err: Option<Errno>)
    modifies bus
    ensures bus.writeAnswers == Rest(old(bus.writeAnswers))
    ensures NextWrite(old(bus.writeAnswers)).err.Some? ==>
              bus.log == old(bus.log) + [Op.Write([command])] &&
              bus.readAnswers == old(bus.readAnswers) &&
              value == 0.0 && err == NextWrite(old(bus.writeAnswers)).err
    ensures NextWrite(old(bus.writeAnswers)).err.None? ==>
              bus.log == old(bus.log) + [Op.Write([command]), Op.Read(2)] &&
              bus.readAnswers == Rest(old(bus.readAnswers)) &&
              value == TelemetryValue(old(bus.readAnswers)) &&
              err == NextRead(old(bus.readAnswers), 2).err
  {
    var t := bus.Write([command]);
    if t.err.Some? {
      return 0.0, t.err;
    }
    var buf := new Byte[2](_ => 0);
    assert buf[..] == [0, 0];
    t := bus.Read(buf);
    if t.err.Some? {
      return 0.0, t.err;
    }
    value, err := Linear11ToFloat(buf[..]), None;
  }

  /** Why the program stops with `log.Fatalf`. A failed current read comes
      after the output voltage was already printed, so it keeps that
      reading. */
  datatype Failure =
    | InvalidAddress(address: int)
    | InvalidVoltage(volts: real)
    | SetVoltageError(setErr: Errno)
    | ReadVoltageError(voutErr: Errno)
    | ReadCurrentError(printedVolts: real, ioutErr: Errno)

  /** How a run of the program ends: both readings printed, or a fatal error. */
  datatype Outcome = Reported(volts: real, amps: real) | Fatal(failure: Failure)

  /** The body of `main` once flags are parsed and with the bus already open
      and bound: check the address, then the setpoint, then set the voltage,
      read the output voltage and read the output current, stopping at the
      first error. */
  method Run(bus: Bus, address: int, targetVoltage: real) returns (outcome: Outcome)
    modifies bus
    ensures !ValidAddress(address) ==> outcome == Fatal(InvalidAddress(address))
    ensures ValidAddress(address) && !ValidVoltage(targetVoltage) ==>
              outcome == Fatal(InvalidVoltage(targetVoltage))
    ensures !(ValidAddress(address) && ValidVoltage(targetVoltage)) ==>
              bus.log == old(bus.log) &&
              bus.writeAnswers == old(bus.writeAnswers) && bus.readAnswers == old(bus.readAnswers)
    ensures ValidAddress(address) && ValidVoltage(targetVoltage) ==>
              |bus.log| > |old(bus.log)| &&
              bus.log[|old(bus.log)|] == Op.Write(SetVoltagePacket(targetVoltage))
    // The setpoint write fails: stop after it, with its error.
    ensures var w := old(bus.writeAnswers);
            ValidAddress(address) && ValidVoltage(targetVoltage) &&
            NextWrite(w).err.Some? ==>
              outcome == Fatal(SetVoltageError(NextWrite(w).err.value)) &&
              bus.log == old(bus.log) + [Op.Write(SetVoltagePacket(targetVoltage))] &&
              bus.writeAnswers == Rest(w) && bus.readAnswers == old(bus.readAnswers)
    // The READ_VOUT command write fails: stop after it, with no read.
    ensures var w := old(bus.writeAnswers);
            ValidAddress(address) && ValidVoltage(targetVoltage) &&
            NextWrite(w).err.None? && NextWrite(Rest(w)).err.Some? ==>
              outcome == Fatal(ReadVoltageError(NextWrite(Rest(w)).err.value)) &&
              bus.log == old(bus.log) + [Op.Write(SetVoltagePacket(targetVoltage))] + [Op.Write([READ_VOUT])] &&
              bus.writeAnswers == Rest(Rest(w)) && bus.readAnswers == old(bus.readAnswers)
    // The READ_VOUT read fails.
    ensures var w, r := old(bus.writeAnswers), old(bus.readAnswers);
            ValidAddress(address) && ValidVoltage(targetVoltage) &&
            NextWrite(w).err.None? && NextWrite(Rest(w)).err.None? &&
            NextRead(r, 2).err.Some? ==>
              outcome == Fatal(ReadVoltageError(NextRead(r, 2).err.value)) &&
              bus.log == old(bus.log) + [Op.Write(SetVoltagePacket(targetVoltage))] +
                           [Op.Write([READ_VOUT]), Op.Read(2)] &&
              bus.writeAnswers == Rest(Rest(w)) && bus.readAnswers == Rest(r)
    // The READ_IOUT command write fails.
    ensures var w, r := old(bus.writeAnswers), old(bus.readAnswers);
            ValidAddress(address) && ValidVoltage(targetVoltage) &&
            NextWrite(w).err.None? && NextWrite(Rest(w)).err.None? &&
            NextRead(r, 2).err.None? && NextWrite(Rest(Rest(w))).err.Some? ==>
              outcome == Fatal(ReadCurrentError(TelemetryValue(r), NextWrite(Rest(Rest(w))).err.value)) &&
              bus.log == old(bus.log) + [Op.Write(SetVoltagePacket(targetVoltage))] +
                           [Op.Write([READ_VOUT]), Op.Read(2)] + [Op.Write([READ_IOUT])] &&
              bus.writeAnswers == Rest(Rest(Rest(w))) && bus.readAnswers == Rest(r)
    // The READ_IOUT read fails.
    ensures var w, r := old(bus.writeAnswers), old(bus.readAnswers);
            ValidAddress(address) && ValidVoltage(targetVoltage) &&
            NextWrite(w).err.None? && NextWrite(Rest(w)).err.None? &&
            NextRead(r, 2).err.None? && NextWrite(Rest(Rest(w))).err.None? &&
            NextRead(Rest(r), 2).err.Some? ==>
              outcome == Fatal(ReadCurrentError(TelemetryValue(r), NextRead(Rest(r), 2).err.value)) &&
              bus.log == old(bus.log) + [Op.Write(SetVoltagePacket(targetVoltage))] +
                           [Op.Write([READ_VOUT]), Op.Read(2)] + [Op.Write([READ_IOUT]), Op.Read(2)] &&
              bus.writeAnswers == Rest(Rest(Rest(w))) && bus.readAnswers == Rest(Rest(r))
    // Both readings are reported exactly when all five answers succeed.
    ensures var w, r := old(bus.writeAnswers), old(bus.readAnswers);
            outcome.Reported? <==>
              ValidAddress(address) && ValidVoltage(targetVoltage) &&
              NextWrite(w).err.None? && NextWrite(Rest(w)).err.None? &&
              NextRead(r, 2).err.None? && NextWrite(Rest(Rest(w))).err.None? &&
              NextRead(Rest(r), 2).err.None?
    ensures outcome.Reported? ==>
              bus.log == old(bus.log) + [Op.Write(SetVoltagePacket(targetVoltage))] +
                           [Op.Write([READ_VOUT]), Op.Read(2)] + [Op.Write([READ_IOUT]), Op.Read(2)] &&
              bus.writeAnswers == Rest(Rest(Rest(old(bus.writeAnswers)))) &&
              bus.readAnswers == Rest(Rest(old(bus.readAnswers)))
    ensures outcome.Reported? ==>
              outcome.volts == TelemetryValue(old(bus.readAnswers)) &&
              outcome.amps == TelemetryValue(Rest(old(bus.readAnswers)))
  {
    if !ValidAddress(address) {
      return Fatal(InvalidAddress(address));
    }
    if !ValidVoltage(targetVoltage) {
      return Fatal(InvalidVoltage(targetVoltage));
    }
    ghost var w0, r0 := bus.writeAnswers, bus.readAnswers;
    var err := InitDCandSetVoltage(bus, targetVoltage);
    if err.Some? {
      assert NextWrite(w0).err == err;
      return Fatal(SetVoltageError(err.value));
    }
    assert NextWrite(w0).err.None?;
    assert bus.writeAnswers == Rest(w0) && bus.readAnswers == r0;
    var volts, amps;
    volts, err := ReadPMBusLinear11(bus, READ_VOUT);
    if err.Some? {
      assert NextWrite(Rest(w0)).err.Some? || NextRead(r0, 2).err == err;
      return Fatal(ReadVoltageError(err.value));
    }
    assert NextWrite(Rest(w0)).err.None? && NextRead(r0, 2).err.None?;
    assert bus.writeAnswers == Rest(Rest(w0)) && bus.readAnswers == Rest(r0);
    amps, err := ReadPMBusLinear11(bus, READ_IOUT);
    if err.Some? {
      assert NextWrite(Rest(Rest(w0))).err.Some? || NextRead(Rest(r0), 2).err == err;
      return Fatal(ReadCurrentError(volts, err.value));
    }
    assert NextWrite(Rest(Rest(w0))).err.None? && NextRead(Rest(r0), 2).err.None?;
    outcome := Reported(volts, amps);
  }

  /** Every real setpoint the range check accepts selects an exponent from
      -11 (0.3 * 2^11 = 614.4) to -7 (5.0 * 2^7 = 640), so no real setpoint
      that passes the check is sent as the no-exponent word 0x8000; the
      mantissa can still reach 1024. */
  lemma ValidVoltageExponent(volts: real)
    requires ValidVoltage(volts)
    ensures -11 <= SelectedExponent(volts) <= -7
  {
    Pow2Table();
    var s := SelectedExponent(volts);
    assert volts / Pow2(-7) == volts * 128.0;
    assert volts / Pow2(-12) == volts * 4096.0;
    if s < -11 {
      FitsUpward(volts, s, -12);
    }
  }

  /** A read that delivers one byte instead of two is not an error: the
      second byte of the buffer stays 0 and the word `b * 256` is decoded. */
  lemma ShortReadDecoded(b: Byte, later: seq<ReadAnswer>)
    ensures NextRead([Delivered([b])] + later, 2).err.None?
    ensures TelemetryValue([Delivered([b])] + later) == Linear11ToFloat([b, 0])
  {
  }
}
