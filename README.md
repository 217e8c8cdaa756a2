# SiC45x PMBus voltage setter: LINEAR11 codec and bus transactions

This project models the core of a small Go program that sets the output
voltage of a Vishay SiC45x power stage over PMBus and reads back its output
voltage and current. It also proves properties of that model.

The core has two parts:

- **The LINEAR11 codec** (`floatToLinear11`, `linear11ToFloat`). This is the
  Linear Data Format of the PMBus Power System Management Protocol
  Specification, Part II (section 7.1 in revision 1.2). A 16-bit word holds
  a 5-bit two's-complement exponent E in bits 15..11 and an 11-bit
  two's-complement mantissa N in bits 10..0. The word stands for N × 2^E.
- **The transactions** (`initDCandSetVoltage`, `readPMBusLinear11`, and the
  order `main` applies them in):
  - one write `[VOUT_COMMAND, lo, hi]` that sets the setpoint;
  - per telemetry register, a one-byte command write followed by a read into
    a zeroed 2-byte buffer.

Files:

- `bytes.dfy` (module `Bytes`): bytes, 16-bit words, and the two byte orders.
- `linear11.dfy` (module `Linear11`): the codec.
  - `FloatToLinear11` is the encoder's loop, as a method.
  - The function `EncodedBytes` specifies what it returns.
  - `Linear11ToFloat` is the decoder.
- `linear11_properties.dfy` (module `Linear11Properties`): lemmas about the
  codec.
  - exponent choice
  - pack/unpack round trips
  - rounding error
  - mantissa overflow
  - the no-exponent word
  - byte order
- `i2c_bus.dfy` (module `I2cBus`): a `Bus` class standing for the address-bound
  I2C descriptor.
  - Each `unix.Write` / `unix.Read` is appended to `log`.
  - The device's answers come from the scripted queues `writeAnswers` and
    `readAnswers`.
  - `Read` fills its array argument in place.
- `pmbus.dfy` (module `PMBus`): the command constants, the parameter checks, the
  two transaction methods, `Run` (the body of `main`), and lemmas.

Modelling choices:

- Go's `float64` is an exact `real`.
  - The encoder divides by powers of two, which binary64 does exactly in its
    normal range.
  - So the exponent scan's range test makes the same decisions.
- `math.Round` is `Linear11.Round`: ties round away from zero.
  - For x ≥ 0 it is ⌊x + 1/2⌋.
  - Negative inputs are mirrored.
- Go's masks `& 0x1F`, `& 0x7FF` and `& 0xFF` on two's-complement integers
  become Euclidean `%` by 32, 2048 and 256.
  - The int16 shift may wrap, but the `uint16` conversion gives the same 16
    bits back.
- The environment is modelled as follows.
  - A write or read with no scripted answer left fails with `NoAnswer`
    (ENXIO).
  - A failing call returns count −1, which the program ignores anyway.

## Where the code departs from the format

The code's behaviour is kept as written in each of these cases, and lemmas
state the consequence:

- **Range test before rounding.** The code tests the unrounded quotient
  (main.go:124). A quotient in [1023.5, 1024) passes, rounds to 1024, packs
  as mantissa field 0x400, and decodes as −1024 × 2^E.
  - For example, 1.9995 V encodes as word 0xBC00, which decodes as −2.0.
  - See `MantissaOverflowIff`, `MantissaOverflowDecode` and
    `Example1Point9995`.
  - The Linear Data Format's 11-bit mantissa holds only −1024..1023, so an
    encoder that follows it never produces N = 1024.
- **No error when nothing fits.** If no exponent fits, the loop leaves exponent
  16 and mantissa 0, and the word 0x8000 is sent with no error.
  - See `NoExponentWord` and `NoExponentIff`.
  - The caller is not told that the value could not be represented.
  - Very small values never fail. They take exponent −15.
  - No real setpoint that passes the voltage check reaches this path: those
    select exponents −11..−7 (`ValidVoltageExponent`).
  - A NaN setpoint does reach it. Every comparison with NaN is false, so
    `-volt NaN` passes the check at main.go:38 and fails every range test of
    the scan. The program then writes `[0x21, 0x00, 0x80]`, the word 0x8000,
    which decodes as 0.0. Reals have no NaN, so the model cannot show this
    run (see "Left out").
- **Opposite byte orders.** The encoder emits the low byte first (main.go:131),
  as an SMBus Write Word transfers it (section 6.5.4 of SMBus 3.0). The decoder
  reads its buffer big-endian (main.go:138), although an SMBus Read Word
  delivers the low byte first (section 6.5.5).
  - So decoding the encoder's own bytes reads the byte-swapped word.
  - See `DecodeOfEncodedBytes` and `ExampleByteOrderMismatch`: the bytes for
    1.8 decode as 699/8192.
  - With both sides fixed, one of them disagrees with the device.
- **Byte counts are ignored.** On a short write only the error is checked. On
  a short read the buffer keeps a zero at each byte that was not delivered, and
  that buffer is decoded (`ShortReadDecoded`).
  - SMBus Write Word and Read Word always move two data bytes, so a short
    transfer means the transaction did not complete.

## Model

| member | source | states |
|---|---|---|
| Bytes.LowByteFirst | main.go:131 | the two emitted bytes are low then high, and recombine to the word |
| Bytes.BigEndianWord | main.go:138 | the first byte becomes the high byte of the word and the second the low byte |
| Bytes.BigEndianOfLowByteFirst | main.go:131-138 | reading low-byte-first bytes big-endian yields the byte-swapped word, equal to the original only when its two bytes are equal |
| Linear11.Pow2 | main.go:123 | every power of two `math.Pow(2, e)` used as a divisor is positive |
| Linear11.Round | main.go:125 | `math.Round` returns the nearest integer, with halves going away from zero (the exact interval for each sign) |
| Linear11.Fits | main.go:124 | the encoder's range test: the unrounded quotient lies in [−1024, 1024) (a predicate, with no contract of its own) |
| Linear11.ScanFrom | main.go:122-128 | a scan from exponent e stops at the first exponent ≤ 15 whose unrounded quotient lies in [−1024, 1024), with every earlier one failing, or at 16 |
| Linear11.SelectedExponent | main.go:122-128 | the encoder's exponent is in −15..16, passes the range test when ≤ 15, and every smaller exponent from −15 fails it |
| Linear11.EncodeFields | main.go:119-128 | the packed fields use the selected exponent and the quotient rounded to nearest, a non-negative quotient's half going up and a negative one's down, lying in [−1024, 1024]; or (16, 0) when nothing fits |
| Linear11.Pack | main.go:130 | bits 15..11 of the word hold the exponent mod 32 and bits 10..0 hold the mantissa mod 2048 |
| Linear11.Unpack | main.go:139-146 | the sign-extended fields lie in −16..15 and −1024..1023 and agree with the word's bit fields |
| Linear11.Value | main.go:147 | the value N × 2^E is positive exactly when N is and negative exactly when N is |
| Linear11.EncodedBytes | main.go:118-131 | the encoder returns two bytes that, read low byte first, form the packed word of the encoded fields |
| Linear11.PackOfUnpack | main.go:130-146 | repacking the unpacked fields of any 16-bit word reproduces the word |
| Linear11.Linear11ToFloat | main.go:137-149 | decoding is total over every buffer of at least two bytes; the result is N × 2^E for the in-range fields that pack to the big-endian word |
| Linear11.FloatToLinear11 | main.go:118-132 | the ascending exponent scan with break returns the selected exponent's packed word, low byte first |
| Linear11Properties.FitsUpward | main.go:122-127 | once a quotient passes the range test, it passes at every larger exponent |
| Linear11Properties.SelectedExponentIff | main.go:122-127 | the encoder picks exponent e exactly when e passes the range test and e − 1 (if scanned) does not |
| Linear11Properties.NoExponentIff | main.go:122-128 | no exponent fits exactly when v < −2^25 or v ≥ 2^25 |
| Linear11Properties.NoExponentWord | main.go:119-131 | when nothing fits, the encoder emits 0x8000 (bytes 0x00, 0x80) without error, and that word decodes as 0.0 |
| Linear11Properties.UnpackOfPack | main.go:130-146 | unpacking a packed pair of in-range fields returns the pair |
| Linear11Properties.UnpackInjective | main.go:139-146 | two words have equal unpacked fields if and only if they are equal |
| Linear11Properties.MantissaOverflowIff | main.go:124-125 | the rounded mantissa is 1024 if and only if the quotient that passed lies in [1023.5, 1024) |
| Linear11Properties.RoundingErrorBound | main.go:122-147 | every input in [−2^25, 2^25) gets an exponent ≤ 15. When the mantissa then fits its field, the word decodes to the chosen fields, and the decoded value is within 2^(E−1) of the input |
| Linear11Properties.MantissaOverflowDecode | main.go:124-146 | a mantissa of 1024 packs as field 0x400 and decodes as −1024 × 2^E, for a positive input |
| Linear11Properties.Example1Point8 | main.go:118-147 | 1.8 selects exponent −9 and mantissa 922, packs as 0xBB9A, and decodes to 922/512, within 2^−10 of 1.8 |
| Linear11Properties.Example1Point9995 | main.go:118-147 | 1.9995 gets mantissa 1024 at exponent −9, packs as 0xBC00, and decodes as −2.0 |
| Linear11Properties.DecodeOfEncodedBytes | main.go:131-138 | decoding the encoder's own bytes yields the value of the byte-swapped word |
| Linear11Properties.HighByteFirstRoundTrip | main.go:130-147 | decoding the encoded word sent high byte first is within 2^(E−1) of the input when the mantissa fits |
| Linear11Properties.ExampleByteOrderMismatch | main.go:131-147 | the bytes emitted for 1.8 are 0x9A, 0xBB, and the decoder turns them into 699/8192 |
| Linear11Properties.DecodeOf9ABB | main.go:137-147 | the decoder reads the bytes 0x9A, 0xBB as the word 0x9ABB, fields (−13, 699), value 699/8192 |
| I2cBus.NextWrite | main.go:95 | a write succeeds exactly when the device's next scripted answer accepts it, with the accepted count |
| I2cBus.NextRead | main.go:107 | a read succeeds exactly when the next scripted answer delivers bytes; the count is at most the buffer size and the bytes delivered |
| I2cBus.Filled | main.go:106-107 | after a read, each leading byte that was delivered is replaced and the rest keep their value |
| I2cBus.Bus.Write | main.go:95 | a write appends exactly one write of the given bytes to the log, and consumes one write answer |
| I2cBus.Bus.Read | main.go:107 | a read appends one read of the buffer's length to the log, fills the buffer in place, and consumes one read answer |
| PMBus.ValidAddress | main.go:35-37 | an address is accepted exactly when it is in 0x00..0x7F (a predicate; `Run`'s contract states the failure otherwise) |
| PMBus.ValidVoltage | main.go:38-40 | a setpoint is accepted exactly when it is in [0.3, 5.0] volts (a predicate; `Run`'s contract states the failure otherwise) |
| PMBus.SetVoltagePacket | main.go:93-94 | the setpoint packet is 3 bytes: 0x21 followed by the LINEAR11 word, low byte first |
| PMBus.InitDCandSetVoltage | main.go:92-97 | setting the voltage issues exactly one write, the 3-byte packet, and returns only that write's error |
| PMBus.TelemetryValue | main.go:99-111 | a telemetry reading is 0.0 when the read fails; otherwise it decodes the first two bytes delivered, a single delivered byte as `[b, 0]`, and is 0.0 when nothing was delivered |
| PMBus.ReadPMBusLinear11 | main.go:99-112 | telemetry reading writes `[command]`. If that fails it returns (0, err) with no read; otherwise it issues one 2-byte read and returns (0, err) on failure or the decoded buffer |
| PMBus.Run | main.go:33-90 | an invalid address or setpoint ends the run before any bus operation. Otherwise the first failing answer, in the order set write, READ_VOUT write and read, READ_IOUT write and read, ends the run with that call's error, the exact log and the remaining answer queues; a failed current read also keeps the voltage already printed. The run reports both decoded readings exactly when all five answers succeed |
| PMBus.ValidVoltageExponent | main.go:38-40 | every accepted setpoint in [0.3, 5.0] selects an exponent in −11..−7 |
| PMBus.ShortReadDecoded | main.go:106-111 | a 1-byte reply is not an error: the buffer `[b, 0]` is decoded |

## Left out

- Flag parsing (main.go:18-23, 34): process glue. `Run` takes the address and
  the setpoint as parameters.
- Opening and closing the bus device (main.go:44-50): operating-system I/O.
  `Run` starts with the bus already open.
- Binding the slave address with the `I2C_SLAVE` ioctl (main.go:68-70): a
  system call. The bus is taken as already bound, so the checked address is
  not used again. The constant `I2C_SLAVE` is declared but not used.
- The real `unix.Write` and `unix.Read`: the device's behaviour is a
  script of answers, not real I/O.
- `log.Fatalf` and `fmt.Printf` (main.go:36-89): process exit and console
  output appear as the `Outcome` value `Run` returns. A failed current read
  (main.go:85-88) comes after the voltage was printed at main.go:79, so
  `ReadCurrentError` carries that voltage with the error. The `%.3f`
  formatting of the printed numbers is not modelled.
- IEEE-754 details of `float64`, `math.Pow` and `math.Round`: these are
  exact reals.
  - Out of scope: NaN, infinities, subnormals, and the rounding of the
    constants 0.3 and 1.8.
  - A NaN setpoint passes the voltage check at main.go:38, since every
    comparison with NaN is false, and is sent as the word 0x8000.
- PMBus.ValidVoltage and PMBus.ValidVoltageExponent range over reals, so they
  cannot express that NaN path: the model does not show a run that writes
  `[0x21, 0x00, 0x80]`.
- The "atomic and uninterrupted" assumption (main.go:32): a concurrency
  concern the code does not enforce.
- The panic of `binary.BigEndian.Uint16` on a buffer shorter than two bytes:
  `Linear11ToFloat` requires two bytes, and the program always passes its
  2-byte buffer.
