# SHT3x sensor-frame integrity, in Dafny

This project models the integrity logic of the SHT31 demo program for the
CC1310 LaunchPad (`i2ctmp007.c`). Once per cycle the program reads six bytes
from the sensor: a temperature word, its checksum, a humidity word and its
checksum. It then decides which raw registers to update.

- `crc8.dfy`, module `Crc8`:
  - the driver's error codes (`etError`);
  - the SHT3x CRC-8: polynomial x^8 + x^5 + x^4 + 1, initial value 0xFF,
    no reflection and no final XOR. It is defined once, as a left fold
    (`Fold`, `Crc`) of an eight-bit-step byte step;
  - `CalcCrc`, a method that follows the C function's two loops. It is
    proved to compute `Crc`;
  - `CheckCrc`, the comparison against a received checksum.
- `frame.dfy`, module `Sht3xFrame`: the per-cycle rule of `mainThread` as a
  pure function `Step`. It maps the previous registers and `status`, the
  read transfer's success flag and the receive buffer to the new registers
  and `status` and the faults reported on the display. It also has a sensor
  side encoder `Frame`, and `Poll`, the polling loop over a finite run of
  reads.

Modelling decisions:

- Bytes, and the `uint8_t` flag `status`, are `bv8`. The raw registers are `bv16`, because the source stores
  them in `uint16_t`.
- In C, `crc << 1` is an `int`, and XOR with 0x131 happens at that width
  before truncation to `uint8_t`. `CBitStep` writes this out with a 32-bit
  intermediate, and is proved equal to the 8-bit step `(crc << 1) ^ 0x31`.
- The byte and bit counters of `SHT3X_CalcCrc` are `uint8_t`. In the model
  they are naturals. Neither can wrap: the byte counter stays below
  `nbrOfBytes`, which is at most 255, and the bit counter counts down from 8.
- The I2C read's success is an input flag, `readOk`.
- The display messages become three flags of `Cycle`: the temperature
  checksum error, the humidity checksum error and the read's bus fault
  (`readFault`). The same bus-fault message printed after a failed command
  write is not modelled.
- The two checksum checks are nested in the code, not independent. A
  temperature checksum failure leaves both registers unchanged and skips the
  humidity check. A humidity checksum failure is reported, but the humidity
  word is stored anyway. The model follows the code.
- The checksum of the word 0x66 0x74 is 0xB2 (`ExampleTemperatureFrame`).
  The datasheet's example, CRC(0xBE, 0xEF) = 0x92, agrees with the code
  (`DatasheetExample`).

## Model

| member | source | states |
|---|---|---|
| Crc8.ErrorCode.Code | i2ctmp007_CC1310_LAUNCHXL_tirtos_ccs/i2ctmp007.c:69-75 | the numeric value of an error code is zero exactly for NO_ERROR, and a single bit for every other code |
| Crc8.FromCode | i2ctmp007_CC1310_LAUNCHXL_tirtos_ccs/i2ctmp007.c:69-75 | a byte read as an `etError` value names a code whose numeric value is that byte, and it names no code exactly when it is none of the five values |
| Crc8.CodeRoundTrip | i2ctmp007_CC1310_LAUNCHXL_tirtos_ccs/i2ctmp007.c:69-75 | every error code reads back as itself, so the five codes are distinct |
| Crc8.BitStep | i2ctmp007_CC1310_LAUNCHXL_tirtos_ccs/i2ctmp007.c:80-81 | one division step: the low output bit is set exactly when the top input bit was, and the bits outside the polynomial are the plain left shift |
| Crc8.CBitStep | i2ctmp007_CC1310_LAUNCHXL_tirtos_ccs/i2ctmp007.c:94-98 | the C step with `int` promotion, XOR with 0x131 and truncation to `uint8_t` equals the 8-bit step with 0x31 |
| Crc8.BitStepInjective | i2ctmp007_CC1310_LAUNCHXL_tirtos_ccs/i2ctmp007.c:81 | the bit step is injective, because the polynomial's x^0 term is set |
| Crc8.ByteStepInjective | i2ctmp007_CC1310_LAUNCHXL_tirtos_ccs/i2ctmp007.c:94-98 | the eight bit steps done for one byte are injective |
| Crc8.FoldAppend | i2ctmp007_CC1310_LAUNCHXL_tirtos_ccs/i2ctmp007.c:91-99 | folding a concatenation equals folding the second part from the register the first part leaves |
| Crc8.CrcEmpty | i2ctmp007_CC1310_LAUNCHXL_tirtos_ccs/i2ctmp007.c:87-101 | with no data bytes the checksum is the initial value 0xFF |
| Crc8.CrcAppendByte | i2ctmp007_CC1310_LAUNCHXL_tirtos_ccs/i2ctmp007.c:91-99 | the checksum of `s + [b]` is eight bit steps applied to `Crc(s) ^ b` (the outer loop's invariant) |
| Crc8.FoldInjective | i2ctmp007_CC1310_LAUNCHXL_tirtos_ccs/i2ctmp007.c:91-99 | feeding the same bytes into two different registers leaves two different registers |
| Crc8.SingleByteErrorDetected | i2ctmp007_CC1310_LAUNCHXL_tirtos_ccs/i2ctmp007.c:84-102 | two messages of equal length that differ in exactly one byte have different checksums |
| Crc8.CrcOfWord | i2ctmp007_CC1310_LAUNCHXL_tirtos_ccs/i2ctmp007.c:84-102 | the checksum of a two-byte word is two byte steps from 0xFF |
| Crc8.DatasheetExample | i2ctmp007_CC1310_LAUNCHXL_tirtos_ccs/i2ctmp007.c:84-102 | the checksum of 0xBE 0xEF is 0x92 |
| Crc8.CalcCrc | i2ctmp007_CC1310_LAUNCHXL_tirtos_ccs/i2ctmp007.c:84-102 | the two C loops compute the fold `Crc` of the first `nbrOfBytes` bytes |
| Crc8.CheckCrc | i2ctmp007_CC1310_LAUNCHXL_tirtos_ccs/i2ctmp007.c:105-115 | the result is only NO_ERROR or CHECKSUM_ERROR, and it is NO_ERROR exactly when the computed checksum equals the given one |
| Crc8.CheckOwnCrc | i2ctmp007_CC1310_LAUNCHXL_tirtos_ccs/i2ctmp007.c:105-115 | data checked against its own checksum always passes |
| Crc8.CorruptedWordFails | i2ctmp007_CC1310_LAUNCHXL_tirtos_ccs/i2ctmp007.c:105-115 | a two-byte word with one byte changed fails the check against the original word's checksum |
| Sht3xFrame.Word | i2ctmp007_CC1310_LAUNCHXL_tirtos_ccs/i2ctmp007.c:210 | shifting the MSB left by 8 and OR-ing in the LSB, then storing in a `uint16_t`, equals msb·256 + lsb in 16-bit arithmetic |
| Sht3xFrame.WordValue | i2ctmp007_CC1310_LAUNCHXL_tirtos_ccs/i2ctmp007.c:210-214 | as an integer, the assembled word is msb·256 + lsb and lies in [0, 65535] |
| Sht3xFrame.WordOfSplit | i2ctmp007_CC1310_LAUNCHXL_tirtos_ccs/i2ctmp007.c:210-214 | splitting a 16-bit value into bytes and assembling them gives the value back |
| Sht3xFrame.SplitOfWord | i2ctmp007_CC1310_LAUNCHXL_tirtos_ccs/i2ctmp007.c:210-214 | assembling two bytes and splitting the word gives the bytes back |
| Sht3xFrame.Step | i2ctmp007_CC1310_LAUNCHXL_tirtos_ccs/i2ctmp007.c:181-220 | status is 1 exactly when the read succeeds. The read's bus fault is reported exactly when it fails. The temperature error is reported exactly on a successful read whose temperature word fails its checksum. The humidity error is reported exactly when the temperature word passes and the humidity word fails. Both registers take the received words exactly when the read succeeds and the temperature word passes; otherwise both keep their previous values |
| Sht3xFrame.Frame | i2ctmp007_CC1310_LAUNCHXL_tirtos_ccs/i2ctmp007.c:207-214 | the six-byte layout the cycle reads: each raw word is followed by its checksum, both fields are valid, and the raw values read back are the encoded ones |
| Sht3xFrame.StepAcceptsFrame | i2ctmp007_CC1310_LAUNCHXL_tirtos_ccs/i2ctmp007.c:205-217 | a well-formed frame read successfully sets both registers to its values and status to 1, with no fault reported |
| Sht3xFrame.CorruptTemperatureRejected | i2ctmp007_CC1310_LAUNCHXL_tirtos_ccs/i2ctmp007.c:207-208 | one corrupted byte in the temperature word or its checksum is reported. Both registers keep their values and no humidity error is reported |
| Sht3xFrame.CorruptHumidityStoredAnyway | i2ctmp007_CC1310_LAUNCHXL_tirtos_ccs/i2ctmp007.c:209-215 | one corrupted byte in the humidity word or its checksum is reported. The temperature is still taken over, and the received humidity word is stored |
| Sht3xFrame.StatusClearedEachCycle | i2ctmp007_CC1310_LAUNCHXL_tirtos_ccs/i2ctmp007.c:181 | a cycle's outcome does not depend on the status the previous cycle left |
| Sht3xFrame.ExampleTemperatureFrame | i2ctmp007_CC1310_LAUNCHXL_tirtos_ccs/i2ctmp007.c:205-217 | the frame 0x66 0x74 0xB2 0x00 0x00 0x81 is accepted whole: raw temperature 0x6674, raw humidity 0 |
| Sht3xFrame.Poll | i2ctmp007_CC1310_LAUNCHXL_tirtos_ccs/i2ctmp007.c:180-232 | after a run of reads, the registers hold the words of the most recent read that succeeded with a valid temperature word, or the initial values if there was none. Status reflects the last read's success |

## Left out

- `SHT3X_CalcTemperature` and `SHT3X_CalcHumidity` (lines 118-131) and the display of their results are left out. They are 32-bit floating-point arithmetic, and an exact-real model would not match float rounding.
- The `Celsius = (uint8_t)temp` cast (line 225) is left out. It converts a float to an unsigned byte, and C leaves that undefined for negative values.
- Display, GPIO and I2C initialisation, `usleep`/`sleep`, and the `while (1);` halts on initialisation failure (lines 150-178) are left out. They are vendor driver I/O and timing.
- The command write of 0x2C 0x06 to address 0x44 (lines 183-200) is left out. Its outcome only prints a message and does not reach the registers or `status`.
- The read transfer itself is not modelled. Its success is the input `readOk`. On a failed read the buffer's contents are ignored, as the code ignores them.
- The `temperature` and `humidity` locals are uninitialised on the first cycle (lines 140-141). This is C undefined behaviour, so the initial registers are arbitrary inputs.
- The program's endless polling loop is modelled only over finite runs of reads (`Poll`).
