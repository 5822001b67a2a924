/**
 One cycle of the SHT3x polling loop in `mainThread` (i2ctmp007.c), as a pure
 step over the values the loop keeps between cycles: the raw temperature and
 humidity registers and the `status` flag.

 The six bytes read from the sensor are: temperature MSB, LSB and checksum,
 then humidity MSB, LSB and checksum. The two checks are nested, not
 independent: a temperature checksum failure leaves both registers alone and
 skips the humidity check, while a humidity checksum failure is reported but
 the humidity value is stored anyway.
 */
module Sht3xFrame {
  import opened Crc8

  type uint16 = bv16

  /** The receive buffer `rxBuffer[6]` of one read transfer. */
  type RxBuffer = s: seq<byte> | |s| == 6 witness [0, 0, 0, 0, 0, 0]

  /** Offsets of the two checksummed words in the buffer. */
  const TemperatureAt: nat := 0
  const HumidityAt: nat := 3

  /** The values `mainThread` keeps from one cycle to the next. */
  datatype Sensor = Sensor(temperature: uint16, humidity: uint16, status: byte)

  /**
   What one cycle leaves behind: the new state and the faults it reported on
   the display. `readFault` is the bus-fault message of the six-byte read.
   */
  datatype Cycle = Cycle(next: Sensor, temperatureCrcError: bool, humidityCrcError: bool, readFault: bool)

  /**
   Big-endian assembly `(msb << 8) | lsb`, evaluated in C `int` and stored in
   a `uint16_t`: the value is the two bytes read as a base-256 number.
   */
  function Word(msb: byte, lsb: byte): (v: uint16)
    ensures v == (msb as uint16) * 256 + (lsb as uint16)
  {
    var wide: bv32 := ((msb as bv32) << 8) | (lsb as bv32);
    (wide & 0xFFFF) as uint16
  }

  /** The word, read as a number, is the two bytes in base 256; it lies in [0, 65535]. */
  lemma WordValue(msb: byte, lsb: byte)
    ensures Word(msb, lsb) as int == msb as int * 256 + lsb as int
    ensures 0 <= Word(msb, lsb) as int <= 65535
  {
    BaseValue(msb, lsb);
  }

  /** Base-256 assembly in 16-bit arithmetic does not overflow. */
  lemma BaseValue(msb: byte, lsb: byte)
    ensures ((msb as uint16) * 256 + (lsb as uint16)) as int == msb as int * 256 + lsb as int
  {
  }

  /** The most and least significant bytes of a 16-bit value. */
  function Msb(v: uint16): byte
  {
    (v >> 8) as byte
  }

  function Lsb(v: uint16): byte
  {
    (v & 0xFF) as byte
  }

  /** Splitting a value into bytes and assembling them gives the value back. */
  lemma WordOfSplit(v: uint16)
    ensures Word(Msb(v), Lsb(v)) == v
  {
  }

  /** Assembling two bytes and splitting the word gives the bytes back. */
  lemma SplitOfWord(msb: byte, lsb: byte)
    ensures Msb(Word(msb, lsb)) == msb && Lsb(Word(msb, lsb)) == lsb
  {
  }

  /** The raw value of the word at `at` (`TemperatureAt` or `HumidityAt`). */
  function Raw(rx: RxBuffer, at: nat): uint16
    requires at == TemperatureAt || at == HumidityAt
  {
    Word(rx[at], rx[at + 1])
  }

  /** The word at `at` matches the checksum byte that follows it. */
  predicate FieldValid(rx: RxBuffer, at: nat)
    requires at == TemperatureAt || at == HumidityAt
  {
    Crc(rx[at..at + 2]) == rx[at + 2]
  }

  /**
   Lines 181 and 205-220 of `mainThread`: `status` is cleared, and when the
   six-byte read succeeds it is set, the temperature word is checked and, only
   if it passes, both raw registers are assembled and the humidity word is
   checked (and stored whatever its check says).
   */
  function Step(s: Sensor, readOk: bool, rx: RxBuffer): (c: Cycle)
    ensures c.next.status == (if readOk then 1 else 0)
    ensures c.readFault <==> !readOk
    ensures c.temperatureCrcError <==> readOk && !FieldValid(rx, TemperatureAt)
    ensures c.humidityCrcError <==>
              readOk && FieldValid(rx, TemperatureAt) && !FieldValid(rx, HumidityAt)
    ensures readOk && FieldValid(rx, TemperatureAt) ==>
              c.next.temperature == Raw(rx, TemperatureAt) && c.next.humidity == Raw(rx, HumidityAt)
    ensures !(readOk && FieldValid(rx, TemperatureAt)) ==>
              c.next.temperature == s.temperature && c.next.humidity == s.humidity
  {
    if !readOk then
      Cycle(Sensor(s.temperature, s.humidity, 0), false, false, true)
    else if CheckCrc(rx[0..], 2, rx[2]) == ChecksumError then
      assert rx[0..][..2] == rx[0..2];
      Cycle(Sensor(s.temperature, s.humidity, 1), true, false, false)
    else
      assert rx[0..][..2] == rx[0..2];
      assert rx[3..][..2] == rx[3..5];
      var temperature := Word(rx[0], rx[1]);
      var humidityError := CheckCrc(rx[3..], 2, rx[5]) == ChecksumError;
      var humidity := Word(rx[3], rx[4]);
      Cycle(Sensor(temperature, humidity, 1), false, humidityError, false)
  }

  /** The six bytes a sensor sends for raw readings `t` and `h`, each word followed by its checksum. */
  function Frame(t: uint16, h: uint16): (rx: RxBuffer)
    ensures Raw(rx, TemperatureAt) == t && Raw(rx, HumidityAt) == h
    ensures FieldValid(rx, TemperatureAt) && FieldValid(rx, HumidityAt)
  {
    var rx: RxBuffer := [Msb(t), Lsb(t), Crc([Msb(t), Lsb(t)]), Msb(h), Lsb(h), Crc([Msb(h), Lsb(h)])];
    assert rx[0..2] == [Msb(t), Lsb(t)];
    assert rx[3..5] == [Msb(h), Lsb(h)];
    rx
  }

  /** A well-formed frame is taken over whole, with no fault reported. */
  lemma StepAcceptsFrame(s: Sensor, t: uint16, h: uint16)
    ensures Step(s, true, Frame(t, h)) == Cycle(Sensor(t, h, 1), false, false, false)
  {
  }

  /**
   One corrupted byte in the temperature word or its checksum is reported and
   leaves both raw registers as they were, without checking humidity.
   */
  lemma CorruptTemperatureRejected(s: Sensor, t: uint16, h: uint16, i: nat, b: byte)
    requires i < 3 && b != Frame(t, h)[i]
    ensures var c := Step(s, true, Frame(t, h)[i := b]);
      && c.temperatureCrcError && !c.humidityCrcError
      && c.next == Sensor(s.temperature, s.humidity, 1)
  {
    var rx := Frame(t, h)[i := b];
    var word := [Msb(t), Lsb(t)];
    assert Frame(t, h)[0..2] == word;
    if i == 0 {
      assert rx[0..2] == [b, Lsb(t)];
      CorruptedWordFails(Msb(t), Lsb(t), b, Lsb(t));
    } else if i == 1 {
      assert rx[0..2] == [Msb(t), b];
      CorruptedWordFails(Msb(t), Lsb(t), Msb(t), b);
    } else {
      assert rx[0..2] == word;
    }
    assert !FieldValid(rx, TemperatureAt);
  }

  /**
   One corrupted byte in the humidity word or its checksum is reported, yet
   the temperature is taken over and the humidity register receives the
   (possibly corrupted) word.
   */
  lemma CorruptHumidityStoredAnyway(s: Sensor, t: uint16, h: uint16, i: nat, b: byte)
    requires 3 <= i < 6 && b != Frame(t, h)[i]
    ensures var rx := Frame(t, h)[i := b];
      var c := Step(s, true, rx);
      && !c.temperatureCrcError && c.humidityCrcError
      && c.next == Sensor(t, Raw(rx, HumidityAt), 1)
  {
    var rx := Frame(t, h)[i := b];
    var word := [Msb(h), Lsb(h)];
    assert rx[0..2] == Frame(t, h)[0..2];
    assert Frame(t, h)[3..5] == word;
    if i == 3 {
      assert rx[3..5] == [b, Lsb(h)];
      CorruptedWordFails(Msb(h), Lsb(h), b, Lsb(h));
    } else if i == 4 {
      assert rx[3..5] == [Msb(h), b];
      CorruptedWordFails(Msb(h), Lsb(h), Msb(h), b);
    } else {
      assert rx[3..5] == word;
    }
    assert FieldValid(rx, TemperatureAt);
    assert !FieldValid(rx, HumidityAt);
  }

  /** A cycle's outcome does not depend on the `status` left by the cycle before. */
  lemma StatusClearedEachCycle(s: Sensor, s': Sensor, readOk: bool, rx: RxBuffer)
    requires s.temperature == s'.temperature && s.humidity == s'.humidity
    ensures Step(s, readOk, rx) == Step(s', readOk, rx)
  {
  }

  /** The temperature word 0x6674 carries the checksum 0xB2 and is taken over. */
  lemma ExampleTemperatureFrame(s: Sensor)
    ensures var c := Step(s, true, [0x66, 0x74, 0xB2, 0x00, 0x00, 0x81]);
      c == Cycle(Sensor(0x6674, 0, 1), false, false, false)
  {
    var rx: RxBuffer := [0x66, 0x74, 0xB2, 0x00, 0x00, 0x81];
    CrcOfWord(0x66, 0x74);
    assert ByteStep(0xFF ^ 0x66) == 0xB1;
    assert ByteStep(0xB1 ^ 0x74) == 0xB2;
    assert rx[0..2] == [0x66, 0x74];
    CrcOfWord(0x00, 0x00);
    assert ByteStep(0xFF) == 0xAC;
    assert ByteStep(0xAC) == 0x81;
    assert rx[3..5] == [0x00, 0x00];
  }

  /** One read transfer of the polling loop: whether it succeeded, and the bytes it left. */
  datatype Read = Read(ok: bool, rx: RxBuffer)

  /** Whether a read updates the raw registers. */
  predicate Accepted(r: Read)
  {
    r.ok && FieldValid(r.rx, TemperatureAt)
  }

  /**
   The raw registers after a sequence of reads, defined without the step:
   the words of the most recent accepted read, or the initial registers when
   no read was accepted.
   */
  function Latest(s: Sensor, trace: seq<Read>): (uint16, uint16)
    decreases |trace|
  {
    if |trace| == 0 then (s.temperature, s.humidity)
    else
      var r := trace[|trace| - 1];
      if Accepted(r) then (Raw(r.rx, TemperatureAt), Raw(r.rx, HumidityAt))
      else Latest(s, trace[..|trace| - 1])
  }

  /**
   The `while (1)` loop of `mainThread` over a finite run of reads, starting
   from arbitrary registers (the source leaves them uninitialised).
   */
  method Poll(s: Sensor, trace: seq<Read>) returns (final: Sensor)
    ensures (final.temperature, final.humidity) == Latest(s, trace)
    ensures final.status == if |trace| == 0 then s.status
                            else if trace[|trace| - 1].ok then 1 else 0
  {
    final := s;
    var i := 0;
    while i < |trace|
      invariant i <= |trace|
      invariant (final.temperature, final.humidity) == Latest(s, trace[..i])
      invariant final.status == if i == 0 then s.status else if trace[i - 1].ok then 1 else 0
    {
      final := Step(final, trace[i].ok, trace[i].rx).next;
      assert trace[..i + 1][..i] == trace[..i];
      i := i + 1;
    }
    assert trace[..|trace|] == trace;
  }
}
