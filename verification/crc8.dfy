/**
 The SHT3x checksum: CRC-8 with polynomial x^8 + x^5 + x^4 + 1, initial value
 0xFF, no reflection of input or output and no final XOR, as computed by
 `SHT3X_CalcCrc` and compared by `SHT3X_CheckCrc` in i2ctmp007.c.

 The checksum is defined once, as a left fold of a one-byte step over the
 data (`Crc`); the method `CalcCrc` follows the C code's two nested loops and
 its C integer promotions, and is proved to compute `Crc`.
 */
module Crc8 {

  type byte = bv8

  /** The register value the computation starts from. */
  const Init: byte := 0xFF

  /** The generator polynomial as the source writes it, including the x^8 term. */
  const Polynomial: bv32 := 0x131

  /** The polynomial once the x^8 term has fallen off the 8-bit register. */
  const Poly8: byte := 0x31

  datatype Option<T> = None | Some(value: T)

  /** Error codes of the driver (`etError`); each failure is a distinct bit. */
  datatype ErrorCode = NoError | AckError | ChecksumError | TimeoutError | ParmError
  {
    /** The numeric value of the code: zero for success, a single distinct bit for each failure. */
    function Code(): (c: byte)
      ensures c == 0 <==> this == NoError
      ensures c & (c - 1) == 0
    {
      match this
      case NoError => 0x00
      case AckError => 0x01
      case ChecksumError => 0x02
      case TimeoutError => 0x04
      case ParmError => 0x80
    }
  }

  /** Reads an `etError` value back from its code; other bytes name no code. */
  function FromCode(c: byte): (e: Option<ErrorCode>)
    ensures e.Some? ==> e.value.Code() == c
    ensures e.None? <==> c !in {0x00, 0x01, 0x02, 0x04, 0x80}
  {
    if c == 0x00 then Some(NoError)
    else if c == 0x01 then Some(AckError)
    else if c == 0x02 then Some(ChecksumError)
    else if c == 0x04 then Some(TimeoutError)
    else if c == 0x80 then Some(ParmError)
    else None
  }

  /** Every error code reads back as itself, so the codes are pairwise distinct. */
  lemma CodeRoundTrip(e: ErrorCode)
    ensures FromCode(e.Code()) == Some(e)
  {
  }

  /**
   One step of the division by the polynomial on the 8-bit register: shift
   left and, when a set bit falls off the top, subtract (XOR) the polynomial.
   Because the polynomial's x^0 term is set, the low bit of the result tells
   whether the top bit was set, and the bits where the polynomial is zero are
   the plain shift.
   */
  function BitStep(crc: byte): (r: byte)
    ensures (r & 1 == 1) <==> (crc & 0x80 != 0)
    ensures r & 0xCE == (crc << 1) & 0xCE
    ensures r & 0x30 == ((crc << 1) ^ (if crc & 0x80 != 0 then 0x30 else 0)) & 0x30
  {
    if crc & 0x80 != 0 then (crc << 1) ^ Poly8 else crc << 1
  }

  /**
   The bit step as the C source evaluates it: `crc << 1` is promoted to a
   32-bit `int`, XORed with 0x131 there, and truncated back to `uint8_t` on
   assignment.
   */
  function CBitStep(crc: byte): (r: byte)
    ensures r == BitStep(crc)
  {
    var shifted: bv32 := (crc as bv32) << 1;
    var wide := if crc & 0x80 != 0 then shifted ^ Polynomial else shifted;
    (wide & 0xFF) as byte
  }

  /** The bit step loses no information: distinct registers step to distinct registers. */
  lemma BitStepInjective(a: byte, b: byte)
    requires BitStep(a) == BitStep(b)
    ensures a == b
  {
    assert (a & 0x80 != 0) <==> (b & 0x80 != 0);
  }

  /** `k` bit steps applied to `crc`. */
  function BitSteps(crc: byte, k: nat): byte
  {
    if k == 0 then crc else BitStep(BitSteps(crc, k - 1))
  }

  /** The work done for one data byte: eight bit steps. */
  function ByteStep(crc: byte): byte
  {
    BitSteps(crc, 8)
  }

  lemma {:induction false} BitStepsInjective(a: byte, b: byte, k: nat)
    requires BitSteps(a, k) == BitSteps(b, k)
    ensures a == b
    decreases k
  {
    if k > 0 {
      BitStepInjective(BitSteps(a, k - 1), BitSteps(b, k - 1));
      BitStepsInjective(a, b, k - 1);
    }
  }

  /** Distinct registers give distinct registers after a whole byte's worth of steps. */
  lemma ByteStepInjective(a: byte, b: byte)
    requires ByteStep(a) == ByteStep(b)
    ensures a == b
  {
    BitStepsInjective(a, b, 8);
  }

  /** Feeds the bytes of `data`, first to last, into the register `crc`. */
  function Fold(crc: byte, data: seq<byte>): byte
    decreases |data|
  {
    if |data| == 0 then crc else Fold(ByteStep(crc ^ data[0]), data[1..])
  }

  /** The SHT3x checksum of `data`. */
  function Crc(data: seq<byte>): byte
  {
    Fold(Init, data)
  }

  /** Folding a concatenation folds the first part, then the second from there. */
  lemma {:induction false} FoldAppend(crc: byte, p: seq<byte>, q: seq<byte>)
    ensures Fold(crc, p + q) == Fold(Fold(crc, p), q)
    decreases |p|
  {
    if |p| > 0 {
      assert (p + q)[1..] == p[1..] + q;
      FoldAppend(ByteStep(crc ^ p[0]), p[1..], q);
    } else {
      assert p + q == q;
    }
  }

  /** The checksum of no bytes is the initial value. */
  lemma CrcEmpty()
    ensures Crc([]) == 0xFF
  {
  }

  /** The outer loop's invariant: one more byte is XORed in and stepped eight times. */
  lemma CrcAppendByte(s: seq<byte>, b: byte)
    ensures Crc(s + [b]) == BitSteps(Crc(s) ^ b, 8)
  {
    FoldAppend(Init, s, [b]);
  }

  /** The same bytes fed into different registers leave different registers. */
  lemma {:induction false} FoldInjective(a: byte, b: byte, q: seq<byte>)
    requires Fold(a, q) == Fold(b, q)
    ensures a == b
    decreases |q|
  {
    if |q| > 0 {
      FoldInjective(ByteStep(a ^ q[0]), ByteStep(b ^ q[0]), q[1..]);
      ByteStepInjective(a ^ q[0], b ^ q[0]);
      assert a == (a ^ q[0]) ^ q[0];
    }
  }

  /**
   Two messages of the same length that differ in exactly one byte have
   different checksums: every single-byte corruption is detected.
   */
  lemma SingleByteErrorDetected(p: seq<byte>, x: byte, y: byte, q: seq<byte>)
    requires x != y
    ensures Crc(p + [x] + q) != Crc(p + [y] + q)
  {
    var s := Crc(p);
    FoldMiddle(p, x, q);
    FoldMiddle(p, y, q);
    if Fold(ByteStep(s ^ x), q) == Fold(ByteStep(s ^ y), q) {
      FoldInjective(ByteStep(s ^ x), ByteStep(s ^ y), q);
      MixInjective(s, x, y);
    }
  }

  /** XORing two different bytes into the same register and stepping keeps them apart. */
  lemma MixInjective(s: byte, x: byte, y: byte)
    requires ByteStep(s ^ x) == ByteStep(s ^ y)
    ensures x == y
  {
    ByteStepInjective(s ^ x, s ^ y);
    assert x == (s ^ x) ^ s;
  }

  /** The checksum of `p + [x] + q` passes through the register left by `p`, then `x`. */
  lemma FoldMiddle(p: seq<byte>, x: byte, q: seq<byte>)
    ensures Crc(p + [x] + q) == Fold(ByteStep(Crc(p) ^ x), q)
  {
    FoldAppend(Init, p, [x] + q);
    assert p + [x] + q == p + ([x] + q);
    assert ([x] + q)[1..] == q;
  }

  /** The checksum of a two-byte word, as the sensor attaches it to each measurement. */
  lemma CrcOfWord(msb: byte, lsb: byte)
    ensures Crc([msb, lsb]) == ByteStep(ByteStep(Init ^ msb) ^ lsb)
  {
    var first := ByteStep(Init ^ msb);
    assert [msb, lsb][1..] == [lsb];
    assert Fold(Init, [msb, lsb]) == Fold(first, [lsb]);
    assert [lsb][1..] == [];
    assert Fold(first, [lsb]) == Fold(ByteStep(first ^ lsb), []);
  }

  /** The datasheet's worked example: the checksum of 0xBE, 0xEF is 0x92. */
  lemma DatasheetExample()
    ensures Crc([0xBE, 0xEF]) == 0x92
  {
    CrcOfWord(0xBE, 0xEF);
    assert ByteStep(0xFF ^ 0xBE) == 0x0C;
    assert ByteStep(0x0C ^ 0xEF) == 0x92;
  }

  /**
   `SHT3X_CalcCrc`: the checksum of the first `nbrOfBytes` bytes of `data`,
   following the source's loops over bytes and over the eight bits of each.
   */
  method CalcCrc(data: seq<byte>, nbrOfBytes: byte) returns (crc: byte)
    requires nbrOfBytes as int <= |data|
    ensures crc == Crc(data[..nbrOfBytes])
  {
    crc := Init;
    var byteCtr: nat := 0;
    while byteCtr < nbrOfBytes as int
      invariant byteCtr <= nbrOfBytes as int
      invariant crc == Crc(data[..byteCtr])
    {
      crc := crc ^ data[byteCtr];
      ghost var mixed := crc;
      var bit: nat := 8;
      while bit > 0
        invariant bit <= 8
        invariant crc == BitSteps(mixed, 8 - bit)
      {
        crc := CBitStep(crc);
        bit := bit - 1;
      }
      CrcAppendByte(data[..byteCtr], data[byteCtr]);
      assert data[..byteCtr + 1] == data[..byteCtr] + [data[byteCtr]];
      byteCtr := byteCtr + 1;
    }
  }

  /**
   `SHT3X_CheckCrc`: compares the checksum of the first `nbrOfBytes` bytes of
   `data` with `checksum`.
   */
  function CheckCrc(data: seq<byte>, nbrOfBytes: byte, checksum: byte): (e: ErrorCode)
    requires nbrOfBytes as int <= |data|
    ensures e == NoError || e == ChecksumError
    ensures e == NoError <==> Crc(data[..nbrOfBytes]) == checksum
  {
    if Crc(data[..nbrOfBytes]) != checksum then ChecksumError else NoError
  }

  /** Data checked against its own checksum always passes. */
  lemma CheckOwnCrc(data: seq<byte>, nbrOfBytes: byte)
    requires nbrOfBytes as int <= |data|
    ensures CheckCrc(data, nbrOfBytes, Crc(data[..nbrOfBytes])) == NoError
  {
  }

  /**
   A two-byte word that differs from the original in one byte fails the check
   against the original's checksum.
   */
  lemma CorruptedWordFails(hi: byte, lo: byte, hi': byte, lo': byte)
    requires (hi != hi' && lo == lo') || (hi == hi' && lo != lo')
    ensures Crc([hi', lo']) != Crc([hi, lo])
    ensures CheckCrc([hi', lo'], 2, Crc([hi, lo])) == ChecksumError
  {
    assert [hi', lo'][..2] == [hi', lo'];
    if hi != hi' {
      assert [hi, lo] == [] + [hi] + [lo];
      assert [hi', lo'] == [] + [hi'] + [lo];
      SingleByteErrorDetected([], hi, hi', [lo]);
    } else {
      assert [hi, lo] == [hi] + [lo] + [];
      assert [hi', lo'] == [hi] + [lo'] + [];
      SingleByteErrorDetected([hi], lo, lo', []);
    }
  }
}
