/** Narrowing captured PCM to 16 bits, byte by byte in place. */
module Pcm {

  datatype Format = U8 | S16 | S24 | S32 | F32 | OtherFormat

  function FormatBitDepth(format: Format, requested: int): int {
    match format
    case U8 => 8
    case S16 => 16
    case S24 => 24
    case S32 => 32
    case F32 => 32
    case OtherFormat => requested
  }

  function S16OutputSize(length: nat, format: Format): nat {
    match format
    case S24 => length / 3 * 2
    case S32 | F32 => length / 4 * 2
    case _ => length
  }

  // ---- Machine words ----

  predicate Negative(v: bv32) {
    v & 0x8000_0000 != 0
  }

  /** Right shift of a 32-bit word that copies the sign bit. */
  function ShiftRight8(v: bv32): bv32 {
    if Negative(v) then (v >> 8) | 0xFF00_0000 else v >> 8
  }

  function ShiftRight16(v: bv32): bv32 {
    if Negative(v) then (v >> 16) | 0xFFFF_0000 else v >> 16
  }

  /** Limits a signed 32-bit word to the 16-bit range. */
  function Clamp(v: bv32): bv32 {
    if !Negative(v) && v > 0x7FFF then 0x7FFF
    else if Negative(v) && v < 0xFFFF_8000 then 0xFFFF_8000
    else v
  }

  function Word24(b0: bv8, b1: bv8, b2: bv8): bv32 {
    var v := (b0 as bv32) | ((b1 as bv32) << 8) | ((b2 as bv32) << 16);
    if v & 0x80_0000 != 0 then v | 0xFF00_0000 else v
  }

  function Word32(b0: bv8, b1: bv8, b2: bv8, b3: bv8): bv32 {
    (b0 as bv32) | ((b1 as bv32) << 8) | ((b2 as bv32) << 16) | ((b3 as bv32) << 24)
  }

  function LowByte(v: bv32): bv8 {
    (v & 0xFF) as bv8
  }

  function SecondByte(v: bv32): bv8 {
    ((v >> 8) & 0xFF) as bv8
  }

  function Low(v: bv16): bv8 {
    (v & 0xFF) as bv8
  }

  function High(v: bv16): bv8 {
    (v >> 8) as bv8
  }

  /** The low byte first: the two bytes of a 16-bit sample read back as its value. */
  lemma {:induction false} BytesReadBack(v: bv16)
    ensures ((High(v) as bv16) << 8) | (Low(v) as bv16) == v
  {
  }

  /** Narrowing a 24-bit sample never clamps and leaves its two high bytes. */
  lemma {:induction false} Narrow24(b0: bv8, b1: bv8, b2: bv8)
    ensures var v := ShiftRight8(Word24(b0, b1, b2));
            Clamp(v) == v && LowByte(v) == b1 && SecondByte(v) == b2
  {
  }

  /** Narrowing a 32-bit sample never clamps and leaves its two high bytes. */
  lemma {:induction false} Narrow32(b0: bv8, b1: bv8, b2: bv8, b3: bv8)
    ensures var v := ShiftRight16(Word32(b0, b1, b2, b3));
            Clamp(v) == v && LowByte(v) == b2 && SecondByte(v) == b3
  {
  }

  // ---- Sample values ----

  /** Little-endian two's complement values. */
  function Signed16(b0: bv8, b1: bv8): int {
    b0 as int + 0x100 * (b1 as int) - if b1 >= 0x80 then 0x1_0000 else 0
  }

  function Signed24(b0: bv8, b1: bv8, b2: bv8): int {
    b0 as int + 0x100 * (b1 as int) + 0x1_0000 * (b2 as int) - if b2 >= 0x80 then 0x100_0000 else 0
  }

  function Signed32(b0: bv8, b1: bv8, b2: bv8, b3: bv8): int {
    b0 as int + 0x100 * (b1 as int) + 0x1_0000 * (b2 as int) + 0x100_0000 * (b3 as int)
    - if b3 >= 0x80 then 0x1_0000_0000 else 0
  }

  /** The two high bytes of a sample are its value rounded down, also for negative samples. */
  lemma {:induction false} Floor24(b0: bv8, b1: bv8, b2: bv8)
    ensures Signed24(b0, b1, b2) / 0x100 == Signed16(b1, b2)
  {
    assert Signed24(b0, b1, b2) == b0 as int + 0x100 * Signed16(b1, b2);
  }

  lemma {:induction false} Floor32(b0: bv8, b1: bv8, b2: bv8, b3: bv8)
    ensures Signed32(b0, b1, b2, b3) / 0x1_0000 == Signed16(b2, b3)
  {
    assert Signed32(b0, b1, b2, b3) == b0 as int + 0x100 * (b1 as int) + 0x1_0000 * Signed16(b2, b3);
  }

  // ---- Conversions in place ----

  method ConvertS24ToS16Into(dst: array<bv8>, samples: array<bv8>)
    requires dst != samples && dst.Length == S16OutputSize(samples.Length, S24)
    modifies dst
    ensures forall i :: 0 <= i < samples.Length / 3 ==>
              dst[2 * i] == samples[3 * i + 1] && dst[2 * i + 1] == samples[3 * i + 2]
    ensures forall i :: 0 <= i < samples.Length / 3 ==>
              Signed16(dst[2 * i], dst[2 * i + 1])
              == Signed24(samples[3 * i], samples[3 * i + 1], samples[3 * i + 2]) / 0x100
  {
    var sampleCount := samples.Length / 3;
    for i := 0 to sampleCount
      invariant forall j :: 0 <= j < i ==>
                  dst[2 * j] == samples[3 * j + 1] && dst[2 * j + 1] == samples[3 * j + 2]
    {
      var val := ShiftRight8(Word24(samples[3 * i], samples[3 * i + 1], samples[3 * i + 2]));
      Narrow24(samples[3 * i], samples[3 * i + 1], samples[3 * i + 2]);
      val := Clamp(val);
      dst[2 * i] := LowByte(val);
      dst[2 * i + 1] := SecondByte(val);
    }
    forall i | 0 <= i < sampleCount
      ensures Signed16(dst[2 * i], dst[2 * i + 1])
              == Signed24(samples[3 * i], samples[3 * i + 1], samples[3 * i + 2]) / 0x100
    {
      Floor24(samples[3 * i], samples[3 * i + 1], samples[3 * i + 2]);
    }
  }

  method ConvertS32ToS16Into(dst: array<bv8>, samples: array<bv8>)
    requires dst != samples && dst.Length == S16OutputSize(samples.Length, S32)
    modifies dst
    ensures forall i :: 0 <= i < samples.Length / 4 ==>
              dst[2 * i] == samples[4 * i + 2] && dst[2 * i + 1] == samples[4 * i + 3]
    ensures forall i :: 0 <= i < samples.Length / 4 ==>
              Signed16(dst[2 * i], dst[2 * i + 1])
              == Signed32(samples[4 * i], samples[4 * i + 1], samples[4 * i + 2], samples[4 * i + 3]) / 0x1_0000
  {
    var sampleCount := samples.Length / 4;
    for i := 0 to sampleCount
      invariant forall j :: 0 <= j < i ==>
                  dst[2 * j] == samples[4 * j + 2] && dst[2 * j + 1] == samples[4 * j + 3]
    {
      var val := ShiftRight16(Word32(samples[4 * i], samples[4 * i + 1], samples[4 * i + 2], samples[4 * i + 3]));
      Narrow32(samples[4 * i], samples[4 * i + 1], samples[4 * i + 2], samples[4 * i + 3]);
      val := Clamp(val);
      dst[2 * i] := LowByte(val);
      dst[2 * i + 1] := SecondByte(val);
    }
    forall i | 0 <= i < sampleCount
      ensures Signed16(dst[2 * i], dst[2 * i + 1])
              == Signed32(samples[4 * i], samples[4 * i + 1], samples[4 * i + 2], samples[4 * i + 3]) / 0x1_0000
    {
      Floor32(samples[4 * i], samples[4 * i + 1], samples[4 * i + 2], samples[4 * i + 3]);
    }
  }

  /** The floating-point conversion of one sample is a parameter. */
  method ConvertF32ToS16Into(dst: array<bv8>, samples: array<bv8>, narrow: bv32 -> bv16)
    requires dst != samples && dst.Length == S16OutputSize(samples.Length, F32)
    modifies dst
    ensures forall i :: 0 <= i < samples.Length / 4 ==>
              var v := narrow(Word32(samples[4 * i], samples[4 * i + 1], samples[4 * i + 2], samples[4 * i + 3]));
              dst[2 * i] == Low(v) && dst[2 * i + 1] == High(v)
  {
    var sampleCount := samples.Length / 4;
    for i := 0 to sampleCount
      invariant forall j :: 0 <= j < i ==>
                  var v := narrow(Word32(samples[4 * j], samples[4 * j + 1], samples[4 * j + 2], samples[4 * j + 3]));
                  dst[2 * j] == Low(v) && dst[2 * j + 1] == High(v)
    {
      var v := narrow(Word32(samples[4 * i], samples[4 * i + 1], samples[4 * i + 2], samples[4 * i + 3]));
      dst[2 * i] := Low(v);
      dst[2 * i + 1] := High(v);
    }
  }

  /** What the output bytes are for each format, sample by sample. */
  ghost predicate Converted(dst: seq<bv8>, samples: seq<bv8>, format: Format, narrow: bv32 -> bv16) {
    && |dst| == S16OutputSize(|samples|, format)
    && match format
       case S24 =>
         forall i :: 0 <= i < |samples| / 3 ==>
           Signed16(dst[2 * i], dst[2 * i + 1])
           == Signed24(samples[3 * i], samples[3 * i + 1], samples[3 * i + 2]) / 0x100
       case S32 =>
         forall i :: 0 <= i < |samples| / 4 ==>
           Signed16(dst[2 * i], dst[2 * i + 1])
           == Signed32(samples[4 * i], samples[4 * i + 1], samples[4 * i + 2], samples[4 * i + 3]) / 0x1_0000
       case F32 =>
         forall i :: 0 <= i < |samples| / 4 ==>
           var v := narrow(Word32(samples[4 * i], samples[4 * i + 1], samples[4 * i + 2], samples[4 * i + 3]));
           dst[2 * i] == Low(v) && dst[2 * i + 1] == High(v)
       case _ => dst == samples
  }

  /** Returns 16 for the formats that have a conversion and 0 for the copied ones. */
  method ConvertToS16IfNeededInto(dst: array<bv8>, samples: array<bv8>, format: Format, narrow: bv32 -> bv16)
    returns (bitDepth: int)
    requires dst != samples && dst.Length == S16OutputSize(samples.Length, format)
    modifies dst
    ensures Converted(dst[..], samples[..], format, narrow)
    ensures bitDepth == if format.U8? || format.OtherFormat? then 0 else 16
  {
    match format {
      case S16 =>
        CopyBytes(dst, samples);
        bitDepth := 16;
      case S24 =>
        ConvertS24ToS16Into(dst, samples);
        bitDepth := 16;
      case S32 =>
        ConvertS32ToS16Into(dst, samples);
        bitDepth := 16;
      case F32 =>
        ConvertF32ToS16Into(dst, samples, narrow);
        bitDepth := 16;
      case _ =>
        CopyBytes(dst, samples);
        bitDepth := 0;
    }
  }

  method CopyBytes(dst: array<bv8>, samples: array<bv8>)
    requires dst != samples && dst.Length == samples.Length
    modifies dst
    ensures dst[..] == samples[..]
  {
    forall i | 0 <= i < dst.Length {
      dst[i] := samples[i];
    }
  }

  method ConvertToS16IfNeeded(samples: array<bv8>, format: Format, requestedBitDepth: int, narrow: bv32 -> bv16)
    returns (data: array<bv8>, bitDepth: int)
    ensures fresh(data) && Converted(data[..], samples[..], format, narrow)
    ensures bitDepth == match format { case U8 => 8 case OtherFormat => requestedBitDepth case _ => 16 }
  {
    data := new bv8[S16OutputSize(samples.Length, format)];
    bitDepth := ConvertToS16IfNeededInto(data, samples, format, narrow);
    if bitDepth == 0 {
      bitDepth := FormatBitDepth(format, requestedBitDepth);
    }
  }

  /** The buffer that a pooled producer sizes beforehand is filled completely: whole 16-bit samples, one for each
    * whole source sample, and no byte of the source is skipped but an incomplete last sample.
    */
  lemma {:induction false} OutputSizeExact(length: nat, format: Format)
    requires format.S24? || format.S32? || format.F32?
    ensures var width := if format.S24? then 3 else 4;
            var count := S16OutputSize(length, format) / 2;
            && S16OutputSize(length, format) % 2 == 0
            && count * width <= length < (count + 1) * width
  {
  }
}
