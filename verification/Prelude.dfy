/** Types shared by every module: results, options and the machine integers of the source. */
module Prelude {

  datatype Option<+T> = None | Some(value: T)

  datatype Result<+T, +E> = Ok(value: T) | Err(error: E) {
    predicate IsFailure() {
      Err?
    }

    function PropagateFailure<U>(): Result<U, E>
      requires Err?
    {
      Err(error)
    }

    function Extract(): T
      requires Ok?
    {
      value
    }
  }

  type Byte = x: nat | x < 0x100

  type Bytes = seq<Byte>

  /** The bytes of an ASCII literal. */
  function Ascii(s: string): (b: Bytes)
    ensures |b| == |s| && forall i | 0 <= i < |s| :: b[i] == s[i] as nat % 128
  {
    seq(|s|, i requires 0 <= i < |s| => s[i] as nat % 128)
  }

  /** A domain separation tag: its name and a zero byte. */
  function DomainTag(name: string): (b: Bytes)
    ensures |b| == |name| + 1 && b[|name|] == 0 && forall i | 0 <= i < |name| :: b[i] == name[i] as nat % 128
  {
    Ascii(name) + [0]
  }

  const U32_LIMIT: nat := 0x1_0000_0000
  const U64_MAX: nat := 0xFFFF_FFFF_FFFF_FFFF

  /** The values of the source's `u64`. */
  type U64 = x: nat | x <= U64_MAX

  /** `a.saturating_add(b)` on `u64`. */
  function SaturatingAdd(a: U64, b: U64): U64 {
    if a + b > U64_MAX then U64_MAX else a + b
  }

  /** The algorithm suites that have a registered byte. */
  datatype Suite = Classical | PqHybrid | ReservedAeadGcm | ReservedAnchorSlhDsa | ReservedHashSha3

  function SuiteByte(s: Suite): Byte {
    match s
    case Classical => 1
    case PqHybrid => 2
    case ReservedAeadGcm => 3
    case ReservedAnchorSlhDsa => 4
    case ReservedHashSha3 => 5
  }

  /** `Suite::from_u8`. */
  function SuiteFromByte(b: Byte): (s: Option<Suite>)
    ensures forall x :: s == Some(x) <==> b == SuiteByte(x)
  {
    if b == 1 then Some(Classical)
    else if b == 2 then Some(PqHybrid)
    else if b == 3 then Some(ReservedAeadGcm)
    else if b == 4 then Some(ReservedAnchorSlhDsa)
    else if b == 5 then Some(ReservedHashSha3)
    else None
  }

  /** `n as u32`: truncation to the low 32 bits. */
  function AsU32(n: nat): nat {
    n % U32_LIMIT
  }
}
