/** What the modules share: Go's fixed-width integers and optional values. */
module Foundation {
  const MAX_UINT64: int := 0xFFFF_FFFF_FFFF_FFFF

  type uint8 = n: int | 0 <= n < 0x100
  type uint16 = n: int | 0 <= n < 0x1_0000
  type uint32 = n: int | 0 <= n < 0x1_0000_0000
  type uint64 = n: int | 0 <= n <= MAX_UINT64
  type int64 = n: int | -0x8000_0000_0000_0000 <= n < 0x8000_0000_0000_0000

  datatype Option<+T> = None | Some(value: T)

  datatype Result<+T> = Ok(value: T) | Err

  /** The decimal text of a number, without leading zeros. */
  function Numeral(n: nat): (text: string)
    ensures |text| > 0
  {
    if n < 10 then [DigitOf(n)] else Numeral(n / 10) + [DigitOf(n % 10)]
  }

  function DigitOf(d: nat): char
    requires d < 10
  {
    ('0' as int + d) as char
  }
}
