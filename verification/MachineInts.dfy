/** Fixed-width integers of the crate and the outcomes its block devices can have. */
module MachineInts {

  const TWO_32: int := 0x1_0000_0000
  const TWO_63: int := 0x8000_0000_0000_0000
  const TWO_64: int := 0x1_0000_0000_0000_0000

  type u32 = x: int | 0 <= x < TWO_32
  type u64 = x: int | 0 <= x < TWO_64
  newtype byte = x: int | 0 <= x < 256

  datatype Option<+T> = None | Some(value: T)

  datatype Result<+T, +E> = Ok(value: T) | Err(error: E)

  /** Why a block device refused a request. The last three come from the host only. */
  datatype IoError = UnexpectedEof | InvalidSeek | NotFound | HostFault | WriteZero

  /** What a `read_blocks` or `write_blocks` call does: it returns a count, an error, or panics. */
  datatype Outcome = Served(count: u32) | Refused(error: IoError) | Panicked

  lemma MulMonotone(a: nat, b: nat, c: nat)
    requires a <= b
    ensures a * c <= b * c
  {
  }

  /** The u64 a computed value becomes: with overflow checks it panics (None), without it wraps. */
  function Fit64(checked: bool, x: nat): Option<u64> {
    if x < TWO_64 then Some(x)
    else if checked then None
    else Some(x % TWO_64)
  }

  /** `a * b` on u64. */
  function Mul64(checked: bool, a: u64, b: u64): Option<u64> {
    MulMonotone(0, a, b);
    Fit64(checked, a * b)
  }

  /** `a + b` on a 64-bit usize. */
  function Add64(checked: bool, a: u64, b: u64): Option<u64> {
    Fit64(checked, a + b)
  }

  /** The truncating cast `x as u32`. */
  function AsU32(x: nat): u32 {
    x % TWO_32
  }

  /** The reinterpreting cast `x as i64`. */
  function AsI64(x: u64): int {
    if x < TWO_63 then x else x - TWO_64
  }

  lemma MulAdd(a: int, b: int, c: int)
    ensures (a + b) * c == a * c + b * c
  {
  }

  lemma MulDiv(a: nat, c: nat)
    requires 0 < c
    ensures a * c / c == a
    ensures a * c % c == 0
  {
    var q, r := a * c / c, a * c % c;
    assert a * c == q * c + r;
    if a < q {
      MulMonotone(a + 1, q, c);
      MulAdd(a, 1, c);
      assert false;
    }
    if q < a {
      MulMonotone(q + 1, a, c);
      MulAdd(q, 1, c);
      assert false;
    }
  }
}
