/** Small shared vocabulary: optional values, results and the machine integer widths of the source. */
module Base {

  /** `Option<T>` of the source. */
  datatype Option<T> = None | Some(value: T) {
    /** `unwrap_or` */
    function GetOr(default: T): T {
      match this
      case Some(v) => v
      case None => default
    }
  }

  /** `Result<T, E>` of the source. */
  datatype Result<T, E> = Ok(value: T) | Err(error: E)

  /** `u8` */
  type byte = b: int | 0 <= b < 0x100

  /** `u16` */
  type u16 = x: int | 0 <= x < 0x1_0000

  /** `u32` */
  type u32 = x: int | 0 <= x < 0x1_0000_0000

  /** The bytes of an ASCII string literal. */
  function Ascii(s: string): (r: seq<byte>)
    requires forall i :: 0 <= i < |s| ==> s[i] as int < 0x80
    ensures |r| == |s|
    ensures forall i :: 0 <= i < |s| ==> r[i] == s[i] as int
  {
    seq(|s|, i requires 0 <= i < |s| => s[i] as int)
  }
}
