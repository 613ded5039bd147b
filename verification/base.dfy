/** Shared vocabulary: the optional-value datatype and the fixed-width
    integer ranges the DNS library uses for its wire fields. */
module Base {

  /** A value that may be absent; stands for Go's nil pointers and
      (value, error) pairs whose error the caller only tests. */
  datatype Option<+T> = None | Some(value: T)

  type byte = x: int | 0 <= x < 0x100
  type uint16 = x: int | 0 <= x < 0x1_0000
  type uint32 = x: int | 0 <= x < 0x1_0000_0000
}
