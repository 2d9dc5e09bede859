/** Return codes, sentinel lengths and integer widths shared by the whole model. */
module OdbcTypes {

  /** The SQLRETURN values the modelled calls produce. */
  datatype Code = Success | SuccessWithInfo | NeedData | NoData | Error | InvalidHandle

  datatype Option<+T> = None | Some(value: T)

  /** What the native close of a connection does; when it throws, the connection may be open or closed afterwards. */
  datatype Closing = Closes | ThrowsOpen | ThrowsClosed

  /** Sentinel values of a length/indicator word. */
  const SQL_NULL_DATA: int := -1
  const SQL_DATA_AT_EXEC: int := -2
  const SQL_NTS: int := -3
  const SQL_LEN_DATA_AT_EXEC_OFFSET: int := -100

  /** SQL_BIND_BY_COLUMN; every other orientation is the size of the application's row structure. */
  const BIND_BY_COLUMN: nat := 0

  const TWO_16: int := 0x1_0000
  const TWO_31: int := 0x8000_0000
  const TWO_32: int := 0x1_0000_0000
  const TWO_63: int := 0x8000_0000_0000_0000
  const TWO_64: int := 0x1_0000_0000_0000_0000

  type Byte = x: int | 0 <= x < 256

  predicate Distinct<T(==)>(s: seq<T>) {
    forall i, j :: 0 <= i < j < |s| ==> s[i] != s[j]
  }

  function Min(a: int, b: int): int {
    if a <= b then a else b
  }

  function Max(a: int, b: int): int {
    if a <= b then b else a
  }

  /** A conversion to a 32-bit signed integer: two's complement wrap-around. */
  function ToInt32(n: int): (r: int)
    ensures -TWO_31 <= r < TWO_31
    ensures -TWO_31 <= n < TWO_31 ==> r == n
  {
    var m := n % TWO_32;
    if m < TWO_31 then m else m - TWO_32
  }

  /** A conversion to a 32-bit unsigned integer. */
  function ToUint32(n: int): (r: int)
    ensures 0 <= r < TWO_32
    ensures 0 <= n < TWO_32 ==> r == n
  {
    n % TWO_32
  }
}
