/** Small types and facts that several components share. */
module Common {
  type Byte = x: int | 0 <= x < 256

  /** The guest page size. */
  const PAGE := 0x1000

  datatype Option<T> = None | Some(value: T)

  function Max(x: int, y: int): (r: int)
    ensures r >= x && r >= y && (r == x || r == y)
  {
    if x < y then y else x
  }

  function Min(x: int, y: int): (r: int)
    ensures r <= x && r <= y && (r == x || r == y)
  {
    if x < y then x else y
  }

  lemma Pick<T>(s: set<T>) returns (x: T)
    requires s != {}
    ensures x in s
  {
    x :| x in s;
  }
}
