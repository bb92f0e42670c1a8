/**
 * The success/failure wrapper every service returns, the paged-result record
 * and the offset arithmetic of `Pagination` (src/Utilities/BookStore.Utilities/Result.cs).
 */
module Results {

  datatype Option<+T> = None | Some(value: T)

  /**
   * `Result<T>`: `Ok` carries a value (Success is true, Error is null);
   * `Fail` carries an error message (Success is false, the value is left
   * at its default and is never read by a caller).
   */
  datatype Result<+T> = Ok(value: T) | Fail(error: string) {
    predicate Success() { Ok? }
  }

  datatype PagedResult<T> = PagedResult(items: seq<T>, page: int, pageSize: int, total: int)

  // ---------------------------------------------------------------------
  // 32-bit integers, as C# evaluates `int` arithmetic (unchecked context).

  const Int32Min: int := -0x8000_0000
  const Int32Max: int := 0x7FFF_FFFF

  predicate IsInt32(x: int) { Int32Min <= x <= Int32Max }

  /** Two's-complement truncation of an exact result to 32 bits. */
  function Wrap32(x: int): (r: int)
    ensures IsInt32(r)
    ensures IsInt32(x) ==> r == x
    ensures (x - r) % 0x1_0000_0000 == 0
  {
    (x - Int32Min) % 0x1_0000_0000 + Int32Min
  }

  /**
   * `Pagination.Skip` as the source computes it: `(Page - 1) * PageSize`
   * in unchecked 32-bit arithmetic.
   */
  function SkipAsWritten(page: int, pageSize: int): int
    requires IsInt32(page) && IsInt32(pageSize)
  {
    Wrap32(Wrap32(page - 1) * pageSize)
  }

  /**
   * The number of filtered rows before page `page` when pages hold
   * `pageSize` rows: the first page starts at 0 and each page starts
   * `pageSize` rows after the previous one. This is the exact value the
   * 32-bit expression above is meant to compute; the paged query uses it.
   */
  function Skip(page: int, pageSize: int): (r: int)
    ensures page == 1 ==> r == 0
    ensures page >= 1 && pageSize >= 0 ==> r >= 0
  {
    (page - 1) * pageSize
  }

  /** Consecutive pages start exactly one page size apart. */
  lemma SkipNextPage(page: int, pageSize: int)
    ensures Skip(page + 1, pageSize) == Skip(page, pageSize) + pageSize
  {
  }

  /** The 32-bit expression agrees with the exact one whenever the exact one fits. */
  lemma SkipAsWrittenAgrees(page: int, pageSize: int)
    requires IsInt32(page) && IsInt32(pageSize) && IsInt32(page - 1)
    requires IsInt32(Skip(page, pageSize))
    ensures SkipAsWritten(page, pageSize) == Skip(page, pageSize)
  {
  }

  /**
   * A counterexample to "Skip is non-negative when Page >= 1 and PageSize >= 0"
   * for the source's 32-bit expression: page 107374184 of size 20 should
   * skip 2147483660 rows, but the product wraps to a negative offset,
   * which the query then treats as 0 (the first page comes back).
   */
  lemma SkipAsWrittenOverflows()
    ensures Skip(107374184, 20) == 2147483660
    ensures SkipAsWritten(107374184, 20) == -2147483636
  {
  }
}
