/** Value types the buffer pool works with: page identifiers, pages,
    transactions and the failures the pool raises. The byte layout of a
    page belongs to the table layer and is kept opaque here. */
module PageModel {

  /** A page is identified by its table and its number within that table. */
  datatype PageId = PageId(tableId: int, pageNo: int)

  /** A cached page: its identifier, its contents and the dirty flag. */
  datatype Page = Page(id: PageId, data: seq<bv8>, dirty: bool)

  /** The page as `markDirty(null)` leaves it: same contents, flag cleared. */
  function Cleaned(p: Page): (q: Page)
    ensures !q.dirty && q.id == p.id && q.data == p.data
  {
    p.(dirty := false)
  }

  datatype LockType = SLock | XLock

  type TransactionId = nat

  /** A transaction and the lock mode it declared when it started. */
  datatype Transaction = Transaction(id: TransactionId, lockType: LockType)

  /** Pages a connection has modified and not yet handed to the pool. */
  type DirtyPages = map<PageId, Page>

  /** A Java reference that may be null. */
  datatype Option<+T> = None | Some(value: T)

  /** The exceptions the pool lets escape. */
  datatype Failure =
    | LockNotAcquired  // TransactionException rethrown from the lock manager
    | XLockRequired    // TransactionException: update without an exclusive lock
    | NoDirtyPages     // DbException: an insert produced no dirty page

  datatype Result<+T> = Ok(value: T) | Err(failure: Failure)
}
