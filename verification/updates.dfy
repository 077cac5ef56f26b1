/** `insertRow` and `deleteRow`: the table layer changes pages and records
    them in the connection's dirty-page map; the pool then copies every
    dirty entry into `pool` and the connection's map is cleared. The table
    operation itself is the parameter `tableStep`, taking the connection's
    dirty map before the call to the map after it. */
module RowUpdates {
  import opened PageModel
  import opened BufferPool

  /** The calling connection: its current transaction and its dirty pages. */
  datatype Connection = Connection(txn: Transaction, dirty: DirtyPages)

  /** The pool and connection after an update, whether the table operation
      ran, and the caller's answer. */
  datatype Updated = Updated(state: State, dirty: DirtyPages, tableCalled: bool, result: Result<()>)

  /** The `pool.put` loop over the dirty entries: a dirty entry replaces any
      resident copy; every other resident page stays as it was. */
  function MergeDirty(pool: map<PageId, Page>, dirty: DirtyPages): (r: map<PageId, Page>)
    ensures r.Keys == pool.Keys + dirty.Keys
    ensures forall pid :: pid in dirty ==> r[pid] == dirty[pid]
    ensures forall pid :: pid in pool && pid !in dirty ==> r[pid] == pool[pid]
  {
    pool + dirty
  }

  /** The merge both updates end with. */
  function Apply(s: State, dirty: DirtyPages): (u: Updated)
  {
    Updated(s.(pool := MergeDirty(s.pool, dirty)), map[], true, Ok(()))
  }

  /** `insertRow`: only an XLock transaction may update; an insert that
      leaves no dirty page is a `DbException`. */
  function InsertRow(s: State, conn: Connection, tableStep: DirtyPages -> DirtyPages): (u: Updated)
    ensures conn.txn.lockType != XLock ==> u == Updated(s, conn.dirty, false, Err(XLockRequired))
    ensures conn.txn.lockType == XLock && tableStep(conn.dirty) == map[] ==>
      u == Updated(s, map[], true, Err(NoDirtyPages))
    ensures u.result.Ok? <==> conn.txn.lockType == XLock && tableStep(conn.dirty) != map[]
    ensures u.result.Ok? ==>
      && u.tableCalled
      && u.dirty == map[]
      && u.state == s.(pool := u.state.pool)
      && u.state.pool.Keys == s.pool.Keys + tableStep(conn.dirty).Keys
      && (forall pid :: pid in tableStep(conn.dirty) ==> u.state.pool[pid] == tableStep(conn.dirty)[pid])
      && (forall pid :: pid in s.pool && pid !in tableStep(conn.dirty) ==> u.state.pool[pid] == s.pool[pid])
  {
    if conn.txn.lockType != XLock then
      Updated(s, conn.dirty, false, Err(XLockRequired))
    else
      var dirty := tableStep(conn.dirty);
      if dirty == map[] then Updated(s, dirty, true, Err(NoDirtyPages))
      else Apply(s, dirty)
  }

  /** `deleteRow`: the same lock check and merge, with no check that the
      delete produced a dirty page. */
  function DeleteRow(s: State, conn: Connection, tableStep: DirtyPages -> DirtyPages): (u: Updated)
    ensures conn.txn.lockType != XLock ==> u == Updated(s, conn.dirty, false, Err(XLockRequired))
    ensures u.result.Ok? <==> conn.txn.lockType == XLock
    ensures u.result.Ok? ==>
      && u.tableCalled
      && u.dirty == map[]
      && u.state == s.(pool := u.state.pool)
      && u.state.pool.Keys == s.pool.Keys + tableStep(conn.dirty).Keys
      && (forall pid :: pid in tableStep(conn.dirty) ==> u.state.pool[pid] == tableStep(conn.dirty)[pid])
      && (forall pid :: pid in s.pool && pid !in tableStep(conn.dirty) ==> u.state.pool[pid] == s.pool[pid])
  {
    if conn.txn.lockType != XLock then
      Updated(s, conn.dirty, false, Err(XLockRequired))
    else
      Apply(s, tableStep(conn.dirty))
  }

  /** An update keeps the frame table, the bits and both cursors, so a
      well-formed pool stays well-formed; only `pool` grows. */
  lemma UpdatesKeepValid(s: State, conn: Connection, tableStep: DirtyPages -> DirtyPages)
    requires Valid(s)
    ensures Valid(InsertRow(s, conn, tableStep).state)
    ensures Valid(DeleteRow(s, conn, tableStep).state)
    ensures s.pool.Keys <= InsertRow(s, conn, tableStep).state.pool.Keys
    ensures s.pool.Keys <= DeleteRow(s, conn, tableStep).state.pool.Keys
  {
  }

  /** An insert and a delete that see the same dirty map leave the same
      pool; they differ only when that map is empty. */
  lemma InsertAgreesWithDelete(s: State, conn: Connection, tableStep: DirtyPages -> DirtyPages)
    ensures tableStep(conn.dirty) != map[] || conn.txn.lockType != XLock ==>
      InsertRow(s, conn, tableStep) == DeleteRow(s, conn, tableStep)
    ensures conn.txn.lockType == XLock && tableStep(conn.dirty) == map[] ==>
      DeleteRow(s, conn, tableStep).result.Ok? && InsertRow(s, conn, tableStep).result.Err?
  {
  }
}
