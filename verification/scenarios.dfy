/** Runs of several pool operations in a row: the usage in the system test,
    commit after an update, and small concrete pools that show how the
    eviction path behaves as written. */
module Scenarios {
  import opened PageModel
  import opened BufferPool
  import opened RowUpdates
  import opened FlushDiscard

  /** Reads the listed pages one after another with `getPage`, stopping at
      the first failure, and collects the pages returned. */
  function ReadEach(s: State, ids: seq<PageId>, txn: Transaction,
                    acquire: (Transaction, PageId) -> bool, read: PageId -> Page): (r: Outcome<seq<Page>>)
    requires Valid(s) && forall i :: 0 <= i < |ids| ==> ids[i] in s.pool
    ensures r.state == s
    decreases |ids|
  {
    if ids == [] then Outcome(s, Ok([]))
    else
      var first := GetPage(s, ids[0], txn, acquire, read);
      match first.result
      case Err(e) => Outcome(first.state, Err(e))
      case Ok(p) =>
        var rest := ReadEach(first.state, ids[1..], txn, acquire, read);
        match rest.result
        case Err(e) => rest
        case Ok(ps) => Outcome(rest.state, Ok([p] + ps))
  }

  /** The system test's read-back: whatever put the pages into `pool`,
      reading resident keys one after another returns each resident page in
      turn and leaves the whole state as it was. */
  lemma {:induction false} ResidentPagesAreHits(s: State, ids: seq<PageId>, txn: Transaction,
                                                acquire: (Transaction, PageId) -> bool, read: PageId -> Page)
    requires Valid(s)
    requires forall i :: 0 <= i < |ids| ==> ids[i] in s.pool && acquire(txn, ids[i])
    ensures var r := ReadEach(s, ids, txn, acquire, read);
      && r.state == s
      && r.result.Ok? && |r.result.value| == |ids|
      && forall i :: 0 <= i < |ids| ==> r.result.value[i] == s.pool[ids[i]]
    decreases |ids|
  {
    if ids != [] {
      assert GetPage(s, ids[0], txn, acquire, read) == Outcome(s, Ok(s.pool[ids[0]]));
      ResidentPagesAreHits(s, ids[1..], txn, acquire, read);
    }
  }

  /** Commit after an update: flushing the updated pages writes each page the
      update marked dirty exactly once, as that page with its flag cleared,
      and leaves the cleaned copy resident. */
  lemma UpdateThenFlush(s: State, conn: Connection, tableStep: DirtyPages -> DirtyPages,
                        ids: seq<PageId>, tid: TransactionId, pid: PageId)
    requires conn.txn.lockType == XLock
    requires forall i :: 0 <= i < |ids| ==> ids[i] in tableStep(conn.dirty)
    requires pid in ids && tableStep(conn.dirty)[pid].dirty
    ensures var u := DeleteRow(s, conn, tableStep).state;
      && AllResident(u.pool, ids)
      && var f := FlushPages(u, Some(ids), tid);
      && WritesTo(f.writes, pid) == 1
      && DiskWrite(pid, Cleaned(tableStep(conn.dirty)[pid])) in f.writes
      && f.state.pool[pid] == Cleaned(tableStep(conn.dirty)[pid])
  {
    var u := DeleteRow(s, conn, tableStep).state;
    assert AllResident(u.pool, ids);
    var f := FlushPages(u, Some(ids), tid);
    FlushPagesEffect(u, ids, tid);
    assert WritesTo(f.writes, pid) == 1;
    WrittenIsInLog(f.writes, pid);
    var w :| w in f.writes && w.key == pid;
    assert w.page == Cleaned(u.pool[pid]);
  }

  /** A key written at least once appears in the log. */
  lemma {:induction false} WrittenIsInLog(log: seq<DiskWrite>, pid: PageId)
    requires WritesTo(log, pid) > 0
    ensures exists w :: w in log && w.key == pid
  {
    if log[0].key != pid {
      WrittenIsInLog(log[1..], pid);
      var w :| w in log[1..] && w.key == pid;
      assert w in log;
    }
  }

  /** The disk used by the concrete runs: every page reads back clean and empty. */
  function Blank(pid: PageId): Page
  {
    Page(pid, [], false)
  }

  /** The lock manager used by the concrete runs: every request is granted. */
  function Granted(t: Transaction, pid: PageId): bool
  {
    true
  }

  /** A one-frame pool read twice: the second miss evicts the only frame but
      the first page stays in `pool`, which then holds two pages. */
  lemma PoolOutgrowsCapacity()
    ensures var a, b := PageId(1, 0), PageId(1, 1);
      var t := Transaction(0, SLock);
      var s0 := Init(1);
      var s1 := GetPage(s0, a, t, Granted, Blank).state;
      && GetPageDefined(s1, b, t, Granted)
      && var s2 := GetPage(s1, b, t, Granted, Blank).state;
      && s2.pool.Keys == {a, b}
      && |s2.pool| == 2 > s2.capacity
      && s2.frames == map[0 := b]
  {
  }

  /** A two-frame pool read three times: the third miss clears both bits in
      a first pass, takes frame 0 on the second, and the install cursor,
      stuck on the last frame, writes the same page into frame 1 as well. */
  lemma ThirdMissFillsTwoFrames()
    ensures var a, b, c := PageId(1, 0), PageId(1, 1), PageId(1, 2);
      var t := Transaction(0, SLock);
      var s1 := GetPage(Init(2), a, t, Granted, Blank).state;
      var s2 := GetPage(s1, b, t, Granted, Blank).state;
      && GetPageDefined(s2, c, t, Granted)
      && var s3 := GetPage(s2, c, t, Granted, Blank).state;
      && s3.frames == map[0 := c, 1 := c]
      && s3.secondChance == [true, true]
      && s3.pool.Keys == {a, b, c}
  {
  }
}
