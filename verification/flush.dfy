/** `flushPages` and `discardPages`. Disk writes are returned as a log, in
    the order `writePageToDisk` receives them; each entry records the pool
    key the page was found under and the page that was written. The log is
    keyed by pool key: the table file a page lands in is chosen by the
    page's own identifier, which equals the key whenever every resident
    page is stored under its own identifier (`WritesGoToOwnPage`). A Java
    `null` list is `None`. */
module FlushDiscard {
  import opened PageModel
  import opened BufferPool

  datatype DiskWrite = DiskWrite(key: PageId, page: Page)

  /** A pool map after flushing, with the writes that produced it. */
  datatype Flushed = Flushed(pool: map<PageId, Page>, writes: seq<DiskWrite>)

  /** The pool after `flushPages`, with the writes. */
  datatype FlushOutcome = FlushOutcome(state: State, writes: seq<DiskWrite>)

  /** How many writes in the log went to page `pid`. */
  function WritesTo(log: seq<DiskWrite>, pid: PageId): nat
  {
    if log == [] then 0
    else (if log[0].key == pid then 1 else 0) + WritesTo(log[1..], pid)
  }

  lemma {:induction false} WritesToAppend(a: seq<DiskWrite>, b: seq<DiskWrite>, pid: PageId)
    ensures WritesTo(a + b, pid) == WritesTo(a, pid) + WritesTo(b, pid)
  {
    if a != [] {
      assert (a + b)[1..] == a[1..] + b;
      WritesToAppend(a[1..], b, pid);
    } else {
      assert a + b == b;
    }
  }

  /** Every listed identifier names a resident page (`pool.get` is dereferenced). */
  ghost predicate AllResident(pool: map<PageId, Page>, ids: seq<PageId>)
  {
    forall i :: 0 <= i < |ids| ==> ids[i] in pool
  }

  /** One turn of the flush loop: a dirty page is cleaned, put back and written. */
  function FlushEntry(pool: map<PageId, Page>, pid: PageId): (r: Flushed)
    requires pid in pool
    ensures r.pool.Keys == pool.Keys
    ensures r.pool == pool[pid := Cleaned(pool[pid])]
    ensures r.writes == if pool[pid].dirty then [DiskWrite(pid, Cleaned(pool[pid]))] else []
  {
    var page := pool[pid];
    if page.dirty then
      Flushed(pool[pid := Cleaned(page)], [DiskWrite(pid, Cleaned(page))])
    else
      Flushed(pool, [])
  }

  /** The flush loop over the listed identifiers, in order. Listed pages end
      up clean; unlisted pages are untouched; only dirty listed pages are
      written, each as its cleaned copy. */
  function FlushEach(pool: map<PageId, Page>, ids: seq<PageId>): (r: Flushed)
    requires AllResident(pool, ids)
    ensures r.pool.Keys == pool.Keys
    ensures forall pid :: pid in ids ==> r.pool[pid] == Cleaned(pool[pid])
    ensures forall pid :: pid in pool && pid !in ids ==> r.pool[pid] == pool[pid]
    ensures forall w :: w in r.writes ==>
      w.key in ids && w.key in pool && pool[w.key].dirty && w.page == Cleaned(pool[w.key])
    decreases |ids|
  {
    if ids == [] then Flushed(pool, [])
    else
      var first := FlushEntry(pool, ids[0]);
      var rest := FlushEach(first.pool, ids[1..]);
      Flushed(rest.pool, first.writes + rest.writes)
  }

  /** `flushPages`: a null or empty list does nothing; otherwise the flush
      loop runs over `pool`, and no other field changes. The transaction
      identifier is not consulted. */
  function FlushPages(s: State, ids: Option<seq<PageId>>, tid: TransactionId): (r: FlushOutcome)
    requires ids.Some? ==> AllResident(s.pool, ids.value)
    ensures ids == None || ids == Some([]) ==> r == FlushOutcome(s, [])
    ensures r.state == s.(pool := r.state.pool)
    ensures r.state.pool.Keys == s.pool.Keys
  {
    if ids.None? || ids.value == [] then FlushOutcome(s, [])
    else
      var f := FlushEach(s.pool, ids.value);
      FlushOutcome(s.(pool := f.pool), f.writes)
  }

  /** Each dirty listed page is written exactly once, even when listed
      several times; every other page is never written. */
  lemma {:induction false} FlushWritesDirtyOnce(pool: map<PageId, Page>, ids: seq<PageId>, pid: PageId)
    requires AllResident(pool, ids)
    ensures WritesTo(FlushEach(pool, ids).writes, pid) ==
      if pid in ids && pool[pid].dirty then 1 else 0
    decreases |ids|
  {
    if ids != [] {
      var first := FlushEntry(pool, ids[0]);
      var rest := FlushEach(first.pool, ids[1..]);
      FlushWritesDirtyOnce(first.pool, ids[1..], pid);
      WritesToAppend(first.writes, rest.writes, pid);
      assert pid in ids <==> pid == ids[0] || pid in ids[1..];
    }
  }

  /** The contract of `flushPages` as a whole: after the call every listed
      page is clean, unlisted pages are as before, and the log holds one
      write per dirty listed page and nothing else. */
  lemma FlushPagesEffect(s: State, ids: seq<PageId>, tid: TransactionId)
    requires AllResident(s.pool, ids)
    ensures var r := FlushPages(s, Some(ids), tid);
      && (forall pid :: pid in ids ==> !r.state.pool[pid].dirty && r.state.pool[pid] == Cleaned(s.pool[pid]))
      && (forall pid :: pid in s.pool && pid !in ids ==> r.state.pool[pid] == s.pool[pid])
      && (forall pid :: WritesTo(r.writes, pid) == if pid in ids && s.pool[pid].dirty then 1 else 0)
      && (forall w :: w in r.writes ==> w.page == Cleaned(s.pool[w.key]))
  {
    var r := FlushPages(s, Some(ids), tid);
    forall pid
      ensures WritesTo(r.writes, pid) == if pid in ids && s.pool[pid].dirty then 1 else 0
    {
      FlushWritesDirtyOnce(s.pool, ids, pid);
    }
  }

  /** When every resident page sits under its own identifier, each write
      goes to the page the log entry names. */
  lemma WritesGoToOwnPage(s: State, ids: seq<PageId>, tid: TransactionId)
    requires AllResident(s.pool, ids)
    requires forall k :: k in s.pool ==> s.pool[k].id == k
    ensures forall w :: w in FlushPages(s, Some(ids), tid).writes ==> w.page.id == w.key
  {
  }

  /** Flushing pages that are all clean writes nothing and changes nothing. */
  lemma {:induction false} FlushCleanIsNoop(pool: map<PageId, Page>, ids: seq<PageId>)
    requires AllResident(pool, ids)
    requires forall i :: 0 <= i < |ids| ==> !pool[ids[i]].dirty
    ensures FlushEach(pool, ids) == Flushed(pool, [])
    decreases |ids|
  {
    if ids != [] {
      assert FlushEntry(pool, ids[0]) == Flushed(pool, []);
      FlushCleanIsNoop(pool, ids[1..]);
    }
  }

  /** Idempotence: a second `flushPages` of the same list right after the
      first writes nothing and leaves the pool as the first call left it. */
  lemma FlushPagesIdempotent(s: State, ids: Option<seq<PageId>>, tid: TransactionId, tid': TransactionId)
    requires ids.Some? ==> AllResident(s.pool, ids.value)
    ensures var first := FlushPages(s, ids, tid);
      && (ids.Some? ==> AllResident(first.state.pool, ids.value))
      && FlushPages(first.state, ids, tid') == FlushOutcome(first.state, [])
  {
    if ids.Some? && ids.value != [] {
      var first := FlushPages(s, ids, tid);
      FlushCleanIsNoop(first.state.pool, ids.value);
    }
  }

  /** The discard loop: each listed identifier is removed in turn; missing
      ones are skipped by `remove`. */
  function DiscardEach(pool: map<PageId, Page>, ids: seq<PageId>): (r: map<PageId, Page>)
    ensures r.Keys == pool.Keys - set i | 0 <= i < |ids| :: ids[i]
    ensures forall pid :: pid in r ==> r[pid] == pool[pid]
    decreases |ids|
  {
    if ids == [] then pool
    else DiscardEach(pool - {ids[0]}, ids[1..])
  }

  /** `discardPages`: a null or empty list does nothing; otherwise exactly
      the listed pages leave `pool`, with no write, and every other field
      (frames included) is unchanged. */
  function DiscardPages(s: State, ids: Option<seq<PageId>>): (r: State)
    ensures ids == None || ids == Some([]) ==> r == s
    ensures r == s.(pool := r.pool)
    ensures ids.Some? ==> forall pid :: pid in r.pool <==> pid in s.pool && pid !in ids.value
    ensures forall pid :: pid in r.pool ==> r.pool[pid] == s.pool[pid]
  {
    if ids.None? || ids.value == [] then s
    else s.(pool := DiscardEach(s.pool, ids.value))
  }

  /** Abort then re-read: once a page is discarded, a granted `getPage` of
      it is a miss that returns `read(pid)`, the copy the disk function
      supplies, not the discarded one. */
  lemma DiscardThenGetPageReads(s: State, ids: seq<PageId>, pid: PageId, txn: Transaction,
                                acquire: (Transaction, PageId) -> bool, read: PageId -> Page)
    requires pid in ids && acquire(txn, pid)
    requires GetPageDefined(DiscardPages(s, Some(ids)), pid, txn, acquire)
    ensures var d := DiscardPages(s, Some(ids));
      GetPage(d, pid, txn, acquire, read).result == Ok(read(pid))
  {
  }
}
