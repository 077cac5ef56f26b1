/** The state of `BufferPool` and its read path: `getPage`, `isFull` and
    `evictPages`. The lock manager and the disk are parameters: `acquire`
    answers whether the lock on a page was granted to a transaction, and
    `read` is the page the table file returns for an identifier. */
module BufferPool {
  import opened PageModel
  import opened ClockScan

  /** The pool's fields: the resident pages, the frame table (frame index to
      page identifier), one reference bit per frame, the scan cursor
      `victim` and the install cursor `frame`. */
  datatype State = State(
    capacity: int,
    pool: map<PageId, Page>,
    frames: map<int, PageId>,
    secondChance: seq<bool>,
    victim: int,
    frame: int)

  /** What an operation leaves behind: the new state and the caller's answer. */
  datatype Outcome<+T> = Outcome(state: State, result: Result<T>)

  /** The shape every reachable state keeps. Occupied frames form a prefix:
      all frames below the install cursor are taken, none above it. */
  ghost predicate Valid(s: State)
  {
    && s.capacity >= 1
    && |s.secondChance| == s.capacity
    && s.victim == 0
    && 0 <= s.frame < s.capacity
    && (forall i :: i in s.frames ==> 0 <= i <= s.frame)
    && (forall i :: 0 <= i < s.frame ==> i in s.frames)
  }

  /** A freshly constructed pool: nothing resident, every bit clear. */
  function Init(capacity: nat): (s: State)
    ensures Valid(s) <==> capacity >= 1
    ensures s.capacity == capacity && |s.secondChance| == capacity
    ensures s.victim == 0 && s.frame == 0
    ensures s.pool == map[] && s.frames == map[]
    ensures forall i :: 0 <= i < |s.secondChance| ==> !s.secondChance[i]
  {
    State(capacity, map[], map[], seq(capacity, _ => false), 0, 0)
  }

  /** `isFull`: as many resident pages as the capacity, or more. */
  predicate IsFull(s: State)
  {
    |s.pool| >= s.capacity
  }

  /** The frame a scan from the cursor would reassign. */
  function ScanVictim(s: State): (v: int)
    requires Valid(s)
    ensures 0 <= v < s.capacity
  {
    Victim(s.secondChance, s.victim)
  }

  /** `evictPages` dereferences the victim's frame entry; it is defined when
      the page already has a frame (no scan) or the victim frame is taken. */
  ghost predicate CanEvict(s: State, pid: PageId)
    requires Valid(s)
  {
    pid in s.frames.Values || ScanVictim(s) in s.frames
  }

  /** `evictPages`: nothing when `pid` already occupies a frame; otherwise the
      Clock scan picks a victim frame and hands it to `pid`. The victim's page
      stays in `pool`. */
  function EvictPages(s: State, pid: PageId): (r: State)
    requires Valid(s) && CanEvict(s, pid)
    ensures Valid(r)
    ensures r.pool == s.pool && r.frame == s.frame && r.victim == s.victim
    ensures r.frames.Keys == s.frames.Keys
    ensures pid in s.frames.Values ==> r == s
    ensures pid !in s.frames.Values ==>
      var v := ScanVictim(s);
      && r.frames == s.frames[v := pid]
      && r.secondChance == Swept(s.secondChance, s.victim)
      && !s.secondChance[v] == !AllSet(s.secondChance, s.victim)
  {
    if pid in s.frames.Values then s
    else
      var v := ScanVictim(s);
      s.(secondChance := Swept(s.secondChance, s.victim), frames := s.frames[v := pid])
  }

  /** The precondition of `getPage`: a well-formed pool, and a defined
      eviction whenever a granted miss finds the pool full. */
  ghost predicate GetPageDefined(s: State, pid: PageId, txn: Transaction,
                                 acquire: (Transaction, PageId) -> bool)
  {
    && Valid(s)
    && (acquire(txn, pid) && pid !in s.pool && IsFull(s) ==> CanEvict(s, pid))
  }

  /** `getPage`: lock first; a hit returns the resident page; a miss evicts
      when full, reads the page, installs it at the install cursor with its
      bit set, advances the cursor unless it is on the last frame, and
      makes the page resident. */
  function GetPage(s: State, pid: PageId, txn: Transaction,
                   acquire: (Transaction, PageId) -> bool, read: PageId -> Page): (r: Outcome<Page>)
    requires GetPageDefined(s, pid, txn, acquire)
    ensures Valid(r.state)
    ensures !acquire(txn, pid) ==> r == Outcome(s, Err(LockNotAcquired))
    ensures acquire(txn, pid) && pid in s.pool ==> r == Outcome(s, Ok(s.pool[pid]))
    ensures acquire(txn, pid) && pid !in s.pool ==>
      && r.result == Ok(read(pid))
      && r.state.pool == s.pool[pid := read(pid)]
      && |r.state.pool| == |s.pool| + 1
      && s.frame in r.state.frames && r.state.frames[s.frame] == pid
      && r.state.secondChance[s.frame]
      && r.state.victim == s.victim
      && (s.frame < s.capacity - 1 ==> r.state.frame == s.frame + 1)
      && (s.frame == s.capacity - 1 ==> r.state.frame == s.frame)
    ensures acquire(txn, pid) && pid !in s.pool && !IsFull(s) ==>
      && r.state.frames == s.frames[s.frame := pid]
      && r.state.secondChance == s.secondChance[s.frame := true]
    ensures acquire(txn, pid) && pid !in s.pool && IsFull(s) ==>
      && r.state.frames == EvictPages(s, pid).frames[s.frame := pid]
      && r.state.secondChance == EvictPages(s, pid).secondChance[s.frame := true]
  {
    if !acquire(txn, pid) then
      Outcome(s, Err(LockNotAcquired))
    else if pid in s.pool then
      Outcome(s, Ok(s.pool[pid]))
    else
      var e := if IsFull(s) then EvictPages(s, pid) else s;
      var page := read(pid);
      var next := if s.frame < s.capacity - 1 then s.frame + 1 else s.frame;
      var r := e.(frames := e.frames[s.frame := pid],
                  secondChance := e.secondChance[s.frame := true],
                  frame := next,
                  pool := e.pool[pid := page]);
      Outcome(r, Ok(page))
  }

  /** What `isFull` decides on a granted miss: the pool is full afterwards
      exactly when it held at least `capacity - 1` pages before, and a miss on
      a full pool leaves it full. Updates only grow `pool` and flushes keep
      its keys; only `discardPages` shrinks it. */
  lemma FullnessOnMiss(s: State, pid: PageId, txn: Transaction,
                       acquire: (Transaction, PageId) -> bool, read: PageId -> Page)
    requires GetPageDefined(s, pid, txn, acquire) && acquire(txn, pid) && pid !in s.pool
    ensures var r := GetPage(s, pid, txn, acquire, read).state;
      && (IsFull(r) <==> |s.pool| + 1 >= s.capacity)
      && (IsFull(s) ==> IsFull(r))
  {
  }

  /** A full miss whose page has no frame yet: the scan's victim frame and
      the install cursor both end up holding `pid`, with their bits set; the
      page that held the victim frame, if resident, stays resident. */
  lemma MissWhenFull(s: State, pid: PageId, txn: Transaction,
                     acquire: (Transaction, PageId) -> bool, read: PageId -> Page)
    requires GetPageDefined(s, pid, txn, acquire)
    requires acquire(txn, pid) && pid !in s.pool && IsFull(s) && pid !in s.frames.Values
    ensures var r := GetPage(s, pid, txn, acquire, read).state;
      r.frames == s.frames[ScanVictim(s) := pid][s.frame := pid]
    ensures var r := GetPage(s, pid, txn, acquire, read).state;
      r.secondChance == Swept(s.secondChance, s.victim)[s.frame := true]
    ensures var r := GetPage(s, pid, txn, acquire, read).state;
      r.secondChance[ScanVictim(s)] &&
      (s.frames[ScanVictim(s)] in s.pool ==> s.frames[ScanVictim(s)] in r.pool)
    ensures var r := GetPage(s, pid, txn, acquire, read).state;
      forall j :: ScanVictim(s) < j < s.capacity && j != s.frame && !AllSet(s.secondChance, s.victim) ==>
        r.secondChance[j] == s.secondChance[j]
  {
  }

  /** The numbers 0 .. n-1. */
  ghost function Below(n: nat): (r: set<int>)
    ensures forall i :: i in r <==> 0 <= i < n
    ensures |r| == n
  {
    if n == 0 then {} else Below(n - 1) + {n - 1}
  }

  lemma {:induction false} SubsetSize<T>(a: set<T>, b: set<T>)
    requires a <= b
    ensures |a| <= |b|
    decreases |a|
  {
    if a != {} {
      var x :| x in a;
      SubsetSize(a - {x}, b - {x});
    }
  }

  /** Frame indices stay in [0, capacity), so at most `capacity` frames are
      occupied, however large `pool` grows. */
  lemma FramesWithinCapacity(s: State)
    requires Valid(s)
    ensures forall i :: i in s.frames ==> 0 <= i < s.capacity
    ensures |s.frames| <= s.capacity
  {
    SubsetSize(s.frames.Keys, Below(s.capacity));
  }

  /** A granted read followed by a second granted read of the same page:
      the second is a hit that returns the same page and changes nothing. */
  lemma GetPageTwice(s: State, pid: PageId, txn: Transaction,
                     acquire: (Transaction, PageId) -> bool, read: PageId -> Page)
    requires GetPageDefined(s, pid, txn, acquire) && acquire(txn, pid)
    ensures var first := GetPage(s, pid, txn, acquire, read);
      && first.result.Ok?
      && GetPageDefined(first.state, pid, txn, acquire)
      && GetPage(first.state, pid, txn, acquire, read) == Outcome(first.state, first.result)
  {
  }
}
