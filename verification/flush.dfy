/**
 ssd1306_flush_dirty: the dirty map is walked bit by bit (bit k tracks
 framebuffer byte k, so a page is W consecutive bits), consecutive dirty bits
 of one page are gathered into a run, and each run is sent with
 ssd1306_send_block after the page and column have been set.
 `Scan` is the walk as a reference definition over the dirty map the flush
 starts from; `FlushDirty` is the C loop nest, which reads the live map while
 send_block clears it, and is proved to send exactly the runs of `Scan`.
 */
module Flush {
  import opened CTypes
  import opened Geometry
  import opened Bits
  import opened Utils
  import opened Transport

  /** The dirty map as one flag per framebuffer byte: flag k is bit k % 8 of dirty byte k / 8. */
  function Flags(d: seq<byte>): (m: seq<bool>)
    requires |d| == DIRTY_SIZE
    ensures |m| == NBITS && forall k | 0 <= k < NBITS :: m[k] == BitAt(d, k)
  {
    seq(NBITS, k requires 0 <= k < NBITS => BitAt(d, k))
  }

  /** One block the flush sends: `len` bytes of page `page` from column `start`. */
  datatype Run = Run(page: nat, start: nat, len: nat)

  /** The first dirty bit of a run, and one past its last. */
  function RunFirst(r: Run): nat
  {
    r.page * W + r.start
  }

  function RunEnd(r: Run): nat
  {
    r.page * W + r.start + r.len
  }

  predicate InRun(r: Run, k: int)
  {
    RunFirst(r) <= k < RunEnd(r)
  }

  /** A run that send_block can take as it is: non-empty, on one page of the panel. */
  predicate RunOk(r: Run)
  {
    r.len > 0 && r.page < PAGES && r.start + r.len <= W
  }

  /** Dirty bit k lies in one of the runs. */
  predicate Covered(runs: seq<Run>, k: int)
    decreases |runs|
  {
    |runs| > 0 && (InRun(runs[0], k) || Covered(runs[1..], k))
  }

  /** Runs that all start after bit k do not cover it. */
  lemma {:induction false} NotCoveredBelow(runs: seq<Run>, k: int)
    requires forall i | 0 <= i < |runs| :: k < RunFirst(runs[i])
    ensures !Covered(runs, k)
    decreases |runs|
  {
    if |runs| > 0 {
      NotCoveredBelow(runs[1..], k);
    }
  }

  lemma CoveredCons(r: Run, runs: seq<Run>, k: int)
    ensures Covered([r] + runs, k) == (InRun(r, k) || Covered(runs, k))
  {
    assert ([r] + runs)[1..] == runs;
  }

  /**
   Which outer loop bound is modelled: `SIZE * 8 - 1` as the code has it, or
   `SIZE * 8`, which examines every bit.
   */
  function Bound(build: Build): nat
  {
    if build == AsWritten then NBITS - 1 else NBITS
  }

  /** The run from dirty bit s up to, but not including, bit k. */
  function RunFrom(s: nat, k: nat): (r: Run)
    requires s <= k
    ensures RunFirst(r) == s && RunEnd(r) == k
  {
    Run(s / W, s % W, k - s)
  }

  /** A pending run from s: it started on the page of bit k - 1, and bits s .. k - 1 are dirty. */
  predicate PendingOk(m: seq<bool>, k: nat, pend: Option<nat>)
    requires |m| == NBITS && k <= NBITS
  {
    pend.Some? ==>
      && pend.value < k && pend.value / W == (k - 1) / W
      && forall j | pend.value <= j < k :: m[j]
  }

  /** Where the runs still to come can start: at the pending run, or at k. */
  function Lowest(k: nat, pend: Option<nat>): nat
  {
    if pend.Some? then pend.value else k
  }

  /**
   The runs the flush sends from bit k on, with a run pending from
   `pend`. A run ends at a clean bit or at the end of a page. After a clean bit
   ends a run the outer loop tests its bound on the next bit, so with the bound
   as written the last bit of the map is never examined when bit NBITS - 2 ends
   a run.
   */
  function Scan(m: seq<bool>, k: nat, pend: Option<nat>, bound: nat): seq<Run>
    requires |m| == NBITS && k <= NBITS
    requires pend.Some? ==> pend.value < k
    decreases NBITS - k, if pend.Some? then 1 else 0
  {
    if pend.None? then
      if k == NBITS then []
      else if m[k] then Scan(m, k + 1, Some(k), bound)
      else Scan(m, k + 1, None, bound)
    else if k == NBITS || k % W == 0 then
      [RunFrom(pend.value, k)] + (if k < bound then Scan(m, k, None, bound) else [])
    else if m[k] then Scan(m, k + 1, pend, bound)
    else [RunFrom(pend.value, k)] + (if k + 1 < bound then Scan(m, k + 1, None, bound) else [])
  }

  /** The runs one flush sends, scanning from bit 0 with the build's bound. */
  function Runs(m: seq<bool>, build: Build): seq<Run>
    requires |m| == NBITS
  {
    Scan(m, 0, None, Bound(build))
  }

  /** Runs that can each be sent as they are, hold dirty bits only and start at lo or later. */
  predicate SoundRuns(m: seq<bool>, rs: seq<Run>, lo: nat)
    requires |m| == NBITS
  {
    forall i | 0 <= i < |rs| ::
      && RunOk(rs[i]) && lo <= RunFirst(rs[i])
      && forall j | RunFirst(rs[i]) <= j < RunEnd(rs[i]) :: j < NBITS && m[j]
  }

  lemma SoundCons(m: seq<bool>, r: Run, rest: seq<Run>, lo: nat, lo': nat)
    requires |m| == NBITS && lo <= lo'
    requires SoundRuns(m, [r], lo) && SoundRuns(m, rest, lo')
    ensures SoundRuns(m, [r] + rest, lo)
  {
    var rs := [r] + rest;
    forall i | 0 <= i < |rs|
      ensures && RunOk(rs[i]) && lo <= RunFirst(rs[i])
              && forall j | RunFirst(rs[i]) <= j < RunEnd(rs[i]) :: j < NBITS && m[j]
    {
      if i == 0 {
        assert rs[i] == [r][0];
      } else {
        assert rs[i] == rest[i - 1];
        assert lo' <= RunFirst(rest[i - 1]);
      }
    }
  }

  /** The run a pending run becomes when bit k ends it. */
  lemma PendingRunSound(m: seq<bool>, k: nat, s: nat)
    requires |m| == NBITS && k <= NBITS && PendingOk(m, k, Some(s))
    ensures SoundRuns(m, [RunFrom(s, k)], s)
  {
    assert s % W + (k - s) <= W;
  }

  /**
   Every run the scan produces can be sent as it is, consists of dirty bits
   only, and lies at or after where the scan started.
   */
  lemma {:induction false} ScanSound(m: seq<bool>, k: nat, pend: Option<nat>, bound: nat)
    requires |m| == NBITS && k <= NBITS && PendingOk(m, k, pend)
    ensures SoundRuns(m, Scan(m, k, pend, bound), Lowest(k, pend))
    decreases NBITS - k, if pend.Some? then 1 else 0
  {
    if pend.None? {
      if k < NBITS {
        if m[k] {
          ScanSound(m, k + 1, Some(k), bound);
        } else {
          ScanSound(m, k + 1, None, bound);
        }
      }
    } else {
      var s := pend.value;
      if k == NBITS || k % W == 0 {
        var rest := if k < bound then Scan(m, k, None, bound) else [];
        if k < bound {
          ScanSound(m, k, None, bound);
        }
        PendingRunSound(m, k, s);
        SoundCons(m, RunFrom(s, k), rest, s, k);
      } else if m[k] {
        ScanSound(m, k + 1, pend, bound);
      } else {
        var rest := if k + 1 < bound then Scan(m, k + 1, None, bound) else [];
        if k + 1 < bound {
          ScanSound(m, k + 1, None, bound);
        }
        PendingRunSound(m, k, s);
        SoundCons(m, RunFrom(s, k), rest, s, k + 1);
      }
    }
  }

  /**
   The one dirty bit the code's outer bound leaves behind: bit NBITS - 1,
   when bit NBITS - 3 is dirty and bit NBITS - 2 is clean. The clean bit ends
   a run with `bit_index` already at NBITS - 1, and the outer loop stops there.
   */
  predicate Missed(m: seq<bool>, build: Build, j: int)
    requires |m| == NBITS
  {
    build == AsWritten && j == NBITS - 1 && m[NBITS - 3] && !m[NBITS - 2]
  }

  /** The dirty bits a flush should send: all of them, except a missed one. */
  predicate Expected(m: seq<bool>, build: Build, j: nat)
    requires |m| == NBITS && j < NBITS
  {
    m[j] && !Missed(m, build, j)
  }

  /** The runs of the scan cover exactly the expected bits from `lo` on. */
  predicate CoversFrom(m: seq<bool>, rs: seq<Run>, lo: nat, build: Build)
    requires |m| == NBITS
  {
    forall j | lo <= j < NBITS :: Covered(rs, j) <==> Expected(m, build, j)
  }

  /**
   The scan states that can arise when the last bit is missed: from bit
   NBITS - 2 on, only the pending run that the clean bit is about to end.
   */
  predicate Reachable(m: seq<bool>, k: nat, pend: Option<nat>, build: Build)
    requires |m| == NBITS
  {
    build == AsWritten && m[NBITS - 3] && !m[NBITS - 2] && NBITS - 3 < k ==> k == NBITS - 2 && pend.Some?
  }

  /** A run that ends at a page end, followed by the runs of the next page. */
  lemma CompleteAtPageEnd(m: seq<bool>, k: nat, s: nat, rest: seq<Run>, build: Build)
    requires |m| == NBITS && k <= NBITS && PendingOk(m, k, Some(s))
    requires CoversFrom(m, rest, k, build) && (k < NBITS || !Missed(m, build, NBITS - 1))
    ensures CoversFrom(m, [RunFrom(s, k)] + rest, s, build)
  {
    forall j | s <= j < NBITS
      ensures Covered([RunFrom(s, k)] + rest, j) <==> Expected(m, build, j)
    {
      CoveredCons(RunFrom(s, k), rest, j);
    }
  }

  /** A run that a clean bit k ends, followed by the runs from bit k + 1. */
  lemma CompleteAtCleanBit(m: seq<bool>, k: nat, s: nat, rest: seq<Run>, build: Build)
    requires |m| == NBITS && k < NBITS && PendingOk(m, k, Some(s)) && !m[k]
    requires CoversFrom(m, rest, k + 1, build) && !Covered(rest, k)
    ensures CoversFrom(m, [RunFrom(s, k)] + rest, s, build)
  {
    forall j | s <= j < NBITS
      ensures Covered([RunFrom(s, k)] + rest, j) <==> Expected(m, build, j)
    {
      CoveredCons(RunFrom(s, k), rest, j);
    }
  }

  /**
   From a state the scan can reach, the runs from bit k on cover exactly the
   expected bits from there on: every dirty bit with the corrected bound, and
   every dirty bit but the missed one with the bound as written.
   */
  lemma {:induction false} ScanComplete(m: seq<bool>, k: nat, pend: Option<nat>, build: Build)
    requires |m| == NBITS && k <= NBITS && PendingOk(m, k, pend) && Reachable(m, k, pend, build)
    ensures CoversFrom(m, Scan(m, k, pend, Bound(build)), Lowest(k, pend), build)
    decreases NBITS - k, if pend.Some? then 1 else 0
  {
    var bound := Bound(build);
    if pend.None? {
      if k < NBITS {
        if m[k] {
          ScanComplete(m, k + 1, Some(k), build);
        } else {
          ScanComplete(m, k + 1, None, build);
          NotCoveredBelowScan(m, k + 1, k, bound);
        }
      }
    } else {
      var s := pend.value;
      if k == NBITS || k % W == 0 {
        var rest := if k < bound then Scan(m, k, None, bound) else [];
        if k < bound {
          ScanComplete(m, k, None, build);
        }
        CompleteAtPageEnd(m, k, s, rest, build);
      } else if m[k] {
        ScanComplete(m, k + 1, pend, build);
      } else {
        var rest := if k + 1 < bound then Scan(m, k + 1, None, bound) else [];
        if k + 1 < bound {
          ScanComplete(m, k + 1, None, build);
          NotCoveredBelowScan(m, k + 1, k, bound);
        }
        CompleteAtCleanBit(m, k, s, rest, build);
      }
    }
  }

  /** A scan from bit k on covers nothing below k. */
  lemma NotCoveredBelowScan(m: seq<bool>, k: nat, j: int, bound: nat)
    requires |m| == NBITS && k <= NBITS && j < k
    ensures !Covered(Scan(m, k, None, bound), j)
  {
    ScanSound(m, k, None, bound);
    NotCoveredBelow(Scan(m, k, None, bound), j);
  }

  /** The pending run the C variables describe: `last_byte_dirty` and `batch_start` on `page`. */
  function Pend(last: bool, page: nat, start: nat): Option<nat>
  {
    if last then Some(page * W + start) else None
  }

  /**
   What the scan variables mean at bit b of `page`: a pending run starts at
   column `start` and has `len` = b - its first bit; with no run pending the
   length is 0.
   */
  predicate ScanState(m: seq<bool>, b: nat, page: nat, start: nat, len: nat, last: bool)
    requires |m| == NBITS
  {
    && b <= NBITS && page < PAGES && page * W <= b <= page * W + W
    && PendingOk(m, b, Pend(last, page, start))
    && (last ==> start < W && page * W + start < b && len == b - (page * W + start))
    && (!last ==> len == 0)
  }

  /** A dirty bit that is not the first of its page extends a pending run. */
  lemma DirtyExtends(m: seq<bool>, k: nat, p: Option<nat>, bound: nat)
    requires |m| == NBITS && k < NBITS && p.Some? && p.value < k
    requires k % W != 0 && m[k]
    ensures Scan(m, k, p, bound) == Scan(m, k + 1, p, bound)
  {
  }

  /** Dirty bits n in a row, none of them after the first at a page start, extend the pending run. */
  lemma {:induction false} DirtyRunExtends(m: seq<bool>, k: nat, n: nat, p: Option<nat>, bound: nat)
    requires |m| == NBITS && k + n <= NBITS && p.Some? && p.value < k
    requires forall j | k <= j < k + n :: m[j] && j % W != 0
    ensures Scan(m, k, p, bound) == Scan(m, k + n, p, bound)
    decreases n
  {
    if n > 0 {
      DirtyExtends(m, k, p, bound);
      DirtyRunExtends(m, k + 1, n - 1, p, bound);
    }
  }

  /** Only the first bit of a dirty byte can begin a page. */
  lemma InsideByte(b: nat, j: nat)
    requires b % 8 == 0 && b < j < b + 8
    ensures j % W != 0
  {
    assert j % 8 != 0;
  }

  /** Eight dirty bits from a byte boundary extend the pending run, or start one. */
  lemma ScanEightDirty(m: seq<bool>, b: nat, pend: Option<nat>, bound: nat)
    requires |m| == NBITS && b % 8 == 0 && b + 8 <= NBITS
    requires pend.Some? ==> pend.value < b && b % W != 0
    requires forall j | b <= j < b + 8 :: m[j]
    ensures Scan(m, b, pend, bound) == Scan(m, b + 8, if pend.Some? then pend else Some(b), bound)
  {
    var p := if pend.Some? then pend else Some(b);
    assert Scan(m, b, pend, bound) == Scan(m, b + 1, p, bound);
    forall j | b + 1 <= j < b + 8
      ensures m[j] && j % W != 0
    {
      InsideByte(b, j);
    }
    DirtyRunExtends(m, b + 1, 7, p, bound);
  }

  /** Bit i of dirty byte q is bit 8 q + i of the map. */
  lemma ByteSplit(q: nat, i: nat)
    requires i < 8
    ensures (q * 8 + i) % 8 == i && (q * 8 + i) / 8 == q
    ensures (q * 8 + i) / W == q / WIDTH_BYTES
  {
  }

  /** A dirty bit inside a page extends the pending run, or starts one at its column. */
  lemma DirtyStep(m: seq<bool>, b: nat, page: nat, start: nat, len: nat, last: bool, bound: nat)
    requires |m| == NBITS && b < NBITS && b / W == page
    requires ScanState(m, b, page, start, len, last) && m[b]
    ensures var start' := if last then start else b % W;
      && ScanState(m, b + 1, page, start', len + 1, true)
      && Scan(m, b, Pend(last, page, start), bound) == Scan(m, b + 1, Pend(true, page, start'), bound)
  {
  }

  /** A clean bit with no run pending moves on. */
  lemma CleanStep(m: seq<bool>, b: nat, page: nat, start: nat, len: nat, bound: nat)
    requires |m| == NBITS && b < NBITS && b / W == page
    requires ScanState(m, b, page, start, len, false) && !m[b]
    ensures ScanState(m, b + 1, page, start, len, false)
    ensures Scan(m, b, None, bound) == Scan(m, b + 1, None, bound)
  {
  }

  /** A clean bit ends the pending run; the scan goes on one bit later, if the bound lets it. */
  lemma CleanEndsRun(m: seq<bool>, b: nat, page: nat, start: nat, len: nat, bound: nat)
    requires |m| == NBITS && b < NBITS && b / W == page
    requires ScanState(m, b, page, start, len, true) && !m[b]
    ensures start < W && len > 0 && page * W + start + len == b && RunOk(Run(page, start, len))
    ensures forall j | page * W + start <= j < b :: m[j]
    ensures Scan(m, b, Pend(true, page, start), bound) ==
      [Run(page, start, len)] + (if b + 1 < bound then Scan(m, b + 1, None, bound) else [])
  {
    var s := page * W + start;
    assert s / W == page && s % W == start;
    assert RunFrom(s, b) == Run(page, start, len);
  }

  /**
   One round of the `for` loop's body, before `bit_index++`: a dirty bit
   extends or starts the run, a clean bit with a run pending sets
   `batch_found`, and any other clean bit is passed over.
   */
  method StepBit(ghost m: seq<bool>, bit: bool, b: nat, page: nat, start0: nat, len0: nat, last0: bool,
                 ghost bound: nat)
    returns (start: nat, len: nat, last: bool, found: bool)
    requires |m| == NBITS && b < NBITS && b / W == page
    requires ScanState(m, b, page, start0, len0, last0) && bit == m[b]
    ensures !found ==>
      && ScanState(m, b + 1, page, start, len, last)
      && Scan(m, b, Pend(last0, page, start0), bound) == Scan(m, b + 1, Pend(last, page, start), bound)
    ensures found <==> last0 && !m[b]
    ensures found ==> start == start0 && len == len0 && last
  {
    start, len, last, found := start0, len0, last0, false;
    if bit {
      DirtyStep(m, b, page, start, len, last, bound);
      if !last {
        start := b % W;
      }
      len := len + 1;
      last := true;
    } else {
      if last {
        found := true;
        return;
      }
      CleanStep(m, b, page, start, len, bound);
      last := false;
    }
  }

  /**
   The `for` loop over the bits of dirty byte q, from bit `b0 % 8` on. It
   stops at the next byte boundary, or one bit past the clean bit that ends a
   pending run (`batch_found`). Either way it has walked exactly the steps of
   `Scan` up to that bit.
   */
  method ScanBits(ghost m: seq<bool>, dirtyByte: byte, b0: nat, q: nat, page: nat, start0: nat, len0: nat,
                  last0: bool, ghost bound: nat)
    returns (b: nat, start: nat, len: nat, last: bool, found: bool, ghost e: nat)
    requires |m| == NBITS && b0 < NBITS && page == b0 / W && q == b0 / 8
    requires ScanState(m, b0, page, start0, len0, last0)
    requires forall j | b0 <= j < q * 8 + 8 :: Bit(dirtyByte, j % 8) == m[j]
    ensures !found ==> b == q * 8 + 8 && e == b
    ensures found ==> last && b0 < b <= q * 8 + 8 && e == b - 1 && !m[e] && e / W == page
    ensures ScanState(m, e, page, start, len, last)
    ensures Scan(m, b0, Pend(last0, page, start0), bound) == Scan(m, e, Pend(last, page, start), bound)
  {
    b, start, len, last, found := b0, start0, len0, last0, false;
    e := b0;
    var i := b0 % 8;
    while i < 8
      invariant i < 8 && b == q * 8 + i && b0 <= b < NBITS && b / W == page && !found && e == b
      invariant ScanState(m, b, page, start, len, last)
      invariant Scan(m, b0, Pend(last0, page, start0), bound) == Scan(m, b, Pend(last, page, start), bound)
      decreases 8 - i
    {
      ByteSplit(q, i);
      if i + 1 < 8 {
        ByteSplit(q, i + 1);
      }
      ghost var start1, len1, last1 := start, len, last;
      start, len, last, found := StepBit(m, Bit(dirtyByte, i), b, page, start, len, last, bound);
      if found {
        assert start == start1 && len == len1 && last == last1;
        e := b;
        b := b + 1;
        break;
      }
      b := b + 1;
      e := b;
      if q < b / 8 {
        break;
      }
      i := i + 1;
    }
  }

  /** The live dirty map agrees with the map the flush started from at bit lo and above. */
  predicate Agree(dirty: seq<byte>, m: seq<bool>, lo: nat)
    requires |dirty| == DIRTY_SIZE && |m| == NBITS
  {
    forall k | lo <= k < NBITS :: BitAt(dirty, k) == m[k]
  }

  /** The live dirty map has no dirty bit the starting map did not have. */
  predicate Sub(dirty: seq<byte>, m: seq<bool>)
    requires |dirty| == DIRTY_SIZE && |m| == NBITS
  {
    forall k | 0 <= k < NBITS :: BitAt(dirty, k) ==> m[k]
  }

  /**
   A live byte of 0xFF at bit b: b is on a byte boundary (a clean bit just
   before b, in the same byte, would have been clean in the live byte too),
   and its eight bits are dirty in the starting map.
   */
  lemma FullByteAhead(dirty: seq<byte>, m: seq<bool>, b0: nat, b: nat, q: nat)
    requires |dirty| == DIRTY_SIZE && |m| == NBITS && b0 <= b < NBITS && q == b / 8
    requires Agree(dirty, m, b0) && Sub(dirty, m) && (b % 8 != 0 ==> !m[b - 1])
    requires dirty[q] == 0xFF
    ensures b % 8 == 0 && b + 8 <= NBITS
    ensures forall j | b <= j < b + 8 :: m[j]
  {
    FullByteBits(dirty[q]);
    if b % 8 != 0 {
      assert BitAt(dirty, b - 1);
      assert false;
    }
    forall j | b <= j < b + 8
      ensures m[j]
    {
      assert j / 8 == q;
      assert BitAt(dirty, j);
    }
  }

  /** The bits of the live byte q from bit b on are those of the starting map. */
  lemma LiveByte(dirty: seq<byte>, m: seq<bool>, b0: nat, b: nat, q: nat)
    requires |dirty| == DIRTY_SIZE && |m| == NBITS && b0 <= b < NBITS && q == b / 8
    requires Agree(dirty, m, b0)
    ensures forall j | b <= j < q * 8 + 8 :: Bit(dirty[q], j % 8) == m[j]
  {
    forall j | b <= j < q * 8 + 8
      ensures Bit(dirty[q], j % 8) == m[j]
    {
      assert j / 8 == q;
      assert BitAt(dirty, j) == m[j];
    }
  }

  /** Eight dirty bits from a byte boundary inside a page, as the `0xFF` branch takes them. */
  lemma EightStep(m: seq<bool>, b: nat, page: nat, start: nat, len: nat, last: bool, bound: nat)
    requires |m| == NBITS && b % 8 == 0 && b < NBITS && b / W == page
    requires ScanState(m, b, page, start, len, last)
    requires forall j | b <= j < b + 8 :: m[j]
    ensures var start' := if last then start else b % W;
      && ScanState(m, b + 8, page, start', len + 8, true)
      && Scan(m, b, Pend(last, page, start), bound) == Scan(m, b + 8, Pend(true, page, start'), bound)
  {
    var q := b / 8;
    assert b == 8 * q && page * W + W == 8 * (WIDTH_BYTES * page + WIDTH_BYTES);
    assert b + 8 <= page * W + W;
    var s' := page * W + (if last then start else b % W);
    assert s' / W == page && (b + 7) / W == page;
    assert forall j | s' <= j < b + 8 :: m[j];
    ScanEightDirty(m, b, Pend(last, page, start), bound);
  }

  /**
   The scan at the end of a page: a pending run is complete, and the next
   page is scanned if the bound lets the loop go on. Past the last page
   nothing is left either way.
   */
  lemma PageEnd(m: seq<bool>, b: nat, page: nat, start: nat, len: nat, last: bool, build: Build)
    requires |m| == NBITS && b == page * W + W
    requires ScanState(m, b, page, start, len, last)
    ensures last ==> RunOk(Run(page, start, len)) && RunEnd(Run(page, start, len)) == b
    ensures Scan(m, b, Pend(last, page, start), Bound(build)) ==
      (if last then [Run(page, start, len)] else []) +
      (if b < Bound(build) then Scan(m, b, None, Bound(build)) else [])
  {
    if last {
      var s := page * W + start;
      assert s / W == page && s % W == start;
      assert RunFrom(s, b) == Run(page, start, len);
    }
  }

  /** The round for a live dirty byte of 0xFF: all eight bits are taken at once. */
  method FullRound(ghost m: seq<bool>, dirty: seq<byte>, b0: nat, b: nat, page: nat,
                   start0: nat, len0: nat, last0: bool, ghost bound: nat)
    returns (b': nat, start: nat, len: nat, last: bool)
    requires |m| == NBITS && |dirty| == DIRTY_SIZE && b0 <= b < NBITS && b / W == page
    requires Agree(dirty, m, b0) && Sub(dirty, m) && (b % 8 != 0 ==> !m[b - 1])
    requires ScanState(m, b, page, start0, len0, last0) && dirty[b / 8] == 0xFF
    ensures b' == b + 8 && b' % 8 == 0 && b' <= NBITS && last
    ensures ScanState(m, b', page, start, len, last)
    ensures Scan(m, b, Pend(last0, page, start0), bound) == Scan(m, b', Pend(last, page, start), bound)
  {
    FullByteAhead(dirty, m, b0, b, b / 8);
    EightStep(m, b, page, start0, len0, last0, bound);
    start := if last0 then start0 else b % W;
    len := len0 + 8;
    b' := b + 8;
    last := true;
  }

  /**
   One round of the inner `do ... while` of ssd1306_flush_dirty at bit b of
   `page`: read live dirty byte `sq`, then take all of it at once when it is
   0xFF or walk its bits with the `for` loop otherwise. Without
   `batch_found` the round ends on the next byte boundary; with it, one bit
   past the clean bit e that ends the pending run. Either way the round has
   taken the steps of `Scan` on the starting map up to e.
   */
  method DirtyRound(ghost m: seq<bool>, dirty: seq<byte>, b0: nat, b: nat, page: nat,
                    start0: nat, len0: nat, last0: bool, ghost bound: nat)
    returns (b': nat, start: nat, len: nat, last: bool, found: bool, sq: nat, ghost e: nat)
    requires |m| == NBITS && |dirty| == DIRTY_SIZE && b0 <= b < NBITS && b / W == page
    requires Agree(dirty, m, b0) && Sub(dirty, m) && (b % 8 != 0 ==> !m[b - 1])
    requires ScanState(m, b, page, start0, len0, last0)
    ensures sq == b / 8 && sq / WIDTH_BYTES == page && b < b' <= NBITS
    ensures !found ==> b' % 8 == 0 && e == b'
    ensures found ==> last && e == b' - 1 && !m[e] && e < NBITS && e / W == page
    ensures ScanState(m, e, page, start, len, last)
    ensures Scan(m, b, Pend(last0, page, start0), bound) == Scan(m, e, Pend(last, page, start), bound)
  {
    sq := b / 8;
    ByteSplit(sq, b % 8);
    var dirtyByte := dirty[sq];
    if dirtyByte == 0xFF {
      b', start, len, last := FullRound(m, dirty, b0, b, page, start0, len0, last0, bound);
      found := false;
      e := b';
    } else {
      assert sq * 8 + 8 <= NBITS && (sq * 8 + 8) % 8 == 0;
      LiveByte(dirty, m, b0, b, sq);
      b', start, len, last, found, e := ScanBits(m, dirtyByte, b, sq, page, start0, len0, last0, bound);
    }
  }

  /**
   The inner `do ... while` of ssd1306_flush_dirty: the bits of one page from
   bit b0 on, a dirty byte at a time, until a run is complete or the page
   ends. It reads the live map, which may already have lost dirty bits behind
   b0 to send_block, and takes exactly the steps `Scan` takes on the starting
   map: it finds the next run of `Scan` (if `last`), and what is left for the
   next round is the scan from bit b on, if the outer bound lets it run. `sq`
   is the last dirty byte read, whose page the C sends the run to. The
   `dirty_square_index >= SIZE` exit never fires: the loop stops at the end
   of each page, so b never reaches the end of the map inside it.
   */
  method ScanPage(ghost m: seq<bool>, dirty: seq<byte>, b0: nat, start0: nat, build: Build)
    returns (b: nat, page: nat, start: nat, len: nat, last: bool, sq: nat)
    requires |m| == NBITS && |dirty| == DIRTY_SIZE && b0 < NBITS
    requires Agree(dirty, m, b0) && Sub(dirty, m) && (b0 % 8 != 0 ==> !m[b0 - 1])
    ensures b0 < b <= NBITS && (b % 8 != 0 ==> !m[b - 1])
    ensures page == b0 / W && sq / WIDTH_BYTES == page
    ensures last ==> RunOk(Run(page, start, len)) && RunEnd(Run(page, start, len)) <= b
    ensures Scan(m, b0, None, Bound(build)) ==
      (if last then [Run(page, start, len)] else []) +
      (if b < Bound(build) then Scan(m, b, None, Bound(build)) else [])
  {
    b, page, start, len, last := b0, b0 / W, start0, 0, false;
    sq := b0 / 8;
    while true
      invariant b0 <= b < NBITS && b / W == page && page == b0 / W && (b % 8 != 0 ==> !m[b - 1])
      invariant ScanState(m, b, page, start, len, last)
      invariant Scan(m, b0, None, Bound(build)) == Scan(m, b, Pend(last, page, start), Bound(build))
      decreases NBITS - b
    {
      if b / 8 >= DIRTY_SIZE {
        assert false;
        break;
      }
      var found;
      ghost var e;
      b, start, len, last, found, sq, e := DirtyRound(m, dirty, b0, b, page, start, len, last, Bound(build));
      if found {
        CleanEndsRun(m, e, page, start, len, Bound(build));
        return;
      }
      if page != b / W {
        PageEnd(m, b, page, start, len, last, build);
        return;
      }
    }
  }

  /** Every run can be handed to send_block as it is. */
  predicate AllOk(runs: seq<Run>)
  {
    forall i | 0 <= i < |runs| :: RunOk(runs[i])
  }

  /** ssd1306_send_block for one run: `(uint8_t)batch_start`, the page, `batch_len`. */
  function SendRun(buf: seq<byte>, dirty: seq<byte>, r: Run, build: Build): (s: Sent)
    requires |buf| == BUFFER_SIZE && |dirty| == DIRTY_SIZE && RunOk(r)
    ensures |s.dirty| == DIRTY_SIZE
    ensures forall k | 0 <= k < NBITS :: BitAt(s.dirty, k) ==> BitAt(dirty, k)
    ensures forall k | RunEnd(r) <= k < NBITS :: BitAt(s.dirty, k) == BitAt(dirty, k)
    ensures build == Corrected ==> forall k | 0 <= k < NBITS ::
      BitAt(s.dirty, k) == (BitAt(dirty, k) && !InRun(r, k))
  {
    SendBlockClearsOnlyBehind(buf, dirty, r.start as u8, r.page as u8, r.len as u32, build);
    SendBlock(buf, dirty, r.start as u8, r.page as u8, r.len as u32, build)
  }

  /** The dirty map after sending the runs in order. */
  function ApplyRuns(buf: seq<byte>, dirty: seq<byte>, runs: seq<Run>, build: Build): (r: seq<byte>)
    requires |buf| == BUFFER_SIZE && |dirty| == DIRTY_SIZE && AllOk(runs)
    ensures |r| == DIRTY_SIZE
    ensures forall k | 0 <= k < NBITS :: BitAt(r, k) ==> BitAt(dirty, k)
    ensures build == Corrected ==> forall k | 0 <= k < NBITS ::
      BitAt(r, k) == (BitAt(dirty, k) && !Covered(runs, k))
    decreases |runs|
  {
    if |runs| == 0 then dirty
    else ApplyRuns(buf, SendRun(buf, dirty, runs[0], build).dirty, runs[1..], build)
  }

  /** Sending one more run after the others. */
  lemma {:induction false} ApplyRunsSnoc(buf: seq<byte>, dirty: seq<byte>, runs: seq<Run>, r: Run, build: Build)
    requires |buf| == BUFFER_SIZE && |dirty| == DIRTY_SIZE && AllOk(runs) && RunOk(r)
    ensures AllOk(runs + [r])
    ensures ApplyRuns(buf, dirty, runs + [r], build) == SendRun(buf, ApplyRuns(buf, dirty, runs, build), r, build).dirty
    decreases |runs|
  {
    assert AllOk(runs + [r]);
    if |runs| > 0 {
      assert (runs + [r])[1..] == runs[1..] + [r];
      ApplyRunsSnoc(buf, SendRun(buf, dirty, runs[0], build).dirty, runs[1..], r, build);
    }
  }

  /** A bit at or past the end of every run keeps its state, whatever the build. */
  lemma {:induction false} ApplyRunsKeepsAhead(buf: seq<byte>, dirty: seq<byte>, runs: seq<Run>, build: Build, k: nat)
    requires |buf| == BUFFER_SIZE && |dirty| == DIRTY_SIZE && AllOk(runs) && k < NBITS
    requires forall i | 0 <= i < |runs| :: RunEnd(runs[i]) <= k
    ensures BitAt(ApplyRuns(buf, dirty, runs, build), k) == BitAt(dirty, k)
    decreases |runs|
  {
    if |runs| > 0 {
      ApplyRunsKeepsAhead(buf, SendRun(buf, dirty, runs[0], build).dirty, runs[1..], build, k);
    }
  }

  /** What the controller makes of the four packets of one run: a page, a column, the bytes. */
  datatype Block = Block(page: byte, column: byte, bytes: seq<byte>)

  /**
   The controller's reading of four packets as one block: a page command, a
   low and a high column nibble, then data.
   */
  function ReadBlock(ps: seq<Packet>): Option<Block>
    requires |ps| == 4
  {
    var p0, p1, p2, p3 := ParsePacket(ps[0]), ParsePacket(ps[1]), ParsePacket(ps[2]), ParsePacket(ps[3]);
    if p0.Some? && p0.value.Command? && p1.Some? && p1.value.Command? && p2.Some? && p2.value.Command?
       && p3.Some? && p3.value.Data? then
      var page, lo, hi := PageOf(p0.value.cmd), LowNibbleOf(p1.value.cmd), HighNibbleOf(p2.value.cmd);
      if page.Some? && lo.Some? && hi.Some? then Some(Block(page.value, (hi.value << 4) | lo.value, p3.value.bytes))
      else None
    else None
  }

  /** The controller's reading of a whole log, four packets to a block. */
  function ReadLog(ps: seq<Packet>): Option<seq<Block>>
    decreases |ps|
  {
    if |ps| == 0 then Some([])
    else if |ps| < 4 then None
    else
      var b, rest := ReadBlock(ps[..4]), ReadLog(ps[4..]);
      if b.Some? && rest.Some? then Some([b.value] + rest.value) else None
  }

  /**
   The packets the flush puts on the bus for one run: ssd1306_set_page,
   ssd1306_set_column and the data packet of ssd1306_send_block.
   */
  function RunPackets(buf: seq<byte>, r: Run): (ps: seq<Packet>)
    requires |buf| == BUFFER_SIZE && RunOk(r)
    ensures |ps| == 4
  {
    SetPage(r.page as u8) + SetColumn(r.start as u8) + [BlockPacket(buf, r.start as u8, r.page as u8, r.len as u32)]
  }

  /**
   The controller reads the packets of a run as the run's page and column
   and exactly the framebuffer bytes of the run.
   */
  lemma RunPacketsReadBack(buf: seq<byte>, r: Run)
    requires |buf| == BUFFER_SIZE && RunOk(r)
    ensures ReadBlock(RunPackets(buf, r)) == Some(Block(r.page as byte, r.start as byte, buf[RunFirst(r) .. RunEnd(r)]))
  {
    var sp, sc := SetPage(r.page as u8), SetColumn(r.start as u8);
    var ps := RunPackets(buf, r);
    assert ps[0] == sp[0] && ps[1] == sc[0] && ps[2] == sc[1];
    assert ps[3] == BlockPacket(buf, r.start as u8, r.page as u8, r.len as u32);
    RunCommandsReadBack(r);
    RunDataReadBack(buf, r);
  }

  /** The three command packets of a run select its page and its column. */
  lemma RunCommandsReadBack(r: Run)
    requires RunOk(r)
    ensures var sp, sc := SetPage(r.page as u8), SetColumn(r.start as u8);
      && ParsePacket(sp[0]).Some? && ParsePacket(sp[0]).value.Command?
      && ParsePacket(sc[0]).Some? && ParsePacket(sc[0]).value.Command?
      && ParsePacket(sc[1]).Some? && ParsePacket(sc[1]).value.Command?
      && PageOf(ParsePacket(sp[0]).value.cmd) == Some(r.page as byte)
      && LowNibbleOf(ParsePacket(sc[0]).value.cmd).Some? && HighNibbleOf(ParsePacket(sc[1]).value.cmd).Some?
      && (HighNibbleOf(ParsePacket(sc[1]).value.cmd).value << 4) | LowNibbleOf(ParsePacket(sc[0]).value.cmd).value
         == r.start as byte
  {
    assert U8(r.start as u8 + X_OFFSET) == r.start;
  }

  /** The data packet of a run carries exactly the run's framebuffer bytes. */
  lemma RunDataReadBack(buf: seq<byte>, r: Run)
    requires |buf| == BUFFER_SIZE && RunOk(r)
    ensures ParsePacket(BlockPacket(buf, r.start as u8, r.page as u8, r.len as u32)) == Some(Data(buf[RunFirst(r) .. RunEnd(r)]))
  {
    assert BlockLength(r.start, r.len) == r.len;
  }

  /** The packet groups put one after another. */
  function Flatten<T>(xs: seq<seq<T>>): seq<T>
    decreases |xs|
  {
    if |xs| == 0 then [] else xs[0] + Flatten(xs[1..])
  }

  lemma {:induction false} FlattenSnoc<T>(xs: seq<seq<T>>, x: seq<T>)
    ensures Flatten(xs + [x]) == Flatten(xs) + x
    decreases |xs|
  {
    if |xs| > 0 {
      assert (xs + [x])[1..] == xs[1..] + [x];
      FlattenSnoc(xs[1..], x);
    }
  }

  /** The log of a flush that sends the runs in order: the packets of each run, one run after another. */
  function FlushLog(buf: seq<byte>, runs: seq<Run>): (log: seq<Packet>)
    requires |buf| == BUFFER_SIZE && AllOk(runs)
  {
    Flatten(seq(|runs|, i requires 0 <= i < |runs| => RunPackets(buf, runs[i])))
  }

  lemma FlushLogSnoc(buf: seq<byte>, runs: seq<Run>, r: Run)
    requires |buf| == BUFFER_SIZE && AllOk(runs) && RunOk(r)
    ensures AllOk(runs + [r])
    ensures FlushLog(buf, runs + [r]) == FlushLog(buf, runs) + RunPackets(buf, r)
  {
    assert AllOk(runs + [r]);
    var xs := seq(|runs|, i requires 0 <= i < |runs| => RunPackets(buf, runs[i]));
    var ys := seq(|runs + [r]|, i requires 0 <= i < |runs + [r]| => RunPackets(buf, (runs + [r])[i]));
    assert ys == xs + [RunPackets(buf, r)];
    FlattenSnoc(xs, RunPackets(buf, r));
  }

  /** The block the controller receives for each run. */
  function BlocksOf(buf: seq<byte>, runs: seq<Run>): (bs: seq<Block>)
    requires |buf| == BUFFER_SIZE && AllOk(runs)
    ensures |bs| == |runs|
  {
    seq(|runs|, i requires 0 <= i < |runs| =>
      Block(runs[i].page as byte, runs[i].start as byte, buf[RunFirst(runs[i]) .. RunEnd(runs[i])]))
  }

  /** Groups of four packets that each read as a block read back, as a whole, as those blocks in order. */
  lemma {:induction false} ReadFlattened(xs: seq<seq<Packet>>, bs: seq<Block>)
    requires |xs| == |bs|
    requires forall i | 0 <= i < |xs| :: |xs[i]| == 4 && ReadBlock(xs[i]) == Some(bs[i])
    ensures ReadLog(Flatten(xs)) == Some(bs)
    decreases |xs|
  {
    if |xs| > 0 {
      var log := Flatten(xs);
      assert log[..4] == xs[0];
      assert log[4..] == Flatten(xs[1..]);
      ReadFlattened(xs[1..], bs[1..]);
      assert bs == [bs[0]] + bs[1..];
    }
  }

  /** The controller reads a flush log back as exactly one block per run, in order. */
  lemma FlushLogReadsBack(buf: seq<byte>, runs: seq<Run>)
    requires |buf| == BUFFER_SIZE && AllOk(runs)
    ensures ReadLog(FlushLog(buf, runs)) == Some(BlocksOf(buf, runs))
  {
    var xs := seq(|runs|, i requires 0 <= i < |runs| => RunPackets(buf, runs[i]));
    forall i | 0 <= i < |runs|
      ensures |xs[i]| == 4 && ReadBlock(xs[i]) == Some(BlocksOf(buf, runs)[i])
    {
      RunPacketsReadBack(buf, runs[i]);
    }
    ReadFlattened(xs, BlocksOf(buf, runs));
  }

  /** Sending a run whose end is at or behind bit b keeps the live map in step with the starting one. */
  lemma SendKeepsAgreement(buf: seq<byte>, dirty: seq<byte>, m: seq<bool>, r: Run, b: nat, build: Build)
    requires |buf| == BUFFER_SIZE && |dirty| == DIRTY_SIZE && |m| == NBITS && RunOk(r) && RunEnd(r) <= b
    requires Agree(dirty, m, b) && Sub(dirty, m)
    ensures Agree(SendRun(buf, dirty, r, build).dirty, m, b) && Sub(SendRun(buf, dirty, r, build).dirty, m)
  {
  }

  lemma ConcatAssoc<T>(a: seq<T>, b: seq<T>, c: seq<T>)
    ensures a + (b + c) == (a + b) + c
  {
  }

  /**
   What the outer loop of ssd1306_flush_dirty keeps at bit b: the runs sent so
   far followed by the scan from b are the runs of the starting map, the log
   and the live map are those of the runs sent, and the live map agrees with
   the starting one from b on.
   */
  predicate FlushState(buf: seq<byte>, dirty0: seq<byte>, build: Build, m: seq<bool>, b: nat,
                       sent: seq<Run>, log: seq<Packet>, dirty: seq<byte>)
    requires |buf| == BUFFER_SIZE && |dirty0| == DIRTY_SIZE && |m| == NBITS
  {
    && b <= NBITS && |dirty| == DIRTY_SIZE
    && Agree(dirty, m, b) && Sub(dirty, m) && (b % 8 != 0 ==> !m[b - 1])
    && AllOk(sent) && (forall i | 0 <= i < |sent| :: RunEnd(sent[i]) <= b)
    && Runs(m, build) == sent + (if b < Bound(build) then Scan(m, b, None, Bound(build)) else [])
    && log == FlushLog(buf, sent) && dirty == ApplyRuns(buf, dirty0, sent, build)
  }

  /** A round that sends run r, the next run of the scan, and leaves the scan at b'. */
  lemma SendStep(buf: seq<byte>, dirty0: seq<byte>, build: Build, m: seq<bool>, b: nat, b': nat,
                 sent: seq<Run>, log: seq<Packet>, dirty: seq<byte>, r: Run)
    requires |buf| == BUFFER_SIZE && |dirty0| == DIRTY_SIZE && |m| == NBITS && b < Bound(build)
    requires FlushState(buf, dirty0, build, m, b, sent, log, dirty)
    requires b < b' <= NBITS && (b' % 8 != 0 ==> !m[b' - 1]) && RunOk(r) && RunEnd(r) <= b'
    requires Scan(m, b, None, Bound(build)) ==
      [r] + (if b' < Bound(build) then Scan(m, b', None, Bound(build)) else [])
    ensures AllOk(sent + [r])
    ensures FlushState(buf, dirty0, build, m, b', sent + [r], log + RunPackets(buf, r),
                       SendRun(buf, dirty, r, build).dirty)
  {
    SendKeepsAgreement(buf, dirty, m, r, b', build);
    ApplyRunsSnoc(buf, dirty0, sent, r, build);
    FlushLogSnoc(buf, sent, r);
    SentRunsStep(m, build, b, b', sent, r);
  }

  /** The runs sent so far, with r after them, all end by b' and are followed by the rest of the scan. */
  lemma SentRunsStep(m: seq<bool>, build: Build, b: nat, b': nat, sent: seq<Run>, r: Run)
    requires |m| == NBITS && b < Bound(build) && b < b' && RunEnd(r) <= b'
    requires forall i | 0 <= i < |sent| :: RunEnd(sent[i]) <= b
    requires Runs(m, build) == sent + (if b < Bound(build) then Scan(m, b, None, Bound(build)) else [])
    requires Scan(m, b, None, Bound(build)) ==
      [r] + (if b' < Bound(build) then Scan(m, b', None, Bound(build)) else [])
    ensures forall i | 0 <= i < |sent + [r]| :: RunEnd((sent + [r])[i]) <= b'
    ensures Runs(m, build) == (sent + [r]) + (if b' < Bound(build) then Scan(m, b', None, Bound(build)) else [])
  {
    var rest := if b' < Bound(build) then Scan(m, b', None, Bound(build)) else [];
    ConcatAssoc(sent, [r], rest);
    forall i | 0 <= i < |sent + [r]|
      ensures RunEnd((sent + [r])[i]) <= b'
    {
      if i < |sent| {
        assert (sent + [r])[i] == sent[i];
      }
    }
  }

  /** A round that finds no run to send and leaves the scan at b'. */
  lemma SkipStep(buf: seq<byte>, dirty0: seq<byte>, build: Build, m: seq<bool>, b: nat, b': nat,
                 sent: seq<Run>, log: seq<Packet>, dirty: seq<byte>)
    requires |buf| == BUFFER_SIZE && |dirty0| == DIRTY_SIZE && |m| == NBITS && b < Bound(build)
    requires FlushState(buf, dirty0, build, m, b, sent, log, dirty)
    requires b < b' <= NBITS && (b' % 8 != 0 ==> !m[b' - 1])
    requires Scan(m, b, None, Bound(build)) ==
      [] + (if b' < Bound(build) then Scan(m, b', None, Bound(build)) else [])
    ensures FlushState(buf, dirty0, build, m, b', sent, log, dirty)
  {
    assert [] + (if b' < Bound(build) then Scan(m, b', None, Bound(build)) else []) ==
      (if b' < Bound(build) then Scan(m, b', None, Bound(build)) else []);
  }

  /**
   One round of the outer `do ... while`: scan the rest of a page up to the
   end of the next run, and if there is one, set the page and column and send
   it, on the page of the last dirty byte read.
   */
  method FlushRound(buf: seq<byte>, ghost dirty0: seq<byte>, build: Build, ghost m: seq<bool>, b: nat, start: nat,
                    ghost sent: seq<Run>, log: seq<Packet>, dirty: seq<byte>)
    returns (b': nat, start': nat, ghost sent': seq<Run>, log': seq<Packet>, dirty': seq<byte>)
    requires |buf| == BUFFER_SIZE && |dirty0| == DIRTY_SIZE && |m| == NBITS && b < Bound(build)
    requires FlushState(buf, dirty0, build, m, b, sent, log, dirty)
    ensures b < b' && FlushState(buf, dirty0, build, m, b', sent', log', dirty')
  {
    var page, len, last, sq;
    b', page, start', len, last, sq := ScanPage(m, dirty, b, start, build);
    if last {
      var r := Run(page, start', len);
      var p := (sq / WIDTH_BYTES) as u8;
      var block := SendBlock(buf, dirty, start' as u8, p, len as u32, build);
      log' := log + (SetPage(p) + SetColumn(start' as u8) + [block.packet]);
      dirty' := block.dirty;
      assert SetPage(p) + SetColumn(start' as u8) + [block.packet] == RunPackets(buf, r);
      SendStep(buf, dirty0, build, m, b, b', sent, log, dirty, r);
      sent' := sent + [r];
    } else {
      sent', log', dirty' := sent, log, dirty;
      SkipStep(buf, dirty0, build, m, b, b', sent, log, dirty);
    }
  }

  /**
   ssd1306_flush_dirty. Before ssd1306_init nothing is sent. Otherwise the
   packets on the bus are those of the runs of `Runs` on the dirty map the
   flush starts from, in order, and the dirty map ends as send_block leaves it
   after those runs, although the loops read the map while send_block clears
   it.
   */
  method FlushDirty(initialized: bool, buf: seq<byte>, dirty0: seq<byte>, build: Build)
    returns (log: seq<Packet>, dirty: seq<byte>)
    requires |buf| == BUFFER_SIZE && |dirty0| == DIRTY_SIZE
    ensures !initialized ==> log == [] && dirty == dirty0
    ensures initialized ==>
      && AllOk(Runs(Flags(dirty0), build))
      && log == FlushLog(buf, Runs(Flags(dirty0), build))
      && dirty == ApplyRuns(buf, dirty0, Runs(Flags(dirty0), build), build)
    ensures initialized && build == Corrected ==> forall i | 0 <= i < |dirty| :: dirty[i] == 0
    ensures initialized && (forall i | 0 <= i < DIRTY_SIZE :: dirty0[i] == 0) ==> log == [] && dirty == dirty0
  {
    log, dirty := [], dirty0;
    if !initialized {
      return;
    }
    ghost var m := Flags(dirty0);
    ghost var sent: seq<Run> := [];
    var b := 0;
    var start := 0;
    assert Runs(m, build) == sent + Scan(m, b, None, Bound(build));
    while b < Bound(build)
      invariant FlushState(buf, dirty0, build, m, b, sent, log, dirty)
      decreases NBITS - b
    {
      b, start, sent, log, dirty := FlushRound(buf, dirty0, build, m, b, start, sent, log, dirty);
    }
    assert Runs(m, build) == sent;
    if build == Corrected {
      CorrectedFlushCleansMap(buf, dirty0);
    }
    if forall i | 0 <= i < DIRTY_SIZE :: dirty0[i] == 0 {
      forall k | 0 <= k < NBITS
        ensures !m[k]
      {
        assert dirty0[k / 8] == 0;
      }
      CleanMapSendsNothing(m, build);
    }
  }

  /**
   Every run a flush sends can be handed to send_block as it is (non-empty,
   `start + len <= W`, on one page of the panel) and consists of dirty bits
   only.
   */
  lemma RunsAreDirty(m: seq<bool>, build: Build)
    requires |m| == NBITS
    ensures AllOk(Runs(m, build))
    ensures forall i | 0 <= i < |Runs(m, build)| ::
      forall j | RunFirst(Runs(m, build)[i]) <= j < RunEnd(Runs(m, build)[i]) :: j < NBITS && m[j]
  {
    ScanSound(m, 0, None, Bound(build));
  }

  /**
   The runs of a flush cover exactly the dirty bits: all of them with the
   corrected bound, and all but the missed one with the bound as written.
   */
  lemma RunsCoverDirty(m: seq<bool>, build: Build)
    requires |m| == NBITS
    ensures forall k | 0 <= k < NBITS :: Covered(Runs(m, build), k) <==> m[k] && !Missed(m, build, k)
  {
    ScanComplete(m, 0, None, build);
  }

  /** A clean dirty map gives no runs, so the flush sends nothing. */
  lemma CleanMapSendsNothing(m: seq<bool>, build: Build)
    requires |m| == NBITS && forall k | 0 <= k < NBITS :: !m[k]
    ensures Runs(m, build) == []
  {
    ScanClean(m, 0, Bound(build));
  }

  /** With no run pending and no dirty bit from k on, the scan finds nothing. */
  lemma {:induction false} ScanClean(m: seq<bool>, k: nat, bound: nat)
    requires |m| == NBITS && k <= NBITS && forall j | k <= j < NBITS :: !m[j]
    ensures Scan(m, k, None, bound) == []
    decreases NBITS - k
  {
    if k < NBITS {
      ScanClean(m, k + 1, bound);
    }
  }

  /** A run that holds bit k makes bit k covered. */
  lemma {:induction false} CoveredByRun(runs: seq<Run>, i: nat, k: int)
    requires i < |runs| && InRun(runs[i], k)
    ensures Covered(runs, k)
    decreases i
  {
    if i > 0 {
      CoveredByRun(runs[1..], i - 1, k);
    }
  }

  /** With the corrected bound, the flush leaves every dirty byte 0. */
  lemma CorrectedFlushCleansMap(buf: seq<byte>, dirty0: seq<byte>)
    requires |buf| == BUFFER_SIZE && |dirty0| == DIRTY_SIZE
    ensures AllOk(Runs(Flags(dirty0), Corrected))
    ensures forall i | 0 <= i < DIRTY_SIZE ::
      ApplyRuns(buf, dirty0, Runs(Flags(dirty0), Corrected), Corrected)[i] == 0
  {
    var m := Flags(dirty0);
    RunsAreDirty(m, Corrected);
    RunsCoverDirty(m, Corrected);
    AllClearIsZero(ApplyRuns(buf, dirty0, Runs(m, Corrected), Corrected));
  }

  /**
   The outer bound as written: with the last dirty byte 0xA0 (bits NBITS - 3
   and NBITS - 1 dirty, bit NBITS - 2 clean), no run holds bit NBITS - 1 and
   the flush leaves it dirty, while the corrected bound sends it.
   */
  lemma AsWrittenMissesLastBit(buf: seq<byte>, dirty0: seq<byte>)
    requires |buf| == BUFFER_SIZE && |dirty0| == DIRTY_SIZE && dirty0[DIRTY_SIZE - 1] == 0xA0
    ensures AllOk(Runs(Flags(dirty0), AsWritten))
    ensures !Covered(Runs(Flags(dirty0), AsWritten), NBITS - 1)
    ensures BitAt(ApplyRuns(buf, dirty0, Runs(Flags(dirty0), AsWritten), AsWritten), NBITS - 1)
    ensures Covered(Runs(Flags(dirty0), Corrected), NBITS - 1)
  {
    var m := Flags(dirty0);
    assert m[NBITS - 3] && !m[NBITS - 2] && m[NBITS - 1];
    RunsAreDirty(m, AsWritten);
    RunsCoverDirty(m, AsWritten);
    RunsCoverDirty(m, Corrected);
    var runs := Runs(m, AsWritten);
    forall i | 0 <= i < |runs|
      ensures RunEnd(runs[i]) <= NBITS - 1
    {
      if RunEnd(runs[i]) > NBITS - 1 {
        CoveredByRun(runs, i, NBITS - 1);
      }
    }
    ApplyRunsKeepsAhead(buf, dirty0, runs, AsWritten, NBITS - 1);
  }
}
