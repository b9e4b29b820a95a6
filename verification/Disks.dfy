/**
 machine/disk.cc: how long a request takes on a disk that rotates under its head, with a track buffer.
 At time t, a multiple of the rotation time, sector (t / RotationTime) % SectorsPerTrack of the current
 track begins to pass the head.
*/
module Disks {
  import opened Common

  const SECTORS_PER_TRACK := 32
  const NUM_TRACKS := 32
  const NUM_SECTORS := SECTORS_PER_TRACK * NUM_TRACKS

  /** stats.h: RotationTime, SeekTime */
  const ROTATION_TIME := 500
  const SEEK_TIME := 500

  /** The sector passes the head from `start` to `start + ROTATION_TIME`. */
  predicate Passes(sector: nat, start: nat) {
    start % ROTATION_TIME == 0 && (start / ROTATION_TIME) % SECTORS_PER_TRACK == sector % SECTORS_PER_TRACK
  }

  /** From a time on, the sector begins to pass at `start` for the first time. */
  ghost predicate PassesFirst(sector: nat, from: nat, start: int) {
    from <= start && Passes(sector, start) && forall t: nat :: from <= t < start ==> !Passes(sector, t)
  }

  /** The sector has passed the head completely, at least once, between two times. */
  ghost predicate HasPassed(sector: nat, since: nat, until: int) {
    exists start: nat :: since <= start && start + ROTATION_TIME <= until && Passes(sector, start)
  }

  /** abs(newTrack - oldTrack) * SeekTime */
  function SeekTicks(lastSector: nat, newSector: nat): nat {
    var d := newSector / SECTORS_PER_TRACK - lastSector / SECTORS_PER_TRACK;
    (if d < 0 then -d else d) * SEEK_TIME
  }

  /** How many tracks the head moves, inwards or outwards. */
  function TracksApart(from: nat, to: nat): nat {
    if from / 32 <= to / 32 then to / 32 - from / 32 else from / 32 - to / 32
  }

  /** A seek takes 500 ticks for each track. */
  lemma SeekIs(lastSector: nat, newSector: nat)
    ensures SeekTicks(lastSector, newSector) == 500 * TracksApart(lastSector, newSector)
  {
  }

  /** From a time to the next sector boundary. */
  function ToBoundary(time: nat): (r: nat)
    ensures r < ROTATION_TIME && (time + r) % ROTATION_TIME == 0
  {
    var over := time % ROTATION_TIME;
    if over > 0 then ROTATION_TIME - over else 0
  }

  function ModuloDiff(to: nat, from: nat): (r: nat)
    ensures r < SECTORS_PER_TRACK && (from + r) % SECTORS_PER_TRACK == to % SECTORS_PER_TRACK
  {
    DiffLeadsTo(to % SECTORS_PER_TRACK, from / SECTORS_PER_TRACK, from % SECTORS_PER_TRACK);
    (to % SECTORS_PER_TRACK - from % SECTORS_PER_TRACK + SECTORS_PER_TRACK) % SECTORS_PER_TRACK
  }

  lemma DiffLeadsTo(t: nat, q: nat, f: nat)
    requires t < SECTORS_PER_TRACK && f < SECTORS_PER_TRACK
    ensures var r := (t - f + SECTORS_PER_TRACK) % SECTORS_PER_TRACK;
            (SECTORS_PER_TRACK * q + f + r) % SECTORS_PER_TRACK == t
  {
    if t >= f {
      assert (t - f + SECTORS_PER_TRACK) % SECTORS_PER_TRACK == t - f;
      Remainder(q, t);
    } else {
      Remainder(q + 1, t);
    }
  }

  lemma Remainder(q: nat, t: nat)
    requires t < SECTORS_PER_TRACK
    ensures (SECTORS_PER_TRACK * q + t) % SECTORS_PER_TRACK == t
  {
  }

  /** No smaller number of sectors leads from one to the other. */
  lemma ModuloDiffIsLeast(to: nat, from: nat, r: nat)
    requires (from + r) % SECTORS_PER_TRACK == to % SECTORS_PER_TRACK
    ensures r >= ModuloDiff(to, from)
  {
    NotBelow(from + r, from + ModuloDiff(to, from));
  }

  lemma NotBelow(a: nat, b: nat)
    requires a % SECTORS_PER_TRACK == b % SECTORS_PER_TRACK && b < a + SECTORS_PER_TRACK
    ensures a >= b
  {
    var q, p := a / SECTORS_PER_TRACK, b / SECTORS_PER_TRACK;
    assert a == SECTORS_PER_TRACK * q + a % SECTORS_PER_TRACK;
    assert b == SECTORS_PER_TRACK * p + b % SECTORS_PER_TRACK;
  }

  lemma PassesNoEarlier(sector: nat, boundary: nat, start: nat)
    requires boundary % ROTATION_TIME == 0 && boundary <= start && Passes(sector, start)
    ensures start >= boundary + ModuloDiff(sector, boundary / ROTATION_TIME) * ROTATION_TIME
  {
    var q, k := boundary / ROTATION_TIME, start / ROTATION_TIME;
    assert start == k * ROTATION_TIME && boundary == q * ROTATION_TIME && q <= k;
    ModuloDiffIsLeast(sector, q, k - q);
  }

  /** From a boundary on, the sector first begins to pass after ModuloDiff sectors. */
  lemma FirstPass(sector: nat, boundary: nat)
    requires boundary % ROTATION_TIME == 0
    ensures var first := boundary + ModuloDiff(sector, boundary / ROTATION_TIME) * ROTATION_TIME;
            && Passes(sector, first)
            && forall start: nat :: boundary <= start < first ==> !Passes(sector, start)
  {
    var q, d := boundary / ROTATION_TIME, ModuloDiff(sector, boundary / ROTATION_TIME);
    var first := boundary + d * ROTATION_TIME;
    assert first == (q + d) * ROTATION_TIME;
    forall start: nat | boundary <= start && Passes(sector, start) ensures start >= first {
      PassesNoEarlier(sector, boundary, start);
    }
  }

  /** Nothing begins to pass before the next boundary. */
  lemma NoPassBeforeBoundary(sector: nat, time: nat)
    ensures forall start: nat :: time <= start < time + ToBoundary(time) ==> !Passes(sector, start)
  {
    forall start: nat | time <= start < time + ToBoundary(time) ensures start % ROTATION_TIME != 0 {
      BetweenBoundaries(time, start - time);
    }
  }

  lemma BetweenBoundaries(time: nat, d: nat)
    requires d < ToBoundary(time)
    ensures (time + d) % ROTATION_TIME != 0
  {
    var q, over := time / ROTATION_TIME, time % ROTATION_TIME;
    assert time == ROTATION_TIME * q + over && 0 < over + d < ROTATION_TIME;
  }

  /** The comparison of ComputeLatency: has the sector passed, in whole sectors, since `since`? */
  lemma PassedIff(sector: nat, since: nat, until: nat)
    requires since % ROTATION_TIME == 0 && since <= until
    ensures HasPassed(sector, since, until) <==>
              (until - since) / ROTATION_TIME > ModuloDiff(sector, since / ROTATION_TIME)
  {
    FirstPass(sector, since);
    var d := ModuloDiff(sector, since / ROTATION_TIME);
    var first := since + d * ROTATION_TIME;
    if (until - since) / ROTATION_TIME > d {
      assert first + ROTATION_TIME <= until;
    } else {
      assert first + ROTATION_TIME > until;
      forall start: nat | since <= start && start + ROTATION_TIME <= until ensures !Passes(sector, start) {
        assert start < first;
      }
    }
  }

  /** When the track buffer begins: at the first sector boundary behind a seek, and as before without one. */
  function BufferStart(now: nat, lastSector: nat, newSector: nat, bufferInit: nat): nat {
    if newSector / SECTORS_PER_TRACK == lastSector / SECTORS_PER_TRACK then bufferInit
    else now + SeekTicks(lastSector, newSector) + ToBoundary(now + SeekTicks(lastSector, newSector))
  }

  /** When the track buffer begins: as before on the same track; else at the first boundary after the seek. */
  predicate BeginsAt(now: nat, lastSector: nat, newSector: nat, before: nat, start: nat) {
    if TracksApart(lastSector, newSector) == 0 then start == before
    else
      var seekEnd := now + 500 * TracksApart(lastSector, newSector);
      start % 500 == 0 && seekEnd <= start < seekEnd + 500
  }

  lemma BufferBegins(now: nat, lastSector: nat, newSector: nat, bufferInit: nat)
    ensures BeginsAt(now, lastSector, newSector, bufferInit, BufferStart(now, lastSector, newSector, bufferInit))
  {
    SeekIs(lastSector, newSector);
  }

  class Disk {
    var lastSector: nat
    var bufferInit: nat
    var active: bool
    ghost var due: nat        // when the interrupt of the active request comes

    /** When the disk is idle, bufferInit is not in the future; when it is active, not beyond the interrupt. */
    ghost predicate Valid(now: nat)
      reads this
    {
      && lastSector < NUM_SECTORS
      && bufferInit % ROTATION_TIME == 0
      && bufferInit <= if active then due else now
    }

    constructor ()
      ensures Valid(0) && !active && lastSector == 0 && bufferInit == 0
    {
      lastSector, bufferInit, active, due := 0, 0, false, 0;
    }

    /** The seek, and from its end to the next sector boundary. */
    function TimeToSeek(now: nat, newSector: nat): (r: (nat, nat))
      reads this
      ensures r.1 < ROTATION_TIME && (now + r.0 + r.1) % ROTATION_TIME == 0
      ensures r.0 == 0 <==> newSector / SECTORS_PER_TRACK == lastSector / SECTORS_PER_TRACK
    {
      var seek := SeekTicks(lastSector, newSector);
      (seek, ToBoundary(now + seek))
    }

    /** The request is served from the track buffer. */
    predicate Buffered(now: nat, newSector: nat, writing: bool)
      reads this
    {
      var (seek, rotation) := TimeToSeek(now, newSector);
      var timeAfter := now + seek + rotation;
      !writing && seek == 0
      && TruncDiv(timeAfter - bufferInit, ROTATION_TIME) > ModuloDiff(newSector, bufferInit / ROTATION_TIME)
    }

    function ComputeLatency(now: nat, newSector: nat, writing: bool): nat
      reads this
    {
      var (seek, rotation) := TimeToSeek(now, newSector);
      var timeAfter := now + seek + rotation;
      if Buffered(now, newSector, writing) then ROTATION_TIME
      else seek + rotation + ModuloDiff(newSector, timeAfter / ROTATION_TIME) * ROTATION_TIME + ROTATION_TIME
    }

    /** The buffer serves reads of the current track whose sector has passed by the next boundary, and no others. */
    lemma BufferedIff(now: nat, newSector: nat, writing: bool)
      requires Valid(now) && !active
      ensures Buffered(now, newSector, writing) <==>
                && !writing
                && newSector / SECTORS_PER_TRACK == lastSector / SECTORS_PER_TRACK
                && HasPassed(newSector, bufferInit, now + ToBoundary(now))
    {
      PassedIff(newSector, bufferInit, now + ToBoundary(now));
    }

    /** So it has passed when the transfer from the buffer ends. */
    lemma BufferedHasPassed(now: nat, newSector: nat, writing: bool)
      requires Valid(now) && !active && Buffered(now, newSector, writing)
      ensures HasPassed(newSector, bufferInit, now + ComputeLatency(now, newSector, writing))
    {
      BufferedIff(now, newSector, writing);
      var start: nat :| bufferInit <= start && start + ROTATION_TIME <= now + ToBoundary(now)
        && Passes(newSector, start);
      assert start + ROTATION_TIME <= now + ComputeLatency(now, newSector, writing);
    }

    /**
     But not always when the request is made: exactly when the sector is passing for the first time at
     that moment, the buffer is said to hold a sector that it does not hold yet.
    */
    lemma BufferedTooEarly(now: nat, newSector: nat, writing: bool)
      requires Valid(now) && !active && Buffered(now, newSector, writing)
      ensures !HasPassed(newSector, bufferInit, now) <==>
                && now % ROTATION_TIME != 0
                && (now - bufferInit) / ROTATION_TIME == ModuloDiff(newSector, bufferInit / ROTATION_TIME)
    {
      PassedIff(newSector, bufferInit, now);
    }

    /**
     A request that the buffer does not serve ends when its sector has just passed: its pass begins after
     the seek, and no earlier pass does.
    */
    lemma UnbufferedIsEarliest(now: nat, newSector: nat, writing: bool)
      requires !Buffered(now, newSector, writing)
      ensures var seekEnd := now + 500 * TracksApart(lastSector, newSector);
              var end := now + ComputeLatency(now, newSector, writing);
              end >= 500 && PassesFirst(newSector, seekEnd, end - 500)
    {
      SeekIs(lastSector, newSector);
      var seekEnd := now + SeekTicks(lastSector, newSector);
      var boundary := seekEnd + ToBoundary(seekEnd);
      FirstPass(newSector, boundary);
      NoPassBeforeBoundary(newSector, seekEnd);
    }

    lemma LatencyBounds(now: nat, newSector: nat, writing: bool)
      requires lastSector < NUM_SECTORS && newSector < NUM_SECTORS
      ensures 500 <= ComputeLatency(now, newSector, writing) <= 31999
    {
    }

    method UpdateLast(now: nat, newSector: nat)
      requires newSector < NUM_SECTORS && bufferInit % ROTATION_TIME == 0
      modifies this`lastSector, this`bufferInit
      ensures lastSector == newSector && bufferInit % ROTATION_TIME == 0
      ensures bufferInit == BufferStart(now, old(lastSector), newSector, old(bufferInit))
      ensures BeginsAt(now, old(lastSector), newSector, old(bufferInit), bufferInit)
    {
      BufferBegins(now, lastSector, newSector, bufferInit);
      var (seek, rotate) := TimeToSeek(now, newSector);
      if seek != 0 {
        bufferInit := now + seek + rotate;
      }
      lastSector := newSector;
    }

    /** ReadRequest and WriteRequest; the interrupt is scheduled `ticks` from now. */
    method Request(now: nat, sectorNumber: nat, writing: bool) returns (ticks: nat)
      requires Valid(now) && !active && sectorNumber < NUM_SECTORS
      modifies this
      ensures ticks == old(ComputeLatency(now, sectorNumber, writing)) && 500 <= ticks <= 31999
      ensures old(Buffered(now, sectorNumber, writing)) ==> ticks == 500
      ensures !old(Buffered(now, sectorNumber, writing)) ==>
                PassesFirst(sectorNumber, now + 500 * TracksApart(old(lastSector), sectorNumber), now + ticks - 500)
      ensures Valid(now) && active && due == now + ticks && lastSector == sectorNumber
      ensures bufferInit == BufferStart(now, old(lastSector), sectorNumber, old(bufferInit))
      ensures BeginsAt(now, old(lastSector), sectorNumber, old(bufferInit), bufferInit)
    {
      if !Buffered(now, sectorNumber, writing) {
        UnbufferedIsEarliest(now, sectorNumber, writing);
      }
      ticks := ComputeLatency(now, sectorNumber, writing);
      LatencyBounds(now, sectorNumber, writing);
      active := true;
      due := now + ticks;
      UpdateLast(now, sectorNumber);
    }

    /** The interrupt: the caller is told after the disk is idle again. */
    method CallBack(now: nat)
      requires Valid(now) && active && due <= now
      modifies this`active
      ensures Valid(now) && !active
    {
      active := false;
    }
  }

  /** A disk one system tick after start: sector 0 is still passing, and the buffer claims to hold it. */
  method ReadsTooEarly() returns (disk: Disk)
    ensures disk.Valid(10) && !disk.active && disk.Buffered(10, 0, false) && !HasPassed(0, disk.bufferInit, 10)
  {
    disk := new Disk();
    disk.BufferedTooEarly(10, 0, false);
  }

  /** A new disk is asked to write sector 65, two tracks away: the seek, 31 sectors, and the sector itself. */
  method TwoTracksAway() returns (ticks: nat)
    ensures ticks == 17000
  {
    var disk := new Disk();
    ticks := disk.Request(0, 65, true);
  }

  // ---------------------------------------------------------------- whole runs

  /** What a user asks for: after a wait, a sector; and how late the interrupt comes. */
  datatype Wish = Wish(wait: nat, sector: nat, writing: bool, late: nat)

  /** A request that was made at a time and took some ticks. */
  datatype Served = Served(at: nat, sector: nat, writing: bool, ticks: nat)

  function Track(sector: nat): nat {
    sector / SECTORS_PER_TRACK
  }

  /** The sector of the request before the k-th; the head begins at sector 0. */
  function Before(log: seq<Served>, k: nat): nat
    requires k <= |log|
  {
    if k == 0 then 0 else log[k - 1].sector
  }

  /** When the track buffer began, before the k-th request. */
  function Since(log: seq<Served>, k: nat): (t: nat)
    requires k <= |log|
    ensures t % ROTATION_TIME == 0
  {
    if k == 0 then 0 else BufferStart(log[k - 1].at, Before(log, k - 1), log[k - 1].sector, Since(log, k - 1))
  }

  /** It began at time 0, or at the first boundary after the last seek before. */
  lemma SinceBegins(log: seq<Served>, k: nat)
    requires k <= |log|
    ensures if k == 0 then Since(log, k) == 0
            else BeginsAt(log[k - 1].at, Before(log, k - 1), log[k - 1].sector, Since(log, k - 1), Since(log, k))
  {
    if k > 0 {
      BufferBegins(log[k - 1].at, Before(log, k - 1), log[k - 1].sector, Since(log, k - 1));
    }
  }

  /** When the interrupt for the request before the k-th came. */
  function IdleFrom(wishes: seq<Wish>, log: seq<Served>, k: nat): nat
    requires k <= |log| <= |wishes|
  {
    if k == 0 then 0 else log[k - 1].at + log[k - 1].ticks + wishes[k - 1].late
  }

  /** The k-th request is the k-th wish, made when the request before it has been served. */
  predicate AsWished(wishes: seq<Wish>, log: seq<Served>, k: nat)
    requires k < |log| <= |wishes|
  {
    && log[k].sector == wishes[k].sector && log[k].writing == wishes[k].writing
    && log[k].at == IdleFrom(wishes, log, k) + wishes[k].wait
  }

  /** A request that the buffer serves: a read of the track under the head whose sector is about to have passed. */
  ghost predicate FromBuffer(log: seq<Served>, k: nat)
    requires k < |log|
  {
    var r := log[k];
    && !r.writing && Track(r.sector) == Track(Before(log, k))
    && HasPassed(r.sector, Since(log, k), r.at + ToBoundary(r.at))
  }

  /** The request took the time of a transfer out of the buffer, or ended with the first whole pass after the seek. */
  ghost predicate ServedRight(log: seq<Served>, k: nat)
    requires k < |log|
  {
    var r := log[k];
    && r.sector < NUM_SECTORS && 500 <= r.ticks <= 31999
    && Since(log, k) <= r.at
    && if FromBuffer(log, k) then r.ticks == 500
       else PassesFirst(r.sector, r.at + 500 * TracksApart(Before(log, k), r.sector), r.at + r.ticks - 500)
  }

  /** The log of a run that has served these wishes, or the first of them. */
  ghost predicate IsLog(wishes: seq<Wish>, log: seq<Served>) {
    |log| <= |wishes| && forall k {:trigger ServedAt(wishes, log, k)} :: 0 <= k < |log| ==> ServedAt(wishes, log, k)
  }

  ghost predicate ServedAt(wishes: seq<Wish>, log: seq<Served>, k: nat)
    requires k < |log| <= |wishes|
  {
    AsWished(wishes, log, k) && ServedRight(log, k)
  }

  /** The log only grows. */
  lemma {:induction false} SinceOfPrefix(log: seq<Served>, r: Served, k: nat)
    requires k <= |log|
    ensures Since(log + [r], k) == Since(log, k) && Before(log + [r], k) == Before(log, k)
  {
    if k > 0 {
      SinceOfPrefix(log, r, k - 1);
    }
  }

  lemma LogGrows(wishes: seq<Wish>, log: seq<Served>, r: Served)
    requires IsLog(wishes, log) && |log| < |wishes|
    requires ServedAt(wishes, log + [r], |log|)
    ensures IsLog(wishes, log + [r])
  {
    forall k | 0 <= k < |log| + 1 ensures ServedAt(wishes, log + [r], k) {
      if k < |log| {
        assert ServedAt(wishes, log, k);
        SinceOfPrefix(log, r, k);
      }
    }
  }

  /** From the time when the buffer began until the k-th request, the head has been on its track. */
  lemma {:induction false} HeadStays(wishes: seq<Wish>, log: seq<Served>, k: nat, j: nat)
    requires IsLog(wishes, log) && j < k <= |log| && log[j].at + log[j].ticks > Since(log, k)
    ensures Track(log[j].sector) == Track(Before(log, k))
  {
    if j < k - 1 {
      EndsBefore(wishes, log, j, k - 1);
      assert ServedAt(wishes, log, k - 1);
      HeadStays(wishes, log, k - 1, j);
    }
  }

  lemma {:induction false} EndsBefore(wishes: seq<Wish>, log: seq<Served>, i: nat, j: nat)
    requires IsLog(wishes, log) && i < j < |log|
    ensures log[i].at + log[i].ticks <= log[j].at
    decreases j
  {
    assert ServedAt(wishes, log, j);
    if i < j - 1 {
      EndsBefore(wishes, log, i, j - 1);
    }
  }

  /**
   In every run: what is read out of the buffer has passed the head completely, since the last seek to its
   track and before the transfer ends, and the head has not left the track in between.
  */
  lemma BufferHoldsSector(wishes: seq<Wish>, log: seq<Served>, k: nat) returns (start: nat)
    requires IsLog(wishes, log) && k < |log| && FromBuffer(log, k)
    ensures Passes(log[k].sector, start) && start + ROTATION_TIME <= log[k].at + log[k].ticks
    ensures forall j :: 0 <= j < k && log[j].at + log[j].ticks > start ==> Track(log[j].sector) == Track(log[k].sector)
  {
    var r := log[k];
    assert ServedAt(wishes, log, k);
    start :| Since(log, k) <= start && start + ROTATION_TIME <= r.at + ToBoundary(r.at) && Passes(r.sector, start);
    forall j | 0 <= j < k && log[j].at + log[j].ticks > start ensures Track(log[j].sector) == Track(r.sector) {
      HeadStays(wishes, log, k, j);
    }
  }

  /** One request. */
  method ServeOne(disk: Disk, at: nat, wish: Wish, ghost log: seq<Served>) returns (r: Served)
    requires disk.Valid(at) && !disk.active && wish.sector < NUM_SECTORS
    requires disk.lastSector == Before(log, |log|) && disk.bufferInit == Since(log, |log|)
    modifies disk
    ensures disk.Valid(at) && disk.active && disk.due == at + r.ticks
    ensures r.at == at && r.sector == wish.sector && r.writing == wish.writing && ServedRight(log + [r], |log|)
    ensures disk.lastSector == r.sector && disk.bufferInit == Since(log + [r], |log| + 1)
  {
    disk.BufferedIff(at, wish.sector, wish.writing);
    if !disk.Buffered(at, wish.sector, wish.writing) {
      disk.UnbufferedIsEarliest(at, wish.sector, wish.writing);
    }
    var ticks := disk.Request(at, wish.sector, wish.writing);
    r := Served(at, wish.sector, wish.writing, ticks);
    SinceOfPrefix(log, r, |log|);
  }

  /** Any run of requests, each made when the one before it has been served. */
  method AnyRequests(wishes: seq<Wish>) returns (log: seq<Served>)
    requires forall k :: 0 <= k < |wishes| ==> wishes[k].sector < NUM_SECTORS
    ensures |log| == |wishes| && IsLog(wishes, log)
  {
    var disk := new Disk();
    log := [];
    var now := 0;
    while |log| < |wishes|
      invariant IsLog(wishes, log) && now == IdleFrom(wishes, log, |log|)
      invariant disk.Valid(now) && !disk.active
      invariant disk.lastSector == Before(log, |log|) && disk.bufferInit == Since(log, |log|)
    {
      var wish := wishes[|log|];
      var r := ServeOne(disk, now + wish.wait, wish, log);
      LogGrows(wishes, log, r);
      log := log + [r];
      now := r.at + r.ticks + wish.late;
      disk.CallBack(now);
    }
  }
}
