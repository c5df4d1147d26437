/** The slot cache of `StreamingMoE` (src/dxstream/dxstream.cpp), as a state machine. */
module StreamCache {
  import opened DirectStorage

  /** The largest read the storage layer takes; `enqueue_read` throws on a larger one. */
  const UINT32_MAX := 0xFFFF_FFFF

  /** On a miss the source erases the incoming key, which is not there (`AsWritten`);
      erasing the key of the tensor being evicted is what residency needs (`EraseVictim`). */
  datatype Policy = AsWritten | EraseVictim

  datatype Stats = Stats(hits: nat, misses: nat, evictions: nat, stalls: nat, bytesStreamed: nat, bytesResident: int)

  /** How a request ends: `Threw` is the exception of `enqueue_read`. */
  datatype View = NoSlot | View(slot: nat, fenceValue: nat, isHit: bool) | Threw

  datatype Cache = Cache(
    versions: seq<nat>, hasPayload: seq<bool>, bytes: seq<nat>, lastTick: seq<nat>,
    resident: map<Key, nat>, tick: nat, stats: Stats, io: Storage)

  function Init(k: nat): Cache {
    Cache(seq(k, _ => 0), seq(k, _ => false), seq(k, _ => 0), seq(k, _ => 0), map[], 0,
          Stats(0, 0, 0, 0, 0, 0), Storage([], seq(k, _ => 0), seq(k, _ => Empty)))
  }

  ghost predicate Shaped(c: Cache) {
    && |c.hasPayload| == |c.bytes| == |c.lastTick| == |c.io.fences| == |c.io.memory| == |c.versions|
    && forall h :: h in c.resident ==> c.resident[h] < |c.versions|
  }

  /** The slot used longest ago among the first n, the lowest one on ties; -1 if none. */
  function Oldest(lastTick: seq<nat>, n: nat): (v: int)
    requires n <= |lastTick|
    ensures -1 <= v < n && (v == -1 <==> n == 0)
  {
    if n == 0 then -1
    else
      var v := Oldest(lastTick, n - 1);
      if v < 0 || lastTick[n - 1] < lastTick[v] then n - 1 else v
  }

  lemma {:induction false} OldestIsLeast(lastTick: seq<nat>, n: nat)
    requires 0 < n <= |lastTick|
    ensures var v := Oldest(lastTick, n);
      && (forall i :: 0 <= i < n ==> lastTick[v] <= lastTick[i])
      && (forall i :: 0 <= i < v ==> lastTick[v] < lastTick[i])
  {
    if n > 1 {
      OldestIsLeast(lastTick, n - 1);
    }
  }

  function Erased(resident: map<Key, nat>, key: Key, victim: nat, policy: Policy): map<Key, nat> {
    match policy
    case AsWritten => resident - {key}
    case EraseVictim => map h | h in resident && resident[h] != victim :: resident[h]
  }

  /** A hit refreshes the slot's tick and nothing else. */
  function Hit(c: Cache, key: Key): (r: Cache)
    requires Shaped(c) && key in c.resident
    ensures Shaped(r)
  {
    var i := c.resident[key];
    c.(tick := c.tick + 1, lastTick := c.lastTick[i := c.tick + 1], stats := c.stats.(hits := c.stats.hits + 1))
  }

  /** The victim's outstanding work, if any, is waited for. */
  function Settle(c: Cache, victim: nat): (r: Cache)
    requires Shaped(c) && victim < |c.versions|
    ensures Shaped(r)
  {
    if !c.hasPayload[victim] then c
    else
      var busy := c.io.fences[victim] < c.versions[victim];
      c.(io := c.io.WaitFor(victim, c.versions[victim]),
         stats := c.stats.(stalls := c.stats.stalls + (if busy then 1 else 0), evictions := c.stats.evictions + 1))
  }

  /** The request is charged, and what the victim held is taken off the books. */
  function Vacate(c: Cache, victim: nat, key: Key, coord: Coordinate, policy: Policy): (r: Cache)
    requires Shaped(c) && victim < |c.versions|
    ensures Shaped(r)
  {
    c.(resident := Erased(c.resident, key, victim, policy),
       stats := c.stats.(bytesStreamed := c.stats.bytesStreamed + coord.byteSize,
                         bytesResident := c.stats.bytesResident - c.bytes[victim]))
  }

  /** The read is issued into the victim slot, and its new tenant recorded. */
  function Claim(c: Cache, victim: nat, key: Key, coord: Coordinate): (r: Cache)
    requires Shaped(c) && victim < |c.versions|
    ensures Shaped(r)
  {
    var next := c.versions[victim] + 1;
    Cache(c.versions[victim := next], c.hasPayload[victim := true], c.bytes[victim := coord.byteSize],
          c.lastTick[victim := c.tick], c.resident[key := victim], c.tick,
          c.stats.(bytesResident := c.stats.bytesResident + coord.byteSize),
          c.io.(queue := c.io.queue + [Read(victim, key, coord), Signal(victim, next)]))
  }

  function Counted(c: Cache): (r: Cache)
    ensures Shaped(c) ==> Shaped(r)
  {
    c.(tick := c.tick + 1, stats := c.stats.(misses := c.stats.misses + 1))
  }

  /** A miss up to the read: everything that is done before `enqueue_read` can throw. */
  function Prepared(c: Cache, victim: nat, key: Key, coord: Coordinate, policy: Policy): (r: Cache)
    requires Shaped(c) && victim < |c.versions|
    ensures Shaped(r) && |r.versions| == |c.versions|
  {
    Vacate(Settle(Counted(c), victim), victim, key, coord, policy)
  }

  /** One request for a tensor the index knows.  A read too large for the storage layer
      throws, and leaves the miss half done. */
  function Fetch(c: Cache, key: Key, coord: Coordinate, policy: Policy): (r: (Cache, View))
    requires Shaped(c)
    ensures Shaped(r.0) && |r.0.versions| == |c.versions|
  {
    if key in c.resident then
      (Hit(c, key), View(c.resident[key], c.versions[c.resident[key]], true))
    else
      var victim := Oldest(c.lastTick, |c.lastTick|);
      if victim < 0 then (Counted(c), NoSlot)
      else if coord.byteSize > UINT32_MAX then (Prepared(c, victim, key, coord, policy), Threw)
      else
        (Claim(Prepared(c, victim, key, coord, policy), victim, key, coord),
         View(victim, c.versions[victim] + 1, false))
  }

  // ---------------------------------------------------------------- runs

  datatype Event = Request(key: Key) | Complete(places: seq<nat>) | Flush

  type Index = map<Key, Coordinate>

  function FlushIo(c: Cache, io: Storage, n: nat): (r: Storage)
    requires Shaped(c) && n <= |c.versions| && |io.fences| == |io.memory| == |c.versions|
    ensures |r.fences| == |r.memory| == |c.versions|
  {
    if n == 0 then io
    else
      var before := FlushIo(c, io, n - 1);
      if c.hasPayload[n - 1] then before.WaitFor(n - 1, c.versions[n - 1]) else before
  }

  function Step(c: Cache, e: Event, index: Index, policy: Policy): (r: Cache)
    requires Shaped(c)
    ensures Shaped(r) && |r.versions| == |c.versions|
  {
    match e
    case Request(key) => if key in index then Fetch(c, key, index[key], policy).0 else c
    case Complete(places) => c.(io := c.io.Drain(places))
    case Flush => c.(io := FlushIo(c, c.io, |c.versions|))
  }

  function Run(k: nat, events: seq<Event>, index: Index, policy: Policy): (c: Cache)
    ensures Shaped(c) && |c.versions| == k
  {
    if events == [] then Init(k)
    else Step(Run(k, events[..|events| - 1], index, policy), events[|events| - 1], index, policy)
  }

  /** The keys requested, oldest first. */
  function History(events: seq<Event>, index: Index): seq<Key> {
    if events == [] then []
    else
      var before := History(events[..|events| - 1], index);
      var e := events[|events| - 1];
      if e.Request? && e.key in index then before + [e.key] else before
  }

  // ---------------------------------------------------------------- bookkeeping that always holds

  function Sum(s: seq<nat>): nat {
    if s == [] then 0 else Sum(s[..|s| - 1]) + s[|s| - 1]
  }

  function Count(s: seq<bool>): nat {
    if s == [] then 0 else Count(s[..|s| - 1]) + if s[|s| - 1] then 1 else 0
  }

  lemma {:induction false} SumUpdate(s: seq<nat>, i: nat, v: nat)
    requires i < |s|
    ensures Sum(s[i := v]) == Sum(s) - s[i] + v
  {
    var n := |s| - 1;
    if i < n {
      SumUpdate(s[..n], i, v);
      assert s[i := v][..n] == s[..n][i := v];
    } else {
      assert s[i := v][..n] == s[..n];
    }
  }

  lemma {:induction false} CountUpdate(s: seq<bool>, i: nat)
    requires i < |s|
    ensures Count(s[i := true]) == Count(s) + if s[i] then 0 else 1
  {
    var n := |s| - 1;
    if i < n {
      CountUpdate(s[..n], i);
      assert s[i := true][..n] == s[..n][i := true];
    } else {
      assert s[i := true][..n] == s[..n];
    }
  }

  lemma {:induction false} SumZeros(k: nat)
    ensures Sum(seq(k, _ => 0)) == 0 && Count(seq(k, _ => false)) == 0
  {
    if k > 0 {
      SumZeros(k - 1);
      assert seq(k, _ => 0)[..k - 1] == seq(k - 1, _ => 0);
      assert seq(k, _ => false)[..k - 1] == seq(k - 1, _ => false);
    }
  }

  /** Slots: used exactly when they carry a tick, a version and a payload; ticks differ. */
  ghost predicate SlotsSound(c: Cache) {
    && Shaped(c)
    && (forall i :: 0 <= i < |c.versions| ==> (c.hasPayload[i] <==> c.versions[i] > 0))
    && (forall i :: 0 <= i < |c.versions| ==> (c.hasPayload[i] <==> c.lastTick[i] > 0))
    && (forall i :: 0 <= i < |c.versions| ==> c.lastTick[i] <= c.tick)
    && (forall i, j :: 0 <= i < j < |c.versions| && c.lastTick[i] == c.lastTick[j] ==> c.lastTick[i] == 0)
    && (forall h :: h in c.resident ==> c.hasPayload[c.resident[h]])
  }

  /** Fences and contents: the storage protocol holds at the versions issued, and each
      slot's byte count is that of the payload it was last given. */
  ghost predicate IoSound(c: Cache) {
    && Shaped(c)
    && Sound(c.io, c.versions)
    && forall i :: 0 <= i < |c.versions| ==>
         c.bytes[i] == if c.io.Content(i).Empty? then 0 else c.io.Content(i).coord.byteSize
  }

  /** Slots, fences and contents: what every run keeps. */
  ghost predicate Sane(c: Cache) {
    SlotsSound(c) && IoSound(c)
  }

  /** Requests that threw: how many, how many of them with an empty victim, and the bytes
      that went off the books though the victims of the others still hold them. */
  datatype Refusals = Refusals(count: nat, empty: nat, bytes: nat)

  const NoRefusals := Refusals(0, 0, 0)

  /** The counters.  Without slots a miss is counted and goes nowhere. */
  ghost predicate Books(c: Cache, r: Refusals) {
    && Shaped(c)
    && c.stats.bytesResident == Sum(c.bytes) - r.bytes
    && c.stats.hits + c.stats.misses == c.tick
    && (|c.versions| > 0 ==> c.stats.misses == Sum(c.versions) + r.count)
    && (|c.versions| > 0 ==> c.stats.misses == c.stats.evictions + Count(c.hasPayload) + r.empty)
    && c.stats.stalls <= c.stats.evictions
    && (c.stats.evictions > 0 ==> forall i :: 0 <= i < |c.hasPayload| ==> c.hasPayload[i])
  }

  /** The invariant of a cache that was never asked for a tensor too large to read. */
  ghost predicate Inv(c: Cache) {
    Sane(c) && Books(c, NoRefusals)
  }

  lemma InitInv(k: nat)
    ensures Inv(Init(k))
  {
    SumZeros(k);
  }

  lemma HitKeeps(c: Cache, key: Key, r: Refusals)
    requires Sane(c) && key in c.resident
    ensures Sane(Hit(c, key)) && (Books(c, r) ==> Books(Hit(c, key), r))
  {
  }

  lemma SettleKeeps(c: Cache, victim: nat)
    requires IoSound(c) && victim < |c.versions|
    requires !c.hasPayload[victim] ==> c.versions[victim] == 0
    ensures IoSound(Settle(c, victim))
    ensures Settle(c, victim).io.OpsOf(victim) == []
    ensures Settle(c, victim).io.fences[victim] == c.versions[victim]
    ensures forall i :: 0 <= i < |c.versions| ==> Settle(c, victim).io.Content(i) == c.io.Content(i)
  {
    assert SlotSound(c.io, victim, c.versions[victim]);
    if c.hasPayload[victim] {
      WaitKeeps(c.io, c.versions, victim);
    }
  }

  /** Before its read is issued, a miss has changed what no slot holds, and the victim is idle. */
  lemma PreparedIo(c: Cache, victim: nat, key: Key, coord: Coordinate, policy: Policy)
    requires Sane(c) && victim < |c.versions|
    ensures var r := Prepared(c, victim, key, coord, policy);
      && IoSound(r) && r.io.OpsOf(victim) == [] && r.io.fences[victim] == c.versions[victim]
      && r.versions == c.versions
      && forall i :: 0 <= i < |c.versions| ==> r.io.Content(i) == c.io.Content(i)
  {
    assert IoSound(Counted(c)) && (!c.hasPayload[victim] ==> c.versions[victim] == 0);
    hide SlotsSound, Storage.WaitFor, Erased;
    SettleKeeps(Counted(c), victim);
  }

  /** A slot is refilled only when nothing is outstanding on it and its fence has reached
      the value it last issued; a request that throws issues nothing. */
  lemma RefillIsSafe(c: Cache, key: Key, coord: Coordinate, policy: Policy)
    requires Sane(c) && key !in c.resident && |c.versions| > 0
    ensures var victim := Oldest(c.lastTick, |c.lastTick|);
      var before, (after, view) := Prepared(c, victim, key, coord, policy), Fetch(c, key, coord, policy);
      && before.io.OpsOf(victim) == [] && before.io.fences[victim] == c.versions[victim]
      && (view == Threw <==> coord.byteSize > UINT32_MAX)
      && after.io.OpsOf(victim)
         == if view == Threw then [] else [Read(victim, key, coord), Signal(victim, c.versions[victim] + 1)]
  {
    var victim := Oldest(c.lastTick, |c.lastTick|);
    hide Sane, Prepared, Select, Oldest;
    PreparedIo(c, victim, key, coord, policy);
    IssuedOps(Prepared(c, victim, key, coord, policy).io, victim, key, coord, c.versions[victim] + 1);
  }

  lemma IssuedOps(io: Storage, victim: nat, key: Key, coord: Coordinate, next: nat)
    requires io.OpsOf(victim) == []
    ensures var ops := [Read(victim, key, coord), Signal(victim, next)];
      io.(queue := io.queue + ops).OpsOf(victim) == ops
  {
    var ops := [Read(victim, key, coord), Signal(victim, next)];
    SelectAppend(io.queue, ops, victim);
    SelectIssue(victim, victim, key, coord, next, Empty);
    assert [] + ops == ops;
  }

  lemma ClaimKeepsIo(c: Cache, victim: nat, key: Key, coord: Coordinate)
    requires IoSound(c) && victim < |c.versions| && c.io.OpsOf(victim) == []
    ensures IoSound(Claim(c, victim, key, coord))
    ensures var r := Claim(c, victim, key, coord);
      && r.io.Content(victim) == Loaded(key, coord)
      && forall i :: 0 <= i < |c.versions| && i != victim ==> r.io.Content(i) == c.io.Content(i)
  {
    IssueKeeps(c.io, c.versions, victim, key, coord);
  }

  lemma PreparedSlots(c: Cache, victim: nat, key: Key, coord: Coordinate, policy: Policy)
    requires SlotsSound(c) && victim < |c.versions|
    ensures var r := Prepared(c, victim, key, coord, policy);
      && SlotsSound(r) && |r.versions| == |c.versions|
      && forall i :: 0 <= i < |c.versions| ==> r.lastTick[i] < r.tick
  {
    hide Storage.WaitFor;
  }

  lemma ClaimSlots(c: Cache, victim: nat, key: Key, coord: Coordinate)
    requires SlotsSound(c) && victim < |c.versions|
    requires forall i :: 0 <= i < |c.versions| ==> c.lastTick[i] < c.tick
    ensures SlotsSound(Claim(c, victim, key, coord))
  {
    var r := Claim(c, victim, key, coord);
    forall i, j | 0 <= i < j < |c.versions| && r.lastTick[i] == r.lastTick[j]
      ensures r.lastTick[i] == 0
    {
      assert i != victim && j != victim && c.lastTick[i] == c.lastTick[j];
    }
  }

  /** A victim is taken from an occupied slot only when every slot is occupied. */
  lemma EmptyFirst(c: Cache)
    requires SlotsSound(c) && |c.versions| > 0
    ensures c.hasPayload[Oldest(c.lastTick, |c.lastTick|)] ==>
      forall i :: 0 <= i < |c.hasPayload| ==> c.hasPayload[i]
  {
    OldestIsLeast(c.lastTick, |c.lastTick|);
  }

  // ---------------------------------------------------------------- requests that throw

  /** A miss on a tensor too large to read. */
  predicate Throws(c: Cache, e: Event, index: Index) {
    && e.Request? && e.key in index && index[e.key].byteSize > UINT32_MAX
    && e.key !in c.resident && |c.versions| > 0
  }

  /** One more refusal, with this victim. */
  function Charged(r: Refusals, c: Cache, victim: nat): Refusals
    requires Shaped(c) && victim < |c.versions|
  {
    Refusals(r.count + 1, r.empty + (if c.hasPayload[victim] then 0 else 1), r.bytes + c.bytes[victim])
  }

  /** The refusals after one more event. */
  function Refused(r: Refusals, c: Cache, e: Event, index: Index): Refusals
    requires Shaped(c)
  {
    if Throws(c, e, index) then Charged(r, c, Oldest(c.lastTick, |c.lastTick|)) else r
  }

  function RunRefusals(k: nat, events: seq<Event>, index: Index, policy: Policy): Refusals {
    if events == [] then NoRefusals
    else
      var before := events[..|events| - 1];
      Refused(RunRefusals(k, before, index, policy), Run(k, before, index, policy), events[|events| - 1], index)
  }

  /** The tensor is in the index, and the storage layer takes a read of its size. */
  predicate Fits(index: Index, h: Key) {
    h in index && index[h].byteSize <= UINT32_MAX
  }

  /** Every tensor requested fits. */
  ghost predicate AllFit(events: seq<Event>, index: Index) {
    forall t :: 0 <= t < |events| ==> FitsEvent(events[t], index)
  }

  predicate FitsEvent(e: Event, index: Index) {
    e.Request? && e.key in index ==> Fits(index, e.key)
  }

  /** Up to the read, a miss keeps all books but two: a request counts that no slot's version
      shows, and the victim's bytes are gone. */
  lemma PreparedBooks(c: Cache, r: Refusals, key: Key, coord: Coordinate, policy: Policy)
    requires SlotsSound(c) && Books(c, r) && |c.versions| > 0
    ensures var victim := Oldest(c.lastTick, |c.lastTick|);
      var p := Prepared(c, victim, key, coord, policy);
      Books(p, Charged(r, p, victim))
  {
    EmptyFirst(c);
    hide SlotsSound, Sum, Count, Oldest, Erased, Storage.WaitFor;
  }

  /** Issuing the read mends both. */
  lemma ClaimBooks(c: Cache, r: Refusals, victim: nat, key: Key, coord: Coordinate)
    requires Shaped(c) && victim < |c.versions| && Books(c, Charged(r, c, victim))
    ensures Books(Claim(c, victim, key, coord), r)
  {
    hide Sum, Count;
    SumUpdate(c.bytes, victim, coord.byteSize);
    SumUpdate(c.versions, victim, c.versions[victim] + 1);
    CountUpdate(c.hasPayload, victim);
  }

  lemma MissKeepsBooks(c: Cache, r: Refusals, key: Key, policy: Policy, index: Index)
    requires SlotsSound(c) && Books(c, r) && key in index && key !in c.resident && |c.versions| > 0
    ensures Books(Fetch(c, key, index[key], policy).0, Refused(r, c, Request(key), index))
  {
    var victim, coord := Oldest(c.lastTick, |c.lastTick|), index[key];
    var p := Prepared(c, victim, key, coord, policy);
    PreparedBooks(c, r, key, coord, policy);
    assert Charged(r, p, victim) == Charged(r, c, victim);
    hide SlotsSound, Books, Oldest, Prepared, Claim, Charged;
    if coord.byteSize <= UINT32_MAX {
      ClaimBooks(p, r, victim, key, coord);
    }
  }

  lemma MissKeepsSane(c: Cache, key: Key, coord: Coordinate, policy: Policy)
    requires Sane(c) && key !in c.resident && |c.versions| > 0
    ensures Sane(Fetch(c, key, coord, policy).0)
  {
    var victim := Oldest(c.lastTick, |c.lastTick|);
    var p := Prepared(c, victim, key, coord, policy);
    PreparedSlots(c, victim, key, coord, policy);
    PreparedIo(c, victim, key, coord, policy);
    hide SlotsSound, IoSound, Oldest, Prepared, Claim, Storage.OpsOf;
    if coord.byteSize <= UINT32_MAX {
      ClaimKeepsIo(p, victim, key, coord);
      ClaimSlots(p, victim, key, coord);
    }
  }

  /** A fetch keeps slots, storage protocol and books, up to its own refusal. */
  lemma FetchKeeps(c: Cache, r: Refusals, key: Key, policy: Policy, index: Index)
    requires Sane(c) && key in index
    ensures Sane(Fetch(c, key, index[key], policy).0)
    ensures Books(c, r) ==> Books(Fetch(c, key, index[key], policy).0, Refused(r, c, Request(key), index))
  {
    if key in c.resident {
      HitKeeps(c, key, r);
    } else if |c.versions| > 0 {
      MissKeepsSane(c, key, index[key], policy);
      if Books(c, r) {
        MissKeepsBooks(c, r, key, policy, index);
      }
    }
  }

  /** A miss on sound books leaves them sound if and only if the storage layer takes the read. */
  lemma BooksSurviveIff(c: Cache, key: Key, policy: Policy, index: Index)
    requires Inv(c) && key in index && key !in c.resident && |c.versions| > 0
    ensures Inv(Fetch(c, key, index[key], policy).0) <==> index[key].byteSize <= 0xFFFF_FFFF
  {
    hide Sane;
    FetchKeeps(c, NoRefusals, key, policy, index);
  }

  // ---------------------------------------------------------------- every run

  /** The storage after waiting for the first n slots. */
  ghost predicate Flushed(c: Cache, io: Storage, n: nat)
    requires Shaped(c) && n <= |c.versions|
  {
    && Sound(io, c.versions)
    && (forall i :: 0 <= i < |c.versions| ==> io.Content(i) == c.io.Content(i))
    && (forall i :: 0 <= i < n ==> io.fences[i] == c.versions[i])
  }

  lemma FlushOne(c: Cache, io: Storage, n: nat)
    requires Sane(c) && n < |c.versions| && Flushed(c, io, n)
    ensures Flushed(c, if c.hasPayload[n] then io.WaitFor(n, c.versions[n]) else io, n + 1)
  {
    hide Storage.Content, Storage.WaitFor;
    FencesBounded(io, c.versions);
    if c.hasPayload[n] {
      WaitKeeps(io, c.versions, n);
      FencesBounded(io.WaitFor(n, c.versions[n]), c.versions);
    }
  }

  lemma {:induction false} FlushKeeps(c: Cache, n: nat)
    requires Sane(c) && n <= |c.versions|
    ensures Flushed(c, FlushIo(c, c.io, n), n)
  {
    hide FlushIo, Flushed, Sound, Storage.WaitFor, Storage.Content;
    if n > 0 {
      FlushKeeps(c, n - 1);
      FlushOne(c, FlushIo(c, c.io, n - 1), n - 1);
      FlushStep(c, n - 1);
    } else {
      NothingFlushed(c);
    }
  }

  lemma FlushStep(c: Cache, n: nat)
    requires Shaped(c) && n < |c.versions|
    ensures var before := FlushIo(c, c.io, n);
      FlushIo(c, c.io, n + 1) == if c.hasPayload[n] then before.WaitFor(n, c.versions[n]) else before
  {
    hide Storage.WaitFor;
  }

  lemma NothingFlushed(c: Cache)
    requires Sane(c)
    ensures Flushed(c, FlushIo(c, c.io, 0), 0)
  {
    hide Storage.Content, SlotsSound;
  }

  lemma FencesBounded(io: Storage, versions: seq<nat>)
    requires Sound(io, versions)
    ensures |io.fences| == |io.memory| == |versions|
    ensures forall i :: 0 <= i < |versions| ==> io.fences[i] <= versions[i]
    ensures forall i :: 0 <= i < |versions| && versions[i] == 0 ==> io.fences[i] == 0
  {
    forall i | 0 <= i < |versions| ensures io.fences[i] <= versions[i] {
      assert SlotSound(io, i, versions[i]);
    }
  }

  /** Only the storage moves: queued operations complete. */
  lemma SameSlots(c: Cache, io: Storage, r: Refusals)
    requires Sane(c) && Sound(io, c.versions)
    requires forall i :: 0 <= i < |c.versions| ==> io.Content(i) == c.io.Content(i)
    ensures Sane(c.(io := io)) && (Books(c, r) ==> Books(c.(io := io), r))
  {
    hide Storage.Content;
  }

  lemma StepKeeps(c: Cache, r: Refusals, e: Event, index: Index, policy: Policy)
    requires Sane(c)
    ensures Sane(Step(c, e, index, policy))
    ensures Books(c, r) ==> Books(Step(c, e, index, policy), Refused(r, c, e, index))
  {
    hide Books, Fetch, FlushIo;
    match e
    case Request(key) =>
      if key in index {
        FetchKeeps(c, r, key, policy, index);
      }
    case Complete(places) =>
      DrainKeeps(c.io, c.versions, places);
      SameSlots(c, c.io.Drain(places), r);
    case Flush =>
      FlushKeeps(c, |c.versions|);
      SameSlots(c, FlushIo(c, c.io, |c.versions|), r);
  }

  /** Every run keeps slots and storage protocol, and the books up to the refusals, whichever
      key a miss erases. */
  lemma {:induction false} RunKeeps(k: nat, events: seq<Event>, index: Index, policy: Policy)
    ensures Sane(Run(k, events, index, policy))
    ensures Books(Run(k, events, index, policy), RunRefusals(k, events, index, policy))
  {
    if events == [] {
      InitInv(k);
    } else {
      var before := events[..|events| - 1];
      RunKeeps(k, before, index, policy);
      hide Sane, Books;
      StepKeeps(Run(k, before, index, policy), RunRefusals(k, before, index, policy), events[|events| - 1],
                index, policy);
    }
  }

  /** A tensor too large to read is never resident. */
  lemma {:induction false} ResidentsFit(k: nat, events: seq<Event>, index: Index, policy: Policy)
    ensures forall h :: h in Run(k, events, index, policy).resident ==> Fits(index, h)
  {
    if events != [] {
      var before := events[..|events| - 1];
      ResidentsFit(k, before, index, policy);
      StepResidents(Run(k, before, index, policy), events[|events| - 1], index, policy);
    }
  }

  lemma StepResidents(c: Cache, e: Event, index: Index, policy: Policy)
    requires Shaped(c) && forall h :: h in c.resident ==> Fits(index, h)
    ensures forall h :: h in Step(c, e, index, policy).resident ==> Fits(index, h)
  {
    hide Storage.WaitFor, Oldest;
  }

  /** Without slots nothing throws; with slots, exactly the requests for tensors that do not fit do. */
  lemma {:induction false} NoRefusalsIff(k: nat, events: seq<Event>, index: Index, policy: Policy)
    requires k > 0
    ensures var r := RunRefusals(k, events, index, policy);
      && (AllFit(events, index) ==> r == NoRefusals)
      && (!AllFit(events, index) ==> r.count > 0)
  {
    if events != [] {
      var before, e := events[..|events| - 1], events[|events| - 1];
      NoRefusalsIff(k, before, index, policy);
      ResidentsFit(k, before, index, policy);
      hide Run, Oldest;
      assert AllFit(events, index) <==> AllFit(before, index) && FitsEvent(e, index) by {
        assert events == before + [e];
      }
    }
  }

  /** The books are sound after a run if and only if no tensor was requested that does not fit. */
  lemma RunBooksIff(k: nat, events: seq<Event>, index: Index, policy: Policy)
    requires k > 0
    ensures Inv(Run(k, events, index, policy)) <==> AllFit(events, index)
  {
    RunKeeps(k, events, index, policy);
    NoRefusalsIff(k, events, index, policy);
    hide Sane, Run, RunRefusals, AllFit;
  }

  /** One empty slot and a tensor of 2^32 bytes: the request throws, is counted as a miss, and
      leaves nothing resident and no version issued. */
  lemma ThrowCounterexample(policy: Policy)
    ensures var coord := Coordinate(0, 0x1_0000_0000, 0, 0);
      var (c, view) := Fetch(Init(1), 1, coord, policy);
      && view == Threw && c.resident == map[] && c.versions == [0] && c.io == Init(1).io
      && c.stats == Stats(0, 1, 0, 0, 0x1_0000_0000, 0) && c.tick == 1
      && !Inv(c)
  {
    hide Inv;
    assert Oldest(Init(1).lastTick, 1) == 0;
    UnsoundBooks(Fetch(Init(1), 1, Coordinate(0, 0x1_0000_0000, 0, 0), policy).0);
  }

  /** A miss that no version shows. */
  lemma UnsoundBooks(c: Cache)
    requires c.versions == [0] && c.stats.misses == 1
    ensures !Inv(c)
  {
    hide Sane, Count;
    assert [0][..0] == [];
    assert Sum([0]) == 0;
  }

  /** A slot that holds a tensor, asked for one of 2^32 bytes: the tensor's bytes are off the
      books, and the slot still counts them.  Asked again, they go off a second time. */
  lemma ThrowLosesBytes(c: Cache, key: Key, coord: Coordinate, policy: Policy)
    requires |c.versions| == 1 && Sane(c) && c.hasPayload[0] && key !in c.resident && coord.byteSize > UINT32_MAX
    ensures var once := Fetch(c, key, coord, policy).0;
      var twice := Fetch(once, key, coord, policy).0;
      && once.bytes == twice.bytes == c.bytes && once.hasPayload == twice.hasPayload == c.hasPayload
      && once.stats.bytesResident == c.stats.bytesResident - c.bytes[0]
      && twice.stats.bytesResident == c.stats.bytesResident - 2 * c.bytes[0]
      && twice.stats.evictions == c.stats.evictions + 2
  {
    hide Storage.WaitFor, IoSound;
  }

  // ---------------------------------------------------------------- what the counters count

  /** A request for a known tensor that is not resident, with slots to load it into. */
  predicate Misses(c: Cache, e: Event, index: Index) {
    e.Request? && e.key in index && e.key !in c.resident && |c.versions| > 0
  }

  /** A miss whose victim still has an operation queued. */
  predicate Stalls(c: Cache, e: Event, index: Index)
    requires Shaped(c)
  {
    Misses(c, e, index) && c.io.OpsOf(Oldest(c.lastTick, |c.lastTick|)) != []
  }

  /** A fence is behind its slot exactly while something is queued for the slot. */
  lemma BehindIff(c: Cache, victim: nat)
    requires Sane(c) && victim < |c.versions|
    ensures c.hasPayload[victim] && c.io.fences[victim] < c.versions[victim] <==> c.io.OpsOf(victim) != []
  {
    assert SlotSound(c.io, victim, c.versions[victim]);
  }

  /** A miss stalls if and only if its victim still has an operation queued; a victim whose work
      is done, or that was never used, costs no wait. */
  lemma StallIff(c: Cache, key: Key, coord: Coordinate, policy: Policy)
    requires Sane(c) && key !in c.resident && |c.versions| > 0
    ensures var victim := Oldest(c.lastTick, |c.lastTick|);
      Fetch(c, key, coord, policy).0.stats.stalls == c.stats.stalls + if c.io.OpsOf(victim) != [] then 1 else 0
  {
    BehindIff(c, Oldest(c.lastTick, |c.lastTick|));
    hide Sane, SlotsSound, IoSound, Oldest, Erased, Storage.WaitFor, Storage.OpsOf;
  }

  datatype Tally = Tally(hits: nat, stalls: nat, streamed: nat)

  /** Requests that hit, misses that stalled, and the bytes of all misses, over a run. */
  function RunTally(k: nat, events: seq<Event>, index: Index, policy: Policy): Tally {
    if events == [] then Tally(0, 0, 0)
    else
      var before, e := events[..|events| - 1], events[|events| - 1];
      Tallied(RunTally(k, before, index, policy), Run(k, before, index, policy), e, index)
  }

  function Tallied(t: Tally, c: Cache, e: Event, index: Index): Tally
    requires Shaped(c)
  {
    Tally(t.hits + (if e.Request? && e.key in index && e.key in c.resident then 1 else 0),
          t.stalls + (if Stalls(c, e, index) then 1 else 0),
          t.streamed + (if Misses(c, e, index) then index[e.key].byteSize else 0))
  }

  ghost predicate Counts(c: Cache, t: Tally) {
    c.stats.hits == t.hits && c.stats.stalls == t.stalls && c.stats.bytesStreamed == t.streamed
  }

  lemma StepCounts(c: Cache, t: Tally, e: Event, index: Index, policy: Policy)
    requires Sane(c) && Counts(c, t)
    ensures Counts(Step(c, e, index, policy), Tallied(t, c, e, index))
  {
    if Misses(c, e, index) {
      StallIff(c, e.key, index[e.key], policy);
    }
    hide Sane, Oldest, Erased, FlushIo, Storage.WaitFor, Storage.OpsOf;
  }

  /** The counters count that, in every run. */
  lemma {:induction false} RunCounts(k: nat, events: seq<Event>, index: Index, policy: Policy)
    ensures Counts(Run(k, events, index, policy), RunTally(k, events, index, policy))
  {
    if events != [] {
      var before, e := events[..|events| - 1], events[|events| - 1];
      RunCounts(k, before, index, policy);
      RunKeeps(k, before, index, policy);
      hide Sane, Books, Counts, Step, Tallied;
      StepCounts(Run(k, before, index, policy), RunTally(k, before, index, policy), e, index, policy);
    }
  }

  /** Nothing is queued for any slot. */
  ghost predicate Idle(c: Cache) {
    forall i: nat :: i < |c.versions| ==> c.io.OpsOf(i) == []
  }

  lemma FlushIdles(c: Cache, index: Index, policy: Policy)
    requires Sane(c)
    ensures Idle(Step(c, Flush, index, policy))
  {
    FlushKeeps(c, |c.versions|);
    var io := FlushIo(c, c.io, |c.versions|);
    forall i: nat | i < |c.versions| ensures io.OpsOf(i) == [] {
      assert SlotSound(io, i, c.versions[i]);
    }
  }

  /** Every request comes at the start or right after a flush. */
  ghost predicate FlushesFirst(events: seq<Event>) {
    forall t :: 0 < t < |events| && events[t].Request? ==> FlushBefore(events, t)
  }

  predicate FlushBefore(events: seq<Event>, t: nat)
    requires 0 < t < |events|
  {
    events[t - 1] == Flush
  }

  ghost predicate IdleBefore(k: nat, events: seq<Event>, t: nat, index: Index, policy: Policy)
    requires t < |events|
  {
    events[t].Request? ==> Idle(Run(k, events[..t], index, policy))
  }

  /** A run in which everything is done before each request never stalls. */
  lemma {:induction false} IdleRunNeverStalls(k: nat, events: seq<Event>, index: Index, policy: Policy)
    requires forall t :: 0 <= t < |events| ==> IdleBefore(k, events, t, index, policy)
    ensures Run(k, events, index, policy).stats.stalls == 0
  {
    if events != [] {
      var n := |events| - 1;
      var before := events[..n];
      forall t | 0 <= t < n ensures IdleBefore(k, before, t, index, policy) {
        assert IdleBefore(k, events, t, index, policy) && before[..t] == events[..t];
      }
      IdleRunNeverStalls(k, before, index, policy);
      assert IdleBefore(k, events, n, index, policy);
      RunCounts(k, before, index, policy);
      RunCounts(k, events, index, policy);
      hide Run, Oldest;
    }
  }

  /** Neither does one that flushes before its requests. */
  lemma FlushedRunNeverStalls(k: nat, events: seq<Event>, index: Index, policy: Policy)
    requires FlushesFirst(events)
    ensures Run(k, events, index, policy).stats.stalls == 0
  {
    forall t | 0 <= t < |events| ensures IdleBefore(k, events, t, index, policy) {
      if events[t].Request? {
        if t > 0 {
          assert FlushBefore(events, t);
        }
        LastRequestIdle(k, events[..t], index, policy);
      }
    }
    IdleRunNeverStalls(k, events, index, policy);
  }

  lemma LastRequestIdle(k: nat, before: seq<Event>, index: Index, policy: Policy)
    ensures before == [] || before[|before| - 1] == Flush ==> Idle(Run(k, before, index, policy))
  {
    if before != [] && before[|before| - 1] == Flush {
      RunKeeps(k, before[..|before| - 1], index, policy);
      FlushIdles(Run(k, before[..|before| - 1], index, policy), index, policy);
    }
  }
}
