/** What the slot cache holds after a run: exactly the most recently requested tensors when
    evicted keys are erased, and only conditionally the right ones as written. */
module StreamResidency {
  import opened Counting
  import opened DirectStorage
  import opened StreamCache

  // ---------------------------------------------------------------- recency

  /** When x was requested last, counting requests from 1; 0 if never. */
  function Last(history: seq<Key>, x: Key): (t: nat)
    ensures t <= |history| && (t > 0 ==> history[t - 1] == x) && (t == 0 <==> x !in history)
  {
    if history == [] then 0
    else if history[|history| - 1] == x then |history|
    else
      var n := |history| - 1;
      assert history == history[..n] + [history[n]];
      Last(history[..n], x)
  }

  lemma LastAppend(history: seq<Key>, key: Key, x: Key)
    ensures Last(history + [key], x) == if x == key then |history| + 1 else Last(history, x)
  {
    assert (history + [key])[..|history|] == history;
  }

  /** The distinct tensors that can be loaded and were requested after the last request of x. */
  function Newer(history: seq<Key>, x: Key, index: Index): set<Key> {
    set g | g in history && Fits(index, g) && Last(history, g) > Last(history, x)
  }

  // ---------------------------------------------------------------- least recently used

  /** x can be loaded and was requested, and fewer than n others that can have been since. */
  predicate IsRecent(history: seq<Key>, x: Key, n: int, index: Index) {
    x in history && Fits(index, x) && |Newer(history, x, index)| < n
  }

  /** h is resident, in a slot that holds (or is about to hold) its own tensor. */
  ghost predicate Seated(c: Cache, h: Key, index: Index)
    requires Shaped(c)
  {
    && h in c.resident && h in index
    && c.io.Content(c.resident[h]) == Loaded(h, index[h])
  }

  ghost predicate Held(c: Cache, i: nat) {
    exists h :: h in c.resident && c.resident[h] == i
  }

  /** v is a slot without a tenant, and none was used longer ago: what a request that throws
      leaves behind.  No such slot if v is -1. */
  ghost predicate Vacant(c: Cache, v: int) {
    && Shaped(c) && -1 <= v < |c.versions|
    && (v >= 0 ==> !Held(c, v) && forall i :: 0 <= i < |c.versions| ==> c.lastTick[v] <= c.lastTick[i])
  }

  /** Slots hold their tensors, and carry the time of their last request. */
  ghost predicate Timed(c: Cache, history: seq<Key>, index: Index)
    requires Shaped(c)
  {
    && (forall h :: h in c.resident ==> Seated(c, h, index) && Fits(index, h))
    && (forall h :: h in c.resident ==> c.lastTick[c.resident[h]] == Last(history, h) > 0)
  }

  /** No absent tensor that can be loaded was requested after a resident one. */
  ghost predicate Ordered(c: Cache, history: seq<Key>, index: Index) {
    forall h, g :: h in c.resident && g !in c.resident && Fits(index, g) ==> Last(history, g) < Last(history, h)
  }

  /** All slots in use but v have a tenant, and while a slot is unused no tensor is absent that
      was requested and can be loaded. */
  ghost predicate Filled(c: Cache, history: seq<Key>, index: Index, v: int)
    requires Shaped(c)
  {
    && (forall i :: 0 <= i < |c.versions| && c.hasPayload[i] && i != v ==> Held(c, i))
    && (forall i, g :: 0 <= i < |c.versions| && !c.hasPayload[i] && g in history && Fits(index, g) ==> g in c.resident)
  }

  /** The residency invariant. */
  ghost predicate Lru(c: Cache, history: seq<Key>, index: Index, v: int) {
    && Shaped(c) && c.tick == |history| && Vacant(c, v)
    && Timed(c, history, index) && Ordered(c, history, index) && Filled(c, history, index, v)
  }

  /** Two tensors never share a slot. */
  lemma SeatsDiffer(c: Cache, history: seq<Key>, index: Index, v: int, h: Key, g: Key)
    requires Lru(c, history, index, v) && h in c.resident && g in c.resident && h != g
    ensures c.resident[h] != c.resident[g]
  {
    assert Seated(c, h, index) && Seated(c, g, index);
  }

  lemma HitKeepsLru(c: Cache, history: seq<Key>, key: Key, index: Index, v: int)
    requires Sane(c) && Lru(c, history, index, v) && key in c.resident
    ensures Lru(Hit(c, key), history + [key], index, v)
  {
    hide Storage.Content, Last, IoSound;
    var c', now := Hit(c, key), history + [key];
    assert Held(c, c.resident[key]);
    forall x ensures Last(now, x) == if x == key then |now| else Last(history, x) {
      LastAppend(history, key, x);
    }
    forall h | h in c'.resident
      ensures Seated(c', h, index) && c'.lastTick[c'.resident[h]] == Last(now, h)
    {
      assert Seated(c, h, index);
      if h != key {
        SeatsDiffer(c, history, index, v, h, key);
      }
    }
    SameHeld(c, c');
  }

  lemma SameHeld(c: Cache, r: Cache)
    requires r.resident == c.resident
    ensures forall i: nat :: Held(r, i) <==> Held(c, i)
  {
  }

  /** What a miss changes at first: the victim slot's tenant is gone. */
  ghost predicate Emptied(c: Cache, r: Cache, victim: nat)
    requires Shaped(c)
  {
    && Shaped(r) && |r.versions| == |c.versions| && victim < |c.versions|
    && r.tick == c.tick + 1
    && (forall h :: h in r.resident <==> h in c.resident && c.resident[h] != victim)
    && (forall h :: h in r.resident ==> r.resident[h] == c.resident[h])
    && r.lastTick == c.lastTick && r.hasPayload == c.hasPayload
    && (forall i :: 0 <= i < |c.versions| ==> r.io.Content(i) == c.io.Content(i))
    && (forall i :: 0 <= i < |c.versions| ==> c.lastTick[victim] <= c.lastTick[i])
  }

  /** And, if the read can be issued, what it changes then: the slot is reclaimed for key. */
  ghost predicate Reclaimed(c: Cache, r: Cache, victim: nat, key: Key, coord: Coordinate)
    requires Shaped(c)
  {
    && Shaped(r) && |r.versions| == |c.versions| && victim < |c.versions| && r.tick == c.tick
    && r.resident == c.resident[key := victim]
    && r.lastTick == c.lastTick[victim := c.tick]
    && r.hasPayload == c.hasPayload[victim := true]
    && r.io.Content(victim) == Loaded(key, coord)
    && (forall i :: 0 <= i < |c.versions| && i != victim ==> r.io.Content(i) == c.io.Content(i))
  }

  lemma MissEmpties(c: Cache, key: Key, coord: Coordinate)
    requires Sane(c) && |c.versions| > 0
    ensures var victim := Oldest(c.lastTick, |c.lastTick|);
      Emptied(c, Prepared(c, victim, key, coord, EraseVictim), victim)
  {
    var victim := Oldest(c.lastTick, |c.lastTick|);
    PreparedIo(c, victim, key, coord, EraseVictim);
    OldestIsLeast(c.lastTick, |c.lastTick|);
    hide Sane, IoSound, Oldest, Storage.Content, Storage.OpsOf, Storage.WaitFor;
  }

  lemma ClaimReclaims(c: Cache, victim: nat, key: Key, coord: Coordinate)
    requires IoSound(c) && victim < |c.versions| && c.io.OpsOf(victim) == []
    ensures Reclaimed(c, Claim(c, victim, key, coord), victim, key, coord)
  {
    ClaimKeepsIo(c, victim, key, coord);
    hide IoSound, Storage.Content, Storage.OpsOf;
  }

  /** What a miss that loads its tensor does to what the slots hold. */
  lemma MissContents(c: Cache, key: Key, coord: Coordinate, policy: Policy)
    requires Sane(c) && key !in c.resident && |c.versions| > 0 && coord.byteSize <= UINT32_MAX
    ensures var r, victim := Fetch(c, key, coord, policy).0, Oldest(c.lastTick, |c.lastTick|);
      && r.versions == c.versions[victim := c.versions[victim] + 1]
      && r.io.Content(victim) == Loaded(key, coord)
      && forall i :: 0 <= i < |c.versions| && i != victim ==> r.io.Content(i) == c.io.Content(i)
  {
    var victim := Oldest(c.lastTick, |c.lastTick|);
    hide Sane, IoSound, Oldest, Prepared, Storage.Content, Storage.OpsOf;
    PreparedIo(c, victim, key, coord, policy);
    ClaimKeepsIo(Prepared(c, victim, key, coord, policy), victim, key, coord);
  }

  /** A request that throws empties the victim slot and changes no content. */
  lemma ThrowKeepsLru(c: Cache, r: Cache, victim: nat, history: seq<Key>, key: Key, index: Index, v: int)
    requires SlotsSound(c) && Lru(c, history, index, v) && key !in c.resident && Emptied(c, r, victim)
    requires !Fits(index, key)
    ensures Lru(r, history + [key], index, victim)
  {
    EmptiedTimed(c, r, victim, history, index, v);
    EmptiedOrdered(c, r, victim, history, index, v);
    EmptiedHolds(c, r, victim, history, index, v);
    assert key !in r.resident && r.tick == |history| + 1;
    hide SlotsSound, Lru, Emptied, Vacant;
    UnloadedAppend(r, victim, history, key, index);
  }

  /** A request for what cannot be loaded changes no other tensor's place in the history. */
  lemma UnloadedAppend(c: Cache, victim: nat, history: seq<Key>, key: Key, index: Index)
    requires Shaped(c) && key !in c.resident && !Fits(index, key)
    requires Timed(c, history, index) && Ordered(c, history, index) && Filled(c, history, index, victim)
    ensures Timed(c, history + [key], index) && Ordered(c, history + [key], index)
    ensures Filled(c, history + [key], index, victim)
  {
    forall x | x != key ensures Last(history + [key], x) == Last(history, x) {
      LastAppend(history, key, x);
    }
    hide Last, Seated, Held;
  }

  lemma EmptiedTimed(c: Cache, r: Cache, victim: nat, history: seq<Key>, index: Index, v: int)
    requires Lru(c, history, index, v) && Emptied(c, r, victim)
    ensures Timed(r, history, index)
  {
    hide Storage.Content, Last, Ordered, Filled, Vacant;
    forall h | h in r.resident ensures Seated(r, h, index) {
      assert Seated(c, h, index);
    }
  }

  /** Whoever is absent once the victim is empty was requested before whoever is resident. */
  lemma EmptiedOrdered(c: Cache, r: Cache, victim: nat, history: seq<Key>, index: Index, v: int)
    requires Lru(c, history, index, v) && Emptied(c, r, victim)
    ensures Ordered(r, history, index)
  {
    hide Storage.Content, Storage.OpsOf, Seated, Filled, Vacant, Last, Held;
    forall h, g | h in r.resident && g !in r.resident && Fits(index, g)
      ensures Last(history, g) < Last(history, h)
    {
      assert h in c.resident;
      if g in c.resident {
        if Last(history, g) == Last(history, h) {
          DifferentTimes(history, g, h);
        }
        assert c.lastTick[victim] == Last(history, g);
        assert c.lastTick[c.resident[h]] == Last(history, h);
      }
    }
  }

  /** Two keys are never last requested at the same time. */
  lemma DifferentTimes(history: seq<Key>, g: Key, h: Key)
    requires Last(history, g) == Last(history, h) > 0
    ensures g == h
  {
  }

  /** Slots in use stay held, all but the victim; with an unused slot nobody has left. */
  lemma EmptiedHolds(c: Cache, r: Cache, victim: nat, history: seq<Key>, index: Index, v: int)
    requires SlotsSound(c) && Lru(c, history, index, v) && Emptied(c, r, victim)
    ensures Vacant(r, victim) && Filled(r, history, index, victim)
  {
    hide Storage.Content, Last, Seated, Timed, Ordered;
    forall i | 0 <= i < |r.versions| && r.hasPayload[i] && i != victim
      ensures Held(r, i)
    {
      assert i != v && Held(c, i);
      var h :| h in c.resident && c.resident[h] == i;
      assert h in r.resident && r.resident[h] == i;
    }
    forall i, g | 0 <= i < |r.versions| && !r.hasPayload[i] && g in history && Fits(index, g)
      ensures g in r.resident
    {
      assert c.lastTick[i] == 0 && c.lastTick[victim] == 0 && !c.hasPayload[victim];
    }
  }

  /** Issuing the read fills the empty slot with the tensor just requested. */
  lemma ReclaimKeepsLru(c: Cache, r: Cache, victim: nat, history: seq<Key>, key: Key, index: Index)
    requires Shaped(c) && c.tick == |history| + 1 && Vacant(c, victim) && key !in c.resident && Fits(index, key)
    requires Timed(c, history, index) && Ordered(c, history, index) && Filled(c, history, index, victim)
    requires Reclaimed(c, r, victim, key, index[key])
    ensures Lru(r, history + [key], index, -1)
  {
    forall x ensures Last(history + [key], x) == if x == key then |history| + 1 else Last(history, x) {
      LastAppend(history, key, x);
    }
    ReclaimedTimed(c, r, victim, history, key, index);
    ReclaimedFilled(c, r, victim, history, key, index);
    hide Last, Seated, Held, Timed, Filled;
  }

  lemma ReclaimedTimed(c: Cache, r: Cache, victim: nat, history: seq<Key>, key: Key, index: Index)
    requires Shaped(c) && c.tick == |history| + 1 && Vacant(c, victim) && Fits(index, key)
    requires Timed(c, history, index) && Reclaimed(c, r, victim, key, index[key])
    ensures Timed(r, history + [key], index)
  {
    hide Storage.Content, Last;
    forall h | h in r.resident
      ensures Seated(r, h, index) && r.lastTick[r.resident[h]] == Last(history + [key], h) > 0
    {
      LastAppend(history, key, h);
      if h != key {
        assert Seated(c, h, index) && Held(c, c.resident[h]);
      }
    }
  }

  lemma ReclaimedFilled(c: Cache, r: Cache, victim: nat, history: seq<Key>, key: Key, index: Index)
    requires Shaped(c) && Vacant(c, victim) && key !in c.resident && key in index
    requires Filled(c, history, index, victim) && Reclaimed(c, r, victim, key, index[key])
    ensures Filled(r, history + [key], index, -1)
  {
    hide Storage.Content;
    forall i | 0 <= i < |r.versions| && r.hasPayload[i] ensures Held(r, i) {
      ReclaimedHeld(c, r, victim, key, index[key], i);
    }
  }

  lemma ReclaimedHeld(p: Cache, r: Cache, victim: nat, key: Key, coord: Coordinate, i: nat)
    requires Shaped(p) && Reclaimed(p, r, victim, key, coord) && Vacant(p, victim) && key !in p.resident
    requires i == victim || Held(p, i)
    ensures Held(r, i)
  {
    if i == victim {
      assert r.resident[key] == i;
    } else {
      var h :| h in p.resident && p.resident[h] == i;
      assert r.resident[h] == i;
    }
  }

  /** A miss reclaims the slot of the tensor requested longest ago, if the read can be issued;
      else that slot is left without a tenant. */
  lemma MissKeepsLru(c: Cache, history: seq<Key>, key: Key, index: Index, v: int)
    requires Sane(c) && Lru(c, history, index, v) && key !in c.resident && key in index && |c.versions| > 0
    ensures Lru(Fetch(c, key, index[key], EraseVictim).0, history + [key], index,
                if Fits(index, key) then -1 else Oldest(c.lastTick, |c.lastTick|))
  {
    var victim, coord := Oldest(c.lastTick, |c.lastTick|), index[key];
    var p := Prepared(c, victim, key, coord, EraseVictim);
    MissEmpties(c, key, coord);
    PreparedIo(c, victim, key, coord, EraseVictim);
    assert c.tick == |history| && p.tick == c.tick + 1 && key !in p.resident;
    hide SlotsSound, IoSound, Lru, Vacant, Timed, Ordered, Filled, Emptied;
    hide Oldest, Prepared, Claim, Storage.OpsOf, Storage.Content;
    if Fits(index, key) {
      ClaimReclaims(p, victim, key, coord);
      EmptiedTimed(c, p, victim, history, index, v);
      EmptiedOrdered(c, p, victim, history, index, v);
      EmptiedHolds(c, p, victim, history, index, v);
      ReclaimKeepsLru(p, Claim(p, victim, key, coord), victim, history, key, index);
    } else {
      ThrowKeepsLru(c, p, victim, history, key, index, v);
    }
  }

  /** The slot without a tenant after a run; -1 if there is none.  A request that throws makes
      the victim one, and the next tensor loaded is loaded there. */
  function VacantSlot(k: nat, events: seq<Event>, index: Index): (v: int)
    ensures -1 <= v < k
  {
    if events == [] then -1
    else
      var before, e := events[..|events| - 1], events[|events| - 1];
      NextVacant(Run(k, before, index, EraseVictim), VacantSlot(k, before, index), e, index)
  }

  function NextVacant(c: Cache, v: int, e: Event, index: Index): (r: int)
    requires Shaped(c) && -1 <= v < |c.versions|
    ensures -1 <= r < |c.versions|
  {
    if !(e.Request? && e.key in index) || e.key in c.resident then v
    else if Fits(index, e.key) then -1
    else Oldest(c.lastTick, |c.lastTick|)
  }

  /** How many tensors can be resident: one less than there are slots from a request that
      throws until the next tensor is loaded. */
  function Seats(k: nat, events: seq<Event>, index: Index): (n: int) {
    if VacantSlot(k, events, index) >= 0 then k - 1 else k
  }

  /** Evicting by least recent use is an invariant of every run. */
  lemma {:induction false} RunIsLru(k: nat, events: seq<Event>, index: Index)
    requires k > 0
    ensures Lru(Run(k, events, index, EraseVictim), History(events, index), index, VacantSlot(k, events, index))
  {
    if events != [] {
      var before, e := events[..|events| - 1], events[|events| - 1];
      RunIsLru(k, before, index);
      RunKeeps(k, before, index, EraseVictim);
      hide Lru, Sane, Books, Step, NextVacant;
      StepKeepsLru(Run(k, before, index, EraseVictim), History(before, index), e, index, VacantSlot(k, before, index));
    }
  }

  lemma StepKeepsLru(c: Cache, history: seq<Key>, e: Event, index: Index, v: int)
    requires Sane(c) && Lru(c, history, index, v) && |c.versions| > 0
    ensures Lru(Step(c, e, index, EraseVictim),
                if e.Request? && e.key in index then history + [e.key] else history, index,
                NextVacant(c, v, e, index))
  {
    hide Fetch, FlushIo, Oldest;
    match e
    case Request(key) =>
      if key in index {
        hide Lru, Sane;
        if key in c.resident {
          HitKeepsLru(c, history, key, index, v);
          FetchHits(c, key, index[key], EraseVictim);
        } else {
          MissKeepsLru(c, history, key, index, v);
        }
      }
    case Complete(places) =>
      DrainKeeps(c.io, c.versions, places);
      SameContents(c, c.io.Drain(places), history, index, v);
    case Flush =>
      FlushKeeps(c, |c.versions|);
      SameContents(c, FlushIo(c, c.io, |c.versions|), history, index, v);
  }

  lemma FetchHits(c: Cache, key: Key, coord: Coordinate, policy: Policy)
    requires Shaped(c) && key in c.resident
    ensures Fetch(c, key, coord, policy).0 == Hit(c, key)
  {
  }

  lemma SameContents(c: Cache, io: Storage, history: seq<Key>, index: Index, v: int)
    requires Lru(c, history, index, v) && |io.fences| == |io.memory| == |c.versions|
    requires forall i :: 0 <= i < |c.versions| ==> io.Content(i) == c.io.Content(i)
    ensures Lru(c.(io := io), history, index, v)
  {
    hide Storage.Content, Last;
    var r := c.(io := io);
    forall h | h in r.resident ensures Seated(r, h, index) {
      assert Seated(c, h, index);
    }
    SameHeld(c, r);
  }

  // ---------------------------------------------------------------- exactly the most recent

  ghost predicate Injective(m: map<Key, nat>) {
    forall h, g :: h in m && g in m && h != g ==> m[h] != m[g]
  }

  ghost predicate Covered(m: map<Key, nat>, i: nat) {
    exists h :: h in m && m[h] == i
  }

  function Low(m: map<Key, nat>, n: nat): set<Key> {
    set h | h in m && m[h] < n
  }

  /** One more slot seats one more tensor, if it has a tenant. */
  lemma LowNext(m: map<Key, nat>, n: nat)
    requires Injective(m)
    ensures |Low(m, n + 1)| == |Low(m, n)| + if Covered(m, n) then 1 else 0
  {
    if Covered(m, n) {
      var h :| h in m && m[h] == n;
      assert Low(m, n + 1) == Low(m, n) + {h};
    } else {
      assert Low(m, n + 1) == Low(m, n);
    }
  }

  /** n slots seat at most n tensors, and exactly n when none is free. */
  lemma {:induction false} SeatCount(m: map<Key, nat>, n: nat)
    requires Injective(m)
    ensures |Low(m, n)| <= n
    ensures (forall i: nat :: i < n ==> Covered(m, i)) ==> |Low(m, n)| == n
  {
    if n == 0 {
      assert Low(m, 0) == {};
    } else {
      hide Low, Covered, Injective;
      SeatCount(m, n - 1);
      LowNext(m, n - 1);
    }
  }

  lemma LruSeats(c: Cache, history: seq<Key>, index: Index, v: int)
    requires Lru(c, history, index, v)
    ensures Injective(c.resident) && Low(c.resident, |c.versions|) == c.resident.Keys
    ensures v >= 0 ==> !Covered(c.resident, v)
    ensures forall i: nat :: i < |c.versions| && c.hasPayload[i] && i != v ==> Covered(c.resident, i)
  {
    forall h, g | h in c.resident && g in c.resident && h != g
      ensures c.resident[h] != c.resident[g]
    {
      SeatsDiffer(c, history, index, v, h, g);
    }
    forall i: nat ensures Held(c, i) <==> Covered(c.resident, i) {
    }
  }

  /** A slot without a tenant leaves one seat less, and a tenant in every other fills the rest. */
  lemma {:induction false} SeatCountBut(m: map<Key, nat>, n: nat, v: nat)
    requires Injective(m) && v < n && !Covered(m, v)
    ensures |Low(m, n)| <= n - 1
    ensures (forall i: nat :: i < n && i != v ==> Covered(m, i)) ==> |Low(m, n)| == n - 1
  {
    hide Low, Covered, Injective;
    LowNext(m, n - 1);
    if v == n - 1 {
      SeatCount(m, n - 1);
    } else {
      SeatCountBut(m, n - 1, v);
    }
  }

  /** As many tensors are resident as there are seats, unless a slot was never used. */
  lemma ResidentCount(c: Cache, history: seq<Key>, index: Index, v: int)
    requires Lru(c, history, index, v)
    ensures var n := if v >= 0 then |c.versions| - 1 else |c.versions|;
      && |c.resident.Keys| <= n
      && ((forall i :: 0 <= i < |c.versions| ==> c.hasPayload[i]) ==> |c.resident.Keys| == n)
  {
    LruSeats(c, history, index, v);
    hide Lru, Low, Covered;
    if v >= 0 {
      SeatCountBut(c.resident, |c.versions|, v);
    } else {
      SeatCount(c.resident, |c.versions|);
    }
  }

  /** Residency by stack distance, for any state the invariant describes. */
  lemma SeatedIffRecent(c: Cache, history: seq<Key>, index: Index, v: int, h: Key)
    requires Lru(c, history, index, v)
    ensures h in c.resident <==>
      IsRecent(history, h, if v >= 0 then |c.versions| - 1 else |c.versions|, index)
  {
    ResidentCount(c, history, index, v);
    var all, newer := c.resident.Keys, Newer(history, h, index);
    hide Seated, Held;
    if h in c.resident {
      assert newer <= all - {h};
      SubsetSize(newer, all - {h});
    } else if h in history && Fits(index, h) {
      forall g | g in all ensures g in newer {
        assert Last(history, h) < Last(history, g);
      }
      SubsetSize(all, newer);
    }
  }

  /** A tensor is resident exactly when it can be loaded, was requested, and fewer others have
      been requested since than there are seats: the slots hold the most recent tensors, after
      requests that threw as well. */
  lemma ResidentIffRecent(k: nat, events: seq<Event>, index: Index, h: Key)
    requires k > 0
    ensures h in Run(k, events, index, EraseVictim).resident
      <==> IsRecent(History(events, index), h, Seats(k, events, index), index)
  {
    RunIsLru(k, events, index);
    SeatedIffRecent(Run(k, events, index, EraseVictim), History(events, index), index, VacantSlot(k, events, index), h);
  }

  /** All k slots count unless some tensor requested was too large to read. */
  lemma {:induction false} AllSeats(k: nat, events: seq<Event>, index: Index)
    requires AllFit(events, index)
    ensures Seats(k, events, index) == k
  {
    if events != [] {
      var before, e := events[..|events| - 1], events[|events| - 1];
      assert events == before + [e] && FitsEvent(e, index);
      assert AllFit(before, index);
      AllSeats(k, before, index);
    }
  }

  /** So without such requests the cache holds the k most recent tensors. */
  lemma ResidentIffAmongLast(k: nat, events: seq<Event>, index: Index, h: Key)
    requires k > 0 && AllFit(events, index)
    ensures h in Run(k, events, index, EraseVictim).resident <==>
      h in History(events, index) && |Later(History(events, index), h)| < k
  {
    var history := History(events, index);
    ResidentIffRecent(k, events, index, h);
    AllSeats(k, events, index);
    HistoryFits(events, index);
    assert Later(history, h) == Newer(history, h, index);
  }

  /** The distinct keys requested after the last request of x. */
  function Later(history: seq<Key>, x: Key): set<Key> {
    set g | g in history && Last(history, g) > Last(history, x)
  }

  lemma {:induction false} HistoryFits(events: seq<Event>, index: Index)
    requires AllFit(events, index)
    ensures forall h :: h in History(events, index) ==> Fits(index, h)
  {
    if events != [] {
      var before, e := events[..|events| - 1], events[|events| - 1];
      assert events == before + [e] && FitsEvent(e, index);
      assert AllFit(before, index);
      HistoryFits(before, index);
    }
  }

  /** A requested tensor is resident right after its request if and only if it can be loaded. */
  lemma RequestSeatsIff(k: nat, events: seq<Event>, index: Index, h: Key)
    requires k > 0 && h in index
    ensures h in Run(k, events + [Request(h)], index, EraseVictim).resident <==> index[h].byteSize <= 0xFFFF_FFFF
  {
    var c := Run(k, events, index, EraseVictim);
    assert (events + [Request(h)])[..|events|] == events;
    ResidentsFit(k, events, index, EraseVictim);
    hide Run, Oldest, Storage.WaitFor;
  }

  /** A request that hits with k slots also hits with more, in every run. */
  lemma MoreSlotsMoreHits(k: nat, m: nat, events: seq<Event>, index: Index, h: Key)
    requires 0 < k <= m
    ensures h in Run(k, events, index, EraseVictim).resident ==> h in Run(m, events, index, EraseVictim).resident
  {
    ResidentIffRecent(k, events, index, h);
    ResidentIffRecent(m, events, index, h);
  }

  // ---------------------------------------------------------------- the tensor behind a view

  /** While a slot's version stays, so does what it will hold; versions only grow. */
  lemma StepKeepsSlot(c: Cache, e: Event, index: Index, policy: Policy, i: nat)
    requires Sane(c) && i < |c.versions|
    ensures var r := Step(c, e, index, policy);
      && r.versions[i] >= c.versions[i]
      && (r.versions[i] == c.versions[i] ==> r.io.Content(i) == c.io.Content(i))
  {
    hide FlushIo, Storage.Content, Storage.OpsOf;
    match e
    case Request(key) =>
      if key in index {
        FetchKeepsSlot(c, key, index[key], policy, i);
      }
    case Complete(places) =>
      DrainKeeps(c.io, c.versions, places);
    case Flush =>
      FlushKeeps(c, |c.versions|);
  }

  lemma FetchKeepsSlot(c: Cache, key: Key, coord: Coordinate, policy: Policy, i: nat)
    requires Sane(c) && i < |c.versions|
    ensures var r := Fetch(c, key, coord, policy).0;
      && r.versions[i] >= c.versions[i]
      && (r.versions[i] == c.versions[i] ==> r.io.Content(i) == c.io.Content(i))
  {
    if key !in c.resident {
      hide Sane, Oldest, Prepared, Storage.Content, Storage.OpsOf;
      if coord.byteSize <= UINT32_MAX {
        MissContents(c, key, coord, policy);
      } else {
        PreparedIo(c, Oldest(c.lastTick, |c.lastTick|), key, coord, policy);
      }
    }
  }

  lemma {:induction false} LaterKeepsSlot(k: nat, events: seq<Event>, later: seq<Event>, index: Index,
                                         policy: Policy, i: nat)
    requires i < k
    ensures var c, r := Run(k, events, index, policy), Run(k, events + later, index, policy);
      && r.versions[i] >= c.versions[i]
      && (r.versions[i] == c.versions[i] ==> r.io.Content(i) == c.io.Content(i))
  {
    if later == [] {
      assert events + later == events;
    } else {
      var n := |later| - 1;
      LaterKeepsSlot(k, events, later[..n], index, policy, i);
      assert (events + later)[..|events + later| - 1] == events + later[..n];
      RunKeeps(k, events + later[..n], index, policy);
      assert Run(k, events + later, index, policy) == Step(Run(k, events + later[..n], index, policy), later[n], index,
                                                           policy);
      hide Run, Sane, Books, Step, Storage.Content;
      StepKeepsSlot(Run(k, events + later[..n], index, policy), later[n], index, policy, i);
    }
  }

  /** The promise of a view.  A request for a tensor that can be loaded names a slot and a fence
      value; at any later time, if the slot has not been reissued and its fence has reached the
      value, its memory is the requested tensor.  Every other request throws. */
  lemma ViewDelivers(k: nat, events: seq<Event>, key: Key, later: seq<Event>, index: Index)
    requires k > 0 && key in index
    ensures var view := Fetch(Run(k, events, index, EraseVictim), key, index[key], EraseVictim).1;
      var now := Run(k, events + [Request(key)] + later, index, EraseVictim);
      && (view == Threw <==> index[key].byteSize > UINT32_MAX)
      && (view == Threw || (view.View? && view.slot < k))
      && (view.View? ==> Delivered(now, view, key, index))
  {
    var before, after := Run(k, events, index, EraseVictim), Run(k, events + [Request(key)], index, EraseVictim);
    var now := Run(k, events + [Request(key)] + later, index, EraseVictim);
    assert (events + [Request(key)])[..|events|] == events;
    RunIsLru(k, events, index);
    RunKeeps(k, events, index, EraseVictim);
    FetchSeats(before, History(events, index), key, index, VacantSlot(k, events, index));
    RunKeeps(k, events + [Request(key)] + later, index, EraseVictim);
    var view := Fetch(before, key, index[key], EraseVictim).1;
    if view.View? {
      LaterKeepsSlot(k, events + [Request(key)], later, index, EraseVictim, view.slot);
      hide Run, Fetch, Lru;
      if now.versions[view.slot] == view.fenceValue && now.io.fences[view.slot] >= view.fenceValue {
        ReadyMeansLoaded(now.io, now.versions, view.slot);
      }
    }
  }

  /** If the view's slot was not reissued and its fence has reached the value, its memory is
      the tensor. */
  ghost predicate Delivered(now: Cache, view: View, key: Key, index: Index)
    requires Shaped(now) && view.View? && view.slot < |now.versions| && key in index
  {
    now.versions[view.slot] == view.fenceValue <= now.io.fences[view.slot] ==>
      now.io.memory[view.slot] == Loaded(key, index[key])
  }

  /** The view of a request: the slot's version is the fence value, and the slot holds or
      is about to hold the tensor. */
  lemma FetchSeats(c: Cache, history: seq<Key>, key: Key, index: Index, v: int)
    requires Sane(c) && Lru(c, history, index, v) && |c.versions| > 0 && key in index
    ensures var (r, view) := Fetch(c, key, index[key], EraseVictim);
      && (view == Threw <==> !Fits(index, key))
      && (view == Threw || (view.View? && view.slot < |c.versions| && view.fenceValue == r.versions[view.slot]
            && (view.isHit <==> key in c.resident) && r.io.Content(view.slot) == Loaded(key, index[key])))
  {
    hide Oldest, Prepared, Storage.Content;
    if key in c.resident {
      assert Seated(c, key, index);
    } else if Fits(index, key) {
      MissContents(c, key, index[key], EraseVictim);
    }
  }

  // ---------------------------------------------------------------- as written

  /** Every resident tensor is in the slot the cache names for it. */
  ghost predicate Agrees(c: Cache, index: Index) {
    Shaped(c) && forall h :: h in c.resident ==> Seated(c, h, index)
  }

  /** The tensors requested that can be loaded. */
  function Keys(history: seq<Key>, index: Index): set<Key> {
    set h | h in history && Fits(index, h)
  }

  /** As written, no key ever leaves the map: residents are all tensors ever loaded, each
      loaded once. */
  ghost predicate NeverForgets(c: Cache, history: seq<Key>, index: Index) {
    && Shaped(c)
    && c.resident.Keys == Keys(history, index)
    && Sum(c.versions) == |Keys(history, index)|
  }

  lemma StepNeverForgets(c: Cache, history: seq<Key>, key: Key, index: Index)
    requires NeverForgets(c, history, index) && |c.versions| > 0 && key in index
    ensures NeverForgets(Fetch(c, key, index[key], AsWritten).0, history + [key], index)
  {
    KeysAppend(history, key, index);
    hide Fetch, Keys, Sum, Oldest;
    if key in c.resident {
      FetchHits(c, key, index[key], AsWritten);
      assert key in Keys(history, index);
    } else {
      MissRemembers(c, key, index);
    }
  }

  lemma KeysAppend(history: seq<Key>, key: Key, index: Index)
    ensures Keys(history + [key], index) == Keys(history, index) + if Fits(index, key) then {key} else {}
  {
  }

  lemma MissRemembers(c: Cache, key: Key, index: Index)
    requires Shaped(c) && key !in c.resident && |c.versions| > 0 && key in index
    ensures var r := Fetch(c, key, index[key], AsWritten).0;
      if Fits(index, key) then r.resident.Keys == c.resident.Keys + {key} && Sum(r.versions) == Sum(c.versions) + 1
      else r.resident == c.resident && r.versions == c.versions
  {
    var victim := Oldest(c.lastTick, |c.lastTick|);
    SumUpdate(c.versions, victim, c.versions[victim] + 1);
    hide Storage.WaitFor, Oldest, Sum;
    assert c.resident - {key} == c.resident;
  }

  lemma {:induction false} RunNeverForgets(k: nat, events: seq<Event>, index: Index)
    requires k > 0
    ensures NeverForgets(Run(k, events, index, AsWritten), History(events, index), index)
  {
    if events == [] {
      SumZeros(k);
    } else {
      var before, e := events[..|events| - 1], events[|events| - 1];
      RunNeverForgets(k, before, index);
      hide Fetch, FlushIo;
      if e.Request? && e.key in index {
        StepNeverForgets(Run(k, before, index, AsWritten), History(before, index), e.key, index);
      }
    }
  }

  /** While there are no more distinct tensors than slots nothing is evicted, and the cache agrees. */
  lemma {:induction false} AgreesWithoutEviction(k: nat, events: seq<Event>, index: Index)
    requires k > 0 && |Keys(History(events, index), index)| <= k
    ensures Agrees(Run(k, events, index, AsWritten), index)
  {
    if events != [] {
      var before, e := events[..|events| - 1], events[|events| - 1];
      var history := History(before, index);
      assert Keys(history, index) <= Keys(History(events, index), index);
      SubsetSize(Keys(history, index), Keys(History(events, index), index));
      AgreesWithoutEviction(k, before, index);
      RunKeeps(k, before, index, AsWritten);
      RunNeverForgets(k, before, index);
      hide Agrees, NeverForgets, Sane, Books, Step, Keys;
      StepAgrees(Run(k, before, index, AsWritten), history, e, index);
    }
  }

  lemma StepAgrees(c: Cache, history: seq<Key>, e: Event, index: Index)
    requires Sane(c) && NeverForgets(c, history, index) && Agrees(c, index) && |c.versions| > 0
    requires e.Request? && e.key in index ==> |Keys(history + [e.key], index)| <= |c.versions|
    ensures Agrees(Step(c, e, index, AsWritten), index)
  {
    hide Fetch, FlushIo, Storage.Content;
    match e
    case Request(key) =>
      if key in index {
        FetchAgrees(c, history, key, index);
      }
    case Complete(places) =>
      DrainKeeps(c.io, c.versions, places);
      SameAgrees(c, Step(c, e, index, AsWritten), index);
    case Flush =>
      FlushKeeps(c, |c.versions|);
      SameAgrees(c, Step(c, e, index, AsWritten), index);
  }

  lemma SameAgrees(c: Cache, r: Cache, index: Index)
    requires Agrees(c, index) && Shaped(r) && r.resident == c.resident && |r.versions| == |c.versions|
    requires forall i :: 0 <= i < |c.versions| ==> r.io.Content(i) == c.io.Content(i)
    ensures Agrees(r, index)
  {
    forall h | h in r.resident ensures Seated(r, h, index) {
      assert Seated(c, h, index);
    }
  }

  lemma RoomLeft(c: Cache, history: seq<Key>, key: Key, index: Index)
    requires NeverForgets(c, history, index) && key !in c.resident && Fits(index, key)
    requires |Keys(history + [key], index)| <= |c.versions|
    ensures Sum(c.versions) < |c.versions|
  {
    KeysAppend(history, key, index);
  }

  lemma FetchAgrees(c: Cache, history: seq<Key>, key: Key, index: Index)
    requires Sane(c) && NeverForgets(c, history, index) && Agrees(c, index) && |c.versions| > 0 && key in index
    requires |Keys(history + [key], index)| <= |c.versions|
    ensures Agrees(Fetch(c, key, index[key], AsWritten).0, index)
  {
    var victim, coord := Oldest(c.lastTick, |c.lastTick|), index[key];
    hide SlotsSound, IoSound, NeverForgets, Keys, Agrees, Oldest, Prepared, Claim, Storage.Content, Storage.OpsOf;
    if key in c.resident {
      SameAgrees(c, Hit(c, key), index);
    } else if Fits(index, key) {
      RoomLeft(c, history, key, index);
      FreeSlot(c);
      MissAgrees(c, key, index);
    } else {
      PreparedIo(c, victim, key, coord, AsWritten);
      MissRemembers(c, key, index);
      SameAgrees(c, Prepared(c, victim, key, coord, AsWritten), index);
    }
  }

  lemma {:induction false} CountAll(s: seq<bool>)
    ensures Count(s) <= |s|
    ensures Count(s) == |s| <==> forall i :: 0 <= i < |s| ==> s[i]
  {
    if s != [] {
      CountAll(s[..|s| - 1]);
    }
  }

  /** A slot in use has been issued at least one version. */
  lemma {:induction false} CountAtMostSum(s: seq<bool>, versions: seq<nat>)
    requires |s| == |versions| && forall i :: 0 <= i < |s| && s[i] ==> versions[i] > 0
    ensures Count(s) <= Sum(versions)
  {
    if s != [] {
      CountAtMostSum(s[..|s| - 1], versions[..|s| - 1]);
    }
  }

  /** Fewer loads than slots leave a slot free, and it is the victim. */
  lemma FreeSlot(c: Cache)
    requires SlotsSound(c) && Sum(c.versions) < |c.versions|
    ensures !c.hasPayload[Oldest(c.lastTick, |c.lastTick|)]
  {
    CountAtMostSum(c.hasPayload, c.versions);
    CountAll(c.hasPayload);
    EmptyFirst(c);
  }

  lemma MissAgrees(c: Cache, key: Key, index: Index)
    requires Sane(c) && Agrees(c, index) && |c.versions| > 0
    requires Fits(index, key) && key !in c.resident && !c.hasPayload[Oldest(c.lastTick, |c.lastTick|)]
    ensures Agrees(Fetch(c, key, index[key], AsWritten).0, index)
  {
    var victim := Oldest(c.lastTick, |c.lastTick|);
    var r := Fetch(c, key, index[key], AsWritten).0;
    MissContents(c, key, index[key], AsWritten);
    hide Storage.Content, Storage.WaitFor, IoSound, Oldest;
    forall h | h in r.resident ensures Seated(r, h, index) {
      if h != key {
        assert Seated(c, h, index) && c.resident[h] != victim;
      }
    }
  }

  /** As written, the cache is right about its residents at the end of a run if and only if
      no more distinct tensors were loaded than there are slots. */
  lemma AsWrittenAgreesIff(k: nat, events: seq<Event>, index: Index)
    requires k > 0
    ensures Agrees(Run(k, events, index, AsWritten), index) <==> |Keys(History(events, index), index)| <= k
  {
    var c := Run(k, events, index, AsWritten);
    RunNeverForgets(k, events, index);
    if |Keys(History(events, index), index)| <= k {
      AgreesWithoutEviction(k, events, index);
    } else if Agrees(c, index) {
      hide Run;
      forall h, g | h in c.resident && g in c.resident && h != g
        ensures c.resident[h] != c.resident[g]
      {
        assert Seated(c, h, index) && Seated(c, g, index);
      }
      SeatsAtMost(c.resident, k);
    }
  }

  lemma SeatsAtMost(m: map<Key, nat>, n: nat)
    requires Injective(m) && forall h :: h in m ==> m[h] < n
    ensures |m.Keys| <= n
  {
    SeatCount(m, n);
    assert Low(m, n) == m.Keys;
  }

  /** One slot, after a first request for tensor 1. */
  function AfterFirst(a: Coordinate): Cache {
    Cache([1], [true], [a.byteSize], [1], map[1 := 0], 1, Stats(0, 1, 0, 0, a.byteSize, a.byteSize),
          Storage([Read(0, 1, a), Signal(0, 1)], [0], [Empty]))
  }

  /** Then one for tensor 2: the map still lists tensor 1. */
  function AfterSecond(a: Coordinate, b: Coordinate): Cache {
    Cache([2], [true], [b.byteSize], [2], map[1 := 0, 2 := 0], 2,
          Stats(0, 2, 1, 1, a.byteSize + b.byteSize, b.byteSize),
          Storage([Read(0, 2, b), Signal(0, 2)], [1], [Loaded(1, a)]))
  }

  lemma FirstRequest(a: Coordinate)
    requires a.byteSize <= UINT32_MAX
    ensures Fetch(Init(1), 1, a, AsWritten).0 == AfterFirst(a)
  {
    assert Oldest(Init(1).lastTick, 1) == 0;
  }

  lemma SecondRequest(a: Coordinate, b: Coordinate)
    requires b.byteSize <= UINT32_MAX
    ensures Fetch(AfterFirst(a), 2, b, AsWritten).0 == AfterSecond(a, b)
  {
    var c := AfterFirst(a);
    assert Oldest(c.lastTick, 1) == 0;
    DrainsBoth(1, a, 1, [0], [Empty]);
  }

  lemma DrainsBoth(key: Key, coord: Coordinate, version: nat, fences: seq<nat>, memory: seq<Payload>)
    requires |fences| == |memory| == 1 && fences[0] < version
    ensures Storage([Read(0, key, coord), Signal(0, version)], fences, memory).WaitFor(0, version)
         == Storage([], [version], [Loaded(key, coord)])
  {
    var s := Storage([Read(0, key, coord), Signal(0, version)], fences, memory);
    assert s.DrainOne() == Storage([Signal(0, version)], fences, [Loaded(key, coord)]);
    assert s.DrainOne().DrainOne() == Storage([], [version], [Loaded(key, coord)]);
    assert s.DrainOne().WaitFor(0, version) == s.DrainOne().DrainOne().WaitFor(0, version);
  }

  /** One slot, two tensors: asked for the first again, the code as written reports a hit on
      a slot that holds the second. */
  lemma AsWrittenCounterexample(a: Coordinate, b: Coordinate)
    requires a.byteSize <= UINT32_MAX && b.byteSize <= UINT32_MAX
    ensures var index: Index := map[1 := a, 2 := b];
      var c := Run(1, [Request(1), Request(2), Flush], index, AsWritten);
      && Fetch(c, 1, a, AsWritten).1 == View(0, 2, true)
      && c.io.memory == [Loaded(2, b)]
  {
    var index: Index := map[1 := a, 2 := b];
    var events := [Request(1), Request(2), Flush];
    assert events[..2] == [Request(1), Request(2)] && events[..2][..1] == [Request(1)] && events[..2][..1][..0] == [];
    FirstRequest(a);
    SecondRequest(a, b);
    hide Fetch, FlushIo, Storage.WaitFor;
    assert Run(1, events[..2][..1], index, AsWritten) == AfterFirst(a);
    assert Run(1, events[..2], index, AsWritten) == AfterSecond(a, b);
    FlushSecond(a, b);
    ThirdRequest(a, b);
  }

  function AfterFlush(a: Coordinate, b: Coordinate): Cache {
    AfterSecond(a, b).(io := Storage([], [2], [Loaded(2, b)]))
  }

  lemma FlushSecond(a: Coordinate, b: Coordinate)
    ensures Step(AfterSecond(a, b), Flush, map[], AsWritten) == AfterFlush(a, b)
  {
    var c := AfterSecond(a, b);
    DrainsBoth(2, b, 2, [1], [Loaded(1, a)]);
    assert FlushIo(c, c.io, 0) == c.io;
  }

  lemma ThirdRequest(a: Coordinate, b: Coordinate)
    ensures Fetch(AfterFlush(a, b), 1, a, AsWritten).1 == View(0, 2, true)
  {
  }
}
