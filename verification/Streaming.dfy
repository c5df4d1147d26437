/** `StreamingMoE` of src/dxstream/dxstream.cpp: the cache object whose state machine is
    `StreamCache` and whose residency is proved in `StreamResidency`. */
module Streaming {
  import opened DirectStorage
  import opened LittleEndian
  import opened StreamCache
  import opened StreamResidency

  const UINT64_MAX := 0xFFFF_FFFF_FFFF_FFFF

  class StreamingMoE {
    const policy: Policy
    /** The hash a tag is looked up by, and the coordinates the index has for hashes. */
    const hash: Name -> Key
    const index: Index
    const slotCount: nat

    var versions: seq<nat>
    var hasPayload: seq<bool>
    var residentBytes: seq<nat>
    var lastTick: seq<nat>
    var resident: map<Key, nat>
    var tick: nat
    var stats: Stats
    /** Queue, fences and slot memory; operations complete in `Progress`. */
    var io: Storage
    /** Everything that has happened to the cache. */
    ghost var trace: seq<Event>

    function State(): Cache
      reads this
    {
      Cache(versions, hasPayload, residentBytes, lastTick, resident, tick, stats, io)
    }

    ghost predicate Valid()
      reads this
    {
      |versions| == slotCount && Sane(State()) && State() == Run(slotCount, trace, index, policy)
    }

    /** The books are those of the trace: sound up to its refusals, and as they should be if and
        only if every tensor asked for could be read. */
    lemma BooksAre()
      requires Valid() && slotCount > 0
      ensures Books(State(), RunRefusals(slotCount, trace, index, policy))
      ensures Inv(State()) <==> AllFit(trace, index)
    {
      RunKeeps(slotCount, trace, index, policy);
      RunBooksIff(slotCount, trace, index, policy);
    }

    /** Hits, stalls and bytes streamed are those of the trace. */
    lemma StatsAre()
      requires Valid()
      ensures Counts(State(), RunTally(slotCount, trace, index, policy))
    {
      RunCounts(slotCount, trace, index, policy);
    }

    /** One more event of the trace. */
    lemma RunExtends(before: seq<Event>, e: Event)
      ensures Run(slotCount, before + [e], index, policy)
           == Step(Run(slotCount, before, index, policy), e, index, policy)
    {
      assert (before + [e])[..|before|] == before;
    }

    /** The promise of every view given out so far: if its slot was not reissued and its fence
        has reached the value, the slot's memory is the tensor.  A request that gave none threw. */
    lemma ViewsDelivered(t: nat, tag: Name)
      requires Valid() && policy == EraseVictim && slotCount > 0
      requires t < |trace| && trace[t] == Request(hash(tag)) && hash(tag) in index
      ensures var key := hash(tag);
        var view := StreamCache.Fetch(Run(slotCount, trace[..t], index, policy), key, index[key], policy).1;
        && (view == Threw <==> index[key].byteSize > UINT32_MAX)
        && (view == Threw || (view.View? && view.slot < slotCount))
        && (view.View? ==> Delivered(State(), view, key, index))
    {
      hide Run, StreamCache.Fetch, Sane, Delivered;
      ViewDelivers(slotCount, trace[..t], hash(tag), trace[t + 1..], index);
      assert trace == trace[..t] + [trace[t]] + trace[t + 1..];
    }

    static lemma RunStarts(k: nat, index: Index, policy: Policy)
      ensures Run(k, [], index, policy) == Init(k) && Sane(Init(k))
    {
      InitInv(k);
    }

    constructor (hash: Name -> Key, index: Index, slotCount: nat, policy: Policy)
      ensures Valid() && State() == Init(slotCount) && trace == []
      ensures this.hash == hash && this.index == index && this.policy == policy && this.slotCount == slotCount
    {
      this.hash, this.index, this.slotCount, this.policy := hash, index, slotCount, policy;
      versions := seq(slotCount, _ => 0);
      hasPayload := seq(slotCount, _ => false);
      residentBytes := seq(slotCount, _ => 0);
      lastTick := seq(slotCount, _ => 0);
      resident, tick, stats := map[], 0, Stats(0, 0, 0, 0, 0, 0);
      io := Storage([], seq(slotCount, _ => 0), seq(slotCount, _ => Empty));
      trace := [];
      new;
      hide Sane, Books, Run;
      RunStarts(slotCount, index, policy);
    }

    /** The storage layer completes queued operations, reads in any order. */
    method Progress(places: seq<nat>)
      requires Valid()
      modifies this`io, this`trace
      ensures Valid() && State() == Step(old(State()), Complete(places), index, policy)
      ensures trace == old(trace) + [Complete(places)]
    {
      RunExtends(trace, Complete(places));
      StepKeeps(State(), NoRefusals, Complete(places), index, policy);
      hide Run, Sane, Books, Storage.Finish;
      io := io.Drain(places);
      trace := trace + [Complete(places)];
    }

    /** One fetch, as the state machine has it: a tag the index does not know changes
        nothing, a tensor too large to read makes it throw; the clock counter stays below its
        64-bit end. */
    method Fetch(tag: Name) returns (view: View)
      requires Valid() && tick < UINT64_MAX
      modifies this
      ensures Valid() && trace == old(trace) + [Request(hash(tag))]
      ensures State() == Step(old(State()), Request(hash(tag)), index, policy)
      ensures policy == EraseVictim && slotCount > 0 && hash(tag) in index ==>
        && (view == Threw <==> index[hash(tag)].byteSize > UINT32_MAX)
        && (view == Threw || view.View?)
        && (view.View? ==> (view.isHit <==> WasRecent(old(trace), hash(tag))))
      ensures stats.stalls == old(stats.stalls) + if Stalls(old(State()), Request(hash(tag)), index) then 1 else 0
      ensures view == if hash(tag) in index
                      then StreamCache.Fetch(old(State()), hash(tag), index[hash(tag)], policy).1 else NoSlot
    {
      var key := hash(tag);
      ghost var request := Request(key);
      RunExtends(trace, request);
      hide Run, Sane, StreamCache.Fetch;
      if key !in index {
        trace := trace + [request];
        return NoSlot;
      }
      IsHitIff(key);
      StepStalls(State(), key, index, policy);
      view := FetchKnown(key);
      trace := trace + [request];
    }

    static lemma StepStalls(c: Cache, key: Key, index: Index, policy: Policy)
      requires Sane(c) && key in index
      ensures StreamCache.Fetch(c, key, index[key], policy).0.stats.stalls
           == c.stats.stalls + if Stalls(c, Request(key), index) then 1 else 0
    {
      if Misses(c, Request(key), index) {
        StallIff(c, key, index[key], policy);
      } else {
        hide Sane, Oldest;
      }
    }

    /** The key is among the tensors requested most recently, as many as there are seats. */
    ghost predicate WasRecent(events: seq<Event>, key: Key) {
      IsRecent(History(events, index), key, Seats(slotCount, events, index), index)
    }

    lemma IsHitIff(key: Key)
      requires Valid() && key in index
      ensures policy == EraseVictim && slotCount > 0 ==>
        var view := StreamCache.Fetch(State(), key, index[key], policy).1;
        && (view == Threw <==> index[key].byteSize > UINT32_MAX)
        && (view == Threw || view.View?)
        && (view.View? ==> (view.isHit <==> WasRecent(trace, key)))
    {
      if policy == EraseVictim && slotCount > 0 {
        ResidentIffRecent(slotCount, trace, index, key);
        ResidentsFit(slotCount, trace, index, policy);
        hide Run, IsRecent, Sane, Oldest, Prepared;
      }
    }

    /** A fetch of a tensor the index has. */
    method FetchKnown(key: Key) returns (view: View)
      requires Valid() && tick < UINT64_MAX && key in index
      modifies this
      ensures |versions| == slotCount && Sane(State()) && trace == old(trace)
      ensures (State(), view) == StreamCache.Fetch(old(State()), key, index[key], policy)
    {
      FetchKeeps(State(), NoRefusals, key, policy, index);
      assert |StreamCache.Fetch(State(), key, index[key], policy).0.versions| == slotCount;
      hide Sane, Books, StreamCache.Fetch, Hit, Run;
      if key in resident {
        view := Touch(key);
      } else {
        view := Replace(key, index[key]);
      }
    }

    /** A hit refreshes the slot's age. */
    method Touch(key: Key) returns (view: View)
      requires Shaped(State()) && key in resident
      modifies this
      ensures trace == old(trace)
      ensures forall coord :: (State(), view) == StreamCache.Fetch(old(State()), key, coord, policy)
    {
      tick := tick + 1;
      var s := resident[key];
      lastTick := lastTick[s := tick];
      stats := stats.(hits := stats.hits + 1);
      view := View(s, versions[s], true);
    }

    /** A miss evicts the least recently used slot, if there are slots, and loads the tensor
        into it, if it can be read. */
    method Replace(key: Key, coord: Coordinate) returns (view: View)
      requires Valid() && tick < UINT64_MAX && key !in resident
      modifies this
      ensures trace == old(trace)
      ensures (State(), view) == StreamCache.Fetch(old(State()), key, coord, policy)
    {
      ghost var before := State();
      assert Shaped(before) && forall i :: 0 <= i < slotCount ==> lastTick[i] <= tick;
      hide Run, Sane, StreamCache.Fetch, Claim, Vacate, Settle, Oldest;
      CountMiss();
      MissUnfolds(before, key, coord, policy);
      var victim := LeastRecentlyUsed();
      if victim < 0 {
        return NoSlot;
      }
      SettleVictim(victim);
      view := ClaimVictim(victim, key, coord);
    }

    /** A miss is counted. */
    method CountMiss()
      requires Shaped(State())
      modifies this`tick, this`stats
      ensures State() == Counted(old(State()))
    {
      tick := tick + 1;
      stats := stats.(misses := stats.misses + 1);
    }

    static lemma MissUnfolds(c: Cache, key: Key, coord: Coordinate, policy: Policy)
      requires Shaped(c) && key !in c.resident
      ensures StreamCache.Fetch(c, key, coord, policy) ==
        if |c.versions| == 0 then (Counted(c), NoSlot)
        else
          var victim := Oldest(c.lastTick, |c.lastTick|);
          Loading(Settle(Counted(c), victim), victim, key, coord, policy)
    {
      hide Storage.WaitFor, Erased, Claim, Oldest;
    }

    /** The last part of a miss. */
    static ghost function Loading(c: Cache, victim: nat, key: Key, coord: Coordinate, policy: Policy): (Cache, View)
      requires Shaped(c) && victim < |c.versions|
    {
      var vacated := Vacate(c, victim, key, coord, policy);
      if coord.byteSize > UINT32_MAX then (vacated, Threw)
      else (Claim(vacated, victim, key, coord), View(victim, c.versions[victim] + 1, false))
    }

    /** Waits for the victim's outstanding work. */
    method SettleVictim(victim: nat)
      requires Shaped(State()) && victim < |versions|
      modifies this`io, this`stats
      ensures State() == Settle(old(State()), victim)
    {
      hide Storage.WaitFor;
      if hasPayload[victim] {
        if io.fences[victim] < versions[victim] {
          stats := stats.(stalls := stats.stalls + 1);
          io := io.WaitFor(victim, versions[victim]);
        } else {
          NoWait(io, victim, versions[victim]);
        }
        stats := stats.(evictions := stats.evictions + 1);
      }
    }

    /** Takes the victim's tenant off the books, issues the read into its slot and records the
        new tenant; the read may throw in between. */
    method ClaimVictim(victim: nat, key: Key, coord: Coordinate) returns (view: View)
      requires Shaped(State()) && victim < |versions|
      modifies this
      ensures (State(), view) == Loading(old(State()), victim, key, coord, policy)
      ensures trace == old(trace)
    {
      hide Erased;
      stats := stats.(bytesStreamed := stats.bytesStreamed + coord.byteSize,
                      bytesResident := stats.bytesResident - residentBytes[victim]);
      resident := Erased(resident, key, victim, policy);
      assert State() == Vacate(old(State()), victim, key, coord, policy);
      var next := versions[victim] + 1;
      var issued := EnqueueRead(victim, key, coord);
      if !issued {
        return Threw;
      }
      EnqueueSignal(victim, next);
      assert io.queue == old(io.queue) + [Read(victim, key, coord), Signal(victim, next)];
      Record(victim, key, coord);
      view := View(victim, next, false);
    }

    /** What is recorded once the read has been issued. */
    method Record(victim: nat, key: Key, coord: Coordinate)
      requires Shaped(State()) && victim < |versions|
      modifies this
      ensures trace == old(trace)
      ensures State() == Claim(old(State()), victim, key, coord).(io := old(io))
    {
      versions := versions[victim := versions[victim] + 1];
      hasPayload := hasPayload[victim := true];
      residentBytes := residentBytes[victim := coord.byteSize];
      stats := stats.(bytesResident := stats.bytesResident + coord.byteSize);
      lastTick := lastTick[victim := tick];
      resident := resident[key := victim];
    }

    /** The storage layer's enqueue_read: throws, and issues nothing, above UINT32_MAX bytes. */
    method EnqueueRead(victim: nat, key: Key, coord: Coordinate) returns (issued: bool)
      modifies this`io
      ensures issued <==> coord.byteSize <= UINT32_MAX
      ensures io == if issued then old(io).(queue := old(io.queue) + [Read(victim, key, coord)]) else old(io)
    {
      if coord.byteSize > UINT32_MAX {
        return false;
      }
      io := io.(queue := io.queue + [Read(victim, key, coord)]);
      issued := true;
    }

    method EnqueueSignal(victim: nat, value: nat)
      modifies this`io
      ensures io == old(io).(queue := old(io.queue) + [Signal(victim, value)])
    {
      io := io.(queue := io.queue + [Signal(victim, value)]);
    }

    static lemma NoWait(io: Storage, i: nat, value: nat)
      requires i < |io.fences| && io.fences[i] >= value
      ensures io.WaitFor(i, value) == io
    {
    }

    /** The scan for the smallest tick, lowest slot first. */
    method LeastRecentlyUsed() returns (victim: int)
      requires |lastTick| == slotCount
      requires forall i :: 0 <= i < slotCount ==> lastTick[i] < UINT64_MAX
      ensures victim < slotCount && victim == Oldest(lastTick, |lastTick|)
      ensures victim < 0 <==> slotCount == 0
    {
      var found, oldest := -1, UINT64_MAX;
      for i := 0 to slotCount
        invariant found == Oldest(lastTick, i)
        invariant oldest == if found < 0 then UINT64_MAX else lastTick[found]
      {
        if lastTick[i] < oldest {
          oldest := lastTick[i];
          found := i;
        }
      }
      victim := found;
    }

    /** Waits for every slot in use; afterwards nothing is outstanding. */
    method Flush()
      requires Valid()
      modifies this`io, this`trace
      ensures Valid() && State() == Step(old(State()), StreamCache.Flush, index, policy)
      ensures trace == old(trace) + [StreamCache.Flush]
      ensures forall i :: 0 <= i < slotCount ==> io.fences[i] == versions[i] && io.OpsOf(i) == []
    {
      RunExtends(trace, StreamCache.Flush);
      FlushedState(State(), policy, index);
      hide Sane, Run;
      FlushSlots();
      trace := trace + [StreamCache.Flush];
    }

    /** The loop over the slots. */
    method FlushSlots()
      requires Shaped(State()) && |versions| == slotCount
      modifies this`io
      ensures Shaped(State()) && State() == old(State()).(io := FlushIo(old(State()), old(io), slotCount))
    {
      ghost var c := State();
      for i := 0 to slotCount
        invariant State() == c.(io := io)
        invariant |io.fences| == |io.memory| == slotCount && io == FlushIo(c, c.io, i)
      {
        if hasPayload[i] {
          io := io.WaitFor(i, versions[i]);
        }
      }
    }

    static lemma FlushedState(c: Cache, policy: Policy, index: Index)
      requires Sane(c)
      ensures var k := |c.versions|;
        var r := Step(c, StreamCache.Flush, index, policy);
        && Sane(r) && r == c.(io := FlushIo(c, c.io, k))
        && forall i :: 0 <= i < k ==> r.io.fences[i] == c.versions[i] && r.io.OpsOf(i) == []
    {
      var k := |c.versions|;
      FlushKeeps(c, k);
      var io := FlushIo(c, c.io, k);
      forall i | 0 <= i < k
        ensures io.OpsOf(i) == []
      {
        assert SlotSound(io, i, c.versions[i]);
      }
    }
  }
}
