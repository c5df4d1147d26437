/** The storage queue of src/dxio/dxio.cpp as far as the streaming cache can see it: reads
    finish in any order, some time after they are enqueued; a fence reaches a value only when
    everything queued before the signal is done. */
module DirectStorage {

  type Key = nat

  datatype Coordinate = Coordinate(absoluteOffset: nat, byteSize: nat, quantType: nat, padding: nat)

  /** What a slot buffer holds: the slice of the tensor with this key. */
  datatype Payload = Empty | Loaded(key: Key, coord: Coordinate)

  datatype Op = Read(slot: nat, key: Key, coord: Coordinate) | Signal(slot: nat, value: nat)

  datatype Storage = Storage(queue: seq<Op>, fences: seq<nat>, memory: seq<Payload>) {
    /** The oldest operation completes. */
    function DrainOne(): (r: Storage)
      requires queue != []
      ensures |r.fences| == |fences| && |r.memory| == |memory| && r.queue == queue[1..]
    {
      match queue[0]
      case Read(i, key, coord) =>
        Storage(queue[1..], fences, if i < |memory| then memory[i := Loaded(key, coord)] else memory)
      case Signal(i, value) =>
        Storage(queue[1..], if i < |fences| then fences[i := value] else fences, memory)
    }

    /** A read anywhere in the queue finishes. */
    function FinishRead(p: nat): (r: Storage)
      requires p < |queue| && queue[p].Read?
      ensures |r.fences| == |fences| && |r.memory| == |memory|
    {
      var Read(i, key, coord) := queue[p];
      Storage(queue[..p] + queue[p + 1..], fences,
              if i < |memory| then memory[i := Loaded(key, coord)] else memory)
    }

    /** The operation at p completes, if it can: a read can anywhere, a signal only in front. */
    function Finish(p: nat): (r: Storage)
      ensures |r.fences| == |fences| && |r.memory| == |memory|
    {
      if p < |queue| && queue[p].Read? then FinishRead(p)
      else if p == 0 && queue != [] then DrainOne()
      else this
    }

    /** Operations complete one after another, at the places given. */
    function Drain(places: seq<nat>): (r: Storage)
      ensures |r.fences| == |fences| && |r.memory| == |memory|
      decreases |places|
    {
      if places == [] then this else Finish(places[0]).Drain(places[1..])
    }

    /** Blocking on a fence: operations complete until it reaches the value. */
    function WaitFor(i: nat, value: nat): (r: Storage)
      requires i < |fences|
      ensures |r.fences| == |fences| && |r.memory| == |memory|
      decreases |queue|
    {
      if fences[i] >= value || queue == [] then this else DrainOne().WaitFor(i, value)
    }

    /** The operations still queued for slot i. */
    function OpsOf(i: nat): seq<Op> {
      Select(queue, i)
    }

    /** What slot i holds once the queue has drained. */
    function Content(i: nat): Payload
      requires i < |memory|
    {
      LastRead(queue, i, memory[i])
    }
  }

  function Select(queue: seq<Op>, i: nat): seq<Op> {
    if queue == [] then []
    else (if queue[0].slot == i then [queue[0]] else []) + Select(queue[1..], i)
  }

  function LastRead(queue: seq<Op>, i: nat, now: Payload): Payload {
    if queue == [] then now
    else LastRead(queue[1..], i,
                  if queue[0].Read? && queue[0].slot == i then Loaded(queue[0].key, queue[0].coord) else now)
  }

  lemma {:induction false} SelectAppend(q: seq<Op>, r: seq<Op>, i: nat)
    ensures Select(q + r, i) == Select(q, i) + Select(r, i)
  {
    if q == [] {
      assert q + r == r;
    } else {
      SelectAppend(q[1..], r, i);
      assert (q + r)[1..] == q[1..] + r && (q + r)[0] == q[0];
      var head := if q[0].slot == i then [q[0]] else [];
      assert head + (Select(q[1..], i) + Select(r, i)) == head + Select(q[1..], i) + Select(r, i);
    }
  }

  lemma {:induction false} LastReadAppend(q: seq<Op>, r: seq<Op>, i: nat, now: Payload)
    ensures LastRead(q + r, i, now) == LastRead(r, i, LastRead(q, i, now))
  {
    if q == [] {
      assert q + r == r;
    } else {
      LastReadAppend(q[1..], r, i, if q[0].Read? && q[0].slot == i then Loaded(q[0].key, q[0].coord) else now);
      assert (q + r)[1..] == q[1..] + r;
    }
  }

  /** The protocol of one slot: nothing outstanding, or the read and the signal issued
      last, or that signal alone.  The fence is at the version issued last, or one short. */
  ghost predicate SlotSound(s: Storage, i: nat, version: nat)
    requires i < |s.fences| && i < |s.memory|
  {
    var ops := s.OpsOf(i);
    || (ops == [] && s.fences[i] == version)
    || (version > 0 && s.fences[i] == version - 1 && ops == [Signal(i, version)])
    || (version > 0 && s.fences[i] == version - 1 && |ops| == 2 && ops[0].Read? && ops[1] == Signal(i, version))
  }

  ghost predicate Sound(s: Storage, versions: seq<nat>) {
    && |s.fences| == |s.memory| == |versions|
    && (forall i :: 0 <= i < |versions| ==> SlotSound(s, i, versions[i]))
    && forall t :: 0 <= t < |s.queue| ==> s.queue[t].slot < |versions|
  }

  /** Completions keep the protocol and never change what a slot will hold. */
  lemma DrainOneKeeps(s: Storage, versions: seq<nat>)
    requires Sound(s, versions) && s.queue != []
    ensures Sound(s.DrainOne(), versions)
    ensures forall i :: 0 <= i < |versions| ==> s.DrainOne().Content(i) == s.Content(i)
    ensures forall i :: 0 <= i < |versions| ==> s.fences[i] <= s.DrainOne().fences[i]
  {
    var op := s.queue[0];
    forall i | 0 <= i < |versions|
      ensures SlotSound(s.DrainOne(), i, versions[i]) && s.fences[i] <= s.DrainOne().fences[i]
      ensures s.DrainOne().Content(i) == s.Content(i)
    {
      assert SlotSound(s, i, versions[i]);
      var rest := Select(s.queue[1..], i);
      if op.slot == i {
        assert s.OpsOf(i) == [op] + rest && s.OpsOf(i)[0] == op;
        assert s.OpsOf(i)[1..] == rest;
        if op.Read? {
          assert rest == [Signal(i, versions[i])];
        } else {
          assert rest == [];
        }
      } else {
        assert s.OpsOf(i) == rest;
      }
    }
  }

  /** Around a place in the queue. */
  lemma SelectAround(queue: seq<Op>, p: nat, i: nat, now: Payload)
    requires p < |queue|
    ensures Select(queue, i)
         == Select(queue[..p], i) + (if queue[p].slot == i then [queue[p]] else []) + Select(queue[p + 1..], i)
    ensures Select(queue[..p] + queue[p + 1..], i) == Select(queue[..p], i) + Select(queue[p + 1..], i)
    ensures LastRead(queue, i, now) == LastRead([queue[p]] + queue[p + 1..], i, LastRead(queue[..p], i, now))
    ensures LastRead(queue[..p] + queue[p + 1..], i, now)
         == LastRead(queue[p + 1..], i, LastRead(queue[..p], i, now))
  {
    var left, op, right := queue[..p], queue[p], queue[p + 1..];
    assert queue == left + ([op] + right);
    assert ([op] + right)[1..] == right;
    SelectAppend(left, [op] + right, i);
    SelectAppend(left, right, i);
    LastReadAppend(left, [op] + right, i, now);
    LastReadAppend(left, right, i, now);
    var head := if op.slot == i then [op] else [];
    assert Select(left, i) + (head + Select(right, i)) == Select(left, i) + head + Select(right, i);
  }

  /** A slot with a read outstanding has nothing before it and its signal behind it. */
  lemma ReadStandsFirst(s: Storage, versions: seq<nat>, p: nat)
    requires Sound(s, versions) && p < |s.queue| && s.queue[p].Read?
    ensures var i := s.queue[p].slot;
      && i < |versions| && versions[i] > 0 && s.fences[i] == versions[i] - 1
      && Select(s.queue[..p], i) == [] && Select(s.queue[p + 1..], i) == [Signal(i, versions[i])]
  {
    var op := s.queue[p];
    var i := op.slot;
    var left, right := Select(s.queue[..p], i), Select(s.queue[p + 1..], i);
    SelectAround(s.queue, p, i, Empty);
    assert SlotSound(s, i, versions[i]);
    assert s.OpsOf(i) == left + [op] + right;
    assert s.OpsOf(i)[|left|] == op;
    assert right == s.OpsOf(i)[|left| + 1..];
  }

  /** A read that finishes ahead of the queue keeps the protocol and the contents, too. */
  lemma FinishReadKeeps(s: Storage, versions: seq<nat>, p: nat)
    requires Sound(s, versions) && p < |s.queue| && s.queue[p].Read?
    ensures Sound(s.FinishRead(p), versions)
    ensures forall i :: 0 <= i < |versions| ==> s.FinishRead(p).Content(i) == s.Content(i)
    ensures forall i :: 0 <= i < |versions| ==> s.fences[i] <= s.FinishRead(p).fences[i]
  {
    var op, r := s.queue[p], s.FinishRead(p);
    ReadStandsFirst(s, versions, p);
    forall i | 0 <= i < |versions|
      ensures SlotSound(r, i, versions[i]) && r.Content(i) == s.Content(i)
    {
      assert SlotSound(s, i, versions[i]);
      SelectAround(s.queue, p, i, s.memory[i]);
      SelectAround(s.queue, p, i, r.memory[i]);
      FirstRead(op, s.queue[p + 1..], i, LastRead(s.queue[..p], i, s.memory[i]));
      if op.slot == i {
        NoReadsLeft(s.queue[..p], i, s.memory[i]);
        NoReadsLeft(s.queue[..p], i, r.memory[i]);
      }
    }
    forall t | 0 <= t < |r.queue| ensures r.queue[t].slot < |versions| {
      assert r.queue[t] == if t < p then s.queue[t] else s.queue[t + 1];
    }
  }

  lemma FirstRead(op: Op, rest: seq<Op>, i: nat, now: Payload)
    requires op.Read?
    ensures LastRead([op] + rest, i, now) == LastRead(rest, i, if op.slot == i then Loaded(op.key, op.coord) else now)
  {
    assert ([op] + rest)[1..] == rest;
  }

  /** Completions in any order the fences allow keep the protocol, move no fence back and
      never change what a slot will hold. */
  lemma {:induction false} DrainKeeps(s: Storage, versions: seq<nat>, places: seq<nat>)
    requires Sound(s, versions)
    ensures Sound(s.Drain(places), versions)
    ensures forall i :: 0 <= i < |versions| ==> s.Drain(places).Content(i) == s.Content(i)
    ensures forall i :: 0 <= i < |versions| ==> s.fences[i] <= s.Drain(places).fences[i]
    decreases |places|
  {
    if places != [] {
      var p := places[0];
      if p < |s.queue| && s.queue[p].Read? {
        FinishReadKeeps(s, versions, p);
      } else if p == 0 && s.queue != [] {
        DrainOneKeeps(s, versions);
      }
      DrainKeeps(s.Finish(p), versions, places[1..]);
    }
  }

  /** Waiting for the last value issued to a slot always ends, with nothing left queued
      for that slot. */
  lemma {:induction false} WaitKeeps(s: Storage, versions: seq<nat>, i: nat)
    requires Sound(s, versions) && i < |versions|
    ensures var r := s.WaitFor(i, versions[i]);
      && Sound(r, versions) && r.fences[i] == versions[i] && r.OpsOf(i) == []
      && forall j :: 0 <= j < |versions| ==> r.Content(j) == s.Content(j) && s.fences[j] <= r.fences[j]
    decreases |s.queue|
  {
    assert SlotSound(s, i, versions[i]);
    if s.fences[i] < versions[i] {
      if s.queue != [] {
        DrainOneKeeps(s, versions);
        WaitKeeps(s.DrainOne(), versions, i);
      }
    }
  }

  lemma SelectIssue(i: nat, j: nat, key: Key, coord: Coordinate, next: nat, now: Payload)
    ensures var ops := [Read(i, key, coord), Signal(i, next)];
      && Select(ops, j) == (if j == i then ops else [])
      && LastRead(ops, j, now) == (if j == i then Loaded(key, coord) else now)
  {
    var ops := [Read(i, key, coord), Signal(i, next)];
    assert ops[1..] == [Signal(i, next)] && ops[1..][1..] == [];
    assert Select(ops[1..], j) == (if j == i then [Signal(i, next)] else []) + Select(ops[1..][1..], j);
    var then' := if j == i then Loaded(key, coord) else now;
    assert LastRead(ops[1..][1..], j, then') == then';
    assert LastRead(ops[1..], j, then') == then';
  }

  /** What issuing a read and its signal adds to each slot. */
  lemma IssuedSlot(s: Storage, i: nat, key: Key, coord: Coordinate, next: nat, j: nat)
    requires j < |s.memory|
    ensures var ops := [Read(i, key, coord), Signal(i, next)];
      var r := s.(queue := s.queue + ops);
      && r.OpsOf(j) == s.OpsOf(j) + (if j == i then ops else [])
      && r.Content(j) == if j == i then Loaded(key, coord) else s.Content(j)
  {
    var ops := [Read(i, key, coord), Signal(i, next)];
    hide Select, LastRead;
    SelectAppend(s.queue, ops, j);
    LastReadAppend(s.queue, ops, j, s.memory[j]);
    SelectIssue(i, j, key, coord, next, LastRead(s.queue, j, s.memory[j]));
  }

  /** Issuing a read and its signal to a slot with nothing outstanding. */
  lemma IssueKeeps(s: Storage, versions: seq<nat>, i: nat, key: Key, coord: Coordinate)
    requires Sound(s, versions) && i < |versions| && s.OpsOf(i) == []
    ensures var next := versions[i] + 1;
      var r := s.(queue := s.queue + [Read(i, key, coord), Signal(i, next)]);
      && Sound(r, versions[i := next])
      && r.Content(i) == Loaded(key, coord)
      && forall j :: 0 <= j < |versions| && j != i ==> r.Content(j) == s.Content(j)
  {
    var next := versions[i] + 1;
    var ops := [Read(i, key, coord), Signal(i, next)];
    var r := s.(queue := s.queue + ops);
    var issued := versions[i := next];
    forall j | 0 <= j < |versions|
      ensures SlotSound(r, j, issued[j])
      ensures r.Content(j) == if j == i then Loaded(key, coord) else s.Content(j)
    {
      assert SlotSound(s, j, versions[j]);
      IssuedSlot(s, i, key, coord, next, j);
    }
    hide SlotSound, Storage.Content;
    forall t | 0 <= t < |r.queue|
      ensures r.queue[t].slot < |versions|
    {
      if t >= |s.queue| {
        assert r.queue[t] == ops[t - |s.queue|];
      } else {
        assert r.queue[t] == s.queue[t];
      }
    }
    assert Sound(r, issued);
  }

  /** Once the fence has reached a slot's last version, its memory is what was issued last. */
  lemma ReadyMeansLoaded(s: Storage, versions: seq<nat>, i: nat)
    requires Sound(s, versions) && i < |versions| && s.fences[i] >= versions[i]
    ensures s.memory[i] == s.Content(i)
  {
    assert SlotSound(s, i, versions[i]);
    NoReadsLeft(s.queue, i, s.memory[i]);
  }

  lemma {:induction false} NoReadsLeft(queue: seq<Op>, i: nat, now: Payload)
    requires Select(queue, i) == []
    ensures LastRead(queue, i, now) == now
  {
    if queue != [] {
      NoReadsLeft(queue[1..], i, now);
    }
  }
}
