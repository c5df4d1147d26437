/** The all-reduce as written when its additions land late.  `vec_add` only submits its work, to
    a queue that nothing waits for: the first chunk of a GPU can change at any time after a send.
    The copies are waited for. */
module RingTiming {
  import opened Index
  import opened RingAllReduce

  datatype Hop = Scatter(s: nat, i: nat) | Gather(s: nat, i: nat)

  /** What the additions under way have made of element e of GPU g's first chunk by the time the
      send after the hop starts. */
  type Timing = (Hop, nat, nat) -> real

  function Disturbed(cur: Buffers, c: nat, t: Timing, hop: Hop): (r: Buffers)
    ensures SameShape(cur, r)
    ensures forall g, e :: 0 <= g < |r| && 0 <= e < |r[g]| ==> r[g][e] == if e < c then t(hop, g, e) else cur[g][e]
  {
    seq(|cur|, g requires 0 <= g < |cur| =>
      seq(|cur[g]|, e requires 0 <= e < |cur[g]| => if e < c then t(hop, g, e) else cur[g][e]))
  }

  /** A send of a scatter step: the chunk is copied, and any additions may land. */
  ghost function LooseSend(cur: Buffers, n: nat, c: nat, s: nat, i: nat, t: Timing): (r: Buffers)
    requires Shaped(cur, n, c) && s + 1 < n && i < n
    ensures SameShape(cur, r) && Shaped(r, n, c)
  {
    var k, recv := Wrap(i - s + n, n), Wrap(i + 1, n);
    ChunkFits(k, n, c);
    Disturbed(cur[recv := CopyRange(cur[recv], cur[i], Times(k, c), c)], c, t, Scatter(s, i))
  }

  ghost function LooseScatter(b: Buffers, n: nat, c: nat, s: nat, i: nat, t: Timing): (r: Buffers)
    requires Shaped(b, n, c) && i <= n && (s + 1 < n || (s + 1 == n && i == 0))
    ensures SameShape(b, r) && Shaped(r, n, c)
    decreases s, i
  {
    if i > 0 then LooseSend(LooseScatter(b, n, c, s, i - 1, t), n, c, s, i - 1, t)
    else if s > 0 then LooseScatter(b, n, c, s - 1, n, t)
    else b
  }

  ghost function LooseGather(w: Buffers, n: nat, c: nat, s: nat, i: nat, t: Timing): (r: Buffers)
    requires Shaped(w, n, c) && i <= n && (s + 1 < n || (s + 1 == n && i == 0))
    ensures SameShape(w, r) && Shaped(r, n, c)
    decreases s, i
  {
    if i > 0 then
      Disturbed(GatherOne(LooseGather(w, n, c, s, i - 1, t), n, c, s, i - 1), c, t, Gather(s, i - 1))
    else if s > 0 then LooseGather(w, n, c, s - 1, n, t)
    else w
  }

  /** What the collective leaves under a timing. */
  ghost function Loose(b: Buffers, c: nat, t: Timing): (r: Buffers)
    requires Uniform(b, c)
    ensures SameShape(b, r)
  {
    var n := |b|;
    if n <= 1 || c == 0 then b else LooseGather(LooseScatter(b, n, c, n - 1, 0, t), n, c, n - 1, 0, t)
  }

  // ---------------------------------------------------------------- what no timing changes

  /** Past the first chunk the buffers are the same. */
  ghost predicate SamePast(a: Buffers, b: Buffers, c: nat) {
    SameShape(a, b) && forall g, e :: 0 <= g < |a| && c <= e < |a[g]| ==> a[g][e] == b[g][e]
  }

  lemma SendSamePast(cur: Buffers, loose: Buffers, n: nat, c: nat, s: nat, i: nat, t: Timing)
    requires Shaped(cur, n, c) && Shaped(loose, n, c) && s + 1 < n && i < n && SamePast(cur, loose, c)
    ensures SamePast(ScatterOne(AsWritten, cur, n, c, s, i), LooseSend(loose, n, c, s, i, t), c)
  {
    hide Times;
    var k, recv := Wrap(i - s + n, n), Wrap(i + 1, n);
    ChunkFits(k, n, c);
    var next, late := ScatterOne(AsWritten, cur, n, c, s, i), LooseSend(loose, n, c, s, i, t);
    forall g, e | 0 <= g < n && c <= e < |next[g]|
      ensures next[g][e] == late[g][e]
    {
      assert cur[g][e] == loose[g][e] && cur[i][e] == loose[i][e];
    }
  }

  lemma {:induction false} ScatterSamePast(b: Buffers, n: nat, c: nat, s: nat, i: nat, t: Timing)
    requires Shaped(b, n, c) && i <= n && (s + 1 < n || (s + 1 == n && i == 0))
    ensures SamePast(ScatterRun(AsWritten, b, n, c, s, i), LooseScatter(b, n, c, s, i, t), c)
    decreases s, i
  {
    hide ScatterOne, LooseSend, SamePast, Shaped;
    if i > 0 {
      ScatterSamePast(b, n, c, s, i - 1, t);
      SendSamePast(ScatterRun(AsWritten, b, n, c, s, i - 1), LooseScatter(b, n, c, s, i - 1, t), n, c, s, i - 1, t);
    } else if s > 0 {
      ScatterSamePast(b, n, c, s - 1, n, t);
    } else {
      SamePastSelf(b, c);
    }
  }

  lemma SamePastSelf(b: Buffers, c: nat)
    ensures SamePast(b, b, c)
  {
  }

  lemma HandSamePast(cur: Buffers, loose: Buffers, n: nat, c: nat, s: nat, i: nat, t: Timing)
    requires Shaped(cur, n, c) && Shaped(loose, n, c) && s + 1 < n && i < n && SamePast(cur, loose, c)
    ensures SamePast(GatherOne(cur, n, c, s, i), Disturbed(GatherOne(loose, n, c, s, i), c, t, Gather(s, i)), c)
  {
    hide Times;
    var k, recv := Wrap(Wrap(i - s + n, n) + 1, n), Wrap(i + 1, n);
    ChunkFits(k, n, c);
    var next, late := GatherOne(cur, n, c, s, i), Disturbed(GatherOne(loose, n, c, s, i), c, t, Gather(s, i));
    forall g, e | 0 <= g < n && c <= e < |next[g]|
      ensures next[g][e] == late[g][e]
    {
      assert cur[g][e] == loose[g][e] && cur[i][e] == loose[i][e];
    }
  }

  lemma {:induction false} GatherSamePast(w: Buffers, loose: Buffers, n: nat, c: nat, s: nat, i: nat, t: Timing)
    requires Shaped(w, n, c) && Shaped(loose, n, c) && SamePast(w, loose, c)
    requires i <= n && (s + 1 < n || (s + 1 == n && i == 0))
    ensures SamePast(GatherRun(w, n, c, s, i), LooseGather(loose, n, c, s, i, t), c)
    decreases s, i
  {
    hide GatherOne, Disturbed, SamePast, Shaped;
    if i > 0 {
      GatherSamePast(w, loose, n, c, s, i - 1, t);
      HandSamePast(GatherRun(w, n, c, s, i - 1), LooseGather(loose, n, c, s, i - 1, t), n, c, s, i - 1, t);
    } else if s > 0 {
      GatherSamePast(w, loose, n, c, s - 1, n, t);
    }
  }

  /** Whenever the additions land, everything past the first chunk is what it is when each lands
      before the next send. */
  lemma TimingKeeps(b: Buffers, c: nat, t: Timing)
    requires Uniform(b, c)
    ensures SamePast(Reduced(AsWritten, b, c), Loose(b, c, t), c)
  {
    var n := |b|;
    if n <= 1 || c == 0 {
      SamePastSelf(b, c);
    } else {
      hide SamePast, ScatterRun, GatherRun, LooseScatter, LooseGather;
      ScatterSamePast(b, n, c, n - 1, 0, t);
      GatherSamePast(ScatterRun(AsWritten, b, n, c, n - 1, 0), LooseScatter(b, n, c, n - 1, 0, t), n, c, n - 1, 0, t);
    }
  }

  /** So under every timing chunk k >= 1 ends everywhere as GPU k's own values, and the rest
      stays. */
  lemma AnyTimingLeaves(b: Buffers, c: nat, t: Timing, e: nat)
    requires Shaped(b, |b|, c) && c <= e < |b[0]|
    ensures ChunkOf(e, c) < |b| <==> e < Times(|b|, c)
    ensures e < Times(|b|, c) ==> AllHold(Loose(b, c, t), e, b[ChunkOf(e, c)][e])
    ensures e >= Times(|b|, c) ==> forall g :: 0 <= g < |b| ==> Loose(b, c, t)[g][e] == b[g][e]
  {
    hide Loose, Reduced, Times, Div;
    AsWrittenLeaves(b, c, e);
    TimingKeeps(b, c, t);
  }

  /** With all ones the second chunk stays 1 under every timing. */
  lemma AnyTimingFails(n: nat, c: nat, t: Timing)
    requires n >= 2 && c > 0
    ensures Uniform(Ones(n, c), c) && !IsAllReduce(Ones(n, c), Loose(Ones(n, c), c, t), c)
  {
    hide Times, Div, Loose;
    var b := Ones(n, c);
    ChunkFits(1, n, c);
    TimesZero(c);
    ChunkRange(c, n, c, 1);
    OnesAddUp(b, n, c);
    AnyTimingLeaves(b, c, t, c);
    assert Loose(b, c, t)[0][c] == 1.0;
    assert !ReducedAt(b, Loose(b, c, t), c, c);
  }

  /** Under any timing, the code as written is right for all inputs of a ring exactly when there
      is nothing to exchange. */
  lemma AnyTimingRightForAllIff(n: nat, c: nat, t: Timing)
    ensures (forall b: Buffers :: |b| == n && Uniform(b, c) ==> IsAllReduce(b, Loose(b, c, t), c))
      <==> n <= 1 || c == 0
  {
    if n <= 1 || c == 0 {
      forall b: Buffers | |b| == n && Uniform(b, c)
        ensures IsAllReduce(b, Loose(b, c, t), c)
      {
        NothingToSend(AsWritten, b, c);
      }
    } else {
      AnyTimingFails(n, c, t);
    }
  }

  // ---------------------------------------------------------------- the prompt timing

  /** Every addition lands before the next send. */
  ghost function Prompt(b: Buffers, c: nat): Timing
    requires Shaped(b, |b|, c)
  {
    (hop: Hop, g: nat, e: nat) =>
      var n := |b|;
      if !(hop.i < n && hop.s + 1 < n && g < n && e < |b[0]|) then 0.0
      else match hop
        case Scatter(s, i) => ScatterRun(AsWritten, b, n, c, s, i + 1)[g][e]
        case Gather(s, i) => GatherRun(ScatterRun(AsWritten, b, n, c, n - 1, 0), n, c, s, i + 1)[g][e]
  }

  lemma SameBuffers(a: Buffers, b: Buffers)
    requires SameShape(a, b)
    requires forall g, e :: 0 <= g < |a| && 0 <= e < |a[g]| ==> a[g][e] == b[g][e]
    ensures a == b
  {
    forall g | 0 <= g < |a| ensures a[g] == b[g] {
    }
  }

  lemma {:induction false} PromptScatter(b: Buffers, c: nat, s: nat, i: nat)
    requires Shaped(b, |b|, c) && i <= |b| && (s + 1 < |b| || (s + 1 == |b| && i == 0))
    ensures LooseScatter(b, |b|, c, s, i, Prompt(b, c)) == ScatterRun(AsWritten, b, |b|, c, s, i)
    decreases s, i
  {
    hide ScatterOne, LooseSend, Prompt, Uniform;
    var n := |b|;
    if i > 0 {
      PromptScatter(b, c, s, i - 1);
      PromptSend(b, c, s, i - 1);
    } else if s > 0 {
      PromptScatter(b, c, s - 1, n);
    }
  }

  lemma PromptSend(b: Buffers, c: nat, s: nat, j: nat)
    requires Shaped(b, |b|, c) && s + 1 < |b| && j < |b|
    ensures var cur := ScatterRun(AsWritten, b, |b|, c, s, j);
      ScatterOne(AsWritten, cur, |b|, c, s, j) == LooseSend(cur, |b|, c, s, j, Prompt(b, c))
  {
    hide Times, Received, CopyRange;
    var n, t, cur := |b|, Prompt(b, c), ScatterRun(AsWritten, b, |b|, c, s, j);
    var next, loose := ScatterOne(AsWritten, cur, n, c, s, j), LooseSend(cur, n, c, s, j, t);
    assert ScatterRun(AsWritten, b, n, c, s, j + 1) == next;
    SamePastSelf(cur, c);
    SendSamePast(cur, cur, n, c, s, j, t);
    forall g, e | 0 <= g < n && 0 <= e < |b[0]|
      ensures next[g][e] == loose[g][e]
    {
      if e < c {
        assert loose[g][e] == t(Scatter(s, j), g, e);
      }
    }
    SameBuffers(next, loose);
  }

  lemma {:induction false} PromptGather(b: Buffers, c: nat, s: nat, i: nat)
    requires Shaped(b, |b|, c) && i <= |b| && (s + 1 < |b| || (s + 1 == |b| && i == 0))
    ensures var w := ScatterRun(AsWritten, b, |b|, c, |b| - 1, 0);
      LooseGather(w, |b|, c, s, i, Prompt(b, c)) == GatherRun(w, |b|, c, s, i)
    decreases s, i
  {
    hide ScatterRun, GatherOne, Disturbed, Prompt, Uniform;
    var n := |b|;
    if i > 0 {
      PromptGather(b, c, s, i - 1);
      PromptHand(b, c, s, i - 1);
    } else if s > 0 {
      PromptGather(b, c, s - 1, n);
    }
  }

  lemma PromptHand(b: Buffers, c: nat, s: nat, j: nat)
    requires Shaped(b, |b|, c) && s + 1 < |b| && j < |b|
    ensures var w := ScatterRun(AsWritten, b, |b|, c, |b| - 1, 0);
      var next := GatherOne(GatherRun(w, |b|, c, s, j), |b|, c, s, j);
      next == Disturbed(next, c, Prompt(b, c), Gather(s, j))
  {
    hide Times, CopyRange, ScatterRun, GatherOne;
    var n, t, w := |b|, Prompt(b, c), ScatterRun(AsWritten, b, |b|, c, |b| - 1, 0);
    var next := GatherOne(GatherRun(w, n, c, s, j), n, c, s, j);
    assert GatherRun(w, n, c, s, j + 1) == next;
    hide GatherRun;
    forall g, e | 0 <= g < n && 0 <= e < c && e < |b[0]|
      ensures t(Gather(s, j), g, e) == next[g][e]
    {
    }
    hide Prompt;
    NothingDisturbed(next, c, t, Gather(s, j));
  }

  /** An addition that changes nothing. */
  lemma NothingDisturbed(cur: Buffers, c: nat, t: Timing, hop: Hop)
    requires forall g, e :: 0 <= g < |cur| && 0 <= e < c && e < |cur[g]| ==> t(hop, g, e) == cur[g][e]
    ensures Disturbed(cur, c, t, hop) == cur
  {
    SameBuffers(Disturbed(cur, c, t, hop), cur);
  }

  /** The run in which each addition lands before the next send is one of these. */
  lemma PromptIsAsWritten(b: Buffers, c: nat)
    requires Shaped(b, |b|, c)
    ensures Loose(b, c, Prompt(b, c)) == Reduced(AsWritten, b, c)
  {
    hide ScatterRun, GatherRun, LooseScatter, LooseGather, Prompt;
    PromptScatter(b, c, |b| - 1, 0);
    PromptGather(b, c, |b| - 1, 0);
  }
}
