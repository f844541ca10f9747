/** balance_segments: a greedy left-to-right merge of adjacent segments under
    a ceiling on their summed token estimates, followed by a one-shot fix-up
    that joins a short last chunk to the one before it. */
module Balance {
  import opened Text
  import opened Tokens

  /** The greedy pass after a prefix of the segments: the groups of segments
      it has closed and the group it is still filling. In the source the
      filling group is current_segment (its concatenation) together with
      current_tokens (its token sum). */
  datatype Greedy = Greedy(closed: seq<seq<string>>, filling: seq<string>)

  /** One turn of the loop at lines 66-74: the segment joins the filling group
      when the summed estimates stay within the ceiling; otherwise the group
      is closed and the segment starts a new one. */
  function Step(g: Greedy, seg: string, maxTokens: int): (r: Greedy)
    ensures Flatten(r.closed) + r.filling == Flatten(g.closed) + g.filling + [seg]
  {
    if TokenSum(g.filling) + CountTokens(seg) <= maxTokens then Greedy(g.closed, g.filling + [seg])
    else
      FlattenAppend(g.closed, g.filling);
      Greedy(g.closed + [g.filling], [seg])
  }

  function Fold(segs: seq<string>, maxTokens: int): (r: Greedy)
    ensures Flatten(r.closed) + r.filling == segs
  {
    if segs == [] then Greedy([], [])
    else
      InitLast(segs);
      Step(Fold(segs[..|segs| - 1], maxTokens), segs[|segs| - 1], maxTokens)
  }

  /** The groups of the greedy pass once every segment is consumed. */
  function Groups(segs: seq<string>, maxTokens: int): (r: seq<seq<string>>)
    ensures Flatten(r) == segs
  {
    var g := Fold(segs, maxTokens);
    FlattenAppend(g.closed, g.filling);
    g.closed + [g.filling]
  }

  /** The chunk each group contributes to merged: its concatenation, left
      out when that is empty (the `if current_segment` tests). */
  function Chunks(groups: seq<seq<string>>): (r: seq<string>)
    ensures |r| <= |groups| && "" !in r
  {
    if groups == [] then []
    else Flush(Chunks(groups[..|groups| - 1]), Concat(groups[|groups| - 1]))
  }

  /** `if current_segment: merged.append(current_segment)` (lines 70-71 and 75-76). */
  function Flush(merged: seq<string>, current: string): seq<string>
  {
    if current == "" then merged else merged + [current]
  }

  /** The list merged as it stands after line 77. */
  function GreedyMerge(segs: seq<string>, maxTokens: int): (r: seq<string>)
    ensures "" !in r
  {
    Chunks(Groups(segs, maxTokens))
  }

  function Flatten(groups: seq<seq<string>>): seq<string>
  {
    if groups == [] then [] else Flatten(groups[..|groups| - 1]) + groups[|groups| - 1]
  }

  /** What the greedy pass may emit as one chunk: segments whose summed
      estimates fit the ceiling, or one segment that alone exceeds it. */
  predicate WithinBudget(group: seq<string>, maxTokens: int)
  {
    TokenSum(group) <= maxTokens || (|group| == 1 && CountTokens(group[0]) > maxTokens)
  }

  /** The test at line 85, last < (sum / len) * 0.5, over exact reals; it
      holds exactly when last * len * 2 < sum. */
  predicate LastBelowHalfAverage(merged: seq<string>)
    requires |merged| >= 1
    ensures LastBelowHalfAverage(merged) <==>
      2 * CountTokens(merged[|merged| - 1]) * |merged| < TokenSum(merged)
  {
    HalfAverage(CountTokens(merged[|merged| - 1]), TokenSum(merged), |merged|);
    (CountTokens(merged[|merged| - 1]) as real) <
      (TokenSum(merged) as real / |merged| as real) * 0.5
  }

  /** The fix-up at lines 80-96. */
  function TailFix(merged: seq<string>, maxTokens: int): (r: seq<string>)
    ensures |merged| - 1 <= |r| <= |merged|
    ensures "" !in merged ==> "" !in r
  {
    if |merged| >= 2 && LastBelowHalfAverage(merged) then
      var combined := merged[|merged| - 2] + merged[|merged| - 1];
      if CountTokens(combined) <= maxTokens then merged[..|merged| - 2] + [combined] else merged
    else merged
  }

  /** balance_segments(segments, max_tokens) */
  function Balance(segs: seq<string>, maxTokens: int): (r: seq<string>)
    ensures "" !in segs ==> "" !in r
  {
    if |segs| <= 1 then segs
    else if TokenSum(segs) <= maxTokens then [Concat(segs)]
    else TailFix(GreedyMerge(segs, maxTokens), maxTokens)
  }

  /** balance_segments, with the loop and the list updates of the source. */
  method BalanceSegments(segments: seq<string>, maxTokens: int) returns (result: seq<string>)
    ensures result == Balance(segments, maxTokens)
    ensures |segments| <= 1 ==> result == segments
    ensures |segments| >= 2 && TokenSum(segments) <= maxTokens ==> result == [Concat(segments)]
    ensures Concat(result) == Concat(segments)
  {
    if |segments| == 0 {
      return segments;
    }
    if |segments| == 1 {
      return segments;
    }
    var totalTokens := TokenSum(segments);
    if totalTokens <= maxTokens {
      result := [Concat(segments)];
      assert Concat(result) == Concat(segments) + "";
      return;
    }
    var merged := GreedyPass(segments, maxTokens);
    result := FixTail(merged, maxTokens);
    BalancePreservesContent(segments, maxTokens);
  }

  /** Lines 62-77 of balance_segments: the greedy pass, with current_segment
      and current_tokens standing for the concatenation and the token sum of
      the group being filled. */
  method GreedyPass(segments: seq<string>, maxTokens: int) returns (merged: seq<string>)
    ensures merged == GreedyMerge(segments, maxTokens)
  {
    merged := [];
    var current := "";
    var currentTokens := 0;
    ghost var closed: seq<seq<string>> := [];
    ghost var group: seq<string> := [];
    for i := 0 to |segments|
      invariant Fold(segments[..i], maxTokens) == Greedy(closed, group)
      invariant merged == Chunks(closed)
      invariant current == Concat(group) && currentTokens == TokenSum(group)
    {
      var seg := segments[i];
      var tokens := CountTokens(seg);
      if currentTokens + tokens <= maxTokens {
        JoinStep(segments, i, maxTokens, closed, group);
        current := current + seg;
        currentTokens := currentTokens + tokens;
        group := group + [seg];
      } else {
        CloseStep(segments, i, maxTokens, closed, group);
        merged := Flush(merged, current);
        closed := closed + [group];
        current := seg;
        currentTokens := tokens;
        group := [seg];
      }
    }
    assert segments[..|segments|] == segments;
    ChunksSnoc(closed, group);
    merged := Flush(merged, current);
  }

  /** Lines 80-96 of balance_segments: the one-shot fix-up of a short last chunk. */
  method FixTail(chunks: seq<string>, maxTokens: int) returns (merged: seq<string>)
    ensures merged == TailFix(chunks, maxTokens)
    ensures Concat(merged) == Concat(chunks)
  {
    merged := chunks;
    if |merged| >= 2 {
      var mergedTotal := TokenSum(merged);
      var avgTokens := mergedTotal as real / |merged| as real;
      var lastTokens := CountTokens(merged[|merged| - 1]);
      if lastTokens as real < avgTokens * 0.5 {
        var combined := merged[|merged| - 2] + merged[|merged| - 1];
        var combinedTokens := CountTokens(combined);
        if combinedTokens <= maxTokens {
          merged := merged[..|merged| - 2] + [combined];
        }
      }
    }
    TailFixSpec(chunks, maxTokens);
  }

  /** A turn of the greedy pass in which segs[i] joins the filling group. */
  lemma JoinStep(segs: seq<string>, i: nat, maxTokens: int, closed: seq<seq<string>>, group: seq<string>)
    requires i < |segs| && Fold(segs[..i], maxTokens) == Greedy(closed, group)
    requires TokenSum(group) + CountTokens(segs[i]) <= maxTokens
    ensures Fold(segs[..i + 1], maxTokens) == Greedy(closed, group + [segs[i]])
    ensures Concat(group + [segs[i]]) == Concat(group) + segs[i]
    ensures TokenSum(group + [segs[i]]) == TokenSum(group) + CountTokens(segs[i])
  {
    FoldStep(segs, i, maxTokens);
    ConcatAppend(group, [segs[i]]);
    ConcatSingle(segs[i]);
    TokenSumAppend(group, [segs[i]]);
  }

  /** A turn of the greedy pass that closes the filling group and starts a new
      one with segs[i]. */
  lemma CloseStep(segs: seq<string>, i: nat, maxTokens: int, closed: seq<seq<string>>, group: seq<string>)
    requires i < |segs| && Fold(segs[..i], maxTokens) == Greedy(closed, group)
    requires TokenSum(group) + CountTokens(segs[i]) > maxTokens
    ensures Fold(segs[..i + 1], maxTokens) == Greedy(closed + [group], [segs[i]])
    ensures Chunks(closed + [group]) == Flush(Chunks(closed), Concat(group))
    ensures Concat([segs[i]]) == segs[i] && TokenSum([segs[i]]) == CountTokens(segs[i])
  {
    FoldStep(segs, i, maxTokens);
    ChunksSnoc(closed, group);
    ConcatSingle(segs[i]);
    assert [segs[i]][1..] == [];
  }

  lemma FoldStep(segs: seq<string>, i: nat, maxTokens: int)
    requires i < |segs|
    ensures Fold(segs[..i + 1], maxTokens) == Step(Fold(segs[..i], maxTokens), segs[i], maxTokens)
  {
    assert segs[..i + 1][..i] == segs[..i];
  }

  lemma ChunksSnoc(groups: seq<seq<string>>, g: seq<string>)
    ensures Chunks(groups + [g]) == Flush(Chunks(groups), Concat(g))
  {
    assert (groups + [g])[..|groups|] == groups;
  }

  lemma {:induction false} FlattenAppend(groups: seq<seq<string>>, g: seq<string>)
    ensures Flatten(groups + [g]) == Flatten(groups) + g
  {
    assert (groups + [g])[..|groups|] == groups;
  }

  /** Only the first group may be empty. */
  predicate EmptyOnlyFirst(gs: seq<seq<string>>)
  {
    forall k :: 0 < k < |gs| ==> gs[k] != []
  }

  predicate AllWithinBudget(gs: seq<seq<string>>, maxTokens: int)
  {
    forall k :: 0 <= k < |gs| && gs[k] != [] ==> WithinBudget(gs[k], maxTokens)
  }

  /** Each group after the first starts with a segment that did not fit into
      the group before it. */
  predicate CutsAreForced(gs: seq<seq<string>>, maxTokens: int)
  {
    forall k :: 0 < k < |gs| && gs[k] != [] ==> TokenSum(gs[k - 1]) + CountTokens(gs[k][0]) > maxTokens
  }

  /** What the greedy pass keeps true of its state: the closed groups and the
      filling group cut the consumed segments into consecutive groups, only
      the first of them can be empty (when the first segment alone exceeds the
      ceiling), every non-empty group is within budget and every cut was
      forced. */
  predicate GreedyInvariant(gs: seq<seq<string>>, segs: seq<string>, maxTokens: int)
  {
    |gs| >= 1 && Flatten(gs) == segs && (segs != [] ==> gs[|gs| - 1] != []) &&
    EmptyOnlyFirst(gs) && AllWithinBudget(gs, maxTokens) && CutsAreForced(gs, maxTokens)
  }

  /** The segment joins the filling group. */
  lemma JoinKeepsInvariant(gs: seq<seq<string>>, segs: seq<string>, seg: string, maxTokens: int)
    requires GreedyInvariant(gs, segs, maxTokens)
    requires TokenSum(gs[|gs| - 1]) + CountTokens(seg) <= maxTokens
    ensures GreedyInvariant(gs[..|gs| - 1] + [gs[|gs| - 1] + [seg]], segs + [seg], maxTokens)
  {
    JoinFlatten(gs, seg);
    TokenSumAppend(gs[|gs| - 1], [seg]);
    assert WithinBudget(gs[|gs| - 1] + [seg], maxTokens);
    JoinKeepsShape(gs, seg, maxTokens);
  }

  lemma JoinFlatten(gs: seq<seq<string>>, seg: string)
    requires |gs| >= 1
    ensures Flatten(gs[..|gs| - 1] + [gs[|gs| - 1] + [seg]]) == Flatten(gs) + [seg]
  {
    var n := |gs|;
    assert gs == gs[..n - 1] + [gs[n - 1]];
    FlattenAppend(gs[..n - 1], gs[n - 1]);
    FlattenAppend(gs[..n - 1], gs[n - 1] + [seg]);
    AppendAssoc(Flatten(gs[..n - 1]), gs[n - 1], [seg]);
  }

  lemma JoinKeepsShape(gs: seq<seq<string>>, seg: string, maxTokens: int)
    requires |gs| >= 1 && EmptyOnlyFirst(gs) && AllWithinBudget(gs, maxTokens) && CutsAreForced(gs, maxTokens)
    requires WithinBudget(gs[|gs| - 1] + [seg], maxTokens)
    ensures var gs' := gs[..|gs| - 1] + [gs[|gs| - 1] + [seg]];
      EmptyOnlyFirst(gs') && AllWithinBudget(gs', maxTokens) && CutsAreForced(gs', maxTokens)
  {
    var n := |gs|;
    var last := gs[n - 1];
    var gs' := gs[..n - 1] + [last + [seg]];
    assert forall k :: 0 <= k < n - 1 ==> gs'[k] == gs[k];
    assert gs'[n - 1] == last + [seg];
    if last != [] {
      assert (last + [seg])[0] == last[0];
    }
  }

  /** The filling group is closed and the segment starts a new one. */
  lemma CloseKeepsInvariant(gs: seq<seq<string>>, segs: seq<string>, seg: string, maxTokens: int)
    requires GreedyInvariant(gs, segs, maxTokens)
    requires TokenSum(gs[|gs| - 1]) + CountTokens(seg) > maxTokens
    ensures GreedyInvariant(gs + [[seg]], segs + [seg], maxTokens)
  {
    FlattenAppend(gs, [seg]);
    CloseKeepsShape(gs, seg, maxTokens);
  }

  lemma CloseKeepsShape(gs: seq<seq<string>>, seg: string, maxTokens: int)
    requires |gs| >= 1 && EmptyOnlyFirst(gs) && AllWithinBudget(gs, maxTokens) && CutsAreForced(gs, maxTokens)
    requires TokenSum(gs[|gs| - 1]) + CountTokens(seg) > maxTokens
    ensures var gs' := gs + [[seg]];
      EmptyOnlyFirst(gs') && AllWithinBudget(gs', maxTokens) && CutsAreForced(gs', maxTokens)
  {
    var gs' := gs + [[seg]];
    assert forall k :: 0 <= k < |gs| ==> gs'[k] == gs[k];
    assert gs'[|gs|] == [seg];
    assert TokenSum([seg]) == CountTokens(seg);
    assert WithinBudget([seg], maxTokens);
  }

  lemma {:induction false} FoldInvariant(segs: seq<string>, maxTokens: int)
    ensures GreedyInvariant(Groups(segs, maxTokens), segs, maxTokens)
  {
    if segs == [] {
      assert Groups(segs, maxTokens) == [[]];
    } else {
      var init := segs[..|segs| - 1];
      FoldInvariant(init, maxTokens);
      InitLast(segs);
      FoldInvariantStep(init, segs[|segs| - 1], maxTokens);
    }
  }

  /** One more segment keeps the invariant, through the join or the close branch. */
  lemma FoldInvariantStep(init: seq<string>, seg: string, maxTokens: int)
    requires GreedyInvariant(Groups(init, maxTokens), init, maxTokens)
    ensures GreedyInvariant(Groups(init + [seg], maxTokens), init + [seg], maxTokens)
  {
    var gs := Groups(init, maxTokens);
    if TokenSum(gs[|gs| - 1]) + CountTokens(seg) <= maxTokens {
      GroupsJoin(init, seg, maxTokens);
      JoinKeepsInvariant(gs, init, seg, maxTokens);
    } else {
      GroupsClose(init, seg, maxTokens);
      CloseKeepsInvariant(gs, init, seg, maxTokens);
    }
  }

  /** The groups when the segment joins the filling group. */
  lemma GroupsJoin(init: seq<string>, seg: string, maxTokens: int)
    requires var gs := Groups(init, maxTokens); TokenSum(gs[|gs| - 1]) + CountTokens(seg) <= maxTokens
    ensures var gs := Groups(init, maxTokens);
      Groups(init + [seg], maxTokens) == gs[..|gs| - 1] + [gs[|gs| - 1] + [seg]]
  {
    SnocParts(init, seg);
    var g := Fold(init, maxTokens);
    var gs := g.closed + [g.filling];
    assert gs[..|gs| - 1] == g.closed;
    assert gs[|gs| - 1] == g.filling;
  }

  /** The groups when the segment opens a new group. */
  lemma GroupsClose(init: seq<string>, seg: string, maxTokens: int)
    requires var gs := Groups(init, maxTokens); TokenSum(gs[|gs| - 1]) + CountTokens(seg) > maxTokens
    ensures Groups(init + [seg], maxTokens) == Groups(init, maxTokens) + [[seg]]
  {
    SnocParts(init, seg);
    var g := Fold(init, maxTokens);
    var gs := g.closed + [g.filling];
    assert gs[|gs| - 1] == g.filling;
  }

  /** The greedy pass, lines 62-77: its chunks are the non-empty
      concatenations of a cut of the input into consecutive groups; every
      group sums to at most the ceiling or is a single oversize segment; and
      every group after the first begins with a segment that would have
      pushed the previous group's sum over the ceiling. */
  lemma GreedyGroupsSpec(segs: seq<string>, maxTokens: int)
    ensures var gs := Groups(segs, maxTokens);
      GreedyMerge(segs, maxTokens) == Chunks(gs) &&
      Flatten(gs) == segs &&
      (forall k :: 0 < k < |gs| ==> gs[k] != []) &&
      (forall k :: 0 <= k < |gs| && gs[k] != [] ==> WithinBudget(gs[k], maxTokens)) &&
      (forall k :: 0 < k < |gs| && gs[k] != [] ==> TokenSum(gs[k - 1]) + CountTokens(gs[k][0]) > maxTokens)
  {
    FoldInvariant(segs, maxTokens);
    var gs := Groups(segs, maxTokens);
    assert GreedyMerge(segs, maxTokens) == Chunks(gs);
    assert EmptyOnlyFirst(gs) && AllWithinBudget(gs, maxTokens) && CutsAreForced(gs, maxTokens);
  }

  lemma {:induction false} ChunksConcat(groups: seq<seq<string>>)
    ensures Concat(Chunks(groups)) == Concat(Flatten(groups))
  {
    if groups != [] {
      var init, last := groups[..|groups| - 1], groups[|groups| - 1];
      ChunksConcat(init);
      ConcatAppend(Flatten(init), last);
      ConcatAppend(Chunks(init), if Concat(last) == "" then [] else [Concat(last)]);
    }
  }

  /** The greedy pass neither drops nor reorders text. */
  lemma GreedyMergePreservesContent(segs: seq<string>, maxTokens: int)
    ensures Concat(GreedyMerge(segs, maxTokens)) == Concat(segs)
  {
    FoldInvariant(segs, maxTokens);
    ChunksConcat(Groups(segs, maxTokens));
  }

  lemma HalfAverage(last: nat, total: nat, k: nat)
    requires k >= 1
    ensures (last as real) < (total as real / k as real) * 0.5 <==> 2 * last * k < total
  {
    var avg := total as real / k as real;
    assert avg * (k as real) == total as real;
    assert (2 * last * k) as real == 2.0 * (last as real) * (k as real);
    if (last as real) < avg * 0.5 {
      MulStrict(2.0 * (last as real), avg, k as real);
    } else {
      MulMono(avg, 2.0 * (last as real), k as real);
    }
  }

  lemma MulStrict(x: real, y: real, k: real)
    requires x < y && k > 0.0
    ensures x * k < y * k
  {
  }

  lemma MulMono(x: real, y: real, k: real)
    requires x <= y && k > 0.0
    ensures x * k <= y * k
  {
  }

  /** The fix-up makes at most one change: it joins the last two chunks,
      only when the last estimate is below half the average and the joined
      estimate fits the ceiling, and it joins them whenever both hold;
      everything before them is left as it was and no text is lost. */
  lemma TailFixSpec(merged: seq<string>, maxTokens: int)
    ensures var r := TailFix(merged, maxTokens);
      Concat(r) == Concat(merged) &&
      (r == merged || |r| == |merged| - 1) &&
      (|r| == |merged| - 1 <==>
        |merged| >= 2 &&
        2 * CountTokens(merged[|merged| - 1]) * |merged| < TokenSum(merged) &&
        CountTokens(merged[|merged| - 2] + merged[|merged| - 1]) <= maxTokens) &&
      (|r| == |merged| - 1 ==>
        r[..|r| - 1] == merged[..|merged| - 2] &&
        r[|r| - 1] == merged[|merged| - 2] + merged[|merged| - 1] &&
        CountTokens(r[|r| - 1]) <= maxTokens)
  {
    TailFixContent(merged, maxTokens);
    if |merged| >= 2 {
      SnocParts(merged[..|merged| - 2], merged[|merged| - 2] + merged[|merged| - 1]);
    }
  }

  /** The fix-up keeps the concatenated text. */
  lemma TailFixContent(merged: seq<string>, maxTokens: int)
    ensures Concat(TailFix(merged, maxTokens)) == Concat(merged)
  {
    var n := |merged|;
    if n >= 2 {
      var a, b := merged[n - 2], merged[n - 1];
      LastTwo(merged);
      ConcatAppend(merged[..n - 2], [a, b]);
      ConcatAppend(merged[..n - 2], [a + b]);
      ConcatPair(a, b);
      ConcatSingle(a + b);
    }
  }

  /** balance_segments neither drops nor reorders text. */
  lemma BalancePreservesContent(segs: seq<string>, maxTokens: int)
    ensures Concat(Balance(segs, maxTokens)) == Concat(segs)
  {
    if |segs| >= 2 && TokenSum(segs) > maxTokens {
      GreedyMergePreservesContent(segs, maxTokens);
      TailFixSpec(GreedyMerge(segs, maxTokens), maxTokens);
    }
  }

  /** The bound the output of balance_segments does meet: every chunk is one
      of the input segments (an oversize segment passes through unsplit) or
      has an estimate at most half a token per input segment above the
      ceiling (the ceiling bounds summed per-segment estimates, and the
      estimate of a joined string can exceed that sum). */
  predicate ChunkBounded(c: string, segs: seq<string>, maxTokens: int)
  {
    c in segs || CountTokens(c) <= maxTokens + |segs| / 2
  }

  lemma BalanceChunkBound(segs: seq<string>, maxTokens: int)
    ensures forall c :: c in Balance(segs, maxTokens) ==> ChunkBounded(c, segs, maxTokens)
  {
    if |segs| >= 2 {
      if TokenSum(segs) <= maxTokens {
        TokensOfConcat(segs);
      } else {
        GreedyChunksBounded(segs, maxTokens);
        TailFixKeepsBound(GreedyMerge(segs, maxTokens), segs, maxTokens);
      }
    }
  }

  lemma GreedyChunksBounded(segs: seq<string>, maxTokens: int)
    ensures forall c :: c in GreedyMerge(segs, maxTokens) ==> ChunkBounded(c, segs, maxTokens)
  {
    var gs := Groups(segs, maxTokens);
    FoldInvariant(segs, maxTokens);
    forall j | 0 <= j < |gs| && Concat(gs[j]) != ""
      ensures ChunkBounded(Concat(gs[j]), segs, maxTokens)
    {
      FlattenHolds(gs, j);
      var g := gs[j];
      assert g != [];
      assert WithinBudget(g, maxTokens);
      if TokenSum(g) <= maxTokens {
        TokensOfConcat(g);
      } else {
        assert g == [g[0]];
        ConcatSingle(g[0]);
      }
    }
    ChunksInherit(gs, segs, maxTokens);
  }

  lemma TailFixKeepsBound(m: seq<string>, segs: seq<string>, maxTokens: int)
    requires forall c :: c in m ==> ChunkBounded(c, segs, maxTokens)
    ensures forall c :: c in TailFix(m, maxTokens) ==> ChunkBounded(c, segs, maxTokens)
  {
    TailFixSpec(m, maxTokens);
    var r := TailFix(m, maxTokens);
    if r != m {
      assert r == r[..|r| - 1] + [r[|r| - 1]];
      forall c | c in r ensures ChunkBounded(c, segs, maxTokens) {
        if c != r[|r| - 1] {
          assert c in r[..|r| - 1];
          assert c in m;
        }
      }
    }
  }

  lemma {:induction false} FlattenHolds(gs: seq<seq<string>>, j: nat)
    requires j < |gs|
    ensures |gs[j]| <= |Flatten(gs)|
    ensures forall s :: s in gs[j] ==> s in Flatten(gs)
  {
    var init, last := gs[..|gs| - 1], gs[|gs| - 1];
    if j < |gs| - 1 {
      FlattenHolds(init, j);
      assert init[j] == gs[j];
    }
  }

  lemma {:induction false} ChunksInherit(gs: seq<seq<string>>, segs: seq<string>, maxTokens: int)
    requires forall j :: 0 <= j < |gs| && Concat(gs[j]) != "" ==> ChunkBounded(Concat(gs[j]), segs, maxTokens)
    ensures forall c :: c in Chunks(gs) ==> ChunkBounded(c, segs, maxTokens)
  {
    if gs != [] {
      var init := gs[..|gs| - 1];
      assert forall j :: 0 <= j < |init| ==> init[j] == gs[j];
      ChunksInherit(init, segs, maxTokens);
    }
  }

  /** The ceiling is not a bound on the estimate of a chunk: both segments
      count 2, their sum 4 fits a ceiling of 4, and the joined text counts 5
      because the two one-letter words, each truncated from 1.5 to 1, are
      counted together as 3. */
  lemma SumCeilingIsNotTokenCeiling()
    ensures Balance(["你a", "你b"], 4) == ["你a你b"]
    ensures CountTokens("你a你b") == 5
  {
    PairTokenSum();
    ConcatPair("你a", "你b");
    assert "你a" + "你b" == "你a你b";
    JoinedPairTokens();
  }

  /** Each of the two segments counts 2: one ideograph and one short word. */
  lemma PairTokenSum()
    ensures TokenSum(["你a", "你b"]) == 4
  {
    assert CountTokens("你a") == 2;
    assert CountTokens("你b") == 2;
    assert ["你a", "你b"][1..] == ["你b"];
  }

  /** The joined text counts 2 ideographs plus 3 for its two words. */
  lemma JoinedPairTokens()
    ensures CountTokens("你a你b") == 5
  {
    assert CjkCount("你a你b") == 2;
    assert LetterRuns("你a你b") == 2;
  }
}
