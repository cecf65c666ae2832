/** SourceAFIS.Matching.Minutia.MinutiaMatcher: matches a probe template against a
    candidate. For each root pair (up to `MaxTriedRoots` of them) the pairing is grown
    from that root along matching edges, the grown pairing is scored, and the best
    score wins.

    Collaborators that are not part of this model are inputs:
    - the root selector's output is the sequence `roots`;
    - EdgeConstructor is the function `construct`;
    - EdgeLookup.FindMatchingPairs is the function `lookup`;
    - MatchAnalysis.Analyze is the function `analyze`, from the two templates, the
      pairs and the support counters to the statistics that are scored.
    PairSelector is not part of this model either. It is stood in for by `Queue`, a
    priority queue of pairs kept as a sequence sorted by key (edge length), with
    `Enqueue`, `SkipPaired` and dequeue-from-the-front. The support counters that
    `AddSupportByProbe` increments are the per-probe-minutia sequence `Support`. */
module MinutiaMatcher {
  import opened Sorting
  import opened MinutiaPairing
  import opened Edges
  import opened MatchScoring

  /** `EdgeLookup.EdgePair`: positions in the probe row and in the candidate row. */
  datatype EdgePair = EdgePair(ProbeIndex: int, CandidateIndex: int)

  /** `ProbeIndex`: the probe template with its edge table. */
  datatype ProbeIndex = ProbeIndex(Template: Template, Edges: seq<seq<NeighborEdge>>)

  /** The lookup only names positions inside the two rows it is given. */
  ghost predicate LookupInRange(lookup: (seq<NeighborEdge>, seq<NeighborEdge>) -> seq<EdgePair>)
  {
    forall probeRow, candidateRow, k :: 0 <= k < |lookup(probeRow, candidateRow)| ==>
      && 0 <= lookup(probeRow, candidateRow)[k].ProbeIndex < |probeRow|
      && 0 <= lookup(probeRow, candidateRow)[k].CandidateIndex < |candidateRow|
  }

  // ------------------------------------------------------------ the pair queue

  /** A pair waiting in the queue, with the length of its candidate edge as key. */
  datatype QueuedPair = QueuedPair(Pair: MinutiaPair, Key: int)

  function QueueKey(entry: QueuedPair): int { entry.Key }

  predicate QueueInRange(queue: seq<QueuedPair>, probeCount: int, candidateCount: int)
  {
    forall i :: 0 <= i < |queue| ==>
      0 <= queue[i].Pair.Probe < probeCount && 0 <= queue[i].Pair.Candidate < candidateCount
  }

  /** `PairSelector.Enqueue` of each entry in turn. */
  function EnqueueAll(queue: seq<QueuedPair>, entries: seq<QueuedPair>): (r: seq<QueuedPair>)
    requires SortedBy(queue, QueueKey)
    ensures SortedBy(r, QueueKey) && multiset(r) == multiset(queue) + multiset(entries)
  {
    if entries == [] then queue
    else
      var init := entries[..|entries| - 1];
      assert entries == init + [entries[|entries| - 1]];
      InsertBy(EnqueueAll(queue, init), entries[|entries| - 1], QueueKey)
  }

  /** Either minutia of the pair is already paired. */
  predicate IsPaired(pair: MinutiaPair, candidateByProbe: seq<int>, probeByCandidate: seq<int>)
    requires 0 <= pair.Probe < |candidateByProbe| && 0 <= pair.Candidate < |probeByCandidate|
  {
    candidateByProbe[pair.Probe] >= 0 || probeByCandidate[pair.Candidate] >= 0
  }

  /** `PairSelector.SkipPaired`: drops queued pairs from the front while they are paired. */
  function SkipPaired(queue: seq<QueuedPair>, candidateByProbe: seq<int>, probeByCandidate: seq<int>): (r: seq<QueuedPair>)
    requires QueueInRange(queue, |candidateByProbe|, |probeByCandidate|)
    ensures |r| <= |queue| && r == queue[|queue| - |r|..]
    ensures forall i :: 0 <= i < |queue| - |r| ==> IsPaired(queue[i].Pair, candidateByProbe, probeByCandidate)
    ensures r != [] ==> !IsPaired(r[0].Pair, candidateByProbe, probeByCandidate)
  {
    if queue == [] then []
    else if IsPaired(queue[0].Pair, candidateByProbe, probeByCandidate) then
      var rest := SkipPaired(queue[1..], candidateByProbe, probeByCandidate);
      assert forall i :: 1 <= i < |queue| ==> queue[i] == queue[1..][i - 1];
      rest
    else queue
  }

  /** `SkipPaired` never drops an unpaired entry. */
  lemma UnpairedSurvivesSkip(queue: seq<QueuedPair>, candidateByProbe: seq<int>, probeByCandidate: seq<int>, e: QueuedPair)
    requires QueueInRange(queue, |candidateByProbe|, |probeByCandidate|) && e in queue
    requires 0 <= e.Pair.Probe < |candidateByProbe| && 0 <= e.Pair.Candidate < |probeByCandidate|
    requires !IsPaired(e.Pair, candidateByProbe, probeByCandidate)
    ensures e in SkipPaired(queue, candidateByProbe, probeByCandidate)
  {
    var r := SkipPaired(queue, candidateByProbe, probeByCandidate);
    var dropped := |queue| - |r|;
    var k :| 0 <= k < |queue| && queue[k] == e;
    assert !IsPaired(queue[k].Pair, candidateByProbe, probeByCandidate);
    assert dropped <= k;
    assert r[k - dropped] == queue[dropped..][k - dropped];
  }

  /** A queue inside smaller bounds is inside larger ones. */
  lemma QueueInRangeWider(queue: seq<QueuedPair>, probeCount: int, candidateCount: int, probeBound: int, candidateBound: int)
    requires QueueInRange(queue, probeCount, candidateCount) && probeCount <= probeBound && candidateCount <= candidateBound
    ensures QueueInRange(queue, probeBound, candidateBound)
  {
  }

  /** What is left after `SkipPaired` stays sorted and in range. */
  lemma SuffixKeepsQueue(queue: seq<QueuedPair>, n: int, probeCount: int, candidateCount: int)
    requires SortedBy(queue, QueueKey) && QueueInRange(queue, probeCount, candidateCount) && 0 <= n <= |queue|
    ensures SortedBy(queue[n..], QueueKey) && QueueInRange(queue[n..], probeCount, candidateCount)
  {
    forall i, j | 0 <= i < j < |queue[n..]|
      ensures QueueKey(queue[n..][i]) <= QueueKey(queue[n..][j])
    {
      assert queue[n..][i] == queue[n + i] && queue[n..][j] == queue[n + j];
    }
  }

  // ------------------------------------------------------------ collecting edges

  /** The neighbour pairs the lookup matched around the last added pair, each keyed by
      the length of its candidate edge. */
  function MatchedNeighbors(edgePairs: seq<EdgePair>, probeRow: seq<NeighborEdge>, candidateRow: seq<NeighborEdge>)
    : (r: seq<QueuedPair>)
    requires forall k :: 0 <= k < |edgePairs| ==>
      0 <= edgePairs[k].ProbeIndex < |probeRow| && 0 <= edgePairs[k].CandidateIndex < |candidateRow|
    ensures |r| == |edgePairs|
  {
    if edgePairs == [] then []
    else
      var last := edgePairs[|edgePairs| - 1];
      MatchedNeighbors(edgePairs[..|edgePairs| - 1], probeRow, candidateRow)
        + [QueuedPair(MinutiaPair(probeRow[last.ProbeIndex].Neighbor, candidateRow[last.CandidateIndex].Neighbor),
                      candidateRow[last.CandidateIndex].Edge.Length)]
  }

  lemma {:induction false} MatchedAt(edgePairs: seq<EdgePair>, probeRow: seq<NeighborEdge>, candidateRow: seq<NeighborEdge>, k: int)
    requires forall k :: 0 <= k < |edgePairs| ==>
      0 <= edgePairs[k].ProbeIndex < |probeRow| && 0 <= edgePairs[k].CandidateIndex < |candidateRow|
    requires 0 <= k < |edgePairs|
    ensures MatchedNeighbors(edgePairs, probeRow, candidateRow)[k] == QueuedPair(
      MinutiaPair(probeRow[edgePairs[k].ProbeIndex].Neighbor, candidateRow[edgePairs[k].CandidateIndex].Neighbor),
      candidateRow[edgePairs[k].CandidateIndex].Edge.Length)
  {
    if k < |edgePairs| - 1 {
      var init := edgePairs[..|edgePairs| - 1];
      MatchedAt(init, probeRow, candidateRow, k);
    }
  }

  /** The matched pairs `CollectEdges` enqueues: those whose two minutiae are unpaired. */
  function ToEnqueue(matched: seq<QueuedPair>, candidateByProbe: seq<int>, probeByCandidate: seq<int>): (r: seq<QueuedPair>)
    requires QueueInRange(matched, |candidateByProbe|, |probeByCandidate|)
  {
    if matched == [] then []
    else
      var init, last := matched[..|matched| - 1], matched[|matched| - 1];
      assert forall e :: e in init ==> e in matched;
      var before := ToEnqueue(init, candidateByProbe, probeByCandidate);
      if !IsPaired(last.Pair, candidateByProbe, probeByCandidate) then before + [last] else before
  }

  /** The support counters after `CollectEdges`: one more for each matched pair whose
      probe minutia is already paired with exactly that candidate minutia. */
  function SupportAfter(support: seq<int>, matched: seq<QueuedPair>, candidateByProbe: seq<int>, probeByCandidate: seq<int>)
    : (r: seq<int>)
    requires QueueInRange(matched, |candidateByProbe|, |probeByCandidate|) && |support| == |candidateByProbe|
    ensures |r| == |support|
  {
    if matched == [] then support
    else
      var init, last := matched[..|matched| - 1], matched[|matched| - 1];
      assert forall e :: e in init ==> e in matched;
      var before := SupportAfter(support, init, candidateByProbe, probeByCandidate);
      if !IsPaired(last.Pair, candidateByProbe, probeByCandidate) then before
      else if candidateByProbe[last.Pair.Probe] == last.Pair.Candidate
      then before[last.Pair.Probe := before[last.Pair.Probe] + 1]
      else before
  }

  /** A pair is enqueued exactly when it was matched and both its minutiae are unpaired. */
  lemma {:induction false} ToEnqueueExactly(matched: seq<QueuedPair>, candidateByProbe: seq<int>, probeByCandidate: seq<int>, entry: QueuedPair)
    requires QueueInRange(matched, |candidateByProbe|, |probeByCandidate|)
    ensures entry in ToEnqueue(matched, candidateByProbe, probeByCandidate) <==>
      entry in matched && !IsPaired(entry.Pair, candidateByProbe, probeByCandidate)
  {
    if matched != [] {
      var init := matched[..|matched| - 1];
      assert forall e :: e in init ==> e in matched;
      ToEnqueueExactly(init, candidateByProbe, probeByCandidate, entry);
      assert matched == init + [matched[|matched| - 1]];
    }
  }

  /** Support never drops, and it grows for a probe minutia only when some matched pair
      agrees with what that minutia is already paired with. */
  lemma {:induction false} SupportOnlyAgreeing(
    support: seq<int>, matched: seq<QueuedPair>, candidateByProbe: seq<int>, probeByCandidate: seq<int>, probe: int)
    requires QueueInRange(matched, |candidateByProbe|, |probeByCandidate|) && |support| == |candidateByProbe|
    requires 0 <= probe < |support|
    ensures SupportAfter(support, matched, candidateByProbe, probeByCandidate)[probe] >= support[probe]
    ensures SupportAfter(support, matched, candidateByProbe, probeByCandidate)[probe] > support[probe] ==>
      exists k :: 0 <= k < |matched| && matched[k].Pair == MinutiaPair(probe, candidateByProbe[probe])
  {
    if matched != [] {
      var init := matched[..|matched| - 1];
      assert forall e :: e in init ==> e in matched;
      SupportOnlyAgreeing(support, init, candidateByProbe, probeByCandidate, probe);
      var before := SupportAfter(support, init, candidateByProbe, probeByCandidate);
      if before[probe] > support[probe] {
        var k :| 0 <= k < |init| && init[k].Pair == MinutiaPair(probe, candidateByProbe[probe]);
        assert matched[k] == init[k];
      }
    }
  }

  /** The matched neighbours are minutiae of the two templates. */
  lemma MatchedInRange(edgePairs: seq<EdgePair>, probeRow: seq<NeighborEdge>, candidateRow: seq<NeighborEdge>,
    probeCount: int, candidateCount: int)
    requires forall k :: 0 <= k < |edgePairs| ==>
      0 <= edgePairs[k].ProbeIndex < |probeRow| && 0 <= edgePairs[k].CandidateIndex < |candidateRow|
    requires forall k :: 0 <= k < |probeRow| ==> 0 <= probeRow[k].Neighbor < probeCount
    requires forall k :: 0 <= k < |candidateRow| ==> 0 <= candidateRow[k].Neighbor < candidateCount
    ensures QueueInRange(MatchedNeighbors(edgePairs, probeRow, candidateRow), probeCount, candidateCount)
  {
    var matched := MatchedNeighbors(edgePairs, probeRow, candidateRow);
    forall k | 0 <= k < |matched|
      ensures 0 <= matched[k].Pair.Probe < probeCount && 0 <= matched[k].Pair.Candidate < candidateCount
    {
      MatchedAt(edgePairs, probeRow, candidateRow, k);
    }
  }

  /** Enqueuing matched pairs keeps the queue inside both templates. */
  lemma EnqueuedInRange(queue: seq<QueuedPair>, matched: seq<QueuedPair>, candidateByProbe: seq<int>, probeByCandidate: seq<int>,
    probeCount: int, candidateCount: int)
    requires SortedBy(queue, QueueKey) && QueueInRange(queue, probeCount, candidateCount)
    requires QueueInRange(matched, probeCount, candidateCount)
    requires QueueInRange(matched, |candidateByProbe|, |probeByCandidate|)
    ensures QueueInRange(EnqueueAll(queue, ToEnqueue(matched, candidateByProbe, probeByCandidate)), probeCount, candidateCount)
  {
    var entries := ToEnqueue(matched, candidateByProbe, probeByCandidate);
    var r := EnqueueAll(queue, entries);
    forall entry | entry in r
      ensures 0 <= entry.Pair.Probe < probeCount && 0 <= entry.Pair.Candidate < candidateCount
    {
      assert entry in multiset(r);
      if entry !in queue {
        assert entry in multiset(entries);
        ToEnqueueExactly(matched, candidateByProbe, probeByCandidate, entry);
      }
    }
  }

  /** No counter of `after` is below the matching counter of `before`. */
  predicate NoneDropped(before: seq<int>, after: seq<int>)
  {
    |after| == |before| && forall p :: 0 <= p < |before| ==> after[p] >= before[p]
  }

  lemma NoneDroppedTransitive(a: seq<int>, b: seq<int>, c: seq<int>)
    requires NoneDropped(a, b) && NoneDropped(b, c)
    ensures NoneDropped(a, c)
  {
  }

  /** What `CollectEdges` keeps: the queue stays inside both templates and no support
      counter drops. */
  lemma CollectKeepsBounds(queue: seq<QueuedPair>, support: seq<int>, matched: seq<QueuedPair>,
    candidateByProbe: seq<int>, probeByCandidate: seq<int>, probeCount: int, candidateCount: int)
    requires SortedBy(queue, QueueKey) && QueueInRange(queue, probeCount, candidateCount)
    requires QueueInRange(matched, probeCount, candidateCount)
    requires probeCount == |candidateByProbe| == |support| && candidateCount <= |probeByCandidate|
    ensures QueueInRange(matched, |candidateByProbe|, |probeByCandidate|)
    ensures QueueInRange(EnqueueAll(queue, ToEnqueue(matched, candidateByProbe, probeByCandidate)), probeCount, candidateCount)
    ensures NoneDropped(support, SupportAfter(support, matched, candidateByProbe, probeByCandidate))
  {
    QueueInRangeWider(matched, probeCount, candidateCount, |candidateByProbe|, |probeByCandidate|);
    EnqueuedInRange(queue, matched, candidateByProbe, probeByCandidate, probeCount, candidateCount);
    forall p | 0 <= p < |support|
      ensures SupportAfter(support, matched, candidateByProbe, probeByCandidate)[p] >= support[p]
    {
      SupportOnlyAgreeing(support, matched, candidateByProbe, probeByCandidate, p);
    }
  }

  /** The body of the loop of `CollectEdges` for one matched pair of neighbours. */
  method CollectPair(queue: seq<QueuedPair>, support: seq<int>, entry: QueuedPair,
    candidateByProbe: seq<int>, probeByCandidate: seq<int>)
    returns (queue': seq<QueuedPair>, support': seq<int>)
    requires 0 <= entry.Pair.Probe < |candidateByProbe| == |support| && 0 <= entry.Pair.Candidate < |probeByCandidate|
    requires SortedBy(queue, QueueKey)
    ensures queue' == if !IsPaired(entry.Pair, candidateByProbe, probeByCandidate) then InsertBy(queue, entry, QueueKey) else queue
    ensures support' == if IsPaired(entry.Pair, candidateByProbe, probeByCandidate) && candidateByProbe[entry.Pair.Probe] == entry.Pair.Candidate
      then support[entry.Pair.Probe := support[entry.Pair.Probe] + 1] else support
  {
    var probe, candidate := entry.Pair.Probe, entry.Pair.Candidate;
    queue', support' := queue, support;
    if probeByCandidate[candidate] < 0 && candidateByProbe[probe] < 0 {
      queue' := InsertBy(queue, entry, QueueKey);
    } else if candidateByProbe[probe] == candidate {
      support' := support[probe := support[probe] + 1];
    }
  }

  /** After the first `k` matched pairs the queue and the counters stand as `ToEnqueue`
      and `SupportAfter` say. */
  ghost predicate CollectedUpTo(queue: seq<QueuedPair>, support: seq<int>, matched: seq<QueuedPair>, k: int,
    candidateByProbe: seq<int>, probeByCandidate: seq<int>, queue': seq<QueuedPair>, support': seq<int>)
  {
    && SortedBy(queue, QueueKey) && |support| == |candidateByProbe|
    && 0 <= k <= |matched| && QueueInRange(matched[..k], |candidateByProbe|, |probeByCandidate|)
    && queue' == EnqueueAll(queue, ToEnqueue(matched[..k], candidateByProbe, probeByCandidate))
    && support' == SupportAfter(support, matched[..k], candidateByProbe, probeByCandidate)
  }

  /** The loop of `CollectEdges`, over the maps as they stand (the loop adds no pair). */
  method CollectPass(queue: seq<QueuedPair>, support: seq<int>, edgePairs: seq<EdgePair>,
    probeRow: seq<NeighborEdge>, candidateRow: seq<NeighborEdge>, candidateByProbe: seq<int>, probeByCandidate: seq<int>)
    returns (queue': seq<QueuedPair>, support': seq<int>)
    requires forall k :: 0 <= k < |edgePairs| ==>
      0 <= edgePairs[k].ProbeIndex < |probeRow| && 0 <= edgePairs[k].CandidateIndex < |candidateRow|
    requires QueueInRange(MatchedNeighbors(edgePairs, probeRow, candidateRow), |candidateByProbe|, |probeByCandidate|)
    requires SortedBy(queue, QueueKey) && |support| == |candidateByProbe|
    ensures queue' == EnqueueAll(queue, ToEnqueue(MatchedNeighbors(edgePairs, probeRow, candidateRow), candidateByProbe, probeByCandidate))
    ensures support' == SupportAfter(support, MatchedNeighbors(edgePairs, probeRow, candidateRow), candidateByProbe, probeByCandidate)
  {
    ghost var matched := MatchedNeighbors(edgePairs, probeRow, candidateRow);
    queue', support' := queue, support;
    for k := 0 to |edgePairs|
      invariant CollectedUpTo(queue, support, matched, k, candidateByProbe, probeByCandidate, queue', support')
    {
      var candidateEdge := candidateRow[edgePairs[k].CandidateIndex];
      var entry := QueuedPair(MinutiaPair(probeRow[edgePairs[k].ProbeIndex].Neighbor, candidateEdge.Neighbor), candidateEdge.Edge.Length);
      MatchedAt(edgePairs, probeRow, candidateRow, k);
      queue', support' := CollectNext(queue, support, matched, k, queue', support', entry, candidateByProbe, probeByCandidate);
    }
    assert matched[..|edgePairs|] == matched;
  }

  /** `CollectPair` as one step of `CollectPass`: after the first `k` matched pairs the
      queue and the counters stand as `ToEnqueue` and `SupportAfter` say, and the next
      pair keeps them so. */
  method CollectNext(ghost queue: seq<QueuedPair>, ghost support: seq<int>, ghost matched: seq<QueuedPair>, ghost k: int,
    queue': seq<QueuedPair>, support': seq<int>, entry: QueuedPair, candidateByProbe: seq<int>, probeByCandidate: seq<int>)
    returns (queue'': seq<QueuedPair>, support'': seq<int>)
    requires SortedBy(queue, QueueKey) && |support| == |candidateByProbe|
    requires QueueInRange(matched, |candidateByProbe|, |probeByCandidate|)
    requires 0 <= k < |matched| && entry == matched[k]
    requires queue' == EnqueueAll(queue, ToEnqueue(matched[..k], candidateByProbe, probeByCandidate))
    requires support' == SupportAfter(support, matched[..k], candidateByProbe, probeByCandidate)
    ensures queue'' == EnqueueAll(queue, ToEnqueue(matched[..k + 1], candidateByProbe, probeByCandidate))
    ensures support'' == SupportAfter(support, matched[..k + 1], candidateByProbe, probeByCandidate)
  {
    CollectStep(queue, support, matched, k, queue', support', entry, candidateByProbe, probeByCandidate);
    queue'', support'' := CollectPair(queue', support', entry, candidateByProbe, probeByCandidate);
  }

  /** `EnqueueStep` and `SupportStep` for the prefix of length `k + 1` of `matched`,
      stated as `CollectPair` states its result. */
  lemma CollectStep(queue: seq<QueuedPair>, support: seq<int>, matched: seq<QueuedPair>, k: int,
    queue': seq<QueuedPair>, support': seq<int>, entry: QueuedPair, candidateByProbe: seq<int>, probeByCandidate: seq<int>)
    requires SortedBy(queue, QueueKey) && |support| == |candidateByProbe|
    requires QueueInRange(matched, |candidateByProbe|, |probeByCandidate|)
    requires 0 <= k < |matched| && entry == matched[k]
    requires queue' == EnqueueAll(queue, ToEnqueue(matched[..k], candidateByProbe, probeByCandidate))
    requires support' == SupportAfter(support, matched[..k], candidateByProbe, probeByCandidate)
    ensures QueueInRange(matched[..k + 1], |candidateByProbe|, |probeByCandidate|)
    ensures 0 <= entry.Pair.Probe < |candidateByProbe| == |support'| && 0 <= entry.Pair.Candidate < |probeByCandidate|
    ensures SortedBy(queue', QueueKey)
    ensures EnqueueAll(queue, ToEnqueue(matched[..k + 1], candidateByProbe, probeByCandidate))
      == if !IsPaired(entry.Pair, candidateByProbe, probeByCandidate) then InsertBy(queue', entry, QueueKey) else queue'
    ensures SupportAfter(support, matched[..k + 1], candidateByProbe, probeByCandidate)
      == if IsPaired(entry.Pair, candidateByProbe, probeByCandidate) && candidateByProbe[entry.Pair.Probe] == entry.Pair.Candidate
         then support'[entry.Pair.Probe := support'[entry.Pair.Probe] + 1] else support'
  {
    PrefixSnoc(matched, k);
    PrefixInRange(matched, k, |candidateByProbe|, |probeByCandidate|);
    EnqueueStep(queue, matched[..k], entry, candidateByProbe, probeByCandidate);
    SupportStep(support, matched[..k], entry, candidateByProbe, probeByCandidate);
  }

  lemma PrefixInRange(matched: seq<QueuedPair>, k: int, probeCount: int, candidateCount: int)
    requires QueueInRange(matched, probeCount, candidateCount) && 0 <= k < |matched|
    ensures QueueInRange(matched[..k], probeCount, candidateCount)
    ensures 0 <= matched[k].Pair.Probe < probeCount && 0 <= matched[k].Pair.Candidate < candidateCount
  {
    assert forall i :: 0 <= i < k ==> matched[..k][i] == matched[i];
  }

  lemma PrefixSnoc<T>(s: seq<T>, k: int)
    requires 0 <= k < |s|
    ensures s[..k + 1] == s[..k] + [s[k]]
  {
  }

  lemma SnocInRange(done: seq<QueuedPair>, entry: QueuedPair, probeCount: int, candidateCount: int)
    requires QueueInRange(done, probeCount, candidateCount)
    requires 0 <= entry.Pair.Probe < probeCount && 0 <= entry.Pair.Candidate < candidateCount
    ensures QueueInRange(done + [entry], probeCount, candidateCount)
  {
  }

  /** One iteration of the loop of `CollectEdges` on the queue. */
  lemma EnqueueStep(queue: seq<QueuedPair>, done: seq<QueuedPair>, entry: QueuedPair,
    candidateByProbe: seq<int>, probeByCandidate: seq<int>)
    requires SortedBy(queue, QueueKey)
    requires QueueInRange(done, |candidateByProbe|, |probeByCandidate|)
    requires 0 <= entry.Pair.Probe < |candidateByProbe| && 0 <= entry.Pair.Candidate < |probeByCandidate|
    ensures QueueInRange(done + [entry], |candidateByProbe|, |probeByCandidate|)
    ensures
      var before := EnqueueAll(queue, ToEnqueue(done, candidateByProbe, probeByCandidate));
      EnqueueAll(queue, ToEnqueue(done + [entry], candidateByProbe, probeByCandidate))
        == if !IsPaired(entry.Pair, candidateByProbe, probeByCandidate) then InsertBy(before, entry, QueueKey) else before
  {
    SnocInRange(done, entry, |candidateByProbe|, |probeByCandidate|);
    assert (done + [entry])[..|done|] == done;
    var entries := ToEnqueue(done, candidateByProbe, probeByCandidate);
    if !IsPaired(entry.Pair, candidateByProbe, probeByCandidate) {
      assert (entries + [entry])[..|entries|] == entries;
    }
  }

  /** One iteration of the loop of `CollectEdges` on the support counters. */
  lemma SupportStep(support: seq<int>, done: seq<QueuedPair>, entry: QueuedPair,
    candidateByProbe: seq<int>, probeByCandidate: seq<int>)
    requires |support| == |candidateByProbe|
    requires QueueInRange(done, |candidateByProbe|, |probeByCandidate|)
    requires 0 <= entry.Pair.Probe < |candidateByProbe| && 0 <= entry.Pair.Candidate < |probeByCandidate|
    ensures QueueInRange(done + [entry], |candidateByProbe|, |probeByCandidate|)
    ensures
      var before := SupportAfter(support, done, candidateByProbe, probeByCandidate);
      SupportAfter(support, done + [entry], candidateByProbe, probeByCandidate)
        == if IsPaired(entry.Pair, candidateByProbe, probeByCandidate) && candidateByProbe[entry.Pair.Probe] == entry.Pair.Candidate
           then before[entry.Pair.Probe := before[entry.Pair.Probe] + 1] else before
  {
    SnocInRange(done, entry, |candidateByProbe|, |probeByCandidate|);
    assert (done + [entry])[..|done|] == done;
  }

  // ------------------------------------------------------------ growing the pairing

  /** The neighbour pairs the lookup matches around `pair`, each keyed by the length of
      its candidate edge. */
  function Around(probeEdges: seq<seq<NeighborEdge>>, candidateEdges: seq<seq<NeighborEdge>>,
    lookup: (seq<NeighborEdge>, seq<NeighborEdge>) -> seq<EdgePair>, pair: MinutiaPair): seq<QueuedPair>
    requires LookupInRange(lookup)
    requires 0 <= pair.Probe < |probeEdges| && 0 <= pair.Candidate < |candidateEdges|
  {
    var probeRow, candidateRow := probeEdges[pair.Probe], candidateEdges[pair.Candidate];
    MatchedNeighbors(lookup(probeRow, candidateRow), probeRow, candidateRow)
  }

  /** `pair` shares a minutia with a pair of `pairs`. */
  predicate Touches(pairs: seq<MinutiaPair>, pair: MinutiaPair)
  {
    pair.Probe in ProbesOf(pairs) || pair.Candidate in CandidatesOf(pairs)
  }

  /** Every pair matched around one of the pairs at positions `from` .. `to - 1` shares a
      minutia with the pairing or waits in `queue`. With an empty queue: the pairing is
      closed under matching around those pairs. */
  ghost predicate Covered(probeEdges: seq<seq<NeighborEdge>>, candidateEdges: seq<seq<NeighborEdge>>,
    lookup: (seq<NeighborEdge>, seq<NeighborEdge>) -> seq<EdgePair>,
    pairs: seq<MinutiaPair>, from: int, to: int, queue: seq<QueuedPair>)
    requires LookupInRange(lookup) && InRange(pairs, |probeEdges|, |candidateEdges|)
    requires 0 <= from && to <= |pairs|
  {
    forall i, e :: from <= i < to && e in Around(probeEdges, candidateEdges, lookup, pairs[i]) ==>
      Touches(pairs, e.Pair) || e in queue
  }

  /** Every queued pair was matched around a pair of `pairs`. */
  ghost predicate QueuedFrom(probeEdges: seq<seq<NeighborEdge>>, candidateEdges: seq<seq<NeighborEdge>>,
    lookup: (seq<NeighborEdge>, seq<NeighborEdge>) -> seq<EdgePair>, pairs: seq<MinutiaPair>, queue: seq<QueuedPair>)
    requires LookupInRange(lookup) && InRange(pairs, |probeEdges|, |candidateEdges|)
  {
    forall e :: e in queue ==> exists i :: 0 <= i < |pairs| && e in Around(probeEdges, candidateEdges, lookup, pairs[i])
  }

  /** Pair `j` was matched around an earlier pair. */
  ghost predicate ReachedAt(probeEdges: seq<seq<NeighborEdge>>, candidateEdges: seq<seq<NeighborEdge>>,
    lookup: (seq<NeighborEdge>, seq<NeighborEdge>) -> seq<EdgePair>, pairs: seq<MinutiaPair>, j: int)
    requires LookupInRange(lookup) && InRange(pairs, |probeEdges|, |candidateEdges|) && 0 <= j < |pairs|
  {
    exists i, e :: 0 <= i < j && e in Around(probeEdges, candidateEdges, lookup, pairs[i]) && e.Pair == pairs[j]
  }

  /** Every pair from position `from` on was matched around an earlier pair. */
  ghost predicate ReachedFrom(probeEdges: seq<seq<NeighborEdge>>, candidateEdges: seq<seq<NeighborEdge>>,
    lookup: (seq<NeighborEdge>, seq<NeighborEdge>) -> seq<EdgePair>, pairs: seq<MinutiaPair>, from: int)
    requires LookupInRange(lookup) && InRange(pairs, |probeEdges|, |candidateEdges|) && from >= 1
  {
    forall j :: from <= j < |pairs| ==> ReachedAt(probeEdges, candidateEdges, lookup, pairs, j)
  }

  /** The loop invariant of `BuildPairing` on values: every pair from position `from` on,
      except the last one added, has had its matched pairs collected, which share a
      minutia with the pairing or wait in `queue`; when `tracing`, every queued pair and
      every pair after `from` was matched around a pair before it. */
  ghost predicate ClosingOn(probeEdges: seq<seq<NeighborEdge>>, candidateEdges: seq<seq<NeighborEdge>>,
    lookup: (seq<NeighborEdge>, seq<NeighborEdge>) -> seq<EdgePair>,
    pairs: seq<MinutiaPair>, queue: seq<QueuedPair>, from: int, tracing: bool)
    requires LookupInRange(lookup)
  {
    && InRange(pairs, |probeEdges|, |candidateEdges|) && 0 <= from < |pairs|
    && Covered(probeEdges, candidateEdges, lookup, pairs, from, |pairs| - 1, queue)
    && (tracing ==>
         && QueuedFrom(probeEdges, candidateEdges, lookup, pairs, queue)
         && ReachedFrom(probeEdges, candidateEdges, lookup, pairs, from + 1))
  }

  /** The queue one round of `BuildPairing` leaves before dequeuing: the matched pairs
      `CollectEdges` enqueues join it, then `SkipPaired` drops paired ones from the front. */
  function Upcoming(queue: seq<QueuedPair>, matched: seq<QueuedPair>, candidateByProbe: seq<int>, probeByCandidate: seq<int>)
    : seq<QueuedPair>
    requires SortedBy(queue, QueueKey) && QueueInRange(queue, |candidateByProbe|, |probeByCandidate|)
    requires QueueInRange(matched, |candidateByProbe|, |probeByCandidate|)
  {
    EnqueuedInRange(queue, matched, candidateByProbe, probeByCandidate, |candidateByProbe|, |probeByCandidate|);
    SkipPaired(EnqueueAll(queue, ToEnqueue(matched, candidateByProbe, probeByCandidate)), candidateByProbe, probeByCandidate)
  }

  /** The queue a round leaves stays sorted and inside the bounds its inputs keep to. */
  lemma UpcomingInRange(queue: seq<QueuedPair>, matched: seq<QueuedPair>, candidateByProbe: seq<int>, probeByCandidate: seq<int>,
    probeCount: int, candidateCount: int)
    requires SortedBy(queue, QueueKey) && QueueInRange(queue, |candidateByProbe|, |probeByCandidate|)
    requires QueueInRange(matched, |candidateByProbe|, |probeByCandidate|)
    requires QueueInRange(queue, probeCount, candidateCount) && QueueInRange(matched, probeCount, candidateCount)
    ensures SortedBy(Upcoming(queue, matched, candidateByProbe, probeByCandidate), QueueKey)
    ensures QueueInRange(Upcoming(queue, matched, candidateByProbe, probeByCandidate), probeCount, candidateCount)
  {
    EnqueuedInRange(queue, matched, candidateByProbe, probeByCandidate, |candidateByProbe|, |probeByCandidate|);
    EnqueuedInRange(queue, matched, candidateByProbe, probeByCandidate, probeCount, candidateCount);
    var enqueued := EnqueueAll(queue, ToEnqueue(matched, candidateByProbe, probeByCandidate));
    var next := SkipPaired(enqueued, candidateByProbe, probeByCandidate);
    SuffixKeepsQueue(enqueued, |enqueued| - |next|, probeCount, candidateCount);
  }

  /** Under the pairing invariant a pair is paired in the maps exactly when it shares a
      minutia with a listed pair. */
  lemma PairedIffTouches(candidateByProbe: seq<int>, probeByCandidate: seq<int>, pairs: seq<MinutiaPair>, pair: MinutiaPair)
    requires PairingConsistent(candidateByProbe, probeByCandidate, pairs)
    requires 0 <= pair.Probe < |candidateByProbe| && 0 <= pair.Candidate < |probeByCandidate|
    ensures IsPaired(pair, candidateByProbe, probeByCandidate) <==> Touches(pairs, pair)
  {
    ConsistentInverse(candidateByProbe, probeByCandidate, pairs);
    var probes, candidates := ProbesOf(pairs), CandidatesOf(pairs);
    if pair.Probe in probes {
      var i :| 0 <= i < |probes| && probes[i] == pair.Probe;
      assert pairs[i].Probe == pair.Probe;
    }
    if pair.Candidate in candidates {
      var i :| 0 <= i < |candidates| && candidates[i] == pair.Candidate;
      assert pairs[i].Candidate == pair.Candidate;
    }
    if candidateByProbe[pair.Probe] >= 0 {
      var i :| 0 <= i < |pairs| && pairs[i].Probe == pair.Probe;
      assert probes[i] == pair.Probe;
    }
    if probeByCandidate[pair.Candidate] >= 0 {
      var i :| 0 <= i < |pairs| && pairs[i].Candidate == pair.Candidate;
      assert candidates[i] == pair.Candidate;
    }
  }

  /** A pair that shares a minutia with `pairs` still does after one more pair. */
  lemma TouchesSnoc(pairs: seq<MinutiaPair>, pair: MinutiaPair, other: MinutiaPair)
    ensures Touches(pairs + [pair], pair)
    ensures Touches(pairs, other) ==> Touches(pairs + [pair], other)
  {
    ProbesOfSnoc(pairs, pair);
  }

  /** An unpaired entry that was queued, or was matched around the last added pair, is
      in the queue the round leaves. */
  lemma InUpcoming(queue: seq<QueuedPair>, matched: seq<QueuedPair>, candidateByProbe: seq<int>, probeByCandidate: seq<int>,
    e: QueuedPair)
    requires SortedBy(queue, QueueKey) && QueueInRange(queue, |candidateByProbe|, |probeByCandidate|)
    requires QueueInRange(matched, |candidateByProbe|, |probeByCandidate|)
    requires e in queue || e in matched
    requires 0 <= e.Pair.Probe < |candidateByProbe| && 0 <= e.Pair.Candidate < |probeByCandidate|
    requires !IsPaired(e.Pair, candidateByProbe, probeByCandidate)
    ensures e in Upcoming(queue, matched, candidateByProbe, probeByCandidate)
  {
    EnqueuedInRange(queue, matched, candidateByProbe, probeByCandidate, |candidateByProbe|, |probeByCandidate|);
    var entries := ToEnqueue(matched, candidateByProbe, probeByCandidate);
    var enqueued := EnqueueAll(queue, entries);
    var next := SkipPaired(enqueued, candidateByProbe, probeByCandidate);
    if e !in queue {
      ToEnqueueExactly(matched, candidateByProbe, probeByCandidate, e);
      assert e in multiset(entries);
    } else {
      assert e in multiset(queue);
    }
    assert e in multiset(enqueued);
    UnpairedSurvivesSkip(enqueued, candidateByProbe, probeByCandidate, e);
  }

  lemma QueueRangeAt(queue: seq<QueuedPair>, e: QueuedPair, probeCount: int, candidateCount: int)
    requires QueueInRange(queue, probeCount, candidateCount) && e in queue
    ensures 0 <= e.Pair.Probe < probeCount && 0 <= e.Pair.Candidate < candidateCount
  {
  }

  /** After one round of `BuildPairing` every entry matched around the collected pairs,
      the last added one included, shares a minutia with the pairing or is still queued. */
  lemma {:induction false} CollectSkipCovers(probeEdges: seq<seq<NeighborEdge>>, candidateEdges: seq<seq<NeighborEdge>>,
    lookup: (seq<NeighborEdge>, seq<NeighborEdge>) -> seq<EdgePair>, pairs: seq<MinutiaPair>, queue: seq<QueuedPair>,
    candidateByProbe: seq<int>, probeByCandidate: seq<int>, from: int)
    requires LookupInRange(lookup) && InRange(pairs, |probeEdges|, |candidateEdges|) && |pairs| >= 1
    requires PairingConsistent(candidateByProbe, probeByCandidate, pairs)
    requires SortedBy(queue, QueueKey) && QueueInRange(queue, |candidateByProbe|, |probeByCandidate|)
    requires QueueInRange(Around(probeEdges, candidateEdges, lookup, pairs[|pairs| - 1]), |candidateByProbe|, |probeByCandidate|)
    requires 0 <= from < |pairs| && Covered(probeEdges, candidateEdges, lookup, pairs, from, |pairs| - 1, queue)
    ensures Covered(probeEdges, candidateEdges, lookup, pairs, from, |pairs|,
      Upcoming(queue, Around(probeEdges, candidateEdges, lookup, pairs[|pairs| - 1]), candidateByProbe, probeByCandidate))
  {
    var matched := Around(probeEdges, candidateEdges, lookup, pairs[|pairs| - 1]);
    var next := Upcoming(queue, matched, candidateByProbe, probeByCandidate);
    forall i, e | from <= i < |pairs| && e in Around(probeEdges, candidateEdges, lookup, pairs[i])
      ensures Touches(pairs, e.Pair) || e in next
    {
      if !Touches(pairs, e.Pair) {
        if i < |pairs| - 1 {
          assert e in queue;
          QueueRangeAt(queue, e, |candidateByProbe|, |probeByCandidate|);
        } else {
          assert e in matched;
          QueueRangeAt(matched, e, |candidateByProbe|, |probeByCandidate|);
        }
        assert 0 <= e.Pair.Probe < |candidateByProbe| && 0 <= e.Pair.Candidate < |probeByCandidate|;
        PairedIffTouches(candidateByProbe, probeByCandidate, pairs, e.Pair);
        InUpcoming(queue, matched, candidateByProbe, probeByCandidate, e);
      }
    }
  }

  /** When the queue left after a round is not empty, its head joins the pairing, and
      every matched entry still shares a minutia with the pairing or waits in the rest of
      the queue. */
  lemma {:induction false} DequeueCovers(probeEdges: seq<seq<NeighborEdge>>, candidateEdges: seq<seq<NeighborEdge>>,
    lookup: (seq<NeighborEdge>, seq<NeighborEdge>) -> seq<EdgePair>, pairs: seq<MinutiaPair>, next: seq<QueuedPair>, from: int)
    requires LookupInRange(lookup) && InRange(pairs, |probeEdges|, |candidateEdges|)
    requires next != [] && InRange(pairs + [next[0].Pair], |probeEdges|, |candidateEdges|)
    requires 0 <= from <= |pairs| && Covered(probeEdges, candidateEdges, lookup, pairs, from, |pairs|, next)
    ensures Covered(probeEdges, candidateEdges, lookup, pairs + [next[0].Pair], from, |pairs|, next[1..])
  {
    var pairs' := pairs + [next[0].Pair];
    forall i, e | from <= i < |pairs| && e in Around(probeEdges, candidateEdges, lookup, pairs'[i])
      ensures Touches(pairs', e.Pair) || e in next[1..]
    {
      assert pairs'[i] == pairs[i];
      TouchesSnoc(pairs, next[0].Pair, e.Pair);
      if e != next[0] && e in next {
        var k :| 0 <= k < |next| && next[k] == e;
        assert next[1..][k - 1] == e;
      }
    }
  }

  /** `SkipPaired` only drops entries. */
  lemma InSkipPaired(queue: seq<QueuedPair>, candidateByProbe: seq<int>, probeByCandidate: seq<int>, e: QueuedPair)
    requires QueueInRange(queue, |candidateByProbe|, |probeByCandidate|)
    requires e in SkipPaired(queue, candidateByProbe, probeByCandidate)
    ensures e in queue
  {
    var next := SkipPaired(queue, candidateByProbe, probeByCandidate);
    var dropped := |queue| - |next|;
    assert next == queue[dropped..];
    var k :| 0 <= k < |next| && next[k] == e;
    assert queue[dropped..][k] == queue[dropped + k];
  }

  /** `EnqueueAll` only adds the entries it is given. */
  lemma InEnqueueAll(queue: seq<QueuedPair>, entries: seq<QueuedPair>, e: QueuedPair)
    requires SortedBy(queue, QueueKey) && e in EnqueueAll(queue, entries)
    ensures e in queue || e in entries
  {
    assert e in multiset(EnqueueAll(queue, entries));
    if e !in queue {
      assert e in multiset(entries);
    }
  }

  /** Whatever a round leaves queued was queued before or was matched around the last
      added pair. */
  lemma FromUpcoming(queue: seq<QueuedPair>, matched: seq<QueuedPair>, candidateByProbe: seq<int>, probeByCandidate: seq<int>,
    e: QueuedPair)
    requires SortedBy(queue, QueueKey) && QueueInRange(queue, |candidateByProbe|, |probeByCandidate|)
    requires QueueInRange(matched, |candidateByProbe|, |probeByCandidate|)
    requires e in Upcoming(queue, matched, candidateByProbe, probeByCandidate)
    ensures e in queue || e in matched
  {
    EnqueuedInRange(queue, matched, candidateByProbe, probeByCandidate, |candidateByProbe|, |probeByCandidate|);
    var entries := ToEnqueue(matched, candidateByProbe, probeByCandidate);
    InSkipPaired(EnqueueAll(queue, entries), candidateByProbe, probeByCandidate, e);
    InEnqueueAll(queue, entries, e);
    if e !in queue {
      ToEnqueueExactly(matched, candidateByProbe, probeByCandidate, e);
    }
  }

  /** What is queued after a round was matched around a pair of the pairing, when
      everything queued before was. */
  lemma {:induction false} CollectSkipQueuedFrom(probeEdges: seq<seq<NeighborEdge>>, candidateEdges: seq<seq<NeighborEdge>>,
    lookup: (seq<NeighborEdge>, seq<NeighborEdge>) -> seq<EdgePair>, pairs: seq<MinutiaPair>, queue: seq<QueuedPair>,
    candidateByProbe: seq<int>, probeByCandidate: seq<int>)
    requires LookupInRange(lookup) && InRange(pairs, |probeEdges|, |candidateEdges|) && |pairs| >= 1
    requires SortedBy(queue, QueueKey) && QueueInRange(queue, |candidateByProbe|, |probeByCandidate|)
    requires QueueInRange(Around(probeEdges, candidateEdges, lookup, pairs[|pairs| - 1]), |candidateByProbe|, |probeByCandidate|)
    requires QueuedFrom(probeEdges, candidateEdges, lookup, pairs, queue)
    ensures QueuedFrom(probeEdges, candidateEdges, lookup, pairs,
      Upcoming(queue, Around(probeEdges, candidateEdges, lookup, pairs[|pairs| - 1]), candidateByProbe, probeByCandidate))
  {
    var matched := Around(probeEdges, candidateEdges, lookup, pairs[|pairs| - 1]);
    forall e | e in Upcoming(queue, matched, candidateByProbe, probeByCandidate)
      ensures exists i :: 0 <= i < |pairs| && e in Around(probeEdges, candidateEdges, lookup, pairs[i])
    {
      FromUpcoming(queue, matched, candidateByProbe, probeByCandidate, e);
      if e !in queue {
        assert e in Around(probeEdges, candidateEdges, lookup, pairs[|pairs| - 1]);
      }
    }
  }

  /** The dequeued head was matched around an earlier pair, and what stays queued still
      was matched around a pair of the longer pairing. */
  lemma {:induction false} DequeueReached(probeEdges: seq<seq<NeighborEdge>>, candidateEdges: seq<seq<NeighborEdge>>,
    lookup: (seq<NeighborEdge>, seq<NeighborEdge>) -> seq<EdgePair>, pairs: seq<MinutiaPair>, next: seq<QueuedPair>, from: int)
    requires LookupInRange(lookup) && InRange(pairs, |probeEdges|, |candidateEdges|)
    requires next != [] && InRange(pairs + [next[0].Pair], |probeEdges|, |candidateEdges|)
    requires 1 <= from && QueuedFrom(probeEdges, candidateEdges, lookup, pairs, next)
    requires ReachedFrom(probeEdges, candidateEdges, lookup, pairs, from)
    ensures QueuedFrom(probeEdges, candidateEdges, lookup, pairs + [next[0].Pair], next[1..])
    ensures ReachedFrom(probeEdges, candidateEdges, lookup, pairs + [next[0].Pair], from)
  {
    var pairs' := pairs + [next[0].Pair];
    forall e | e in next[1..]
      ensures exists i :: 0 <= i < |pairs'| && e in Around(probeEdges, candidateEdges, lookup, pairs'[i])
    {
      var k :| 0 <= k < |next[1..]| && next[1..][k] == e;
      assert next[k + 1] == e;
      assert e in next;
      assert exists i :: 0 <= i < |pairs| && e in Around(probeEdges, candidateEdges, lookup, pairs[i]);
      var i :| 0 <= i < |pairs| && e in Around(probeEdges, candidateEdges, lookup, pairs[i]);
      assert pairs'[i] == pairs[i];
    }
    forall j | from <= j < |pairs'|
      ensures ReachedAt(probeEdges, candidateEdges, lookup, pairs', j)
    {
      if j < |pairs| {
        assert ReachedAt(probeEdges, candidateEdges, lookup, pairs, j);
        var i, e :| 0 <= i < j && e in Around(probeEdges, candidateEdges, lookup, pairs[i]) && e.Pair == pairs[j];
        assert pairs'[i] == pairs[i] && pairs'[j] == pairs[j];
      } else {
        assert next[0] in next;
        var i :| 0 <= i < |pairs| && next[0] in Around(probeEdges, candidateEdges, lookup, pairs[i]);
        assert pairs'[i] == pairs[i];
        assert next[0].Pair == pairs'[j];
      }
    }
  }

  // ------------------------------------------------------------ choosing the best root

  datatype Best = Best(Score: real, RootIndex: int)

  /** The loop of `Match` over the scores of the tried roots: a score replaces the best so
      far only when strictly greater, starting from 0 and no root. */
  function BestOf(scores: seq<real>): Best
  {
    if scores == [] then Best(0.0, -1)
    else
      var previous := BestOf(scores[..|scores| - 1]);
      if scores[|scores| - 1] > previous.Score then Best(scores[|scores| - 1], |scores| - 1) else previous
  }

  /** The best score is the maximum of 0 and all scores; the root index is that of the
      first score attaining it, or -1 when no score exceeds 0. */
  lemma {:induction false} BestOfIsFirstMaximum(scores: seq<real>)
    ensures BestOf(scores).Score >= 0.0
    ensures forall i :: 0 <= i < |scores| ==> scores[i] <= BestOf(scores).Score
    ensures -1 <= BestOf(scores).RootIndex < |scores|
    ensures BestOf(scores).RootIndex == -1 <==> forall i :: 0 <= i < |scores| ==> scores[i] <= 0.0
    ensures BestOf(scores).RootIndex == -1 ==> BestOf(scores).Score == 0.0
    ensures BestOf(scores).RootIndex >= 0 ==>
      && scores[BestOf(scores).RootIndex] == BestOf(scores).Score
      && forall i :: 0 <= i < BestOf(scores).RootIndex ==> scores[i] < BestOf(scores).Score
  {
    if scores != [] {
      var init := scores[..|scores| - 1];
      BestOfIsFirstMaximum(init);
      assert forall i :: 0 <= i < |init| ==> scores[i] == init[i];
    }
  }

  /** One more score either replaces the best or leaves it as it was. */
  lemma BestOfSnoc(scores: seq<real>, score: real)
    ensures BestOf(scores + [score]) ==
      if score > BestOf(scores).Score then Best(score, |scores|) else BestOf(scores)
  {
    assert (scores + [score])[..|scores|] == scores;
  }

  /** How many roots `Match` tries: all of them up to `maxTriedRoots`, but at least one
      when there is any, because the cap is checked after a root is tried. */
  function TriedCount(rootCount: int, maxTriedRoots: int): (r: int)
    requires rootCount >= 0
    ensures rootCount == 0 ==> r == 0
    ensures rootCount > 0 ==> 1 <= r <= rootCount
    ensures maxTriedRoots >= 1 ==> r <= maxTriedRoots
    ensures r < rootCount ==> r >= maxTriedRoots
  {
    if rootCount == 0 then 0
    else if maxTriedRoots <= 1 then 1
    else if rootCount <= maxTriedRoots then rootCount
    else maxTriedRoots
  }

  /** Every tried root, in order, with what trying it yielded. */
  ghost predicate AllTried(scoring: MatchScoring, analyze: (Template, Template, seq<MinutiaPair>, seq<int>) -> MatchAnalysis,
    probe: Template, probeEdges: seq<seq<NeighborEdge>>, candidate: Template, candidateEdges: seq<seq<NeighborEdge>>,
    lookup: (seq<NeighborEdge>, seq<NeighborEdge>) -> seq<EdgePair>, roots: seq<MinutiaPair>,
    pairings: seq<seq<MinutiaPair>>, supports: seq<seq<int>>, scores: seq<real>)
    requires LookupInRange(lookup)
  {
    && |pairings| == |supports| == |scores| <= |roots|
    && forall i :: 0 <= i < |scores| ==>
         TriedRoot(scoring, analyze, probe, probeEdges, candidate, candidateEdges, lookup, roots[i], pairings[i], supports[i], scores[i])
  }

  /** Trying the next root extends `AllTried`. */
  lemma AllTriedSnoc(scoring: MatchScoring, analyze: (Template, Template, seq<MinutiaPair>, seq<int>) -> MatchAnalysis,
    probe: Template, probeEdges: seq<seq<NeighborEdge>>, candidate: Template, candidateEdges: seq<seq<NeighborEdge>>,
    lookup: (seq<NeighborEdge>, seq<NeighborEdge>) -> seq<EdgePair>, roots: seq<MinutiaPair>,
    pairings: seq<seq<MinutiaPair>>, supports: seq<seq<int>>, scores: seq<real>,
    pairing: seq<MinutiaPair>, support: seq<int>, score: real)
    requires LookupInRange(lookup)
    requires AllTried(scoring, analyze, probe, probeEdges, candidate, candidateEdges, lookup, roots, pairings, supports, scores)
    requires |scores| < |roots|
    requires TriedRoot(scoring, analyze, probe, probeEdges, candidate, candidateEdges, lookup, roots[|scores|], pairing, support, score)
    ensures AllTried(scoring, analyze, probe, probeEdges, candidate, candidateEdges, lookup, roots,
      pairings + [pairing], supports + [support], scores + [score])
  {
    forall i | 0 <= i < |scores|
      ensures TriedRoot(scoring, analyze, probe, probeEdges, candidate, candidateEdges, lookup, roots[i],
        (pairings + [pairing])[i], (supports + [support])[i], (scores + [score])[i])
    {
      assert (pairings + [pairing])[i] == pairings[i] && (supports + [support])[i] == supports[i];
      assert (scores + [score])[i] == scores[i];
    }
  }

  /** A pairing grown from `root`: it starts with the root, has no minutia twice, pairs
      minutiae of the two edge tables only, and is closed: every pair the lookup matches
      around one of its pairs shares a minutia with one of its pairs. */
  ghost predicate GrownFrom(probeEdges: seq<seq<NeighborEdge>>, candidateEdges: seq<seq<NeighborEdge>>,
    lookup: (seq<NeighborEdge>, seq<NeighborEdge>) -> seq<EdgePair>, pairs: seq<MinutiaPair>, root: MinutiaPair)
    requires LookupInRange(lookup)
  {
    && |pairs| >= 1 && pairs[0] == root && NoMinutiaTwice(pairs) && InRange(pairs, |probeEdges|, |candidateEdges|)
    && Covered(probeEdges, candidateEdges, lookup, pairs, 0, |pairs|, [])
  }

  /** What trying `root` yields: a pairing grown from it over minutiae of the two
      templates, in which every pair after the root was matched around an earlier one,
      with its support counters, scored by `scoring` over the statistics `analyze`
      gathers. */
  ghost predicate TriedRoot(scoring: MatchScoring, analyze: (Template, Template, seq<MinutiaPair>, seq<int>) -> MatchAnalysis,
    probe: Template, probeEdges: seq<seq<NeighborEdge>>, candidate: Template, candidateEdges: seq<seq<NeighborEdge>>,
    lookup: (seq<NeighborEdge>, seq<NeighborEdge>) -> seq<EdgePair>,
    root: MinutiaPair, pairing: seq<MinutiaPair>, support: seq<int>, score: real)
    requires LookupInRange(lookup)
  {
    && GrownFrom(probeEdges, candidateEdges, lookup, pairing, root)
    && ReachedFrom(probeEdges, candidateEdges, lookup, pairing, 1)
    && InRange(pairing, |probe.Minutiae|, |candidate.Minutiae|)
    && score == scoring.Compute(analyze(probe, candidate, pairing, support))
  }

  /** The loop of `Match` stops after `TriedCount` roots: when the roots run out, or
      right after the root that reaches the cap (and never before the first one). */
  lemma TriedCountOnExit(rootCount: int, maxTriedRoots: int, tried: int)
    requires 0 <= tried <= rootCount
    requires
      || (tried == rootCount && (tried == 0 || tried < maxTriedRoots))
      || (1 <= tried && maxTriedRoots <= tried && (tried == 1 || tried - 1 < maxTriedRoots))
    ensures tried == TriedCount(rootCount, maxTriedRoots)
  {
  }

  // ------------------------------------------------------------ the class

  class MinutiaMatcher {
    var MaxTriedRoots: int
    const Pairing: MinutiaPairing
    const CandidateEdges: EdgeTable
    var Scoring: MatchScoring
    var Probe: ProbeIndex
    var Queue: seq<QueuedPair>
    var Support: seq<int>

    constructor ()
      ensures MaxTriedRoots == 10000 && Scoring == DefaultScoring
      ensures fresh(Pairing) && fresh(CandidateEdges) && Pairing.Valid() && CandidateEdges.MaxNeighbors == 9
      ensures Queue == []
    {
      MaxTriedRoots := 10000;
      Pairing := new MinutiaPairing();
      CandidateEdges := new EdgeTable();
      Scoring := DefaultScoring;
      Probe := ProbeIndex(Template([]), []);
      Queue := [];
      Support := [];
    }

    /** The probe side fits the probe: the probe-side map has one entry per probe
        minutia and marks only listed pairs, and the probe's table names probe
        minutiae only. */
    ghost predicate ProbeFits()
      reads this`Probe, Pairing, Pairing.PairList, Pairing.CandidateByProbe, CandidateEdges`MaxNeighbors
    {
      && Pairing.ProbeSideTracked()
      && |Probe.Template.Minutiae| == Pairing.CandidateByProbe.Length
      && |Probe.Edges| == Pairing.CandidateByProbe.Length
      && NeighborsInRange(Probe.Edges)
      && CandidateEdges.MaxNeighbors >= 0
    }

    /** One support counter per probe minutia. */
    ghost predicate SupportFits()
      reads this`Support, this`Probe
    {
      |Support| == |Probe.Edges|
    }

    /** A probe is selected. */
    ghost predicate ProbeSelected()
      reads this`Probe, this`Support, Pairing, Pairing.PairList, Pairing.CandidateByProbe, CandidateEdges`MaxNeighbors
    {
      ProbeFits() && SupportFits()
    }

    /** The candidate side fits as well: both maps mark only listed pairs, and the
        candidate's table fits the candidate-side map and names candidate minutiae only. */
    ghost predicate Prepared()
      reads this`Probe, Pairing, Pairing.PairList, Pairing.CandidateByProbe, Pairing.ProbeByCandidate
      reads CandidateEdges`MaxNeighbors, CandidateEdges`Table
    {
      && ProbeFits()
      && Pairing.Tracked()
      && |CandidateEdges.Table| <= Pairing.ProbeByCandidate.Length
      && NeighborsInRange(CandidateEdges.Table)
    }

    /** The queue is sorted and names minutiae of both templates only. */
    ghost predicate QueueFits()
      reads this`Queue, this`Probe, CandidateEdges`Table
    {
      SortedBy(Queue, QueueKey) && QueueInRange(Queue, |Probe.Edges|, |CandidateEdges.Table|)
    }

    /** What the `n`-th tried root left behind: the public `Pairing` holds its pairing,
        recorded consistently in both maps, and `Support` its support (nothing is said
        when no root was tried). */
    ghost predicate LeftBy(pairings: seq<seq<MinutiaPair>>, supports: seq<seq<int>>, n: int)
      reads this`Support, Pairing, Pairing.PairList, Pairing.ProbeByCandidate, Pairing.CandidateByProbe
    {
      n > 0 ==>
        && n <= |pairings| && n <= |supports| && Pairing.Consistent()
        && Pairing.Pairs() == pairings[n - 1] && Support == supports[n - 1]
    }

    /** A candidate is prepared: ready to try roots. */
    ghost predicate Ready()
      reads this`Probe, this`Support, this`Queue, Pairing, Pairing.PairList, Pairing.CandidateByProbe, Pairing.ProbeByCandidate
      reads CandidateEdges`MaxNeighbors, CandidateEdges`Table
    {
      Prepared() && SupportFits() && QueueFits()
    }

    /** The pairing being grown: consistent, non-empty and over minutiae of both templates. */
    ghost predicate PairingGrowing()
      reads this`Probe, Pairing, Pairing.PairList, Pairing.CandidateByProbe, Pairing.ProbeByCandidate
      reads CandidateEdges`MaxNeighbors, CandidateEdges`Table
    {
      && Prepared() && Pairing.Consistent() && Pairing.PairCount > 0
      && InRange(Pairing.Pairs(), |Probe.Edges|, |CandidateEdges.Table|)
    }

    /** Growing a pairing from a root. */
    ghost predicate Growing()
      reads this`Probe, this`Support, this`Queue, Pairing, Pairing.PairList, Pairing.CandidateByProbe, Pairing.ProbeByCandidate
      reads CandidateEdges`MaxNeighbors, CandidateEdges`Table
    {
      PairingGrowing() && SupportFits() && QueueFits()
    }

    /** `CreateIndex`: the probe with a freshly built edge table. */
    method CreateIndex(probe: Template, construct: (Template, int, int) -> EdgeShape) returns (index: ProbeIndex)
      ensures index.Template == probe && IsTable(index.Edges, probe, construct, 226, 9)
      ensures |index.Edges| == |probe.Minutiae| && NeighborsInRange(index.Edges)
    {
      var edges := new EdgeTable();
      edges.Reset(probe, construct);
      TableNeighborsInRange(edges.Table, probe, construct, 226, 9);
      index := ProbeIndex(probe, edges.Table);
    }

    /** `SelectProbe`. */
    method SelectProbe(probe: ProbeIndex)
      requires Pairing.Valid() && CandidateEdges.MaxNeighbors >= 0
      requires |probe.Edges| == |probe.Template.Minutiae| && NeighborsInRange(probe.Edges)
      modifies this`Probe, this`Support, Pairing
      ensures Probe == probe && ProbeSelected() && Pairing.PairCount == 0
      ensures Pairing.ProbeByCandidate == old(Pairing.ProbeByCandidate)
      ensures Pairing.ProbeByCandidate != null ==> Pairing.ProbeByCandidate[..] == old(Pairing.ProbeByCandidate[..])
    {
      Probe := probe;
      Pairing.SelectProbe(|probe.Template.Minutiae|);
      Support := seq(|probe.Template.Minutiae|, _ => 0);
    }

    /** `PrepareCandidate`: the candidate side of the pairing is cleared, the queue is
        emptied and the candidate's edge table is rebuilt. */
    method PrepareCandidate(candidate: Template, construct: (Template, int, int) -> EdgeShape)
      requires ProbeSelected()
      modifies Pairing, Pairing.ProbeByCandidate, this`Queue, CandidateEdges`Table
      ensures Ready() && Queue == []
      ensures Pairing.CandidateByProbe == old(Pairing.CandidateByProbe) && Pairing.PairList == old(Pairing.PairList)
      ensures Pairing.ProbeByCandidate == old(Pairing.ProbeByCandidate) || fresh(Pairing.ProbeByCandidate)
      ensures Pairing.ProbeByCandidate[..] == seq(Pairing.ProbeByCandidate.Length, _ => -1)
      ensures IsTable(CandidateEdges.Table, candidate, construct, CandidateEdges.MaxDistance, CandidateEdges.MaxNeighbors)
    {
      Pairing.SelectCandidate(|candidate.Minutiae|);
      Queue := [];
      CandidateEdges.Reset(candidate, construct);
      TableNeighborsInRange(CandidateEdges.Table, candidate, construct, CandidateEdges.MaxDistance, CandidateEdges.MaxNeighbors);
    }

    /** The neighbour pairs the lookup matches around the last added pair. */
    ghost function Matched(lookup: (seq<NeighborEdge>, seq<NeighborEdge>) -> seq<EdgePair>): (r: seq<QueuedPair>)
      reads this`Probe, Pairing, Pairing.PairList, Pairing.CandidateByProbe, Pairing.ProbeByCandidate
      reads CandidateEdges`MaxNeighbors, CandidateEdges`Table
      requires PairingGrowing() && LookupInRange(lookup)
      ensures QueueInRange(r, |Probe.Edges|, |CandidateEdges.Table|)
      ensures QueueInRange(r, Pairing.CandidateByProbe.Length, Pairing.ProbeByCandidate.Length)
    {
      var last := Pairing.LastAdded();
      var probeRow, candidateRow := Probe.Edges[last.Probe], CandidateEdges.Table[last.Candidate];
      MatchedInRange(lookup(probeRow, candidateRow), probeRow, candidateRow, |Probe.Edges|, |CandidateEdges.Table|);
      MatchedNeighbors(lookup(probeRow, candidateRow), probeRow, candidateRow)
    }

    /** The queue as the next round of `BuildPairing` leaves it before dequeuing: what
        `CollectEdges` enqueues around the last added pair joins it, then `SkipPaired`
        drops paired pairs from the front. */
    ghost function NextQueue(lookup: (seq<NeighborEdge>, seq<NeighborEdge>) -> seq<EdgePair>): seq<QueuedPair>
      reads this`Probe, this`Support, this`Queue, Pairing, Pairing.PairList, Pairing.CandidateByProbe, Pairing.ProbeByCandidate
      reads CandidateEdges`MaxNeighbors, CandidateEdges`Table
      requires Growing() && LookupInRange(lookup)
    {
      QueueInRangeWider(Queue, |Probe.Edges|, |CandidateEdges.Table|, Pairing.CandidateByProbe.Length, Pairing.ProbeByCandidate.Length);
      Upcoming(Queue, Matched(lookup), Pairing.CandidateByProbe[..], Pairing.ProbeByCandidate[..])
    }

    /** A round keeps `Covered` for the pairs from `from` on: when the queue it leaves is
        empty, every pair from `from` on has had its matches collected; otherwise the
        head joins the pairing and the rest of the queue holds what is still unpaired. */
    lemma RoundKeepsCovered(lookup: (seq<NeighborEdge>, seq<NeighborEdge>) -> seq<EdgePair>, from: int)
      requires Growing() && LookupInRange(lookup) && 0 <= from < Pairing.PairCount
      requires Covered(Probe.Edges, CandidateEdges.Table, lookup, Pairing.Pairs(), from, Pairing.PairCount - 1, Queue)
      ensures NextQueue(lookup) == [] ==>
        Covered(Probe.Edges, CandidateEdges.Table, lookup, Pairing.Pairs(), from, Pairing.PairCount, [])
      ensures NextQueue(lookup) != [] ==>
        && InRange(Pairing.Pairs() + [NextQueue(lookup)[0].Pair], |Probe.Edges|, |CandidateEdges.Table|)
        && Covered(Probe.Edges, CandidateEdges.Table, lookup, Pairing.Pairs() + [NextQueue(lookup)[0].Pair],
             from, Pairing.PairCount, NextQueue(lookup)[1..])
    {
      var pe, ce, pairs := Probe.Edges, CandidateEdges.Table, Pairing.Pairs();
      var cbp, pbc := Pairing.CandidateByProbe[..], Pairing.ProbeByCandidate[..];
      var matched := Matched(lookup);
      assert matched == Around(pe, ce, lookup, pairs[|pairs| - 1]);
      QueueInRangeWider(Queue, |pe|, |ce|, |cbp|, |pbc|);
      UpcomingInRange(Queue, matched, cbp, pbc, |pe|, |ce|);
      CollectSkipCovers(pe, ce, lookup, pairs, Queue, cbp, pbc, from);
      var next := NextQueue(lookup);
      if next != [] {
        AddKeepsInRange(pairs, next[0].Pair, |pe|, |ce|);
        DequeueCovers(pe, ce, lookup, pairs, next, from);
      }
    }

    /** A round keeps every queued pair and every pair from `from` on traceable to a
        pair it was matched around. */
    lemma RoundKeepsReached(lookup: (seq<NeighborEdge>, seq<NeighborEdge>) -> seq<EdgePair>, from: int)
      requires Growing() && LookupInRange(lookup) && 1 <= from
      requires QueuedFrom(Probe.Edges, CandidateEdges.Table, lookup, Pairing.Pairs(), Queue)
      requires ReachedFrom(Probe.Edges, CandidateEdges.Table, lookup, Pairing.Pairs(), from)
      ensures NextQueue(lookup) != [] ==>
        && InRange(Pairing.Pairs() + [NextQueue(lookup)[0].Pair], |Probe.Edges|, |CandidateEdges.Table|)
        && QueuedFrom(Probe.Edges, CandidateEdges.Table, lookup, Pairing.Pairs() + [NextQueue(lookup)[0].Pair], NextQueue(lookup)[1..])
        && ReachedFrom(Probe.Edges, CandidateEdges.Table, lookup, Pairing.Pairs() + [NextQueue(lookup)[0].Pair], from)
    {
      var pe, ce, pairs := Probe.Edges, CandidateEdges.Table, Pairing.Pairs();
      var cbp, pbc := Pairing.CandidateByProbe[..], Pairing.ProbeByCandidate[..];
      var matched := Matched(lookup);
      assert matched == Around(pe, ce, lookup, pairs[|pairs| - 1]);
      QueueInRangeWider(Queue, |pe|, |ce|, |cbp|, |pbc|);
      UpcomingInRange(Queue, matched, cbp, pbc, |pe|, |ce|);
      CollectSkipQueuedFrom(pe, ce, lookup, pairs, Queue, cbp, pbc);
      var next := NextQueue(lookup);
      if next != [] {
        AddKeepsInRange(pairs, next[0].Pair, |pe|, |ce|);
        DequeueReached(pe, ce, lookup, pairs, next, from);
      }
    }

    /** One round keeps the loop invariant of `BuildPairing`: when the queue the round
        leaves is empty, the pairing is closed around every pair from `from` on;
        otherwise the invariant holds of the pairing with the head added and the rest of
        the queue. */
    lemma RoundKeepsClosing(lookup: (seq<NeighborEdge>, seq<NeighborEdge>) -> seq<EdgePair>, from: int, tracing: bool)
      requires Growing() && LookupInRange(lookup)
      requires ClosingOn(Probe.Edges, CandidateEdges.Table, lookup, Pairing.Pairs(), Queue, from, tracing)
      ensures NextQueue(lookup) == [] ==>
        Covered(Probe.Edges, CandidateEdges.Table, lookup, Pairing.Pairs(), from, |Pairing.Pairs()|, [])
      ensures NextQueue(lookup) != [] ==>
        ClosingOn(Probe.Edges, CandidateEdges.Table, lookup, Pairing.Pairs() + [NextQueue(lookup)[0].Pair],
          NextQueue(lookup)[1..], from, tracing)
    {
      RoundKeepsCovered(lookup, from);
      if tracing {
        RoundKeepsReached(lookup, from + 1);
      }
    }

    /** `CollectEdges`: around the last added pair, every pair of neighbours the lookup
        matches is queued when both are unpaired, and otherwise supports the probe
        neighbour when it is already paired with that candidate neighbour. */
    method CollectEdges(lookup: (seq<NeighborEdge>, seq<NeighborEdge>) -> seq<EdgePair>)
      requires Growing() && LookupInRange(lookup)
      modifies this`Queue, this`Support
      ensures Growing()
      ensures NoneDropped(old(Support), Support)
      ensures Queue == EnqueueAll(old(Queue), ToEnqueue(Matched(lookup), Pairing.CandidateByProbe[..], Pairing.ProbeByCandidate[..]))
      ensures Support == SupportAfter(old(Support), Matched(lookup), Pairing.CandidateByProbe[..], Pairing.ProbeByCandidate[..])
    {
      var last := Pairing.LastAdded();
      var probeRow, candidateRow := Probe.Edges[last.Probe], CandidateEdges.Table[last.Candidate];
      var edgePairs := lookup(probeRow, candidateRow);
      ghost var matched := MatchedNeighbors(edgePairs, probeRow, candidateRow);
      ghost var candidateByProbe, probeByCandidate := Pairing.CandidateByProbe[..], Pairing.ProbeByCandidate[..];
      assert matched == Matched(lookup);
      MatchedInRange(edgePairs, probeRow, candidateRow, |Probe.Edges|, |CandidateEdges.Table|);
      CollectKeepsBounds(Queue, Support, matched, candidateByProbe, probeByCandidate, |Probe.Edges|, |CandidateEdges.Table|);
      var queue', support' := CollectPass(Queue, Support, edgePairs, probeRow, candidateRow,
        Pairing.CandidateByProbe[..], Pairing.ProbeByCandidate[..]);
      assert SortedBy(queue', QueueKey) && QueueInRange(queue', |Probe.Edges|, |CandidateEdges.Table|);
      Queue, Support := queue', support';
    }

    /** `BuildPairing`: collects the edges around the last added pair, skips queued pairs
        that became paired, and adds the shortest remaining one, until the queue runs
        dry. The pairing stays consistent, only grows, and support never drops. On exit
        every pair from the last one given on has had its matched neighbours collected,
        so each pair the lookup matches around it shares a minutia with the pairing; and
        when the queue started empty, every pair added was matched around an earlier
        one. */
    method BuildPairing(lookup: (seq<NeighborEdge>, seq<NeighborEdge>) -> seq<EdgePair>)
      requires Growing() && LookupInRange(lookup)
      modifies this`Queue, this`Support, Pairing, Pairing.ProbeByCandidate, Pairing.CandidateByProbe, Pairing.PairList
      ensures Growing() && Queue == []
      ensures Pairing.ProbeByCandidate == old(Pairing.ProbeByCandidate) && Pairing.CandidateByProbe == old(Pairing.CandidateByProbe)
      ensures Pairing.PairList == old(Pairing.PairList)
      ensures old(Pairing.Pairs()) <= Pairing.Pairs()
      ensures NoneDropped(old(Support), Support)
      ensures Covered(Probe.Edges, CandidateEdges.Table, lookup, Pairing.Pairs(), old(Pairing.PairCount) - 1, Pairing.PairCount, [])
      ensures old(Queue) == [] ==>
        ReachedFrom(Probe.Edges, CandidateEdges.Table, lookup, Pairing.Pairs(), old(Pairing.PairCount))
      ensures Pairing.PairCount <= |Probe.Edges| && Pairing.PairCount <= |CandidateEdges.Table|
    {
      ghost var from, tracing := Pairing.PairCount - 1, Queue == [];
      while true
        invariant Growing()
        invariant Pairing.ProbeByCandidate == old(Pairing.ProbeByCandidate) && Pairing.CandidateByProbe == old(Pairing.CandidateByProbe)
        invariant Pairing.PairList == old(Pairing.PairList)
        invariant old(Pairing.Pairs()) <= Pairing.Pairs()
        invariant NoneDropped(old(Support), Support)
        invariant ClosingOn(Probe.Edges, CandidateEdges.Table, lookup, Pairing.Pairs(), Queue, from, tracing)
        decreases Pairing.PairList.Length - Pairing.PairCount
      {
        ghost var support := Support;
        var exhausted := Round(lookup, from, tracing);
        NoneDroppedTransitive(old(Support), support, Support);
        if exhausted {
          break;
        }
      }
      PairCountBound(Pairing.Pairs(), |Probe.Edges|, |CandidateEdges.Table|);
    }

    /** One round of the loop of `BuildPairing`, seen through the invariant it keeps: when
        the round finds the queue exhausted, the pairing is closed around every pair from
        `from` on; otherwise one pair joins the pairing and the invariant holds again. */
    method Round(lookup: (seq<NeighborEdge>, seq<NeighborEdge>) -> seq<EdgePair>, ghost from: int, ghost tracing: bool)
      returns (exhausted: bool)
      requires Growing() && LookupInRange(lookup)
      requires ClosingOn(Probe.Edges, CandidateEdges.Table, lookup, Pairing.Pairs(), Queue, from, tracing)
      modifies this`Queue, this`Support, Pairing, Pairing.ProbeByCandidate, Pairing.CandidateByProbe, Pairing.PairList
      ensures Growing()
      ensures Pairing.ProbeByCandidate == old(Pairing.ProbeByCandidate) && Pairing.CandidateByProbe == old(Pairing.CandidateByProbe)
      ensures Pairing.PairList == old(Pairing.PairList)
      ensures NoneDropped(old(Support), Support)
      ensures exhausted ==>
        && Queue == [] && Pairing.Pairs() == old(Pairing.Pairs())
        && Covered(Probe.Edges, CandidateEdges.Table, lookup, Pairing.Pairs(), from, |Pairing.Pairs()|, [])
        && (tracing ==> ReachedFrom(Probe.Edges, CandidateEdges.Table, lookup, Pairing.Pairs(), from + 1))
      ensures !exhausted ==>
        && old(Pairing.Pairs()) < Pairing.Pairs() && Pairing.PairCount == old(Pairing.PairCount) + 1
        && ClosingOn(Probe.Edges, CandidateEdges.Table, lookup, Pairing.Pairs(), Queue, from, tracing)
    {
      RoundKeepsClosing(lookup, from, tracing);
      exhausted := GrowOnce(lookup);
    }

    /** One round of the loop of `BuildPairing`: the queue becomes `NextQueue`; when that
        is empty the round reports exhaustion and the pairing stays as it was, otherwise
        its head leaves the queue and joins the pairing. Support grows as `CollectEdges`
        says. */
    method GrowOnce(lookup: (seq<NeighborEdge>, seq<NeighborEdge>) -> seq<EdgePair>) returns (exhausted: bool)
      requires Growing() && LookupInRange(lookup)
      modifies this`Queue, this`Support, Pairing, Pairing.ProbeByCandidate, Pairing.CandidateByProbe, Pairing.PairList
      ensures Growing()
      ensures Pairing.ProbeByCandidate == old(Pairing.ProbeByCandidate) && Pairing.CandidateByProbe == old(Pairing.CandidateByProbe)
      ensures Pairing.PairList == old(Pairing.PairList)
      ensures NoneDropped(old(Support), Support)
      ensures Support == old(SupportAfter(Support, Matched(lookup), Pairing.CandidateByProbe[..], Pairing.ProbeByCandidate[..]))
      ensures exhausted <==> old(NextQueue(lookup)) == []
      ensures exhausted ==> Queue == [] && Pairing.Pairs() == old(Pairing.Pairs())
      ensures !exhausted ==>
        && Queue == old(NextQueue(lookup))[1..]
        && Pairing.Pairs() == old(Pairing.Pairs()) + [old(NextQueue(lookup))[0].Pair]
    {
      ghost var next := NextQueue(lookup);
      CollectEdges(lookup);
      ghost var support := Support;
      SkipPairedInQueue();
      assert Queue == next;
      exhausted := Queue == [];
      if !exhausted {
        AddFirstQueued();
      }
      assert Support == support;
    }

    /** `PairSelector.SkipPaired` on the queue. */
    method SkipPairedInQueue()
      requires Growing()
      modifies this`Queue
      ensures Growing()
      ensures Support == old(Support)
      ensures Queue == SkipPaired(old(Queue), Pairing.CandidateByProbe[..], Pairing.ProbeByCandidate[..])
      ensures Queue != [] ==> Pairing.CandidateByProbe[Queue[0].Pair.Probe] < 0 && Pairing.ProbeByCandidate[Queue[0].Pair.Candidate] < 0
    {
      QueueInRangeWider(Queue, |Probe.Edges|, |CandidateEdges.Table|,
        Pairing.CandidateByProbe.Length, Pairing.ProbeByCandidate.Length);
      ghost var queue := Queue;
      Queue := SkipPaired(Queue, Pairing.CandidateByProbe[..], Pairing.ProbeByCandidate[..]);
      SuffixKeepsQueue(queue, |queue| - |Queue|, |Probe.Edges|, |CandidateEdges.Table|);
    }

    /** `Pairing.Add(PairSelector.Dequeue())`: the shortest queued pair, whose two
        minutiae are unpaired, leaves the queue and joins the pairing. */
    method AddFirstQueued()
      requires Growing() && Queue != []
      requires Pairing.CandidateByProbe[Queue[0].Pair.Probe] < 0 && Pairing.ProbeByCandidate[Queue[0].Pair.Candidate] < 0
      modifies this`Queue, Pairing, Pairing.ProbeByCandidate, Pairing.CandidateByProbe, Pairing.PairList
      ensures Growing()
      ensures Pairing.ProbeByCandidate == old(Pairing.ProbeByCandidate) && Pairing.CandidateByProbe == old(Pairing.CandidateByProbe)
      ensures Pairing.PairList == old(Pairing.PairList)
      ensures Support == old(Support)
      ensures Queue == old(Queue[1..]) && Pairing.Pairs() == old(Pairing.Pairs()) + [old(Queue[0].Pair)]
      ensures forall k :: 0 <= k < |old(Queue)| ==> old(Queue[0].Key) <= old(Queue[k].Key)
    {
      HeadIsSmallest(Queue, QueueKey);
      var pair := Queue[0].Pair;
      SuffixKeepsQueue(Queue, 1, |Probe.Edges|, |CandidateEdges.Table|);
      Queue := Queue[1..];
      AddUnpaired(pair);
    }

    /** `Pairing.Add` of a pair whose two minutiae are unpaired: the pairing grows by
        that pair and stays consistent. */
    method AddUnpaired(pair: MinutiaPair)
      requires PairingGrowing()
      requires 0 <= pair.Probe < |Probe.Edges| && 0 <= pair.Candidate < |CandidateEdges.Table|
      requires Pairing.CandidateByProbe[pair.Probe] < 0 && Pairing.ProbeByCandidate[pair.Candidate] < 0
      modifies Pairing, Pairing.ProbeByCandidate, Pairing.CandidateByProbe, Pairing.PairList
      ensures PairingGrowing() && Pairing.Pairs() == old(Pairing.Pairs()) + [pair]
      ensures Pairing.ProbeByCandidate == old(Pairing.ProbeByCandidate) && Pairing.CandidateByProbe == old(Pairing.CandidateByProbe)
      ensures Pairing.PairList == old(Pairing.PairList)
    {
      RoomForAnotherPair(Pairing.CandidateByProbe[..], Pairing.ProbeByCandidate[..], Pairing.Pairs(), pair.Probe);
      AddKeepsInRange(Pairing.Pairs(), pair, |Probe.Edges|, |CandidateEdges.Table|);
      Pairing.Add(pair);
      Pairing.ConsistentIsTracked();
      assert Prepared();
    }

    /** The first steps of `TryRoot`: the pairing is reset, support restarts from zero,
        and the root becomes the only pair. */
    method StartFrom(root: MinutiaPair)
      requires Ready()
      requires 0 <= root.Probe < |Probe.Edges| && 0 <= root.Candidate < |CandidateEdges.Table|
      modifies this`Support, Pairing, Pairing.ProbeByCandidate, Pairing.CandidateByProbe, Pairing.PairList
      ensures Growing() && Pairing.Pairs() == [root] && Support == seq(|Probe.Edges|, _ => 0)
      ensures Pairing.ProbeByCandidate == old(Pairing.ProbeByCandidate) && Pairing.CandidateByProbe == old(Pairing.CandidateByProbe)
      ensures Pairing.PairList == old(Pairing.PairList)
    {
      ClearPairing();
      AddRoot(root);
    }

    /** `Pairing.Reset()` with the support counters back at zero: nothing is paired. */
    method ClearPairing()
      requires Ready()
      modifies this`Support, Pairing, Pairing.ProbeByCandidate, Pairing.CandidateByProbe
      ensures Ready() && Pairing.Consistent() && Pairing.Pairs() == [] && Support == seq(|Probe.Edges|, _ => 0)
      ensures Pairing.CandidateByProbe[..] == seq(Pairing.CandidateByProbe.Length, _ => -1)
      ensures Pairing.ProbeByCandidate[..] == seq(Pairing.ProbeByCandidate.Length, _ => -1)
      ensures Pairing.ProbeByCandidate == old(Pairing.ProbeByCandidate) && Pairing.CandidateByProbe == old(Pairing.CandidateByProbe)
      ensures Pairing.PairList == old(Pairing.PairList)
    {
      ResetPairing();
      Support := seq(|Probe.Edges|, _ => 0);
    }

    /** `Pairing.Reset()` on a prepared pairing: nothing is paired afterwards. */
    method ResetPairing()
      requires Prepared()
      modifies Pairing, Pairing.ProbeByCandidate, Pairing.CandidateByProbe
      ensures Prepared() && Pairing.Consistent() && Pairing.Pairs() == []
      ensures Pairing.CandidateByProbe[..] == seq(Pairing.CandidateByProbe.Length, _ => -1)
      ensures Pairing.ProbeByCandidate[..] == seq(Pairing.ProbeByCandidate.Length, _ => -1)
      ensures Pairing.ProbeByCandidate == old(Pairing.ProbeByCandidate) && Pairing.CandidateByProbe == old(Pairing.CandidateByProbe)
      ensures Pairing.PairList == old(Pairing.PairList)
    {
      Pairing.Reset();
    }

    /** `Pairing.Add(root)` on an empty pairing. */
    method AddRoot(root: MinutiaPair)
      requires Ready() && Pairing.Consistent() && Pairing.Pairs() == []
      requires Pairing.CandidateByProbe[..] == seq(Pairing.CandidateByProbe.Length, _ => -1)
      requires Pairing.ProbeByCandidate[..] == seq(Pairing.ProbeByCandidate.Length, _ => -1)
      requires 0 <= root.Probe < |Probe.Edges| && 0 <= root.Candidate < |CandidateEdges.Table|
      modifies Pairing, Pairing.ProbeByCandidate, Pairing.CandidateByProbe, Pairing.PairList
      ensures Growing() && Pairing.Pairs() == [root]
      ensures Pairing.ProbeByCandidate == old(Pairing.ProbeByCandidate) && Pairing.CandidateByProbe == old(Pairing.CandidateByProbe)
      ensures Pairing.PairList == old(Pairing.PairList)
    {
      assert Pairing.CandidateByProbe[root.Probe] == -1 && Pairing.ProbeByCandidate[root.Candidate] == -1;
      Pairing.Add(root);
      assert Pairing.Pairs() == [root];
      Pairing.ConsistentIsTracked();
      assert Prepared();
    }

    /** `TryRoot`: the pairing restarts from the root alone, support restarts from zero,
        the pairing is grown until it is closed, and the grown pairing is scored. With the
        queue empty on entry, as `Match` leaves it, every pair after the root was matched
        around an earlier one. */
    method TryRoot(root: MinutiaPair, candidate: Template,
      lookup: (seq<NeighborEdge>, seq<NeighborEdge>) -> seq<EdgePair>,
      analyze: (Template, Template, seq<MinutiaPair>, seq<int>) -> MatchAnalysis)
      returns (score: real, ghost pairing: seq<MinutiaPair>, ghost support: seq<int>)
      requires Ready() && LookupInRange(lookup) && |CandidateEdges.Table| == |candidate.Minutiae|
      requires 0 <= root.Probe < |Probe.Edges| && 0 <= root.Candidate < |CandidateEdges.Table|
      modifies this`Queue, this`Support, Pairing, Pairing.ProbeByCandidate, Pairing.CandidateByProbe, Pairing.PairList
      ensures Ready() && Queue == []
      ensures Pairing.ProbeByCandidate == old(Pairing.ProbeByCandidate) && Pairing.CandidateByProbe == old(Pairing.CandidateByProbe)
      ensures Pairing.PairList == old(Pairing.PairList)
      ensures Pairing.Consistent()
      ensures pairing == Pairing.Pairs() && support == Support
      ensures |pairing| <= |Probe.Edges| && |pairing| <= |CandidateEdges.Table|
      ensures GrownFrom(Probe.Edges, CandidateEdges.Table, lookup, pairing, root)
      ensures score == Scoring.Compute(analyze(Probe.Template, candidate, pairing, support))
      ensures old(Queue) == [] ==>
        TriedRoot(Scoring, analyze, Probe.Template, Probe.Edges, candidate, CandidateEdges.Table, lookup, root, pairing, support, score)
    {
      StartFrom(root);
      BuildPairing(lookup);
      score := Scoring.Compute(analyze(Probe.Template, candidate, Pairing.Pairs(), Support));
      pairing, support := Pairing.Pairs(), Support;
    }

    /** `Match`: prepares the candidate, tries the roots in order, stopping once
        `MaxTriedRoots` have been tried, and returns the best score, 0 when no root
        scores above 0. */
    method Match(candidate: Template, roots: seq<MinutiaPair>,
      construct: (Template, int, int) -> EdgeShape,
      lookup: (seq<NeighborEdge>, seq<NeighborEdge>) -> seq<EdgePair>,
      analyze: (Template, Template, seq<MinutiaPair>, seq<int>) -> MatchAnalysis)
      returns (bestScore: real, ghost scores: seq<real>, ghost pairings: seq<seq<MinutiaPair>>, ghost supports: seq<seq<int>>)
      requires ProbeSelected() && LookupInRange(lookup)
      requires forall i :: 0 <= i < |roots| ==>
        0 <= roots[i].Probe < |Probe.Template.Minutiae| && 0 <= roots[i].Candidate < |candidate.Minutiae|
      modifies this`Queue, this`Support, Pairing, Pairing.ProbeByCandidate, Pairing.CandidateByProbe, Pairing.PairList
      modifies CandidateEdges`Table
      ensures Ready()
      ensures IsTable(CandidateEdges.Table, candidate, construct, CandidateEdges.MaxDistance, CandidateEdges.MaxNeighbors)
      ensures |scores| == TriedCount(|roots|, MaxTriedRoots)
      ensures AllTried(Scoring, analyze, Probe.Template, Probe.Edges, candidate, CandidateEdges.Table, lookup, roots, pairings, supports, scores)
      ensures bestScore == BestOf(scores).Score
      ensures LeftBy(pairings, supports, |scores|)
      ensures |scores| > 0 ==> Pairing.Consistent()
    {
      PrepareCandidate(candidate, construct);
      bestScore, scores, pairings, supports := TryRoots(candidate, roots, lookup, analyze);
    }

    /** One round of the loop of `TryRoots`: root `rootIndex` is tried, and its pairing,
        support and score join those of the roots before it. */
    method TryNext(candidate: Template, roots: seq<MinutiaPair>, rootIndex: int,
      lookup: (seq<NeighborEdge>, seq<NeighborEdge>) -> seq<EdgePair>,
      analyze: (Template, Template, seq<MinutiaPair>, seq<int>) -> MatchAnalysis,
      ghost pairings: seq<seq<MinutiaPair>>, ghost supports: seq<seq<int>>, ghost scores: seq<real>)
      returns (score: real, ghost pairings': seq<seq<MinutiaPair>>, ghost supports': seq<seq<int>>)
      requires Ready() && LookupInRange(lookup) && |CandidateEdges.Table| == |candidate.Minutiae|
      requires forall i :: 0 <= i < |roots| ==>
        0 <= roots[i].Probe < |Probe.Template.Minutiae| && 0 <= roots[i].Candidate < |candidate.Minutiae|
      requires 0 <= rootIndex == |scores| < |roots|
      requires Queue == []
      requires AllTried(Scoring, analyze, Probe.Template, Probe.Edges, candidate, CandidateEdges.Table, lookup, roots, pairings, supports, scores)
      modifies this`Queue, this`Support, Pairing, Pairing.ProbeByCandidate, Pairing.CandidateByProbe, Pairing.PairList
      ensures Ready()
      ensures Pairing.ProbeByCandidate == old(Pairing.ProbeByCandidate) && Pairing.CandidateByProbe == old(Pairing.CandidateByProbe)
      ensures Pairing.PairList == old(Pairing.PairList)
      ensures Queue == []
      ensures AllTried(Scoring, analyze, Probe.Template, Probe.Edges, candidate, CandidateEdges.Table, lookup, roots,
        pairings', supports', scores + [score])
      ensures LeftBy(pairings', supports', |scores| + 1)
      ensures Pairing.Consistent()
    {
      ghost var pairing, support;
      score, pairing, support := TryRoot(roots[rootIndex], candidate, lookup, analyze);
      AllTriedSnoc(Scoring, analyze, Probe.Template, Probe.Edges, candidate, CandidateEdges.Table, lookup, roots,
        pairings, supports, scores, pairing, support, score);
      pairings', supports' := pairings + [pairing], supports + [support];
    }

    /** The loop of `Match` over the roots. */
    method TryRoots(candidate: Template, roots: seq<MinutiaPair>,
      lookup: (seq<NeighborEdge>, seq<NeighborEdge>) -> seq<EdgePair>,
      analyze: (Template, Template, seq<MinutiaPair>, seq<int>) -> MatchAnalysis)
      returns (bestScore: real, ghost scores: seq<real>, ghost pairings: seq<seq<MinutiaPair>>, ghost supports: seq<seq<int>>)
      requires Ready() && LookupInRange(lookup) && |CandidateEdges.Table| == |candidate.Minutiae|
      requires Queue == []
      requires forall i :: 0 <= i < |roots| ==>
        0 <= roots[i].Probe < |Probe.Template.Minutiae| && 0 <= roots[i].Candidate < |candidate.Minutiae|
      modifies this`Queue, this`Support, Pairing, Pairing.ProbeByCandidate, Pairing.CandidateByProbe, Pairing.PairList
      ensures Ready()
      ensures Pairing.ProbeByCandidate == old(Pairing.ProbeByCandidate) && Pairing.CandidateByProbe == old(Pairing.CandidateByProbe)
      ensures Pairing.PairList == old(Pairing.PairList)
      ensures |scores| == TriedCount(|roots|, MaxTriedRoots)
      ensures AllTried(Scoring, analyze, Probe.Template, Probe.Edges, candidate, CandidateEdges.Table, lookup, roots, pairings, supports, scores)
      ensures bestScore == BestOf(scores).Score
      ensures LeftBy(pairings, supports, |scores|)
      ensures |scores| > 0 ==> Pairing.Consistent()
    {
      var rootIndex := 0;
      bestScore := 0.0;
      var bestRootIndex := -1;
      scores, pairings, supports := [], [], [];
      while rootIndex < |roots|
        invariant Ready()
        invariant Pairing.ProbeByCandidate == old(Pairing.ProbeByCandidate) && Pairing.CandidateByProbe == old(Pairing.CandidateByProbe)
        invariant Pairing.PairList == old(Pairing.PairList)
        invariant 0 <= rootIndex <= |roots| && (rootIndex == 0 || rootIndex < MaxTriedRoots)
        invariant |scores| == rootIndex
        invariant Queue == []
        invariant AllTried(Scoring, analyze, Probe.Template, Probe.Edges, candidate, CandidateEdges.Table, lookup, roots, pairings, supports, scores)
        invariant Best(bestScore, bestRootIndex) == BestOf(scores)
        invariant LeftBy(pairings, supports, rootIndex)
        decreases |roots| - rootIndex
      {
        var score;
        score, pairings, supports := TryNext(candidate, roots, rootIndex, lookup, analyze, pairings, supports, scores);
        BestOfSnoc(scores, score);
        scores := scores + [score];
        if score > bestScore {
          bestScore := score;
          bestRootIndex := rootIndex;
        }
        rootIndex := rootIndex + 1;
        if rootIndex >= MaxTriedRoots {
          break;
        }
      }
      TriedCountOnExit(|roots|, MaxTriedRoots, rootIndex);
    }
  }
}
