/** SourceAFIS.Matching.MinutiaPairing: the growing set of (probe minutia, candidate
    minutia) pairs of one match attempt. Two index maps answer "what is this minutia
    paired with" (`-1` when unpaired), and a list keeps the pairs in the order they were
    added. The maps and the list are arrays updated in place, as in the source. */
module MinutiaPairing {

  datatype MinutiaPair = MinutiaPair(Probe: int, Candidate: int)

  // ------------------------------------------------------------ the maps as values

  function ProbesOf(pairs: seq<MinutiaPair>): (r: seq<int>)
    ensures |r| == |pairs| && forall i :: 0 <= i < |pairs| ==> r[i] == pairs[i].Probe
  {
    if pairs == [] then [] else ProbesOf(pairs[..|pairs| - 1]) + [pairs[|pairs| - 1].Probe]
  }

  function CandidatesOf(pairs: seq<MinutiaPair>): (r: seq<int>)
    ensures |r| == |pairs| && forall i :: 0 <= i < |pairs| ==> r[i] == pairs[i].Candidate
  {
    if pairs == [] then [] else CandidatesOf(pairs[..|pairs| - 1]) + [pairs[|pairs| - 1].Candidate]
  }

  /** Every pair indexes both maps. */
  predicate InRange(pairs: seq<MinutiaPair>, probeCount: int, candidateCount: int)
  {
    forall i :: 0 <= i < |pairs| ==>
      0 <= pairs[i].Probe < probeCount && 0 <= pairs[i].Candidate < candidateCount
  }

  /** Every key of `keys` indexes `m`. */
  predicate KeysInRange(m: seq<int>, keys: seq<int>)
  {
    forall k :: 0 <= k < |keys| ==> 0 <= keys[k] < |m|
  }

  /** `m` with the entry of every key of `keys`, in order, set back to -1: what the
      loop of `Reset` does to one map. */
  function Clear(m: seq<int>, keys: seq<int>): (r: seq<int>)
    requires KeysInRange(m, keys)
    ensures |r| == |m|
  {
    if keys == [] then m else Clear(m, keys[..|keys| - 1])[keys[|keys| - 1] := -1]
  }

  /** Entries whose key was listed become -1; all others are kept. */
  lemma {:induction false} ClearAt(m: seq<int>, keys: seq<int>, i: int)
    requires KeysInRange(m, keys) && 0 <= i < |m|
    ensures Clear(m, keys)[i] == if i in keys then -1 else m[i]
  {
    if keys != [] {
      var init := keys[..|keys| - 1];
      ClearAt(m, init, i);
      assert keys == init + [keys[|keys| - 1]];
      assert i in keys <==> i in init || i == keys[|keys| - 1];
    }
  }

  /** Only listed keys may be paired (hold something other than -1). */
  predicate OnlyListedPaired(m: seq<int>, keys: seq<int>)
  {
    forall i :: 0 <= i < |m| && m[i] != -1 ==> i in keys
  }

  /** When only listed keys are paired, clearing them leaves nothing paired. */
  lemma ClearLeavesNothingPaired(m: seq<int>, keys: seq<int>)
    requires KeysInRange(m, keys) && OnlyListedPaired(m, keys)
    ensures Clear(m, keys) == seq(|m|, _ => -1)
  {
    forall i | 0 <= i < |m|
      ensures Clear(m, keys)[i] == -1
    {
      ClearAt(m, keys, i);
    }
  }

  /** With no key listed, nothing may be paired. */
  lemma NothingListedNothingPaired(m: seq<int>)
    requires OnlyListedPaired(m, [])
    ensures m == seq(|m|, _ => -1)
  {
  }

  /** Maps with nothing paired and an empty list satisfy the pairing invariant. */
  lemma NothingPairedIsConsistent(candidateCount: nat, probeCount: nat)
    ensures PairingConsistent(seq(probeCount, _ => -1), seq(candidateCount, _ => -1), [])
  {
  }

  /** The pairing invariant: the pair list has no minutia twice, each pair is recorded
      in both maps, and the maps record nothing else. */
  predicate PairingConsistent(candidateByProbe: seq<int>, probeByCandidate: seq<int>, pairs: seq<MinutiaPair>)
  {
    && InRange(pairs, |candidateByProbe|, |probeByCandidate|)
    && NoMinutiaTwice(pairs)
    && Recorded(candidateByProbe, probeByCandidate, pairs)
    && OnlyListedPaired(candidateByProbe, ProbesOf(pairs))
    && OnlyListedPaired(probeByCandidate, CandidatesOf(pairs))
  }

  /** No probe minutia and no candidate minutia occurs in two pairs. */
  predicate NoMinutiaTwice(pairs: seq<MinutiaPair>)
  {
    forall i, j :: 0 <= i < j < |pairs| ==> pairs[i].Probe != pairs[j].Probe && pairs[i].Candidate != pairs[j].Candidate
  }

  /** Each pair is recorded in both maps. */
  predicate Recorded(candidateByProbe: seq<int>, probeByCandidate: seq<int>, pairs: seq<MinutiaPair>)
    requires InRange(pairs, |candidateByProbe|, |probeByCandidate|)
  {
    forall i :: 0 <= i < |pairs| ==>
      candidateByProbe[pairs[i].Probe] == pairs[i].Candidate && probeByCandidate[pairs[i].Candidate] == pairs[i].Probe
  }

  /** Under the invariant the maps are mutual inverses on paired minutiae, and a minutia
      is paired (non-negative entry) exactly when it occurs in the pair list. */
  lemma ConsistentInverse(candidateByProbe: seq<int>, probeByCandidate: seq<int>, pairs: seq<MinutiaPair>)
    requires PairingConsistent(candidateByProbe, probeByCandidate, pairs)
    ensures forall p :: 0 <= p < |candidateByProbe| && candidateByProbe[p] >= 0 ==>
      0 <= candidateByProbe[p] < |probeByCandidate| && probeByCandidate[candidateByProbe[p]] == p
    ensures forall c :: 0 <= c < |probeByCandidate| && probeByCandidate[c] >= 0 ==>
      0 <= probeByCandidate[c] < |candidateByProbe| && candidateByProbe[probeByCandidate[c]] == c
    ensures forall p :: 0 <= p < |candidateByProbe| ==>
      (candidateByProbe[p] >= 0 <==> exists i :: 0 <= i < |pairs| && pairs[i].Probe == p)
    ensures forall c :: 0 <= c < |probeByCandidate| ==>
      (probeByCandidate[c] >= 0 <==> exists i :: 0 <= i < |pairs| && pairs[i].Candidate == c)
  {
    var probes, candidates := ProbesOf(pairs), CandidatesOf(pairs);
    forall p | 0 <= p < |candidateByProbe| && candidateByProbe[p] != -1
      ensures exists i :: 0 <= i < |pairs| && pairs[i].Probe == p
    {
      var i :| 0 <= i < |probes| && probes[i] == p;
    }
    forall c | 0 <= c < |probeByCandidate| && probeByCandidate[c] != -1
      ensures exists i :: 0 <= i < |pairs| && pairs[i].Candidate == c
    {
      var i :| 0 <= i < |candidates| && candidates[i] == c;
    }
  }

  /** `ConsistentInverse` for a state that may or may not be consistent. */
  lemma ConsistentInverseIf(candidateByProbe: seq<int>, probeByCandidate: seq<int>, pairs: seq<MinutiaPair>)
    ensures PairingConsistent(candidateByProbe, probeByCandidate, pairs) ==>
      && (forall p :: 0 <= p < |candidateByProbe| ==>
            (candidateByProbe[p] >= 0 <==> exists i :: 0 <= i < |pairs| && pairs[i].Probe == p))
      && (forall c :: 0 <= c < |probeByCandidate| ==>
            (probeByCandidate[c] >= 0 <==> exists i :: 0 <= i < |pairs| && pairs[i].Candidate == c))
  {
    if PairingConsistent(candidateByProbe, probeByCandidate, pairs) {
      ConsistentInverse(candidateByProbe, probeByCandidate, pairs);
    }
  }

  /** Pairing key `k` in one map keeps "only listed keys are paired" once `k` is listed. */
  lemma OnlyListedAfterAdd(m: seq<int>, keys: seq<int>, k: int, v: int)
    requires OnlyListedPaired(m, keys) && 0 <= k < |m|
    ensures OnlyListedPaired(m[k := v], keys + [k])
  {
    forall i | 0 <= i < |m| && m[k := v][i] != -1
      ensures i in keys + [k]
    {
      if i != k {
        assert i in keys;
      }
    }
  }

  /** `Add` of a pair whose two minutiae are both unpaired keeps the invariant. */
  lemma AddKeepsConsistent(candidateByProbe: seq<int>, probeByCandidate: seq<int>, pairs: seq<MinutiaPair>, pair: MinutiaPair)
    requires PairingConsistent(candidateByProbe, probeByCandidate, pairs)
    requires 0 <= pair.Probe < |candidateByProbe| && 0 <= pair.Candidate < |probeByCandidate|
    requires candidateByProbe[pair.Probe] < 0 && probeByCandidate[pair.Candidate] < 0
    ensures PairingConsistent(
      candidateByProbe[pair.Probe := pair.Candidate], probeByCandidate[pair.Candidate := pair.Probe], pairs + [pair])
  {
    var cbp', pbc', pairs' := candidateByProbe[pair.Probe := pair.Candidate], probeByCandidate[pair.Candidate := pair.Probe], pairs + [pair];
    UnpairedIsNew(candidateByProbe, probeByCandidate, pairs, pair);
    AddKeepsInRange(pairs, pair, |cbp'|, |pbc'|);
    AddKeepsNoMinutiaTwice(pairs, pair);
    AddKeepsRecorded(candidateByProbe, probeByCandidate, pairs, pair);
    ProbesOfSnoc(pairs, pair);
    OnlyListedAfterAdd(candidateByProbe, ProbesOf(pairs), pair.Probe, pair.Candidate);
    OnlyListedAfterAdd(probeByCandidate, CandidatesOf(pairs), pair.Candidate, pair.Probe);
  }

  /** A pair whose two minutiae are unpaired shares no minutia with a listed pair. */
  lemma UnpairedIsNew(candidateByProbe: seq<int>, probeByCandidate: seq<int>, pairs: seq<MinutiaPair>, pair: MinutiaPair)
    requires InRange(pairs, |candidateByProbe|, |probeByCandidate|) && Recorded(candidateByProbe, probeByCandidate, pairs)
    requires 0 <= pair.Probe < |candidateByProbe| && 0 <= pair.Candidate < |probeByCandidate|
    requires candidateByProbe[pair.Probe] < 0 && probeByCandidate[pair.Candidate] < 0
    ensures forall i :: 0 <= i < |pairs| ==> pairs[i].Probe != pair.Probe && pairs[i].Candidate != pair.Candidate
  {
    forall i | 0 <= i < |pairs|
      ensures pairs[i].Probe != pair.Probe && pairs[i].Candidate != pair.Candidate
    {
      assert candidateByProbe[pairs[i].Probe] == pairs[i].Candidate >= 0;
      assert probeByCandidate[pairs[i].Candidate] == pairs[i].Probe >= 0;
    }
  }

  lemma AddKeepsInRange(pairs: seq<MinutiaPair>, pair: MinutiaPair, probeCount: int, candidateCount: int)
    requires InRange(pairs, probeCount, candidateCount)
    requires 0 <= pair.Probe < probeCount && 0 <= pair.Candidate < candidateCount
    ensures InRange(pairs + [pair], probeCount, candidateCount)
  {
    forall i | 0 <= i < |pairs + [pair]|
      ensures 0 <= (pairs + [pair])[i].Probe < probeCount && 0 <= (pairs + [pair])[i].Candidate < candidateCount
    {
      if i < |pairs| {
        assert (pairs + [pair])[i] == pairs[i];
      }
    }
  }

  lemma AddKeepsNoMinutiaTwice(pairs: seq<MinutiaPair>, pair: MinutiaPair)
    requires NoMinutiaTwice(pairs)
    requires forall i :: 0 <= i < |pairs| ==> pairs[i].Probe != pair.Probe && pairs[i].Candidate != pair.Candidate
    ensures NoMinutiaTwice(pairs + [pair])
  {
    forall i, j | 0 <= i < j < |pairs + [pair]|
      ensures (pairs + [pair])[i].Probe != (pairs + [pair])[j].Probe
      ensures (pairs + [pair])[i].Candidate != (pairs + [pair])[j].Candidate
    {
      assert (pairs + [pair])[i] == pairs[i];
      if j < |pairs| {
        assert (pairs + [pair])[j] == pairs[j];
      }
    }
  }

  lemma AddKeepsRecorded(candidateByProbe: seq<int>, probeByCandidate: seq<int>, pairs: seq<MinutiaPair>, pair: MinutiaPair)
    requires InRange(pairs, |candidateByProbe|, |probeByCandidate|) && Recorded(candidateByProbe, probeByCandidate, pairs)
    requires 0 <= pair.Probe < |candidateByProbe| && 0 <= pair.Candidate < |probeByCandidate|
    requires forall i :: 0 <= i < |pairs| ==> pairs[i].Probe != pair.Probe && pairs[i].Candidate != pair.Candidate
    requires InRange(pairs + [pair], |candidateByProbe|, |probeByCandidate|)
    ensures Recorded(candidateByProbe[pair.Probe := pair.Candidate], probeByCandidate[pair.Candidate := pair.Probe], pairs + [pair])
  {
    var cbp', pbc', pairs' := candidateByProbe[pair.Probe := pair.Candidate], probeByCandidate[pair.Candidate := pair.Probe], pairs + [pair];
    forall i | 0 <= i < |pairs'|
      ensures cbp'[pairs'[i].Probe] == pairs'[i].Candidate && pbc'[pairs'[i].Candidate] == pairs'[i].Probe
    {
      if i < |pairs| {
        assert pairs'[i] == pairs[i];
      }
    }
  }

  lemma ProbesOfSnoc(pairs: seq<MinutiaPair>, pair: MinutiaPair)
    ensures ProbesOf(pairs + [pair]) == ProbesOf(pairs) + [pair.Probe]
    ensures CandidatesOf(pairs + [pair]) == CandidatesOf(pairs) + [pair.Candidate]
  {
    assert (pairs + [pair])[..|pairs|] == pairs;
  }

  /** Pigeonhole: with an unpaired probe minutia left, fewer pairs than probe minutiae
      exist, so the pair list still has room. */
  lemma {:induction false} RoomForAnotherPair(candidateByProbe: seq<int>, probeByCandidate: seq<int>, pairs: seq<MinutiaPair>, probe: int)
    requires PairingConsistent(candidateByProbe, probeByCandidate, pairs)
    requires 0 <= probe < |candidateByProbe| && candidateByProbe[probe] < 0
    ensures |pairs| < |candidateByProbe|
  {
    var used := set i | 0 <= i < |pairs| :: pairs[i].Probe;
    DistinctProbesCount(pairs);
    forall x | x in used
      ensures 0 <= x < |candidateByProbe| && x != probe
    {
      var i :| 0 <= i < |pairs| && pairs[i].Probe == x;
      assert candidateByProbe[x] == pairs[i].Candidate >= 0;
    }
    SubsetCount(used + {probe}, Range(|candidateByProbe|));
  }

  lemma {:induction false} DistinctProbesCount(pairs: seq<MinutiaPair>)
    requires forall i, j :: 0 <= i < j < |pairs| ==> pairs[i].Probe != pairs[j].Probe
    ensures |set i | 0 <= i < |pairs| :: pairs[i].Probe| == |pairs|
  {
    if pairs != [] {
      var init := pairs[..|pairs| - 1];
      DistinctProbesCount(init);
      var last := pairs[|pairs| - 1].Probe;
      assert (set i | 0 <= i < |pairs| :: pairs[i].Probe)
          == (set i | 0 <= i < |init| :: init[i].Probe) + {last};
    }
  }

  lemma {:induction false} DistinctCandidatesCount(pairs: seq<MinutiaPair>)
    requires forall i, j :: 0 <= i < j < |pairs| ==> pairs[i].Candidate != pairs[j].Candidate
    ensures |set i | 0 <= i < |pairs| :: pairs[i].Candidate| == |pairs|
  {
    if pairs != [] {
      var init := pairs[..|pairs| - 1];
      DistinctCandidatesCount(init);
      var last := pairs[|pairs| - 1].Candidate;
      assert (set i | 0 <= i < |pairs| :: pairs[i].Candidate)
          == (set i | 0 <= i < |init| :: init[i].Candidate) + {last};
    }
  }

  /** Pigeonhole: a pairing that uses no minutia twice has no more pairs than either
      template has minutiae. */
  lemma PairCountBound(pairs: seq<MinutiaPair>, probeCount: nat, candidateCount: nat)
    requires NoMinutiaTwice(pairs) && InRange(pairs, probeCount, candidateCount)
    ensures |pairs| <= probeCount && |pairs| <= candidateCount
  {
    DistinctProbesCount(pairs);
    DistinctCandidatesCount(pairs);
    SubsetCount(set i | 0 <= i < |pairs| :: pairs[i].Probe, Range(probeCount));
    SubsetCount(set i | 0 <= i < |pairs| :: pairs[i].Candidate, Range(candidateCount));
  }

  /** The integers 0 .. n-1. */
  function Range(n: nat): (r: set<int>)
    ensures |r| == n && forall x :: x in r <==> 0 <= x < n
  {
    if n == 0 then {} else Range(n - 1) + {n - 1}
  }

  lemma {:induction false} SubsetCount<T>(a: set<T>, b: set<T>)
    requires a <= b
    ensures |a| <= |b|
  {
    if a != {} {
      var x :| x in a;
      SubsetCount(a - {x}, b - {x});
    }
  }

  /** Sets every entry of `a` to -1 (unpaired). */
  method FillUnpaired(a: array<int>)
    modifies a
    ensures a[..] == seq(a.Length, _ => -1)
  {
    for i := 0 to a.Length
      invariant forall k :: 0 <= k < i ==> a[k] == -1
    {
      a[i] := -1;
    }
  }

  /** The loop of `Reset`: un-pairs both minutiae of each of the first `n` listed pairs. */
  method ClearListed(probeByCandidate: array<int>, candidateByProbe: array<int>, pairList: array<MinutiaPair>, n: int)
    requires probeByCandidate != candidateByProbe && 0 <= n <= pairList.Length
    requires InRange(pairList[..n], candidateByProbe.Length, probeByCandidate.Length)
    modifies probeByCandidate, candidateByProbe
    ensures KeysInRange(old(probeByCandidate[..]), CandidatesOf(pairList[..n]))
    ensures KeysInRange(old(candidateByProbe[..]), ProbesOf(pairList[..n]))
    ensures probeByCandidate[..] == Clear(old(probeByCandidate[..]), CandidatesOf(pairList[..n]))
    ensures candidateByProbe[..] == Clear(old(candidateByProbe[..]), ProbesOf(pairList[..n]))
  {
    ghost var probeMap, candidateMap := probeByCandidate[..], candidateByProbe[..];
    ghost var candidates, probes := CandidatesOf(pairList[..n]), ProbesOf(pairList[..n]);
    for i := 0 to n
      invariant probeByCandidate[..] == Clear(probeMap, candidates[..i])
      invariant candidateByProbe[..] == Clear(candidateMap, probes[..i])
    {
      assert candidates[..i + 1] == candidates[..i] + [pairList[i].Candidate];
      assert probes[..i + 1] == probes[..i] + [pairList[i].Probe];
      probeByCandidate[pairList[i].Candidate] := -1;
      candidateByProbe[pairList[i].Probe] := -1;
    }
    assert candidates[..n] == candidates && probes[..n] == probes;
  }

  // ------------------------------------------------------------ the class

  class MinutiaPairing {
    var ProbeByCandidate: array?<int>
    var CandidateByProbe: array?<int>
    var PairList: array?<MinutiaPair>
    var PairCount: int

    /** The pairs added since the last reset, oldest first. */
    function Pairs(): seq<MinutiaPair>
      reads this, PairList
      requires PairList != null && 0 <= PairCount <= PairList.Length
    {
      PairList[..PairCount]
    }

    /** Shape of the state: the probe-side arrays are allocated together and have one
        entry per probe minutia; listed pairs index both maps; the two maps are
        different arrays. */
    ghost predicate Valid()
      reads this, PairList
    {
      && 0 <= PairCount
      && (PairList == null <==> CandidateByProbe == null)
      && (PairList == null ==> PairCount == 0)
      && (PairList != null ==> PairList.Length == CandidateByProbe.Length && PairCount <= PairList.Length)
      && (PairCount > 0 ==> ProbeByCandidate != null)
      && (ProbeByCandidate != null && CandidateByProbe != null ==> ProbeByCandidate != CandidateByProbe)
      && (PairCount > 0 ==> InRange(Pairs(), CandidateByProbe.Length, ProbeByCandidate.Length))
    }

    /** The probe-side map exists and marks only probe minutiae of listed pairs. */
    ghost predicate ProbeSideTracked()
      reads this, PairList, CandidateByProbe
    {
      && Valid() && CandidateByProbe != null
      && OnlyListedPaired(CandidateByProbe[..], ProbesOf(Pairs()))
    }

    /** Both maps exist and only minutiae of listed pairs are marked as paired: enough
        for `Reset` to leave nothing paired. */
    ghost predicate Tracked()
      reads this, PairList, ProbeByCandidate, CandidateByProbe
    {
      && Valid() && ProbeByCandidate != null && CandidateByProbe != null
      && OnlyListedPaired(CandidateByProbe[..], ProbesOf(Pairs()))
      && OnlyListedPaired(ProbeByCandidate[..], CandidatesOf(Pairs()))
    }

    /** The full pairing invariant holds for the current state. */
    ghost predicate Consistent()
      reads this, PairList, ProbeByCandidate, CandidateByProbe
    {
      && Valid() && ProbeByCandidate != null && CandidateByProbe != null
      && PairingConsistent(CandidateByProbe[..], ProbeByCandidate[..], Pairs())
    }

    /** The invariant implies that only minutiae of listed pairs are marked. */
    lemma ConsistentIsTracked()
      requires Consistent()
      ensures Tracked() && ProbeSideTracked()
    {
    }

    ghost function CurrentCandidateByProbe(): seq<int>
      reads this, CandidateByProbe
    {
      if CandidateByProbe == null then [] else CandidateByProbe[..]
    }

    ghost function CurrentProbeByCandidate(): seq<int>
      reads this, ProbeByCandidate
    {
      if ProbeByCandidate == null then [] else ProbeByCandidate[..]
    }

    ghost function CurrentPairs(): seq<MinutiaPair>
      reads this, PairList
      requires Valid()
    {
      if PairList == null then [] else Pairs()
    }

    ghost function Repr(): set<object>
      reads this
    {
      {this}
        + (if ProbeByCandidate == null then {} else {ProbeByCandidate})
        + (if CandidateByProbe == null then {} else {CandidateByProbe})
        + (if PairList == null then {} else {PairList})
    }

    constructor ()
      ensures ProbeByCandidate == null && CandidateByProbe == null && PairList == null && PairCount == 0
      ensures Valid()
    {
      ProbeByCandidate := null;
      CandidateByProbe := null;
      PairList := null;
      PairCount := 0;
    }

    /** `Count`: the number of pairs added since the last reset; zero before the first
        `SelectProbe`. */
    function Count(): (r: int)
      reads this, PairList
      requires Valid()
      ensures r == |CurrentPairs()|
      ensures PairList == null ==> r == 0
    {
      PairCount
    }

    /** `LastAdded`: the most recently added pair. */
    function LastAdded(): (r: MinutiaPair)
      reads this, PairList
      requires Valid() && PairList != null && PairCount > 0
      ensures r == Pairs()[|Pairs()| - 1]
    {
      PairList[PairCount - 1]
    }

    /** `SelectProbe`: one unpaired entry per probe minutia and an empty pair list whose
        slots hold the default pair (0, 0). The candidate-side map is left as it is. */
    method SelectProbe(probeCount: nat)
      requires Valid()
      modifies this
      ensures fresh(CandidateByProbe) && fresh(PairList)
      ensures CandidateByProbe[..] == seq(probeCount, _ => -1)
      ensures PairList[..] == seq(probeCount, _ => MinutiaPair(0, 0)) && PairCount == 0
      ensures ProbeByCandidate == old(ProbeByCandidate)
      ensures Valid() && Pairs() == [] && ProbeSideTracked()
      ensures ProbeByCandidate != null && ProbeByCandidate[..] == seq(ProbeByCandidate.Length, _ => -1) ==>
        Consistent()
    {
      var entries := new int[probeCount];
      FillUnpaired(entries);
      CandidateByProbe := entries;
      PairList := new MinutiaPair[probeCount](_ => MinutiaPair(0, 0));
      PairCount := 0;
    }

    /** `SelectCandidate`: the candidate-side map is reallocated only when missing or
        shorter than the candidate's minutia count, and then every entry is unpaired. */
    method SelectCandidate(candidateCount: nat)
      requires Valid()
      modifies this, ProbeByCandidate
      ensures ProbeByCandidate != null && ProbeByCandidate.Length >= candidateCount
      ensures old(ProbeByCandidate) != null && old(ProbeByCandidate.Length) >= candidateCount ==>
        ProbeByCandidate == old(ProbeByCandidate)
      ensures old(ProbeByCandidate) == null || old(ProbeByCandidate.Length) < candidateCount ==>
        fresh(ProbeByCandidate) && ProbeByCandidate.Length == candidateCount
      ensures ProbeByCandidate[..] == seq(ProbeByCandidate.Length, _ => -1)
      ensures CandidateByProbe == old(CandidateByProbe) && PairList == old(PairList) && PairCount == old(PairCount)
      ensures Valid()
      ensures old(ProbeSideTracked()) ==> Tracked()
    {
      if ProbeByCandidate == null || ProbeByCandidate.Length < candidateCount {
        ProbeByCandidate := new int[candidateCount];
      }
      FillUnpaired(ProbeByCandidate);
    }

    /** `Reset`: each listed pair's two entries go back to -1 and the list empties. When
        only listed minutiae were paired, nothing is paired afterwards. */
    method Reset()
      requires Valid()
      modifies this, ProbeByCandidate, CandidateByProbe
      ensures ProbeByCandidate == old(ProbeByCandidate) && CandidateByProbe == old(CandidateByProbe)
      ensures PairList == old(PairList) && PairCount == 0 && Valid()
      ensures old(PairCount) > 0 ==>
        && KeysInRange(old(ProbeByCandidate[..]), CandidatesOf(old(Pairs())))
        && KeysInRange(old(CandidateByProbe[..]), ProbesOf(old(Pairs())))
        && ProbeByCandidate[..] == Clear(old(ProbeByCandidate[..]), CandidatesOf(old(Pairs())))
        && CandidateByProbe[..] == Clear(old(CandidateByProbe[..]), ProbesOf(old(Pairs())))
      ensures old(PairCount) == 0 ==>
        && (ProbeByCandidate != null ==> ProbeByCandidate[..] == old(ProbeByCandidate[..]))
        && (CandidateByProbe != null ==> CandidateByProbe[..] == old(CandidateByProbe[..]))
      ensures old(Tracked()) ==>
        && Consistent()
        && ProbeByCandidate[..] == seq(ProbeByCandidate.Length, _ => -1)
        && CandidateByProbe[..] == seq(CandidateByProbe.Length, _ => -1)
    {
      ghost var tracked := Tracked();
      if PairCount > 0 {
        ghost var pairs := Pairs();
        ClearListed(ProbeByCandidate, CandidateByProbe, PairList, PairCount);
        if tracked {
          ClearLeavesNothingPaired(old(ProbeByCandidate[..]), CandidatesOf(pairs));
          ClearLeavesNothingPaired(old(CandidateByProbe[..]), ProbesOf(pairs));
        }
      } else if tracked {
        NothingListedNothingPaired(ProbeByCandidate[..]);
        NothingListedNothingPaired(CandidateByProbe[..]);
      }
      PairCount := 0;
      assert PairList != null ==> Pairs() == [];
      if tracked {
        NothingPairedIsConsistent(ProbeByCandidate.Length, CandidateByProbe.Length);
      }
    }

    /** `Add`: records the pair in both maps and appends it to the list. A pair whose
        two minutiae were unpaired keeps the pairing invariant. */
    method Add(pair: MinutiaPair)
      requires Valid() && ProbeByCandidate != null && CandidateByProbe != null
      requires PairCount < PairList.Length
      requires 0 <= pair.Probe < CandidateByProbe.Length && 0 <= pair.Candidate < ProbeByCandidate.Length
      modifies this, ProbeByCandidate, CandidateByProbe, PairList
      ensures ProbeByCandidate == old(ProbeByCandidate) && CandidateByProbe == old(CandidateByProbe)
      ensures PairList == old(PairList) && Valid()
      ensures ProbeByCandidate[..] == old(ProbeByCandidate[..])[pair.Candidate := pair.Probe]
      ensures CandidateByProbe[..] == old(CandidateByProbe[..])[pair.Probe := pair.Candidate]
      ensures Pairs() == old(Pairs()) + [pair] && PairCount == old(PairCount) + 1
      ensures PairList[..] == old(PairList[..])[old(PairCount) := pair]
      ensures LastAdded() == pair
      ensures old(Consistent()) && old(CandidateByProbe[pair.Probe]) < 0 && old(ProbeByCandidate[pair.Candidate]) < 0 ==>
        Consistent()
    {
      ghost var wasConsistent := Consistent();
      ghost var probeMap, candidateMap, pairs := ProbeByCandidate[..], CandidateByProbe[..], Pairs();
      ProbeByCandidate[pair.Candidate] := pair.Probe;
      CandidateByProbe[pair.Probe] := pair.Candidate;
      PairList[PairCount] := pair;
      PairCount := PairCount + 1;
      assert Pairs() == pairs + [pair];
      if wasConsistent && candidateMap[pair.Probe] < 0 && probeMap[pair.Candidate] < 0 {
        AddKeepsConsistent(candidateMap, probeMap, pairs, pair);
      }
    }

    function GetProbeByCandidate(candidate: int): (r: int)
      reads this, PairList, ProbeByCandidate, CandidateByProbe
      requires Valid() && ProbeByCandidate != null && 0 <= candidate < ProbeByCandidate.Length
      ensures Consistent() && r >= 0 ==>
        exists i :: 0 <= i < PairCount && Pairs()[i] == MinutiaPair(r, candidate)
    {
      ConsistentInverseIf(CurrentCandidateByProbe(), CurrentProbeByCandidate(), CurrentPairs());
      ProbeByCandidate[candidate]
    }

    function GetCandidateByProbe(probe: int): (r: int)
      reads this, PairList, ProbeByCandidate, CandidateByProbe
      requires Valid() && CandidateByProbe != null && 0 <= probe < CandidateByProbe.Length
      ensures Consistent() && r >= 0 ==>
        exists i :: 0 <= i < PairCount && Pairs()[i] == MinutiaPair(probe, r)
    {
      ConsistentInverseIf(CurrentCandidateByProbe(), CurrentProbeByCandidate(), CurrentPairs());
      CandidateByProbe[probe]
    }

    /** `IsProbePaired`: under the invariant, exactly the probe minutiae of listed pairs. */
    function IsProbePaired(probe: int): (r: bool)
      reads this, PairList, ProbeByCandidate, CandidateByProbe
      requires Valid() && CandidateByProbe != null && 0 <= probe < CandidateByProbe.Length
      ensures Consistent() ==> (r <==> exists i :: 0 <= i < PairCount && Pairs()[i].Probe == probe)
    {
      ConsistentInverseIf(CurrentCandidateByProbe(), CurrentProbeByCandidate(), CurrentPairs());
      CandidateByProbe[probe] >= 0
    }

    /** `IsCandidatePaired`: under the invariant, exactly the candidate minutiae of listed
        pairs. */
    function IsCandidatePaired(candidate: int): (r: bool)
      reads this, PairList, ProbeByCandidate, CandidateByProbe
      requires Valid() && ProbeByCandidate != null && 0 <= candidate < ProbeByCandidate.Length
      ensures Consistent() ==> (r <==> exists i :: 0 <= i < PairCount && Pairs()[i].Candidate == candidate)
    {
      ConsistentInverseIf(CurrentCandidateByProbe(), CurrentProbeByCandidate(), CurrentPairs());
      ProbeByCandidate[candidate] >= 0
    }

    /** `GetPair`: any slot of the list; below `Count` it is the pair added at that
        position. */
    function GetPair(index: int): (r: MinutiaPair)
      reads this, PairList
      requires Valid() && PairList != null && 0 <= index < PairList.Length
      ensures index < PairCount ==> r == Pairs()[index]
    {
      PairList[index]
    }

    /** `Clone`: a new pairing over new copies of the three arrays, so that changing one
        copy cannot affect the other. */
    method Clone() returns (clone: MinutiaPairing)
      requires Valid() && ProbeByCandidate != null && CandidateByProbe != null
      ensures fresh(clone) && fresh(clone.ProbeByCandidate) && fresh(clone.CandidateByProbe) && fresh(clone.PairList)
      ensures clone.ProbeByCandidate != null && clone.CandidateByProbe != null && clone.PairList != null
      ensures clone.ProbeByCandidate[..] == ProbeByCandidate[..] && clone.CandidateByProbe[..] == CandidateByProbe[..]
      ensures clone.PairList[..] == PairList[..] && clone.PairCount == PairCount
      ensures clone.Valid() && clone.Pairs() == Pairs()
      ensures Consistent() ==> clone.Consistent()
    {
      clone := new MinutiaPairing();
      clone.CandidateByProbe := CopyInts(CandidateByProbe);
      clone.ProbeByCandidate := CopyInts(ProbeByCandidate);
      clone.PairList := CopyPairs(PairList);
      clone.PairCount := PairCount;
      assert clone.Pairs() == clone.PairList[..PairCount];
    }
  }

  /** `int[].Clone()`. */
  method CopyInts(a: array<int>) returns (r: array<int>)
    ensures fresh(r) && r[..] == a[..]
  {
    r := new int[a.Length](i requires 0 <= i < a.Length reads a => a[i]);
  }

  /** `MinutiaPair[].Clone()`. */
  method CopyPairs(a: array<MinutiaPair>) returns (r: array<MinutiaPair>)
    ensures fresh(r) && r[..] == a[..]
  {
    r := new MinutiaPair[a.Length](i requires 0 <= i < a.Length reads a => a[i]);
  }
}
