/** SourceAFIS.Matching.EdgeTable: for every minutia of a template, the list of its
    nearest neighbouring minutiae, each with the shape of the edge that joins them.
    `Table` (a jagged C# array that is only ever replaced as a whole) is a field of type
    `seq<seq<NeighborEdge>>`. EdgeConstructor is not part of this model: the edge shape
    of a (reference, neighbour) couple is given as the function `construct`. */
module Edges {
  import opened Geometry
  import opened Sorting

  datatype Minutia = Minutia(Position: Point)

  datatype Template = Template(Minutiae: seq<Minutia>)

  /** The edge between two minutiae; only `Length` is looked at by the table. */
  datatype EdgeShape = EdgeShape(Length: int, ReferenceAngle: Byte, NeighborAngle: Byte)

  datatype NeighborEdge = NeighborEdge(Edge: EdgeShape, Neighbor: int)

  function Sq(x: int): int { x * x }

  /** `Calc.DistanceSq`. */
  function DistanceSq(a: Point, b: Point): int { Sq(a.X - b.X) + Sq(a.Y - b.Y) }

  function Min(a: int, b: int): int { if a <= b then a else b }

  /** The filter of the inner loop of `Reset`: another minutia within `maxDistance`. */
  predicate IsNeighbor(template: Template, reference: int, neighbor: int, maxDistance: int)
    requires 0 <= reference < |template.Minutiae| && 0 <= neighbor < |template.Minutiae|
  {
    && DistanceSq(template.Minutiae[reference].Position, template.Minutiae[neighbor].Position) <= Sq(maxDistance)
    && neighbor != reference
  }

  /** The edges the inner loop collects from the first `count` minutiae, in index order. */
  function EligibleUpTo(template: Template, construct: (Template, int, int) -> EdgeShape, reference: int, maxDistance: int, count: nat)
    : (r: seq<NeighborEdge>)
    requires 0 <= reference < |template.Minutiae| && count <= |template.Minutiae|
    ensures forall i :: 0 <= i < |r| ==>
      && 0 <= r[i].Neighbor < count
      && IsNeighbor(template, reference, r[i].Neighbor, maxDistance)
      && r[i].Edge == construct(template, reference, r[i].Neighbor)
    ensures forall i, j :: 0 <= i < j < |r| ==> r[i].Neighbor < r[j].Neighbor
  {
    if count == 0 then []
    else
      var previous := EligibleUpTo(template, construct, reference, maxDistance, count - 1);
      if IsNeighbor(template, reference, count - 1, maxDistance)
      then previous + [NeighborEdge(construct(template, reference, count - 1), count - 1)]
      else previous
  }

  /** Everything the inner loop collects for `reference`: exactly the other minutiae
      within `maxDistance`, each once and in index order, with the constructed edge. */
  function Eligible(template: Template, construct: (Template, int, int) -> EdgeShape, reference: int, maxDistance: int)
    : (r: seq<NeighborEdge>)
    requires 0 <= reference < |template.Minutiae|
    ensures forall i :: 0 <= i < |r| ==>
      && 0 <= r[i].Neighbor < |template.Minutiae|
      && IsNeighbor(template, reference, r[i].Neighbor, maxDistance)
      && r[i].Edge == construct(template, reference, r[i].Neighbor)
    ensures forall i, j :: 0 <= i < j < |r| ==> r[i].Neighbor < r[j].Neighbor
    ensures forall neighbor :: 0 <= neighbor < |template.Minutiae| && IsNeighbor(template, reference, neighbor, maxDistance) ==>
      exists i :: 0 <= i < |r| && r[i].Neighbor == neighbor
  {
    var count := |template.Minutiae|;
    forall neighbor | 0 <= neighbor < count && IsNeighbor(template, reference, neighbor, maxDistance)
      ensures exists i :: (0 <= i < |EligibleUpTo(template, construct, reference, maxDistance, count)|
        && EligibleUpTo(template, construct, reference, maxDistance, count)[i].Neighbor == neighbor)
    {
      EligibleComplete(template, construct, reference, maxDistance, count, neighbor);
    }
    EligibleUpTo(template, construct, reference, maxDistance, count)
  }

  /** No eligible neighbour is missed by the collecting loop. */
  lemma {:induction false} EligibleComplete(
    template: Template, construct: (Template, int, int) -> EdgeShape, reference: int, maxDistance: int, count: nat, neighbor: int)
    requires 0 <= reference < |template.Minutiae| && count <= |template.Minutiae|
    requires 0 <= neighbor < count && IsNeighbor(template, reference, neighbor, maxDistance)
    ensures exists i :: (0 <= i < |EligibleUpTo(template, construct, reference, maxDistance, count)|
      && EligibleUpTo(template, construct, reference, maxDistance, count)[i].Neighbor == neighbor)
  {
    var r := EligibleUpTo(template, construct, reference, maxDistance, count);
    if neighbor == count - 1 {
      assert r[|r| - 1].Neighbor == neighbor;
    } else {
      EligibleComplete(template, construct, reference, maxDistance, count - 1, neighbor);
      var previous := EligibleUpTo(template, construct, reference, maxDistance, count - 1);
      var i :| 0 <= i < |previous| && previous[i].Neighbor == neighbor;
      assert r[i] == previous[i];
    }
  }

  // ------------------------------------------------------------ sorting and truncation

  function EdgeLength(e: NeighborEdge): int { e.Edge.Length }

  predicate SortedByLength(s: seq<NeighborEdge>)
  {
    SortedBy(s, EdgeLength)
  }

  /** `edges.Sort(...)` by edge length: a sorted permutation of the list. */
  method SortByLength(edges: seq<NeighborEdge>) returns (sorted: seq<NeighborEdge>)
    ensures SortedByLength(sorted) && multiset(sorted) == multiset(edges)
  {
    sorted := [];
    for i := 0 to |edges|
      invariant SortedByLength(sorted) && multiset(sorted) == multiset(edges[..i])
    {
      assert edges[..i + 1] == edges[..i] + [edges[i]];
      sorted := InsertBy(sorted, edges[i], EdgeLength);
    }
    assert edges[..|edges|] == edges;
  }

  /** What one row of the table must be: the `maxNeighbors` shortest eligible edges (all
      of them when there are fewer), shortest first. */
  predicate IsRow(row: seq<NeighborEdge>, eligible: seq<NeighborEdge>, maxNeighbors: int)
    ensures IsRow(row, eligible, maxNeighbors) ==> |row| <= |eligible| && forall e :: e in row ==> e in eligible
  {
    && |row| == Min(maxNeighbors, |eligible|)
    && SortedByLength(row)
    && multiset(row) <= multiset(eligible)
    && forall dropped, kept :: dropped in multiset(eligible) - multiset(row) && kept in row ==>
         kept.Edge.Length <= dropped.Edge.Length
  }

  /** Truncating a sorted permutation keeps the shortest edges. */
  lemma TruncateKeepsShortest(sorted: seq<NeighborEdge>, eligible: seq<NeighborEdge>, maxNeighbors: int)
    requires SortedByLength(sorted) && multiset(sorted) == multiset(eligible) && 0 <= maxNeighbors
    ensures IsRow(sorted[..Min(maxNeighbors, |sorted|)], eligible, maxNeighbors)
  {
    var m := Min(maxNeighbors, |sorted|);
    var row := sorted[..m];
    assert sorted == row + sorted[m..];
    assert multiset(eligible) - multiset(row) == multiset(sorted[m..]);
    forall dropped, kept | dropped in multiset(sorted[m..]) && kept in row
      ensures kept.Edge.Length <= dropped.Edge.Length
    {
      DroppedNotShorter(sorted, m, dropped, kept);
    }
    PrefixSorted(sorted, m);
  }

  lemma DroppedNotShorter(sorted: seq<NeighborEdge>, m: int, dropped: NeighborEdge, kept: NeighborEdge)
    requires SortedByLength(sorted) && 0 <= m <= |sorted|
    requires dropped in multiset(sorted[m..]) && kept in sorted[..m]
    ensures kept.Edge.Length <= dropped.Edge.Length
  {
    var j :| 0 <= j < |sorted[m..]| && sorted[m..][j] == dropped;
    var i :| 0 <= i < m && sorted[..m][i] == kept;
    assert sorted[i] == kept && sorted[m + j] == dropped;
    assert EdgeLength(sorted[i]) <= EdgeLength(sorted[m + j]);
  }

  lemma PrefixSorted(sorted: seq<NeighborEdge>, m: int)
    requires SortedByLength(sorted) && 0 <= m <= |sorted|
    ensures SortedByLength(sorted[..m])
  {
    forall i, j | 0 <= i < j < m
      ensures EdgeLength(sorted[..m][i]) <= EdgeLength(sorted[..m][j])
    {
      assert sorted[..m][i] == sorted[i] && sorted[..m][j] == sorted[j];
    }
  }

  /** One iteration of the outer loop of `Reset`: collect, sort, truncate. */
  method BuildRow(template: Template, construct: (Template, int, int) -> EdgeShape, reference: int, maxDistance: int, maxNeighbors: int)
    returns (row: seq<NeighborEdge>)
    requires 0 <= reference < |template.Minutiae| && 0 <= maxNeighbors
    ensures IsRow(row, Eligible(template, construct, reference, maxDistance), maxNeighbors)
  {
    var edges: seq<NeighborEdge> := [];
    var referencePosition := template.Minutiae[reference].Position;
    for neighbor := 0 to |template.Minutiae|
      invariant edges == EligibleUpTo(template, construct, reference, maxDistance, neighbor)
    {
      if DistanceSq(referencePosition, template.Minutiae[neighbor].Position) <= Sq(maxDistance) && neighbor != reference {
        edges := edges + [NeighborEdge(construct(template, reference, neighbor), neighbor)];
      }
    }
    edges := SortByLength(edges);
    TruncateKeepsShortest(edges, Eligible(template, construct, reference, maxDistance), maxNeighbors);
    if |edges| > maxNeighbors {
      edges := edges[..maxNeighbors];
    }
    assert edges == edges[..Min(maxNeighbors, |edges|)];
    row := edges;
  }

  /** A whole table: one row per minutia of the template. */
  predicate IsTable(table: seq<seq<NeighborEdge>>, template: Template, construct: (Template, int, int) -> EdgeShape,
    maxDistance: int, maxNeighbors: int)
    ensures IsTable(table, template, construct, maxDistance, maxNeighbors) ==>
      |table| == |template.Minutiae| && forall reference, k :: 0 <= reference < |table| && 0 <= k < |table[reference]| ==>
        && 0 <= table[reference][k].Neighbor < |template.Minutiae|
        && IsNeighbor(template, reference, table[reference][k].Neighbor, maxDistance)
  {
    forall reference, k | 0 <= reference < |table| && reference < |template.Minutiae| && 0 <= k < |table[reference]|
        && IsRow(table[reference], Eligible(template, construct, reference, maxDistance), maxNeighbors)
      ensures 0 <= table[reference][k].Neighbor < |template.Minutiae|
      ensures IsNeighbor(template, reference, table[reference][k].Neighbor, maxDistance)
    {
      RowEntriesEligible(table[reference], template, construct, reference, maxDistance, maxNeighbors, k);
    }
    && |table| == |template.Minutiae|
    && forall reference :: 0 <= reference < |table| ==>
         IsRow(table[reference], Eligible(template, construct, reference, maxDistance), maxNeighbors)
  }

  /** Every neighbour of every row is a minutia of the table's template. */
  predicate NeighborsInRange(table: seq<seq<NeighborEdge>>)
  {
    forall reference, k :: 0 <= reference < |table| && 0 <= k < |table[reference]| ==>
      0 <= table[reference][k].Neighbor < |table|
  }

  // ------------------------------------------------------------ properties of a row

  /** Every entry of a row is an edge to an eligible neighbour: another minutia, no
      farther than `maxDistance`, with the constructed edge shape. */
  lemma RowEntriesEligible(row: seq<NeighborEdge>, template: Template, construct: (Template, int, int) -> EdgeShape,
    reference: int, maxDistance: int, maxNeighbors: int, k: int)
    requires 0 <= reference < |template.Minutiae|
    requires IsRow(row, Eligible(template, construct, reference, maxDistance), maxNeighbors) && 0 <= k < |row|
    ensures 0 <= row[k].Neighbor < |template.Minutiae| && row[k].Neighbor != reference
    ensures DistanceSq(template.Minutiae[reference].Position, template.Minutiae[row[k].Neighbor].Position) <= Sq(maxDistance)
    ensures row[k].Edge == construct(template, reference, row[k].Neighbor)
  {
    var eligible := Eligible(template, construct, reference, maxDistance);
    assert row[k] in multiset(row);
    assert row[k] in multiset(eligible);
    var i :| 0 <= i < |eligible| && eligible[i] == row[k];
  }

  /** An entry occurring twice in a list has multiplicity two. */
  lemma TwiceInList(s: seq<NeighborEdge>, i: int, j: int)
    requires 0 <= i < j < |s| && s[i] == s[j]
    ensures multiset(s)[s[i]] >= 2
  {
    assert s == s[..j] + [s[j]] + s[j + 1..];
    assert s[i] in s[..j];
  }

  /** In a list with strictly increasing neighbours no entry occurs twice. */
  lemma {:induction false} IncreasingOnce(s: seq<NeighborEdge>, e: NeighborEdge)
    requires forall i, j :: 0 <= i < j < |s| ==> s[i].Neighbor < s[j].Neighbor
    ensures multiset(s)[e] <= 1
  {
    if s != [] {
      var init := s[..|s| - 1];
      IncreasingOnce(init, e);
      assert s == init + [s[|s| - 1]];
      if e == s[|s| - 1] {
        assert e !in init;
      }
    }
  }

  /** No neighbour appears twice in a row. */
  lemma RowNeighborsDistinct(row: seq<NeighborEdge>, template: Template, construct: (Template, int, int) -> EdgeShape,
    reference: int, maxDistance: int, maxNeighbors: int)
    requires 0 <= reference < |template.Minutiae|
    requires IsRow(row, Eligible(template, construct, reference, maxDistance), maxNeighbors)
    ensures forall i, j :: 0 <= i < j < |row| ==> row[i].Neighbor != row[j].Neighbor
  {
    var eligible := Eligible(template, construct, reference, maxDistance);
    forall i, j | 0 <= i < j < |row|
      ensures row[i].Neighbor != row[j].Neighbor
    {
      if row[i].Neighbor == row[j].Neighbor {
        RowEntriesEligible(row, template, construct, reference, maxDistance, maxNeighbors, i);
        RowEntriesEligible(row, template, construct, reference, maxDistance, maxNeighbors, j);
        TwiceInList(row, i, j);
        IncreasingOnce(eligible, row[i]);
        assert false;
      }
    }
  }

  /** With no more eligible neighbours than `maxNeighbors`, the row keeps all of them. */
  lemma ShortRowKeepsAll(row: seq<NeighborEdge>, eligible: seq<NeighborEdge>, maxNeighbors: int)
    requires IsRow(row, eligible, maxNeighbors) && |eligible| <= maxNeighbors
    ensures multiset(row) == multiset(eligible)
  {
    var missing := multiset(eligible) - multiset(row);
    assert |multiset(eligible)| == |multiset(row)| + |missing|;
  }

  // ------------------------------------------------------------ the class

  class EdgeTable {
    var MaxDistance: int
    var MaxNeighbors: int
    var Table: seq<seq<NeighborEdge>>

    /** The default parameters. */
    constructor ()
      ensures MaxDistance == 226 && MaxNeighbors == 9 && Table == []
    {
      MaxDistance := 226;
      MaxNeighbors := 9;
      Table := [];
    }

    /** `Reset`: rebuilds the table for `template`, one row per minutia, each row built
        from that minutia's own eligible edges only. */
    method Reset(template: Template, construct: (Template, int, int) -> EdgeShape)
      requires 0 <= MaxNeighbors
      modifies this`Table
      ensures IsTable(Table, template, construct, MaxDistance, MaxNeighbors)
    {
      var table: seq<seq<NeighborEdge>> := [];
      for reference := 0 to |template.Minutiae|
        invariant |table| == reference
        invariant forall r :: 0 <= r < reference ==>
          IsRow(table[r], Eligible(template, construct, r, MaxDistance), MaxNeighbors)
      {
        var row := BuildRow(template, construct, reference, MaxDistance, MaxNeighbors);
        table := table + [row];
      }
      Table := table;
    }
  }

  /** The rows of a table only name minutiae of its template. */
  lemma TableNeighborsInRange(table: seq<seq<NeighborEdge>>, template: Template, construct: (Template, int, int) -> EdgeShape,
    maxDistance: int, maxNeighbors: int)
    requires IsTable(table, template, construct, maxDistance, maxNeighbors)
    ensures NeighborsInRange(table)
  {
    forall reference, k | 0 <= reference < |table| && 0 <= k < |table[reference]|
      ensures 0 <= table[reference][k].Neighbor < |table|
    {
      RowEntriesEligible(table[reference], template, construct, reference, maxDistance, maxNeighbors, k);
    }
  }
}
