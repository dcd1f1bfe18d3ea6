/** The road graph's adjacency index as a function of the road endpoint lists:
    road r joins airport index `starts[r]` to `ends[r]`, and each endpoint's entry
    lists the (neighbour index, road index) pairs of its roads in road order. */
module RoadGraph {
  import opened IndexMaps

  /** (neighbour airport index, road index). */
  type Link = (int, int)

  /** The pairs (xs[i], ys[i]): the keys of the two index-pair dictionaries. */
  function Pairs(xs: seq<int>, ys: seq<int>): (ps: seq<(int, int)>)
    requires |xs| == |ys|
    ensures |ps| == |xs|
    ensures forall i :: 0 <= i < |xs| ==> ps[i] == (xs[i], ys[i])
  {
    if xs == [] then [] else Pairs(xs[..|xs| - 1], ys[..|ys| - 1]) + [(xs[|xs| - 1], ys[|ys| - 1])]
  }

  /** One more road adds one more pair at the end. */
  lemma PairsAppend(xs: seq<int>, ys: seq<int>, x: int, y: int)
    requires |xs| == |ys|
    ensures Pairs(xs + [x], ys + [y]) == Pairs(xs, ys) + [(x, y)]
  {
    assert (xs + [x])[..|xs|] == xs;
    assert (ys + [y])[..|ys|] == ys;
  }

  /** `if k not in m: m[k] = []` followed by `m[k].append(x)`. */
  function AppendAt<K>(m: map<K, seq<Link>>, k: K, x: Link): map<K, seq<Link>>
  {
    m[k := (if k in m then m[k] else []) + [x]]
  }

  /** Appending at k gives k an entry that keeps its earlier links and ends
      with x, and leaves every other entry as it was. */
  lemma AppendAtSpec<K>(m: map<K, seq<Link>>, k: K, x: Link)
    ensures AppendAt(m, k, x).Keys == m.Keys + {k}
    ensures var r := AppendAt(m, k, x); |r[k]| >= 1 && r[k][|r[k]| - 1] == x
    ensures k in m ==> var r := AppendAt(m, k, x); r[k][..|r[k]| - 1] == m[k]
    ensures forall j :: j in m && j != k ==> AppendAt(m, k, x)[j] == m[j]
  {
    var r := AppendAt(m, k, x);
    if k in m {
      assert r[k][..|r[k]| - 1] == m[k];
    }
  }

  /** The adjacency map after adding roads 0, 1, ... in order, entries looked
      up by the endpoint keys `startKeys[r]`, `endKeys[r]` (airport indices or
      airport keys): each road appends (end index, r) at its start and then
      (start index, r) at its end. */
  function Adjacency<K>(startKeys: seq<K>, endKeys: seq<K>, starts: seq<int>, ends: seq<int>): map<K, seq<Link>>
    requires |endKeys| == |startKeys| && |starts| == |startKeys| && |ends| == |startKeys|
  {
    if startKeys == [] then map[]
    else
      var r := |startKeys| - 1;
      var prev := Adjacency(startKeys[..r], endKeys[..r], starts[..r], ends[..r]);
      AppendAt(AppendAt(prev, startKeys[r], (ends[r], r)), endKeys[r], (starts[r], r))
  }

  /** Adding one road changes exactly the entries of its two endpoints. */
  lemma AdjacencyAppend<K>(startKeys: seq<K>, endKeys: seq<K>, starts: seq<int>, ends: seq<int>,
                           sk: K, ek: K, s: int, e: int)
    requires |endKeys| == |startKeys| && |starts| == |startKeys| && |ends| == |startKeys|
    ensures Adjacency(startKeys + [sk], endKeys + [ek], starts + [s], ends + [e])
         == AppendAt(AppendAt(Adjacency(startKeys, endKeys, starts, ends), sk, (e, |startKeys|)), ek, (s, |startKeys|))
  {
    assert (startKeys + [sk])[..|startKeys|] == startKeys;
    assert (endKeys + [ek])[..|startKeys|] == endKeys;
    assert (starts + [s])[..|startKeys|] == starts;
    assert (ends + [e])[..|startKeys|] == ends;
  }

  /** A node holds (n, r) exactly when road r joins it to n, in either direction. */
  lemma {:induction false} AdjacencyLinks<K>(startKeys: seq<K>, endKeys: seq<K>, starts: seq<int>, ends: seq<int>,
                                             a: K, n: int, r: int)
    requires |endKeys| == |startKeys| && |starts| == |startKeys| && |ends| == |startKeys|
    ensures var adj := Adjacency(startKeys, endKeys, starts, ends);
            (a in adj && (n, r) in adj[a]) <==>
            (0 <= r < |startKeys| && ((startKeys[r] == a && ends[r] == n) || (endKeys[r] == a && starts[r] == n)))
  {
    if startKeys != [] {
      var k := |startKeys| - 1;
      AdjacencyLinks(startKeys[..k], endKeys[..k], starts[..k], ends[..k], a, n, r);
    }
  }

  /** A node has an entry exactly when some road ends at it. */
  lemma {:induction false} AdjacencyNodes<K>(startKeys: seq<K>, endKeys: seq<K>, starts: seq<int>, ends: seq<int>, a: K)
    requires |endKeys| == |startKeys| && |starts| == |startKeys| && |ends| == |startKeys|
    ensures a in Adjacency(startKeys, endKeys, starts, ends)
        <==> exists r :: 0 <= r < |startKeys| && (startKeys[r] == a || endKeys[r] == a)
  {
    if startKeys != [] {
      var k := |startKeys| - 1;
      AdjacencyNodes(startKeys[..k], endKeys[..k], starts[..k], ends[..k], a);
      if a in Adjacency(startKeys[..k], endKeys[..k], starts[..k], ends[..k]) {
        var r :| 0 <= r < k && (startKeys[..k][r] == a || endKeys[..k][r] == a);
        assert startKeys[r] == a || endKeys[r] == a;
      }
    }
  }

  /** Looked up by airport index, adjacency is symmetric: if b lists a via
      road r, then a lists b via r. */
  lemma AdjacencySymmetric(starts: seq<int>, ends: seq<int>, a: int, b: int, r: int)
    requires |starts| == |ends|
    requires a in Adjacency(starts, ends, starts, ends) && (b, r) in Adjacency(starts, ends, starts, ends)[a]
    ensures b in Adjacency(starts, ends, starts, ends) && (a, r) in Adjacency(starts, ends, starts, ends)[b]
  {
    AdjacencyLinks(starts, ends, starts, ends, a, b, r);
    AdjacencyLinks(starts, ends, starts, ends, b, a, r);
  }

  /** Every entry names an existing road, and a node's links are listed in road order. */
  lemma {:induction false} AdjacencyEntryRoads<K>(startKeys: seq<K>, endKeys: seq<K>, starts: seq<int>, ends: seq<int>, a: K)
    requires |endKeys| == |startKeys| && |starts| == |startKeys| && |ends| == |startKeys|
    requires a in Adjacency(startKeys, endKeys, starts, ends)
    ensures var links := Adjacency(startKeys, endKeys, starts, ends)[a];
            forall i :: 0 <= i < |links| ==> 0 <= links[i].1 < |startKeys|
    ensures var links := Adjacency(startKeys, endKeys, starts, ends)[a];
            forall i, j :: 0 <= i < j < |links| ==> links[i].1 <= links[j].1
  {
    var k := |startKeys| - 1;
    var prev := Adjacency(startKeys[..k], endKeys[..k], starts[..k], ends[..k]);
    if a in prev {
      AdjacencyEntryRoads(startKeys[..k], endKeys[..k], starts[..k], ends[..k], a);
    }
  }

  /** Two roads joining the same ordered pair: the pair dictionary ends at the
      later one, yet both roads stay listed at both endpoints. */
  lemma ParallelRoads(starts: seq<int>, ends: seq<int>, r1: int, r2: int)
    requires |starts| == |ends|
    requires 0 <= r1 < r2 < |starts| && starts[r1] == starts[r2] && ends[r1] == ends[r2]
    ensures var a, b, adj := starts[r1], ends[r1], Adjacency(starts, ends, starts, ends);
            a in adj && b in adj && (b, r1) in adj[a] && (b, r2) in adj[a] && (a, r1) in adj[b] && (a, r2) in adj[b]
    ensures var pairs := Pairs(starts, ends);
            (starts[r1], ends[r1]) in LastIndexMap(pairs) && LastIndexMap(pairs)[(starts[r1], ends[r1])] >= r2
  {
    LastIndexMapOverwrites(Pairs(starts, ends), r1, r2);
    var a, b := starts[r1], ends[r1];
    AdjacencyLinks(starts, ends, starts, ends, a, b, r1);
    AdjacencyLinks(starts, ends, starts, ends, a, b, r2);
    AdjacencyLinks(starts, ends, starts, ends, b, a, r1);
    AdjacencyLinks(starts, ends, starts, ends, b, a, r2);
  }
}
