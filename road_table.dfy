/** The road lists and dictionaries of the registry as one record, what
    committing one road does to them, and what the dictionaries then answer. */
module RoadTables {
  import opened Naming
  import opened IndexMaps
  import opened RoadGraph
  import opened Rows

  /** No two airport keys share an index. */
  predicate Injective(airports: map<AirportKey, int>) {
    forall k1, k2 :: k1 in airports && k2 in airports && airports[k1] == airports[k2] ==> k1 == k2
  }

  /** The airport dictionary built by the loader is injective. */
  lemma AirportIndicesInjective(keys: seq<AirportKey>)
    ensures Injective(LastIndexMap(keys))
  {
    forall k1, k2 | k1 in LastIndexMap(keys) && k2 in LastIndexMap(keys) && LastIndexMap(keys)[k1] == LastIndexMap(keys)[k2]
      ensures k1 == k2
    {
      LastIndexMapInjective(keys, k1, k2);
    }
  }

  /** The per-road lists after committing the roads startNames[r] -> endNames[r]
      in order: both endpoints are known and distinct, and each road's airport
      indices and forward and reverse names are recorded alongside. */
  ghost predicate RoadListsFollow(airports: map<AirportKey, int>, startNames: seq<AirportKey>, endNames: seq<AirportKey>,
                                  starts: seq<int>, ends: seq<int>, forward: seq<RoadName>, reverse: seq<RoadName>)
  {
    var n := |startNames|;
    |endNames| == n && |starts| == n && |ends| == n && |forward| == n && |reverse| == n &&
    forall r :: 0 <= r < n ==>
      EndpointsValid(airports, startNames[r], endNames[r]) &&
      starts[r] == airports[startNames[r]] && ends[r] == airports[endNames[r]] &&
      forward[r] == RoadNameOf(startNames[r], endNames[r]) && reverse[r] == RoadNameOf(endNames[r], startNames[r])
  }

  /** The four road dictionaries and the two adjacency maps those roads build. */
  ghost predicate RoadIndexesFollow(startNames: seq<AirportKey>, endNames: seq<AirportKey>, starts: seq<int>, ends: seq<int>,
                                    forward: seq<RoadName>, reverse: seq<RoadName>,
                                    startEnd: map<(int, int), int>, endStart: map<(int, int), int>,
                                    forwardIndices: map<RoadName, int>, reverseIndices: map<RoadName, int>,
                                    attached: map<AirportKey, seq<Link>>, attachedInt: map<int, seq<Link>>)
    requires |endNames| == |startNames| && |starts| == |startNames| && |ends| == |startNames|
  {
    startEnd == LastIndexMap(Pairs(starts, ends)) &&
    endStart == LastIndexMap(Pairs(ends, starts)) &&
    forwardIndices == LastIndexMap(forward) &&
    reverseIndices == LastIndexMap(reverse) &&
    attachedInt == Adjacency(starts, ends, starts, ends) &&
    attached == Adjacency(startNames, endNames, starts, ends)
  }

  /** Committing one more valid road keeps the lists in step. */
  lemma RoadListsAppend(airports: map<AirportKey, int>, startNames: seq<AirportKey>, endNames: seq<AirportKey>,
                        starts: seq<int>, ends: seq<int>, forward: seq<RoadName>, reverse: seq<RoadName>,
                        s: AirportKey, e: AirportKey)
    requires RoadListsFollow(airports, startNames, endNames, starts, ends, forward, reverse)
    requires EndpointsValid(airports, s, e)
    ensures RoadListsFollow(airports, startNames + [s], endNames + [e], starts + [airports[s]], ends + [airports[e]],
                            forward + [RoadNameOf(s, e)], reverse + [RoadNameOf(e, s)])
  {
  }

  /** Committing road r = |startNames| updates each dictionary at its key and
      appends the road at both endpoints' entries. */
  lemma RoadIndexesAppend(startNames: seq<AirportKey>, endNames: seq<AirportKey>, starts: seq<int>, ends: seq<int>,
                          forward: seq<RoadName>, reverse: seq<RoadName>,
                          startEnd: map<(int, int), int>, endStart: map<(int, int), int>,
                          forwardIndices: map<RoadName, int>, reverseIndices: map<RoadName, int>,
                          attached: map<AirportKey, seq<Link>>, attachedInt: map<int, seq<Link>>,
                          s: AirportKey, e: AirportKey, si: int, ei: int)
    requires |endNames| == |startNames| && |starts| == |startNames| && |ends| == |startNames|
    requires RoadIndexesFollow(startNames, endNames, starts, ends, forward, reverse,
                               startEnd, endStart, forwardIndices, reverseIndices, attached, attachedInt)
    requires |forward| == |startNames| && |reverse| == |startNames|
    ensures var r := |startNames|;
            RoadIndexesFollow(startNames + [s], endNames + [e], starts + [si], ends + [ei],
                              forward + [RoadNameOf(s, e)], reverse + [RoadNameOf(e, s)],
                              startEnd[(si, ei) := r], endStart[(ei, si) := r],
                              forwardIndices[RoadNameOf(s, e) := r], reverseIndices[RoadNameOf(e, s) := r],
                              AppendAt(AppendAt(attached, s, (ei, r)), e, (si, r)),
                              AppendAt(AppendAt(attachedInt, si, (ei, r)), ei, (si, r)))
  {
    PairsAppend(starts, ends, si, ei);
    PairsAppend(ends, starts, ei, si);
    LastIndexMapAppend(Pairs(starts, ends), (si, ei));
    LastIndexMapAppend(Pairs(ends, starts), (ei, si));
    LastIndexMapAppend(forward, RoadNameOf(s, e));
    LastIndexMapAppend(reverse, RoadNameOf(e, s));
    AdjacencyAppend(starts, ends, starts, ends, si, ei, si, ei);
    AdjacencyAppend(startNames, endNames, starts, ends, s, e, si, ei);
  }

  /** The twelve road lists and dictionaries that committing a road updates
      together (the ones `create_road_variables` creates, less the ferry and
      statistics columns). */
  datatype RoadTable = RoadTable(
    startUniqueName: seq<AirportKey>, endUniqueName: seq<AirportKey>,
    startIndices: seq<int>, endIndices: seq<int>,
    nameForward: seq<RoadName>, nameReverse: seq<RoadName>,
    startEndIndices: map<(int, int), int>, endStartIndices: map<(int, int), int>,
    nameForwardIndices: map<RoadName, int>, nameReverseIndices: map<RoadName, int>,
    attachedNodes: map<AirportKey, seq<Link>>, attachedNodesInt: map<int, seq<Link>>)
  {
    /** Every road joins two distinct known airports and is recorded under the
        airports' current indices; the four dictionaries map to the latest road
        with that key; both adjacency maps are the ones those roads build. So
        the whole table follows from the two endpoint-name lists. */
    ghost predicate Valid(airports: map<AirportKey, int>) {
      RoadListsFollow(airports, startUniqueName, endUniqueName, startIndices, endIndices, nameForward, nameReverse) &&
      RoadIndexesFollow(startUniqueName, endUniqueName, startIndices, endIndices,
                        nameForward, nameReverse, startEndIndices, endStartIndices,
                        nameForwardIndices, nameReverseIndices, attachedNodes, attachedNodesInt)
    }

    /** The table after committing the road startName -> endName as the next road.
        `AppendAt` tests each adjacency map for its own key, whereas the loader
        creates the empty entries in both maps when the index-keyed map lacks
        the index. The two agree because a valid table's airport indices are
        injective, so the name-keyed and index-keyed maps have matching keys
        (`RoadKeyView`). */
    function Add(startName: AirportKey, endName: AirportKey, startIndex: int, endIndex: int): RoadTable {
      var r := |startUniqueName|;
      this.(startUniqueName := startUniqueName + [startName],
            endUniqueName := endUniqueName + [endName],
            startIndices := startIndices + [startIndex],
            endIndices := endIndices + [endIndex],
            nameForward := nameForward + [RoadNameOf(startName, endName)],
            nameReverse := nameReverse + [RoadNameOf(endName, startName)],
            startEndIndices := startEndIndices[(startIndex, endIndex) := r],
            endStartIndices := endStartIndices[(endIndex, startIndex) := r],
            nameForwardIndices := nameForwardIndices[RoadNameOf(startName, endName) := r],
            nameReverseIndices := nameReverseIndices[RoadNameOf(endName, startName) := r],
            attachedNodes := AppendAt(AppendAt(attachedNodes, startName, (endIndex, r)), endName, (startIndex, r)),
            attachedNodesInt := AppendAt(AppendAt(attachedNodesInt, startIndex, (endIndex, r)), endIndex, (startIndex, r)))
    }
  }

  /** The empty table `create_road_variables` starts from. */
  const NoRoads: RoadTable :=
    RoadTable([], [], [], [], [], [], map[], map[], map[], map[], map[], map[])

  /** Committing a road between two distinct known airports, under their
      indices, keeps the table valid; the indices differ because no two
      airports share one. */
  lemma AddValid(t: RoadTable, airports: map<AirportKey, int>, s: AirportKey, e: AirportKey)
    requires t.Valid(airports) && Injective(airports) && EndpointsValid(airports, s, e)
    ensures airports[s] != airports[e]
    ensures t.Add(s, e, airports[s], airports[e]).Valid(airports)
  {
    RoadListsAppend(airports, t.startUniqueName, t.endUniqueName, t.startIndices, t.endIndices,
                    t.nameForward, t.nameReverse, s, e);
    RoadIndexesAppend(t.startUniqueName, t.endUniqueName, t.startIndices, t.endIndices,
                      t.nameForward, t.nameReverse, t.startEndIndices, t.endStartIndices,
                      t.nameForwardIndices, t.nameReverseIndices, t.attachedNodes, t.attachedNodesInt,
                      s, e, airports[s], airports[e]);
  }

  /** The table after checking the rows of one file in turn and committing
      each row whose endpoints pass. */
  function CommitRows(t: RoadTable, rows: seq<RoadRow>, airports: map<AirportKey, int>): RoadTable
    decreases |rows|, 1
  {
    if rows == [] then t else CommitLast(t, rows, airports)
  }

  /** The rows before the last one committed, then the last one checked and
      committed if its endpoints pass. */
  function CommitLast(t: RoadTable, rows: seq<RoadRow>, airports: map<AirportKey, int>): RoadTable
    requires rows != []
    decreases |rows|, 0
  {
    var n := |rows| - 1;
    var prev := CommitRows(t, rows[..n], airports);
    var s, e := rows[n].start, rows[n].end;
    if EndpointsValid(airports, s, e) then prev.Add(s, e, airports[s], airports[e]) else prev
  }

  lemma CommitRowsStep(t: RoadTable, rows: seq<RoadRow>, airports: map<AirportKey, int>, i: int)
    requires 0 <= i < |rows|
    ensures CommitRows(t, rows[..i + 1], airports)
         == var prev := CommitRows(t, rows[..i], airports);
            var s, e := rows[i].start, rows[i].end;
            if EndpointsValid(airports, s, e) then prev.Add(s, e, airports[s], airports[e]) else prev
  {
    assert rows[..i + 1][..i] == rows[..i];
  }

  /** Committing a file appends exactly the passing rows' endpoints, in file order. */
  lemma {:induction false} CommitRowsNames(t: RoadTable, rows: seq<RoadRow>, airports: map<AirportKey, int>)
    ensures var u := CommitRows(t, rows, airports);
            u.startUniqueName == t.startUniqueName + StartKeys(Accepted(rows, airports)) &&
            u.endUniqueName == t.endUniqueName + EndKeys(Accepted(rows, airports))
  {
    if rows != [] {
      var n := |rows| - 1;
      CommitRowsNames(t, rows[..n], airports);
      var acc := Accepted(rows[..n], airports);
      var last := if EndpointsValid(airports, rows[n].start, rows[n].end) then [rows[n]] else [];
      KeysAppend(acc, last);
    }
  }

  /** A file whose endpoints all pass adds one road per row. */
  lemma CommitRowsCount(t: RoadTable, rows: seq<RoadRow>, airports: map<AirportKey, int>)
    ensures AllEndpointsValid(rows, airports) ==>
            |CommitRows(t, rows, airports).startUniqueName| == |t.startUniqueName| + |rows|
  {
    CommitRowsNames(t, rows, airports);
    AcceptedAllIff(rows, airports);
  }

  /** Committing a file keeps a valid table valid. */
  lemma {:induction false} CommitRowsValid(t: RoadTable, rows: seq<RoadRow>, airports: map<AirportKey, int>)
    requires t.Valid(airports) && Injective(airports)
    ensures CommitRows(t, rows, airports).Valid(airports)
  {
    if rows != [] {
      var n := |rows| - 1;
      CommitRowsValid(t, rows[..n], airports);
      if EndpointsValid(airports, rows[n].start, rows[n].end) {
        AddValid(CommitRows(t, rows[..n], airports), airports, rows[n].start, rows[n].end);
      }
    }
  }

  /** The empty table is valid against any airport dictionary. */
  lemma NoRoadsValid(airports: map<AirportKey, int>)
    ensures NoRoads.Valid(airports)
  {
  }

  /** The table after committing several files, file after file. */
  function CommitFiles(t: RoadTable, files: seq<seq<RoadRow>>, airports: map<AirportKey, int>): RoadTable
  {
    if files == [] then t
    else CommitRows(CommitFiles(t, files[..|files| - 1], airports), files[|files| - 1], airports)
  }

  lemma CommitFilesStep(t: RoadTable, files: seq<seq<RoadRow>>, airports: map<AirportKey, int>, i: int)
    requires 0 <= i < |files|
    ensures CommitFiles(t, files[..i + 1], airports) == CommitRows(CommitFiles(t, files[..i], airports), files[i], airports)
  {
    assert files[..i + 1][..i] == files[..i];
  }

  /** Committing several files appends exactly their passing rows' endpoints,
      file after file. */
  lemma {:induction false} CommitFilesNames(t: RoadTable, files: seq<seq<RoadRow>>, airports: map<AirportKey, int>)
    ensures var u := CommitFiles(t, files, airports);
            u.startUniqueName == t.startUniqueName + StartKeys(AcceptedFiles(files, airports)) &&
            u.endUniqueName == t.endUniqueName + EndKeys(AcceptedFiles(files, airports))
  {
    if files != [] {
      var n := |files| - 1;
      CommitFilesNames(t, files[..n], airports);
      CommitRowsNames(CommitFiles(t, files[..n], airports), files[n], airports);
      KeysAppend(AcceptedFiles(files[..n], airports), Accepted(files[n], airports));
    }
  }

  /** Committing several files keeps a valid table valid. */
  lemma {:induction false} CommitFilesValid(t: RoadTable, files: seq<seq<RoadRow>>, airports: map<AirportKey, int>)
    requires t.Valid(airports) && Injective(airports)
    ensures CommitFiles(t, files, airports).Valid(airports)
  {
    if files != [] {
      var n := |files| - 1;
      CommitFilesValid(t, files[..n], airports);
      CommitRowsValid(CommitFiles(t, files[..n], airports), files[n], airports);
    }
  }

  // ---------------------------------------------------------------- lookups

  /** Airport `a`'s entry holds (n, r) exactly when road r has `a` at one end
      and the airport with index n at the other. */
  lemma RoadLinks(t: RoadTable, airports: map<AirportKey, int>, a: AirportKey, n: int, r: int)
    requires t.Valid(airports)
    ensures (a in t.attachedNodes && (n, r) in t.attachedNodes[a]) <==>
            (0 <= r < |t.startUniqueName| &&
             ((t.startUniqueName[r] == a && airports[t.endUniqueName[r]] == n) ||
              (t.endUniqueName[r] == a && airports[t.startUniqueName[r]] == n)))
  {
    AdjacencyLinks(t.startUniqueName, t.endUniqueName, t.startIndices, t.endIndices, a, n, r);
  }

  /** Looked up by index, node i lists (n, r) exactly when node n lists (i, r). */
  lemma RoadLinksSymmetric(t: RoadTable, airports: map<AirportKey, int>, i: int, n: int, r: int)
    requires t.Valid(airports)
    ensures (i in t.attachedNodesInt && (n, r) in t.attachedNodesInt[i]) <==>
            (n in t.attachedNodesInt && (i, r) in t.attachedNodesInt[n])
  {
    AdjacencyLinks(t.startIndices, t.endIndices, t.startIndices, t.endIndices, i, n, r);
    AdjacencyLinks(t.startIndices, t.endIndices, t.startIndices, t.endIndices, n, i, r);
  }

  /** No road joins an airport to itself, even by index. */
  lemma NoSelfLoops(t: RoadTable, airports: map<AirportKey, int>, r: int)
    requires t.Valid(airports) && Injective(airports)
    requires 0 <= r < |t.startIndices|
    ensures t.startIndices[r] != t.endIndices[r]
  {
    assert EndpointsValid(airports, t.startUniqueName[r], t.endUniqueName[r]);
  }

  /** The start-end dictionary has (si, ei) exactly when some road runs from
      index si to index ei, and then holds the last such road. */
  lemma PairLookup(t: RoadTable, airports: map<AirportKey, int>, si: int, ei: int)
    requires t.Valid(airports)
    ensures (si, ei) in t.startEndIndices <==>
            exists r :: 0 <= r < |t.startIndices| && t.startIndices[r] == si && t.endIndices[r] == ei
    ensures (si, ei) in t.startEndIndices ==>
              var r := t.startEndIndices[(si, ei)];
              0 <= r < |t.startIndices| && t.startIndices[r] == si && t.endIndices[r] == ei &&
              forall j :: r < j < |t.startIndices| ==> t.startIndices[j] != si || t.endIndices[j] != ei
  {
    PairsLookup(t.startIndices, t.endIndices, si, ei);
  }

  /** The same on the index lists alone. */
  lemma PairsLookup(starts: seq<int>, ends: seq<int>, si: int, ei: int)
    requires |ends| == |starts|
    ensures (si, ei) in LastIndexMap(Pairs(starts, ends)) <==>
            exists r :: 0 <= r < |starts| && starts[r] == si && ends[r] == ei
    ensures (si, ei) in LastIndexMap(Pairs(starts, ends)) ==>
              var r := LastIndexMap(Pairs(starts, ends))[(si, ei)];
              0 <= r < |starts| && starts[r] == si && ends[r] == ei &&
              forall j :: r < j < |starts| ==> starts[j] != si || ends[j] != ei
  {
    var ps := Pairs(starts, ends);
    LastIndexMapSpec(ps, (si, ei));
    if exists r :: 0 <= r < |starts| && starts[r] == si && ends[r] == ei {
      var r :| 0 <= r < |starts| && starts[r] == si && ends[r] == ei;
      assert ps[r] == (si, ei);
    }
  }

  /** The end-start dictionary holds, under (ei, si), the same road the
      start-end dictionary holds under (si, ei). */
  lemma PairReverse(t: RoadTable, airports: map<AirportKey, int>, si: int, ei: int)
    requires t.Valid(airports)
    ensures (ei, si) in t.endStartIndices <==> (si, ei) in t.startEndIndices
    ensures (ei, si) in t.endStartIndices ==> t.endStartIndices[(ei, si)] == t.startEndIndices[(si, ei)]
  {
    LastIndexMapParallel(Pairs(t.startIndices, t.endIndices), Pairs(t.endIndices, t.startIndices), (si, ei), (ei, si));
  }

  /** The forward-name dictionary has the name s -> e exactly when some road
      runs from s to e, and then holds the last such road. */
  lemma NameLookup(t: RoadTable, airports: map<AirportKey, int>, s: AirportKey, e: AirportKey)
    requires t.Valid(airports)
    ensures RoadNameOf(s, e) in t.nameForwardIndices <==>
            exists r :: 0 <= r < |t.startUniqueName| && t.startUniqueName[r] == s && t.endUniqueName[r] == e
    ensures RoadNameOf(s, e) in t.nameForwardIndices ==>
              var r := t.nameForwardIndices[RoadNameOf(s, e)];
              0 <= r < |t.startUniqueName| && t.startUniqueName[r] == s && t.endUniqueName[r] == e &&
              forall j :: r < j < |t.startUniqueName| ==> t.startUniqueName[j] != s || t.endUniqueName[j] != e
  {
    NamesLookup(t.nameForward, t.startUniqueName, t.endUniqueName, s, e);
  }

  /** The same on the lists alone: the names are those of the endpoint pairs. */
  lemma NamesLookup(forward: seq<RoadName>, startNames: seq<AirportKey>, endNames: seq<AirportKey>,
                    s: AirportKey, e: AirportKey)
    requires |startNames| == |forward| && |endNames| == |forward|
    requires forall r :: 0 <= r < |forward| ==> forward[r] == RoadNameOf(startNames[r], endNames[r])
    ensures RoadNameOf(s, e) in LastIndexMap(forward) <==>
            exists r :: 0 <= r < |startNames| && startNames[r] == s && endNames[r] == e
    ensures RoadNameOf(s, e) in LastIndexMap(forward) ==>
              var r := LastIndexMap(forward)[RoadNameOf(s, e)];
              0 <= r < |startNames| && startNames[r] == s && endNames[r] == e &&
              forall j :: r < j < |startNames| ==> startNames[j] != s || endNames[j] != e
  {
    LastIndexMapSpec(forward, RoadNameOf(s, e));
    NamesListed(forward, startNames, endNames, s, e);
  }

  /** A road from s to e puts the name s -> e on the list. */
  lemma NamesListed(forward: seq<RoadName>, startNames: seq<AirportKey>, endNames: seq<AirportKey>,
                    s: AirportKey, e: AirportKey)
    requires |startNames| == |forward| && |endNames| == |forward|
    requires forall r :: 0 <= r < |forward| ==> forward[r] == RoadNameOf(startNames[r], endNames[r])
    ensures (exists r :: 0 <= r < |startNames| && startNames[r] == s && endNames[r] == e) ==> RoadNameOf(s, e) in forward
  {
    forall r | 0 <= r < |startNames| && startNames[r] == s && endNames[r] == e
      ensures RoadNameOf(s, e) in forward
    {
      assert forward[r] == RoadNameOf(s, e);
    }
  }

  /** The reverse-name dictionary holds, under the name e -> s, the same road
      the forward-name dictionary holds under s -> e. */
  lemma NameReverse(t: RoadTable, airports: map<AirportKey, int>, s: AirportKey, e: AirportKey)
    requires t.Valid(airports)
    ensures RoadNameOf(e, s) in t.nameReverseIndices <==> RoadNameOf(s, e) in t.nameForwardIndices
    ensures RoadNameOf(e, s) in t.nameReverseIndices ==>
              t.nameReverseIndices[RoadNameOf(e, s)] == t.nameForwardIndices[RoadNameOf(s, e)]
  {
    LastIndexMapParallel(t.nameForward, t.nameReverse, RoadNameOf(s, e), RoadNameOf(e, s));
  }

  /** With distinct airports under distinct indices, looking a node up by key
      or by its index finds the same entry: the key adjacency is the index
      adjacency seen through the airport dictionary. */
  lemma {:induction false} AdjacencyKeyView(airports: map<AirportKey, int>, startNames: seq<AirportKey>, endNames: seq<AirportKey>,
                                            starts: seq<int>, ends: seq<int>, a: AirportKey)
    requires |endNames| == |startNames| && |starts| == |startNames| && |ends| == |startNames|
    requires Injective(airports) && a in airports
    requires forall r :: 0 <= r < |startNames| ==>
               startNames[r] in airports && endNames[r] in airports &&
               starts[r] == airports[startNames[r]] && ends[r] == airports[endNames[r]]
    ensures a in Adjacency(startNames, endNames, starts, ends) <==> airports[a] in Adjacency(starts, ends, starts, ends)
    ensures a in Adjacency(startNames, endNames, starts, ends) ==>
              Adjacency(startNames, endNames, starts, ends)[a] == Adjacency(starts, ends, starts, ends)[airports[a]]
  {
    if startNames != [] {
      var k := |startNames| - 1;
      AdjacencyKeyView(airports, startNames[..k], endNames[..k], starts[..k], ends[..k], a);
      assert a == startNames[k] <==> airports[a] == starts[k];
      assert a == endNames[k] <==> airports[a] == ends[k];
    }
  }

  /** The two adjacency maps of a valid table agree: airport a's entry is the
      entry of its index. */
  lemma RoadKeyView(t: RoadTable, airports: map<AirportKey, int>, a: AirportKey)
    requires t.Valid(airports) && Injective(airports) && a in airports
    ensures a in t.attachedNodes <==> airports[a] in t.attachedNodesInt
    ensures a in t.attachedNodes ==> t.attachedNodes[a] == t.attachedNodesInt[airports[a]]
  {
    AdjacencyKeyView(airports, t.startUniqueName, t.endUniqueName, t.startIndices, t.endIndices, a);
  }
}
