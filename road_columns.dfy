/** The per-road columns the registry fills after the road lists: whether each
    road has a ferry, the ferries it links to, and its distance, speed and
    travel time; and what loading files of roads appends to them. */
module PerRoad {
  import opened Naming
  import opened Rows
  import opened RoadTables

  datatype RoadColumns = RoadColumns(distance: seq<real>, speed: seq<real>, time: seq<real>,
                                     hasFerry: seq<bool>, ferryIndex: seq<seq<int>>)
  {
    /** The ferry columns run in parallel, and so do the statistics columns. */
    predicate Parallel() {
      |ferryIndex| == |hasFerry| && |speed| == |distance| && |time| == |distance|
    }
  }

  const NoColumns: RoadColumns := RoadColumns([], [], [], [], [])

  /** What loading one road file appends: nothing when an endpoint fails; one
      ferry entry per row when every endpoint passes; and, once every ferry is
      known as well, the statistics of the rows before the first zero speed. */
  function LoadColumns(c: RoadColumns, rows: seq<RoadRow>, airports: map<AirportKey, int>,
                       ferries: map<string, int>): (r: RoadColumns)
    ensures c.Parallel() ==> r.Parallel()
    ensures |r.hasFerry| == |c.hasFerry| + if AllEndpointsValid(rows, airports) then |rows| else 0
    ensures Clean(rows, airports, ferries) && !StatisticsRaise(rows, airports, ferries) ==>
            |r.distance| == |c.distance| + |rows|
    ensures StatisticsRaise(rows, airports, ferries) ==> |r.distance| == |c.distance| + SpeedPrefix(rows)
    ensures !Clean(rows, airports, ferries) ==> r.distance == c.distance
  {
    if !AllEndpointsValid(rows, airports) then c
    else
      var linked := c.(hasFerry := c.hasFerry + FerryFlags(rows),
                       ferryIndex := c.ferryIndex + FerryLinks(rows, ferries));
      if !AllFerriesKnown(rows, ferries) then linked
      else
        var k := SpeedPrefix(rows);
        linked.(distance := c.distance + Distances(rows[..k]),
                speed := c.speed + Speeds(rows[..k]),
                time := c.time + Times(rows[..k]))
  }

  /** The columns after loading several files, file after file. */
  function FilesColumns(c: RoadColumns, files: seq<seq<RoadRow>>, airports: map<AirportKey, int>,
                        ferries: map<string, int>): (r: RoadColumns)
    ensures c.Parallel() ==> r.Parallel()
  {
    if files == [] then c
    else
      var n := |files| - 1;
      LoadColumns(FilesColumns(c, files[..n], airports, ferries), files[n], airports, ferries)
  }

  lemma FilesColumnsStep(c: RoadColumns, files: seq<seq<RoadRow>>, airports: map<AirportKey, int>,
                         ferries: map<string, int>, i: int)
    requires 0 <= i < |files|
    ensures FilesColumns(c, files[..i + 1], airports, ferries)
         == LoadColumns(FilesColumns(c, files[..i], airports, ferries), files[i], airports, ferries)
  {
    assert files[..i + 1][..i] == files[..i];
  }

  /** When every file is clean and none raises, each committed road has exactly
      one entry in the ferry columns and one in the statistics columns. */
  lemma {:induction false} FilesAligned(t: RoadTable, c: RoadColumns, files: seq<seq<RoadRow>>,
                                        airports: map<AirportKey, int>, ferries: map<string, int>)
    requires forall i :: 0 <= i < |files| ==> Clean(files[i], airports, ferries)
    requires forall i :: 0 <= i < |files| ==> !StatisticsRaise(files[i], airports, ferries)
    requires |c.hasFerry| == |t.startUniqueName| && |c.distance| == |t.startUniqueName|
    ensures var u := CommitFiles(t, files, airports);
            var d := FilesColumns(c, files, airports, ferries);
            |d.hasFerry| == |u.startUniqueName| && |d.distance| == |u.startUniqueName|
  {
    if files != [] {
      var n := |files| - 1;
      assert forall i :: 0 <= i < n ==> files[..n][i] == files[i];
      FilesAligned(t, c, files[..n], airports, ferries);
      CommitRowsCount(CommitFiles(t, files[..n], airports), files[n], airports);
    }
  }

  /** A file with both a failing and a passing row keeps the passing rows'
      roads but adds no ferry entry for them: afterwards there are more roads
      than ferry entries, and the parallel lists no longer line up. */
  lemma PartialFileMisaligns(t: RoadTable, c: RoadColumns, rows: seq<RoadRow>,
                             airports: map<AirportKey, int>, ferries: map<string, int>, i: int)
    requires |c.hasFerry| == |t.startUniqueName|
    requires !AllEndpointsValid(rows, airports)
    requires 0 <= i < |rows| && EndpointsValid(airports, rows[i].start, rows[i].end)
    ensures |LoadColumns(c, rows, airports, ferries).hasFerry| < |CommitRows(t, rows, airports).startUniqueName|
  {
    CommitRowsNames(t, rows, airports);
    AcceptedMembers(rows, airports, rows[i]);
  }
}
