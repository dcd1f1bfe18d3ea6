/** The rows the registry loads, the reports it emits, and what one file of rows
    does to the registry, stated as functions of the rows. */
module Rows {
  import opened Text
  import opened Naming

  /** One row of a ferry file, its numeric columns already parsed. */
  datatype FerryRow = FerryRow(name: string, transportTime: real, loadTimeCar: real,
                               loadTimePax: real, carCost: real, paxCost: real, frequency: real)

  /** One row of a road file: its two airports, the parsed distance (km) and
      speed (km/h), and the raw "Has Ferry" and "Ferries" cells. */
  datatype RoadRow = RoadRow(start: AirportKey, end: AirportKey, distance: real, speed: real,
                             hasFerry: string, ferries: string)

  /** What the registry reports; airport names are rendered by `AirportNameToStr`
      and rows are spreadsheet rows (data row + 2, counting the header). */
  datatype Report =
    | DuplicateFerry(ferry: string)
    | UnknownAirport(node: string, sheetRow: int)
    | SameNodes(startNode: string, endNode: string, sheetRow: int)
    | UnknownFerry(ferry: string)
    | InvalidRoadNodes
    | InvalidRoadFerries

  /** All the files' rows, file after file. */
  function Concat<T>(files: seq<seq<T>>): (all: seq<T>)
  {
    if files == [] then [] else Concat(files[..|files| - 1]) + files[|files| - 1]
  }

  lemma ConcatAppend<T>(files: seq<seq<T>>, file: seq<T>)
    ensures Concat(files + [file]) == Concat(files) + file
  {
    assert (files + [file])[..|files|] == files;
  }

  /** Re-bracketing a log that grew by two appends. */
  lemma AppendAssoc<T>(a: seq<T>, b: seq<T>, c: seq<T>)
    ensures (a + b) + c == a + (b + c)
  {
  }

  // ---------------------------------------------------------------- ferries

  /** The "Ferry Name" column of some ferry rows. */
  function FerryNames(rows: seq<FerryRow>): (names: seq<string>)
    ensures |names| == |rows| && forall i :: 0 <= i < |rows| ==> names[i] == rows[i].name
  {
    seq(|rows|, i requires 0 <= i < |rows| => rows[i].name)
  }

  /** The report for registering `name` after `names`: one when it repeats. */
  function DuplicateReport(names: seq<string>, name: string): (rs: seq<Report>)
    ensures rs == [] <==> name !in names
    ensures |rs| <= 1
  {
    if name in names then [DuplicateFerry(name)] else []
  }

  /** Reports for the names at positions `from` onwards that repeat an earlier name. */
  function DuplicateFerryReports(names: seq<string>, from: nat): (rs: seq<Report>)
    requires from <= |names|
    ensures |rs| <= |names| - from
  {
    if |names| == from then []
    else
      var n := |names| - 1;
      DuplicateFerryReports(names[..n], from) + DuplicateReport(names[..n], names[n])
  }

  lemma DuplicateFerryReportsAppend(names: seq<string>, from: nat, name: string)
    requires from <= |names|
    ensures DuplicateFerryReports(names + [name], from)
         == DuplicateFerryReports(names, from) + DuplicateReport(names, name)
  {
    assert (names + [name])[..|names|] == names;
  }

  /** The reports from position 0 are those up to k followed by those from k:
      loading files one after another reports as loading them all at once. */
  lemma {:induction false} DuplicateFerryReportsSplit(names: seq<string>, k: nat)
    requires k <= |names|
    ensures DuplicateFerryReports(names, 0) == DuplicateFerryReports(names[..k], 0) + DuplicateFerryReports(names, k)
  {
    if |names| == k {
      assert names[..k] == names;
    } else {
      var n := |names| - 1;
      var last := DuplicateReport(names[..n], names[n]);
      DuplicateFerryReportsSplit(names[..n], k);
      assert names[..n][..k] == names[..k];
      assert DuplicateFerryReports(names, 0) == DuplicateFerryReports(names[..n], 0) + last;
      AppendAssoc(DuplicateFerryReports(names[..k], 0), DuplicateFerryReports(names[..n], k), last);
      assert DuplicateFerryReports(names, k) == DuplicateFerryReports(names[..n], k) + last;
    }
  }

  /** A file whose names are all new and distinct reports nothing. */
  lemma {:induction false} NoDuplicatesNoReports(names: seq<string>, from: nat)
    requires from <= |names|
    requires forall i, j :: 0 <= i < j < |names| && from <= j ==> names[i] != names[j]
    ensures DuplicateFerryReports(names, from) == []
  {
    if |names| != from {
      var n := |names| - 1;
      NoDuplicatesNoReports(names[..n], from);
      assert names[n] !in names[..n] by {
        forall i | 0 <= i < n ensures names[..n][i] != names[n] {
          assert names[i] != names[n];
        }
      }
    }
  }

  // ---------------------------------------------------------------- road endpoints

  /** Both airports are known and the road is not a loop. */
  predicate EndpointsValid(airports: map<AirportKey, int>, s: AirportKey, e: AirportKey) {
    s in airports && e in airports && s != e
  }

  predicate AllEndpointsValid(rows: seq<RoadRow>, airports: map<AirportKey, int>) {
    forall i :: 0 <= i < |rows| ==> EndpointsValid(airports, rows[i].start, rows[i].end)
  }

  /** The reports for one row, in the order the three checks run: unknown start,
      unknown end, same start and end. */
  function NodeReports(airports: map<AirportKey, int>, s: AirportKey, e: AirportKey, row: int): (rs: seq<Report>)
    ensures rs == [] <==> EndpointsValid(airports, s, e)
    ensures |rs| <= 3
    ensures forall i :: 0 <= i < |rs| ==> (rs[i].UnknownAirport? || rs[i].SameNodes?) && rs[i].sheetRow == row + 2
  {
    (if s !in airports then [UnknownAirport(AirportNameToStr(s), row + 2)] else [])
      + (if e !in airports then [UnknownAirport(AirportNameToStr(e), row + 2)] else [])
      + (if s == e then [SameNodes(AirportNameToStr(s), AirportNameToStr(e), row + 2)] else [])
  }

  /** The reports for a whole file, row by row. */
  function EndpointReports(rows: seq<RoadRow>, airports: map<AirportKey, int>): seq<Report>
  {
    if rows == [] then []
    else
      var n := |rows| - 1;
      EndpointReports(rows[..n], airports) + NodeReports(airports, rows[n].start, rows[n].end, n)
  }

  /** At most three reports per row, each an endpoint report naming the
      spreadsheet row (data starts on row 2) it is about. */
  lemma {:induction false} EndpointReportsRows(rows: seq<RoadRow>, airports: map<AirportKey, int>)
    ensures |EndpointReports(rows, airports)| <= 3 * |rows|
    ensures forall i :: 0 <= i < |EndpointReports(rows, airports)| ==>
              (EndpointReports(rows, airports)[i].UnknownAirport? || EndpointReports(rows, airports)[i].SameNodes?) &&
              2 <= EndpointReports(rows, airports)[i].sheetRow < |rows| + 2
  {
    if rows != [] {
      EndpointReportsRows(rows[..|rows| - 1], airports);
    }
  }

  /** The rows whose endpoints pass, in file order: the roads a file commits. */
  function Accepted(rows: seq<RoadRow>, airports: map<AirportKey, int>): (acc: seq<RoadRow>)
    ensures |acc| <= |rows|
    ensures forall i :: 0 <= i < |acc| ==> EndpointsValid(airports, acc[i].start, acc[i].end)
  {
    if rows == [] then []
    else
      var n := |rows| - 1;
      Accepted(rows[..n], airports)
        + (if EndpointsValid(airports, rows[n].start, rows[n].end) then [rows[n]] else [])
  }

  /** One more row of the file: its endpoint check decides whether it is accepted. */
  lemma EndpointsStep(rows: seq<RoadRow>, airports: map<AirportKey, int>, i: int)
    requires 0 <= i < |rows|
    ensures AllEndpointsValid(rows[..i + 1], airports)
        <==> AllEndpointsValid(rows[..i], airports) && EndpointsValid(airports, rows[i].start, rows[i].end)
    ensures Accepted(rows[..i + 1], airports)
         == Accepted(rows[..i], airports) + (if EndpointsValid(airports, rows[i].start, rows[i].end) then [rows[i]] else [])
    ensures EndpointReports(rows[..i + 1], airports)
         == EndpointReports(rows[..i], airports) + NodeReports(airports, rows[i].start, rows[i].end, i)
  {
    assert rows[..i + 1][..i] == rows[..i];
  }

  /** A file commits every row exactly when every row is valid, and only then
      reports nothing about its endpoints. */
  lemma {:induction false} AcceptedAllIff(rows: seq<RoadRow>, airports: map<AirportKey, int>)
    ensures |Accepted(rows, airports)| == |rows| <==> AllEndpointsValid(rows, airports)
    ensures EndpointReports(rows, airports) == [] <==> AllEndpointsValid(rows, airports)
    ensures AllEndpointsValid(rows, airports) ==> Accepted(rows, airports) == rows
  {
    if rows != [] {
      var n := |rows| - 1;
      AcceptedAllIff(rows[..n], airports);
      assert rows == rows[..n] + [rows[n]];
      if AllEndpointsValid(rows[..n], airports) != AllEndpointsValid(rows, airports) {
        assert !EndpointsValid(airports, rows[n].start, rows[n].end);
      } else if !AllEndpointsValid(rows, airports) {
        var i :| 0 <= i < n && !EndpointsValid(airports, rows[..n][i].start, rows[..n][i].end);
      }
    }
  }

  /** The accepted rows are exactly the file's passing rows: none is invented
      and none that passes is dropped. */
  lemma {:induction false} AcceptedMembers(rows: seq<RoadRow>, airports: map<AirportKey, int>, r: RoadRow)
    ensures r in Accepted(rows, airports) <==> r in rows && EndpointsValid(airports, r.start, r.end)
  {
    if rows != [] {
      var n := |rows| - 1;
      AcceptedMembers(rows[..n], airports, r);
      assert rows == rows[..n] + [rows[n]];
    }
  }

  /** Accepting distributes over joining files: the accepted rows keep file order. */
  lemma {:induction false} AcceptedAppend(a: seq<RoadRow>, b: seq<RoadRow>, airports: map<AirportKey, int>)
    ensures Accepted(a + b, airports) == Accepted(a, airports) + Accepted(b, airports)
  {
    if b == [] {
      assert a + b == a;
    } else {
      var n := |b| - 1;
      AcceptedAppend(a, b[..n], airports);
      assert (a + b)[..|a| + n] == a + b[..n];
      assert (a + b)[|a| + n] == b[n];
    }
  }

  function StartKeys(rows: seq<RoadRow>): (ks: seq<AirportKey>)
    ensures |ks| == |rows| && forall i :: 0 <= i < |rows| ==> ks[i] == rows[i].start
  {
    seq(|rows|, i requires 0 <= i < |rows| => rows[i].start)
  }

  function EndKeys(rows: seq<RoadRow>): (ks: seq<AirportKey>)
    ensures |ks| == |rows| && forall i :: 0 <= i < |rows| ==> ks[i] == rows[i].end
  {
    seq(|rows|, i requires 0 <= i < |rows| => rows[i].end)
  }

  lemma KeysAppend(rows: seq<RoadRow>, more: seq<RoadRow>)
    ensures StartKeys(rows + more) == StartKeys(rows) + StartKeys(more)
    ensures EndKeys(rows + more) == EndKeys(rows) + EndKeys(more)
  {
  }

  /** The roads committed by several files, file after file. */
  function AcceptedFiles(files: seq<seq<RoadRow>>, airports: map<AirportKey, int>): seq<RoadRow>
  {
    if files == [] then []
    else AcceptedFiles(files[..|files| - 1], airports) + Accepted(files[|files| - 1], airports)
  }

  // ---------------------------------------------------------------- road ferries

  /** The "Has Ferry" cell counts only when it lowercases to "yes". */
  predicate HasFerry(flag: string) {
    Lower(flag) == "yes"
  }

  /** Exactly the eight spellings of "yes" in upper and lower case pass. */
  lemma HasFerrySpellings(flag: string)
    ensures HasFerry(flag) <==>
              |flag| == 3 && flag[0] in "yY" && flag[1] in "eE" && flag[2] in "sS"
  {
    if |flag| == 3 && flag[0] in "yY" && flag[1] in "eE" && flag[2] in "sS" {
      assert Lower(flag) == "yes";
    }
    if HasFerry(flag) {
      assert LowerChar(flag[0]) == 'y' && LowerChar(flag[1]) == 'e' && LowerChar(flag[2]) == 's';
    }
  }

  /** One index per name, in order: the registered index, or -1 when unknown. */
  function FerryIndices(names: seq<string>, ferries: map<string, int>): (ix: seq<int>)
    ensures |ix| == |names|
    ensures forall i :: 0 <= i < |names| ==> ix[i] == if names[i] in ferries then ferries[names[i]] else -1
  {
    if names == [] then []
    else
      var n := |names| - 1;
      FerryIndices(names[..n], ferries) + [if names[n] in ferries then ferries[names[n]] else -1]
  }

  /** One report per unknown name, in order. */
  function UnknownFerryReports(names: seq<string>, ferries: map<string, int>): (rs: seq<Report>)
    ensures rs == [] <==> forall i :: 0 <= i < |names| ==> names[i] in ferries
  {
    if names == [] then []
    else
      var n := |names| - 1;
      UnknownFerryReports(names[..n], ferries) + (if names[n] in ferries then [] else [UnknownFerry(names[n])])
  }

  lemma FerryNamesStep(names: seq<string>, ferries: map<string, int>, i: int)
    requires 0 <= i < |names|
    ensures FerryIndices(names[..i + 1], ferries)
         == FerryIndices(names[..i], ferries) + [if names[i] in ferries then ferries[names[i]] else -1]
    ensures UnknownFerryReports(names[..i + 1], ferries)
         == UnknownFerryReports(names[..i], ferries) + (if names[i] in ferries then [] else [UnknownFerry(names[i])])
  {
    assert names[..i + 1][..i] == names[..i];
  }

  /** The ferry indices recorded for one road row: one per listed name when the
      road has a ferry, each the registered index or -1; the placeholder -1 otherwise. */
  function FerryLink(row: RoadRow, ferries: map<string, int>): (ix: seq<int>)
    ensures HasFerry(row.hasFerry) ==> |ix| == |SplitComma(row.ferries)|
    ensures !HasFerry(row.hasFerry) ==> ix == [-1]
    ensures forall i :: 0 <= i < |ix| ==> ix[i] == -1 || ix[i] in ferries.Values
  {
    if HasFerry(row.hasFerry) then FerryIndices(SplitComma(row.ferries), ferries) else [-1]
  }

  /** Every ferry a row names is registered (vacuous when it has no ferry). */
  predicate RowFerriesKnown(row: RoadRow, ferries: map<string, int>) {
    HasFerry(row.hasFerry) ==>
      forall i :: 0 <= i < |SplitComma(row.ferries)| ==> SplitComma(row.ferries)[i] in ferries
  }

  predicate AllFerriesKnown(rows: seq<RoadRow>, ferries: map<string, int>) {
    forall i :: 0 <= i < |rows| ==> RowFerriesKnown(rows[i], ferries)
  }

  /** With registered indices never negative, a row's ferries are all known
      exactly when no -1 appears among its indices, and a row without a ferry
      records the single placeholder -1. */
  lemma FerryLinkUnknownIff(row: RoadRow, ferries: map<string, int>)
    requires forall f :: f in ferries ==> ferries[f] >= 0
    ensures HasFerry(row.hasFerry) ==> (RowFerriesKnown(row, ferries) <==> -1 !in FerryLink(row, ferries))
    ensures HasFerry(row.hasFerry) ==> |FerryLink(row, ferries)| == |SplitComma(row.ferries)| >= 1
    ensures !HasFerry(row.hasFerry) ==> FerryLink(row, ferries) == [-1]
  {
    if HasFerry(row.hasFerry) {
      var names := SplitComma(row.ferries);
      var ix := FerryIndices(names, ferries);
      if !RowFerriesKnown(row, ferries) {
        var i :| 0 <= i < |names| && names[i] !in ferries;
        assert ix[i] == -1;
      }
    }
  }

  function FerryFlags(rows: seq<RoadRow>): (fs: seq<bool>)
    ensures |fs| == |rows| && forall i :: 0 <= i < |rows| ==> fs[i] == HasFerry(rows[i].hasFerry)
  {
    if rows == [] then [] else FerryFlags(rows[..|rows| - 1]) + [HasFerry(rows[|rows| - 1].hasFerry)]
  }

  function FerryLinks(rows: seq<RoadRow>, ferries: map<string, int>): (ls: seq<seq<int>>)
    ensures |ls| == |rows| && forall i :: 0 <= i < |rows| ==> ls[i] == FerryLink(rows[i], ferries)
  {
    if rows == [] then [] else FerryLinks(rows[..|rows| - 1], ferries) + [FerryLink(rows[|rows| - 1], ferries)]
  }

  /** The unknown-ferry reports of a file, row by row. */
  function LinkReports(rows: seq<RoadRow>, ferries: map<string, int>): seq<Report>
  {
    if rows == [] then []
    else
      var n := |rows| - 1;
      LinkReports(rows[..n], ferries)
        + (if HasFerry(rows[n].hasFerry) then UnknownFerryReports(SplitComma(rows[n].ferries), ferries) else [])
  }

  /** Each report names one unregistered ferry, at most one per listed name. */
  lemma {:induction false} UnknownFerryReportsNames(names: seq<string>, ferries: map<string, int>)
    ensures |UnknownFerryReports(names, ferries)| <= |names|
    ensures forall i :: 0 <= i < |UnknownFerryReports(names, ferries)| ==>
              UnknownFerryReports(names, ferries)[i].UnknownFerry? && UnknownFerryReports(names, ferries)[i].ferry !in ferries
  {
    if names != [] {
      UnknownFerryReportsNames(names[..|names| - 1], ferries);
    }
  }

  /** A file's ferry reports each name an unregistered ferry. */
  lemma {:induction false} LinkReportsNames(rows: seq<RoadRow>, ferries: map<string, int>)
    ensures forall i :: 0 <= i < |LinkReports(rows, ferries)| ==>
              LinkReports(rows, ferries)[i].UnknownFerry? && LinkReports(rows, ferries)[i].ferry !in ferries
  {
    if rows != [] {
      var n := |rows| - 1;
      var prev := LinkReports(rows[..n], ferries);
      var last := if HasFerry(rows[n].hasFerry) then UnknownFerryReports(SplitComma(rows[n].ferries), ferries) else [];
      LinkReportsNames(rows[..n], ferries);
      UnknownFerryReportsNames(SplitComma(rows[n].ferries), ferries);
      var rs := LinkReports(rows, ferries);
      assert rs == prev + last;
      forall i | 0 <= i < |rs| ensures rs[i].UnknownFerry? && rs[i].ferry !in ferries {
        if i < |prev| {
          assert rs[i] == prev[i];
        } else {
          assert rs[i] == last[i - |prev|];
        }
      }
    }
  }

  /** One more row of the file: its flag, its ferry indices and its reports. */
  lemma LinkStep(rows: seq<RoadRow>, ferries: map<string, int>, i: int)
    requires 0 <= i < |rows|
    ensures AllFerriesKnown(rows[..i + 1], ferries) <==> AllFerriesKnown(rows[..i], ferries) && RowFerriesKnown(rows[i], ferries)
    ensures FerryFlags(rows[..i + 1]) == FerryFlags(rows[..i]) + [HasFerry(rows[i].hasFerry)]
    ensures FerryLinks(rows[..i + 1], ferries) == FerryLinks(rows[..i], ferries) + [FerryLink(rows[i], ferries)]
    ensures LinkReports(rows[..i + 1], ferries)
         == LinkReports(rows[..i], ferries)
            + (if HasFerry(rows[i].hasFerry) then UnknownFerryReports(SplitComma(rows[i].ferries), ferries) else [])
  {
    KnownStep(rows, ferries, i);
    FlagsStep(rows, i);
    LinksStep(rows, ferries, i);
    ReportsStep(rows, ferries, i);
  }

  lemma KnownStep(rows: seq<RoadRow>, ferries: map<string, int>, i: int)
    requires 0 <= i < |rows|
    ensures AllFerriesKnown(rows[..i + 1], ferries) <==> AllFerriesKnown(rows[..i], ferries) && RowFerriesKnown(rows[i], ferries)
  {
    assert forall j :: 0 <= j < i ==> rows[..i + 1][j] == rows[..i][j];
  }

  lemma FlagsStep(rows: seq<RoadRow>, i: int)
    requires 0 <= i < |rows|
    ensures FerryFlags(rows[..i + 1]) == FerryFlags(rows[..i]) + [HasFerry(rows[i].hasFerry)]
  {
    assert rows[..i + 1][..i] == rows[..i];
  }

  lemma LinksStep(rows: seq<RoadRow>, ferries: map<string, int>, i: int)
    requires 0 <= i < |rows|
    ensures FerryLinks(rows[..i + 1], ferries) == FerryLinks(rows[..i], ferries) + [FerryLink(rows[i], ferries)]
  {
    assert rows[..i + 1][..i] == rows[..i];
  }

  lemma ReportsStep(rows: seq<RoadRow>, ferries: map<string, int>, i: int)
    requires 0 <= i < |rows|
    ensures LinkReports(rows[..i + 1], ferries)
         == LinkReports(rows[..i], ferries)
            + (if HasFerry(rows[i].hasFerry) then UnknownFerryReports(SplitComma(rows[i].ferries), ferries) else [])
  {
    assert rows[..i + 1][..i] == rows[..i];
  }

  /** A file reports an unknown ferry exactly when some row names one. */
  lemma {:induction false} LinkReportsIff(rows: seq<RoadRow>, ferries: map<string, int>)
    ensures LinkReports(rows, ferries) == [] <==> AllFerriesKnown(rows, ferries)
  {
    if rows != [] {
      var n := |rows| - 1;
      LinkReportsIff(rows[..n], ferries);
      assert rows == rows[..n] + [rows[n]];
      if !AllFerriesKnown(rows, ferries) && AllFerriesKnown(rows[..n], ferries) {
        var i :| 0 <= i < |rows| && !RowFerriesKnown(rows[i], ferries);
      }
    }
  }

  // ---------------------------------------------------------------- road statistics

  function Distances(rows: seq<RoadRow>): (ds: seq<real>)
    ensures |ds| == |rows| && forall i :: 0 <= i < |rows| ==> ds[i] == rows[i].distance
  {
    seq(|rows|, i requires 0 <= i < |rows| => rows[i].distance)
  }

  function Speeds(rows: seq<RoadRow>): (vs: seq<real>)
    ensures |vs| == |rows| && forall i :: 0 <= i < |rows| ==> vs[i] == rows[i].speed
  {
    seq(|rows|, i requires 0 <= i < |rows| => rows[i].speed)
  }

  /** The default travel time of each road, distance over speed (hours). */
  function Times(rows: seq<RoadRow>): (ts: seq<real>)
    requires forall i :: 0 <= i < |rows| ==> rows[i].speed != 0.0
    ensures |ts| == |rows| && forall i :: 0 <= i < |rows| ==> ts[i] == rows[i].distance / rows[i].speed
  {
    seq(|rows|, i requires 0 <= i < |rows| => rows[i].distance / rows[i].speed)
  }

  /** How many rows the statistics loop gets through: it stops at the first
      row whose speed is zero, where the division raises. */
  function SpeedPrefix(rows: seq<RoadRow>): (k: nat)
    ensures k <= |rows|
    ensures forall i :: 0 <= i < k ==> rows[i].speed != 0.0
    ensures k < |rows| ==> rows[k].speed == 0.0
  {
    if rows == [] || rows[0].speed == 0.0 then 0 else 1 + SpeedPrefix(rows[1..])
  }

  /** A file passes both checks; only then does the loader reach its statistics. */
  predicate Clean(rows: seq<RoadRow>, airports: map<AirportKey, int>, ferries: map<string, int>) {
    AllEndpointsValid(rows, airports) && AllFerriesKnown(rows, ferries)
  }

  /** Loading the file raises: it reaches the statistics and one of its speeds is zero. */
  predicate StatisticsRaise(rows: seq<RoadRow>, airports: map<AirportKey, int>, ferries: map<string, int>) {
    Clean(rows, airports, ferries) && SpeedPrefix(rows) < |rows|
  }

  /** One more row through the statistics loop. */
  lemma StatisticsStep(rows: seq<RoadRow>, i: int)
    requires 0 <= i < |rows|
    requires forall j :: 0 <= j <= i ==> rows[j].speed != 0.0
    ensures Distances(rows[..i + 1]) == Distances(rows[..i]) + [rows[i].distance]
    ensures Speeds(rows[..i + 1]) == Speeds(rows[..i]) + [rows[i].speed]
    ensures Times(rows[..i + 1]) == Times(rows[..i]) + [rows[i].distance / rows[i].speed]
  {
  }

  // ---------------------------------------------------------------- loading files

  /** What the ferry stage of loading a file reports: its ferry reports, then
      the stop on an unknown ferry when there is one. */
  function CheckedReports(rows: seq<RoadRow>, ferries: map<string, int>): seq<Report>
  {
    LinkReports(rows, ferries) + if !AllFerriesKnown(rows, ferries) then [InvalidRoadFerries] else []
  }

  /** What loading one file reports: its endpoint reports, then either the stop
      on a bad endpoint or what its ferry stage reports. */
  function LoadReports(rows: seq<RoadRow>, airports: map<AirportKey, int>, ferries: map<string, int>): (rs: seq<Report>)
    ensures EndpointReports(rows, airports) <= rs
  {
    EndpointReports(rows, airports)
      + if !AllEndpointsValid(rows, airports) then [InvalidRoadNodes] else CheckedReports(rows, ferries)
  }

  /** Exactly one kind of stop can end a file's reports: the endpoint stop when
      an endpoint fails, otherwise the ferry stop when a ferry is unknown. */
  lemma LoadStops(rows: seq<RoadRow>, airports: map<AirportKey, int>, ferries: map<string, int>)
    ensures InvalidRoadNodes in LoadReports(rows, airports, ferries) <==> !AllEndpointsValid(rows, airports)
    ensures InvalidRoadFerries in LoadReports(rows, airports, ferries)
        <==> AllEndpointsValid(rows, airports) && !AllFerriesKnown(rows, ferries)
  {
    var e, l := EndpointReports(rows, airports), LinkReports(rows, ferries);
    EndpointReportsRows(rows, airports);
    LinkReportsNames(rows, ferries);
    assert InvalidRoadNodes !in e && InvalidRoadFerries !in e;
    assert InvalidRoadNodes !in l && InvalidRoadFerries !in l;
  }

  /** A file loads without a single report exactly when it passes both checks. */
  lemma LoadQuiet(rows: seq<RoadRow>, airports: map<AirportKey, int>, ferries: map<string, int>)
    ensures LoadReports(rows, airports, ferries) == [] <==> Clean(rows, airports, ferries)
  {
    AcceptedAllIff(rows, airports);
    LinkReportsIff(rows, ferries);
  }

  /** The reports of loading several files, file after file. */
  function FilesReports(files: seq<seq<RoadRow>>, airports: map<AirportKey, int>, ferries: map<string, int>): seq<Report>
  {
    if files == [] then []
    else FilesReports(files[..|files| - 1], airports, ferries) + LoadReports(files[|files| - 1], airports, ferries)
  }

  lemma FilesReportsStep(files: seq<seq<RoadRow>>, airports: map<AirportKey, int>, ferries: map<string, int>, i: int)
    requires 0 <= i < |files|
    ensures FilesReports(files[..i + 1], airports, ferries)
         == FilesReports(files[..i], airports, ferries) + LoadReports(files[i], airports, ferries)
  {
    assert files[..i + 1][..i] == files[..i];
  }

  /** The first file whose statistics raise, or the number of files when none
      does; loading stops after that file. */
  function FirstRaise(files: seq<seq<RoadRow>>, airports: map<AirportKey, int>, ferries: map<string, int>): (j: nat)
    ensures j <= |files|
    ensures forall i :: 0 <= i < j ==> !StatisticsRaise(files[i], airports, ferries)
    ensures j < |files| ==> StatisticsRaise(files[j], airports, ferries)
  {
    if files == [] || StatisticsRaise(files[0], airports, ferries) then 0
    else 1 + FirstRaise(files[1..], airports, ferries)
  }

  /** The files loading goes through: up to and including the first that
      raises, or all of them. */
  function LoadedFiles(files: seq<seq<RoadRow>>, airports: map<AirportKey, int>, ferries: map<string, int>)
    : (loaded: seq<seq<RoadRow>>)
    ensures loaded <= files
    ensures forall i :: 0 <= i < |loaded| - 1 ==> !StatisticsRaise(files[i], airports, ferries)
    ensures |loaded| < |files| ==> 0 < |loaded| && StatisticsRaise(files[|loaded| - 1], airports, ferries)
  {
    var j := FirstRaise(files, airports, ferries);
    if j < |files| then files[..j + 1] else files
  }

  /** The first raising file is the one after a run of files that do not raise. */
  lemma FirstRaiseAt(files: seq<seq<RoadRow>>, airports: map<AirportKey, int>, ferries: map<string, int>, i: nat)
    requires i <= FirstRaise(files, airports, ferries)
    requires i < |files| ==> StatisticsRaise(files[i], airports, ferries)
    ensures FirstRaise(files, airports, ferries) == i
    ensures LoadedFiles(files, airports, ferries) == if i < |files| then files[..i + 1] else files
  {
  }
}
