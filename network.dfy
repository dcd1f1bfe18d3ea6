/** The transport-network registry: airports, ferries and roads held in
    parallel lists and dictionaries that the loaders append to in place. */
module TransportNetwork {
  import opened Text
  import opened Naming
  import opened IndexMaps
  import opened RoadGraph
  import opened Rows
  import opened RoadTables
  import opened PerRoad

  /** Seven parallel columns read back as ferry rows. */
  function FerryTable(names: seq<string>, transport: seq<real>, loadCar: seq<real>, loadPax: seq<real>,
                      carCost: seq<real>, paxCost: seq<real>, frequency: seq<real>): (rows: seq<FerryRow>)
    requires |transport| == |names| && |loadCar| == |names| && |loadPax| == |names|
    requires |carCost| == |names| && |paxCost| == |names| && |frequency| == |names|
    ensures |rows| == |names|
  {
    seq(|names|, i requires 0 <= i < |names| =>
      FerryRow(names[i], transport[i], loadCar[i], loadPax[i], carCost[i], paxCost[i], frequency[i]))
  }

  /** Appending one value to each column appends that row. */
  lemma FerryTableAppend(names: seq<string>, transport: seq<real>, loadCar: seq<real>, loadPax: seq<real>,
                         carCost: seq<real>, paxCost: seq<real>, frequency: seq<real>, row: FerryRow)
    requires |transport| == |names| && |loadCar| == |names| && |loadPax| == |names|
    requires |carCost| == |names| && |paxCost| == |names| && |frequency| == |names|
    ensures FerryTable(names + [row.name], transport + [row.transportTime], loadCar + [row.loadTimeCar],
                       loadPax + [row.loadTimePax], carCost + [row.carCost], paxCost + [row.paxCost],
                       frequency + [row.frequency])
         == FerryTable(names, transport, loadCar, loadPax, carCost, paxCost, frequency) + [row]
  {
  }

  class Network {
    // airports (create_airport_variables)
    var airportNames: seq<string>
    var airportStates: seq<string>
    var airportCountries: seq<string>
    var airportUniqueNames: seq<AirportKey>
    var airportNameIndices: map<AirportKey, int>

    // ferries (create_ferry_variables)
    var ferryNames: seq<string>
    var ferryIdByName: map<string, int>
    var ferryTransportTime: seq<real>
    var ferryLoadTimeCar: seq<real>
    var ferryLoadTimePax: seq<real>
    var ferryCarCost: seq<real>
    var ferryPaxCost: seq<real>
    var ferryFrequency: seq<real>

    // roads (create_road_variables): the lists and dictionaries a committed
    // road updates together, then the per-road ferry and statistics columns
    var roads: RoadTable
    var roadDistance: seq<real>
    var roadSpeed: seq<real>
    var roadTime: seq<real>
    var roadHasFerry: seq<bool>
    var roadFerryIndex: seq<seq<int>>

    /** Everything the registry has reported, oldest first. */
    var reports: seq<Report>

    // ------------------------------------------------------------ invariants

    /** The four airport lists run in parallel, and the key dictionary maps each
        key to the index of its latest row. */
    ghost predicate AirportsValid()
      reads this`airportNames, this`airportStates, this`airportCountries,
            this`airportUniqueNames, this`airportNameIndices
    {
      |airportStates| == |airportNames| && |airportCountries| == |airportNames| &&
      |airportUniqueNames| == |airportNames| &&
      (forall i :: 0 <= i < |airportNames| ==>
         airportUniqueNames[i] == AirportKey(airportNames[i], airportStates[i], airportCountries[i])) &&
      airportNameIndices == LastIndexMap(airportUniqueNames)
    }

    /** The seven ferry lists run in parallel, and the name dictionary maps each
        name to the index of its first row. */
    ghost predicate FerriesValid()
      reads this`ferryNames, this`ferryIdByName, this`ferryTransportTime, this`ferryLoadTimeCar,
            this`ferryLoadTimePax, this`ferryCarCost, this`ferryPaxCost, this`ferryFrequency
    {
      var n := |ferryNames|;
      |ferryTransportTime| == n && |ferryLoadTimeCar| == n && |ferryLoadTimePax| == n &&
      |ferryCarCost| == n && |ferryPaxCost| == n && |ferryFrequency| == n &&
      ferryIdByName == FirstIndexMap(ferryNames)
    }

    /** The ferry lists read back as rows. */
    ghost function FerryRows(): (rows: seq<FerryRow>)
      reads this`ferryNames, this`ferryIdByName, this`ferryTransportTime, this`ferryLoadTimeCar,
            this`ferryLoadTimePax, this`ferryCarCost, this`ferryPaxCost, this`ferryFrequency
      requires FerriesValid()
      ensures |rows| == |ferryNames|
    {
      FerryTable(ferryNames, ferryTransportTime, ferryLoadTimeCar, ferryLoadTimePax,
                 ferryCarCost, ferryPaxCost, ferryFrequency)
    }

    /** The five per-road columns as one value. */
    ghost function Columns(): RoadColumns
      reads this`roadDistance, this`roadSpeed, this`roadTime, this`roadHasFerry, this`roadFerryIndex
    {
      RoadColumns(roadDistance, roadSpeed, roadTime, roadHasFerry, roadFerryIndex)
    }

    // ------------------------------------------------------------ creation

    constructor ()
      ensures AirportsValid() && FerriesValid()
      ensures airportUniqueNames == [] && ferryNames == [] && roads == NoRoads && Columns() == NoColumns && reports == []
    {
      airportNames, airportStates, airportCountries, airportUniqueNames := [], [], [], [];
      airportNameIndices := map[];
      ferryNames, ferryIdByName := [], map[];
      ferryTransportTime, ferryLoadTimeCar, ferryLoadTimePax := [], [], [];
      ferryCarCost, ferryPaxCost, ferryFrequency := [], [], [];
      roads := NoRoads;
      roadDistance, roadSpeed, roadTime, roadHasFerry, roadFerryIndex := [], [], [], [], [];
      reports := [];
      new;
    }

    // ------------------------------------------------------------ airports

    method CreateAirportVariables()
      modifies this`airportNames, this`airportStates, this`airportCountries,
               this`airportUniqueNames, this`airportNameIndices
      ensures AirportsValid() && airportUniqueNames == []
    {
      airportNames, airportStates, airportCountries, airportUniqueNames := [], [], [], [];
      airportNameIndices := map[];
    }

    /** Appends one airport per row; a repeated key is re-pointed at the later row. */
    method GetAirportNames(rows: seq<AirportKey>)
      requires AirportsValid()
      modifies this`airportNames, this`airportStates, this`airportCountries,
               this`airportUniqueNames, this`airportNameIndices
      ensures AirportsValid()
      ensures airportUniqueNames == old(airportUniqueNames) + rows
      ensures forall k :: k in rows ==> k in airportNameIndices && airportNameIndices[k] >= old(|airportUniqueNames|)
      ensures forall k :: k in old(airportNameIndices) && k !in rows ==>
                k in airportNameIndices && airportNameIndices[k] == old(airportNameIndices)[k]
    {
      ghost var keys0, indices0 := airportUniqueNames, airportNameIndices;
      var i := 0;
      while i < |rows|
        invariant 0 <= i <= |rows|
        invariant AirportsValid()
        invariant airportUniqueNames == keys0 + rows[..i]
        invariant forall k :: k in rows[..i] ==> k in airportNameIndices && airportNameIndices[k] >= |keys0|
        invariant forall k :: k in indices0 && k !in rows[..i] ==>
                    k in airportNameIndices && airportNameIndices[k] == indices0[k]
      {
        AddNextAirport(rows, i, keys0, indices0);
        i := i + 1;
      }
      assert rows[..i] == rows;
    }

    /** One turn of the airport loop: appends the key after the first i to the
        four lists and points the dictionary at its new index. */
    method AddNextAirport(rows: seq<AirportKey>, i: nat, ghost keys0: seq<AirportKey>,
                          ghost indices0: map<AirportKey, int>)
      requires i < |rows|
      requires AirportsValid() && airportUniqueNames == keys0 + rows[..i]
      requires forall k :: k in rows[..i] ==> k in airportNameIndices && airportNameIndices[k] >= |keys0|
      requires forall k :: k in indices0 && k !in rows[..i] ==>
                 k in airportNameIndices && airportNameIndices[k] == indices0[k]
      modifies this`airportNames, this`airportStates, this`airportCountries,
               this`airportUniqueNames, this`airportNameIndices
      ensures AirportsValid() && airportUniqueNames == keys0 + rows[..i + 1]
      ensures forall k :: k in rows[..i + 1] ==> k in airportNameIndices && airportNameIndices[k] >= |keys0|
      ensures forall k :: k in indices0 && k !in rows[..i + 1] ==>
                k in airportNameIndices && airportNameIndices[k] == indices0[k]
    {
      var uniqueName := rows[i];
      LastIndexMapAppend(airportUniqueNames, uniqueName);
      assert rows[..i + 1] == rows[..i] + [uniqueName];
      airportNames := airportNames + [uniqueName.name];
      airportStates := airportStates + [uniqueName.state];
      airportCountries := airportCountries + [uniqueName.country];
      airportUniqueNames := airportUniqueNames + [uniqueName];
      var index := |airportNames| - 1;
      airportNameIndices := airportNameIndices[uniqueName := index];
    }

    /** (true, its index) for a registered key, (false, -1) otherwise. */
    method GetAirportIndex(uniqueName: AirportKey) returns (found: bool, index: int)
      requires AirportsValid()
      ensures found <==> uniqueName in airportUniqueNames
      ensures found ==> uniqueName in airportNameIndices && index == airportNameIndices[uniqueName]
      ensures found ==> 0 <= index < |airportUniqueNames| && airportUniqueNames[index] == uniqueName &&
                        forall j :: index < j < |airportUniqueNames| ==> airportUniqueNames[j] != uniqueName
      ensures !found ==> index == -1
    {
      LastIndexMapSpec(airportUniqueNames, uniqueName);
      index := -1;
      found := false;
      if uniqueName in airportNameIndices {
        index := airportNameIndices[uniqueName];
        found := true;
      }
    }

    /** Loads every airport file in turn into fresh airport lists. */
    method LoadAllAirports(files: seq<seq<AirportKey>>)
      modifies this`airportNames, this`airportStates, this`airportCountries,
               this`airportUniqueNames, this`airportNameIndices
      ensures AirportsValid() && airportUniqueNames == Concat(files)
    {
      CreateAirportVariables();
      var i := 0;
      while i < |files|
        invariant 0 <= i <= |files|
        invariant AirportsValid() && airportUniqueNames == Concat(files[..i])
      {
        ConcatAppend(files[..i], files[i]);
        assert files[..i + 1] == files[..i] + [files[i]];
        GetAirportNames(files[i]);
        i := i + 1;
      }
      assert files[..i] == files;
    }

    // ------------------------------------------------------------ ferries

    method CreateFerryVariables()
      modifies this`ferryNames, this`ferryIdByName, this`ferryTransportTime, this`ferryLoadTimeCar,
               this`ferryLoadTimePax, this`ferryCarCost, this`ferryPaxCost, this`ferryFrequency
      ensures FerriesValid() && FerryRows() == []
    {
      ferryNames, ferryIdByName := [], map[];
      ferryTransportTime, ferryLoadTimeCar, ferryLoadTimePax := [], [], [];
      ferryCarCost, ferryPaxCost, ferryFrequency := [], [], [];
    }

    /** One row of the ferry loop: the row goes onto all seven lists at the next
        index; its name is registered unless already taken, in which case the
        duplicate is reported and the first index kept. */
    method AddFerry(row: FerryRow) returns (index: int)
      requires FerriesValid()
      modifies this`ferryNames, this`ferryIdByName, this`ferryTransportTime, this`ferryLoadTimeCar,
               this`ferryLoadTimePax, this`ferryCarCost, this`ferryPaxCost, this`ferryFrequency, this`reports
      ensures FerriesValid()
      ensures FerryRows() == old(FerryRows()) + [row] && ferryNames == old(ferryNames) + [row.name]
      ensures index == old(|ferryNames|)
      ensures ferryIdByName == if row.name in old(ferryIdByName) then old(ferryIdByName)
                               else old(ferryIdByName)[row.name := index]
      ensures reports == old(reports) + DuplicateReport(old(ferryNames), row.name)
    {
      FirstIndexMapSpec(ferryNames, row.name);
      FirstIndexMapAppend(ferryNames, row.name);
      FerryTableAppend(ferryNames, ferryTransportTime, ferryLoadTimeCar, ferryLoadTimePax,
                       ferryCarCost, ferryPaxCost, ferryFrequency, row);
      ferryNames := ferryNames + [row.name];
      ferryTransportTime := ferryTransportTime + [row.transportTime];
      ferryLoadTimeCar := ferryLoadTimeCar + [row.loadTimeCar];
      ferryLoadTimePax := ferryLoadTimePax + [row.loadTimePax];
      ferryCarCost := ferryCarCost + [row.carCost];
      ferryPaxCost := ferryPaxCost + [row.paxCost];
      ferryFrequency := ferryFrequency + [row.frequency];
      index := |ferryNames| - 1;
      if row.name in ferryIdByName {
        reports := reports + [DuplicateFerry(row.name)];
      } else {
        ferryIdByName := ferryIdByName[row.name := index];
      }
    }

    /** Appends every row of one ferry file, duplicates included; earlier
        registrations are never overwritten. */
    method LoadFerries(rows: seq<FerryRow>)
      requires FerriesValid()
      modifies this`ferryNames, this`ferryIdByName, this`ferryTransportTime, this`ferryLoadTimeCar,
               this`ferryLoadTimePax, this`ferryCarCost, this`ferryPaxCost, this`ferryFrequency, this`reports
      ensures FerriesValid()
      ensures FerryRows() == old(FerryRows()) + rows
      ensures forall f :: f in old(ferryIdByName) ==> f in ferryIdByName && ferryIdByName[f] == old(ferryIdByName)[f]
      ensures reports == old(reports) + DuplicateFerryReports(ferryNames, old(|ferryNames|))
      ensures old(ferryNames) <= ferryNames
    {
      ghost var rows0, count0, ids0, reports0 := FerryRows(), |ferryNames|, ferryIdByName, reports;
      ghost var names0 := ferryNames;
      var i := 0;
      while i < |rows|
        invariant 0 <= i <= |rows|
        invariant names0 <= ferryNames
        invariant FerriesValid()
        invariant FerryRows() == rows0 + rows[..i]
        invariant count0 <= |ferryNames|
        invariant forall f :: f in ids0 ==> f in ferryIdByName && ferryIdByName[f] == ids0[f]
        invariant reports == reports0 + DuplicateFerryReports(ferryNames, count0)
      {
        LoadFerryRow(rows, i, rows0, count0, ids0, reports0);
        i := i + 1;
      }
      assert rows[..i] == rows;
    }

    /** One turn of the ferry loop: adds the row after the first i. */
    method LoadFerryRow(rows: seq<FerryRow>, i: nat, ghost rows0: seq<FerryRow>, ghost count0: nat,
                        ghost ids0: map<string, int>, ghost reports0: seq<Report>)
      requires i < |rows|
      requires FerriesValid() && FerryRows() == rows0 + rows[..i] && count0 <= |ferryNames|
      requires forall f :: f in ids0 ==> f in ferryIdByName && ferryIdByName[f] == ids0[f]
      requires reports == reports0 + DuplicateFerryReports(ferryNames, count0)
      modifies this`ferryNames, this`ferryIdByName, this`ferryTransportTime, this`ferryLoadTimeCar,
               this`ferryLoadTimePax, this`ferryCarCost, this`ferryPaxCost, this`ferryFrequency, this`reports
      ensures FerriesValid() && FerryRows() == rows0 + rows[..i + 1] && count0 <= |ferryNames|
      ensures forall f :: f in ids0 ==> f in ferryIdByName && ferryIdByName[f] == ids0[f]
      ensures reports == reports0 + DuplicateFerryReports(ferryNames, count0)
      ensures old(ferryNames) <= ferryNames
    {
      DuplicateFerryReportsAppend(ferryNames, count0, rows[i].name);
      assert rows0 + rows[..i + 1] == (rows0 + rows[..i]) + [rows[i]];
      var _ := AddFerry(rows[i]);
    }

    /** Loads every ferry file in turn into fresh ferry lists. */
    method LoadAllFerries(files: seq<seq<FerryRow>>)
      modifies this`ferryNames, this`ferryIdByName, this`ferryTransportTime, this`ferryLoadTimeCar,
               this`ferryLoadTimePax, this`ferryCarCost, this`ferryPaxCost, this`ferryFrequency, this`reports
      ensures FerriesValid() && FerryRows() == Concat(files)
      ensures reports == old(reports) + DuplicateFerryReports(ferryNames, 0)
    {
      ghost var reports0 := reports;
      CreateFerryVariables();
      var i := 0;
      while i < |files|
        invariant 0 <= i <= |files|
        invariant FerriesValid() && FerryRows() == Concat(files[..i])
        invariant reports == reports0 + DuplicateFerryReports(ferryNames, 0)
      {
        LoadNextFerries(files, i, reports0);
        i := i + 1;
      }
      assert files[..i] == files;
    }

    /** One file of the ferry-file loop. */
    method LoadNextFerries(files: seq<seq<FerryRow>>, i: int, ghost reports0: seq<Report>)
      requires 0 <= i < |files|
      requires FerriesValid() && FerryRows() == Concat(files[..i])
      requires reports == reports0 + DuplicateFerryReports(ferryNames, 0)
      modifies this`ferryNames, this`ferryIdByName, this`ferryTransportTime, this`ferryLoadTimeCar,
               this`ferryLoadTimePax, this`ferryCarCost, this`ferryPaxCost, this`ferryFrequency, this`reports
      ensures FerriesValid() && FerryRows() == Concat(files[..i + 1])
      ensures reports == reports0 + DuplicateFerryReports(ferryNames, 0)
    {
      ConcatAppend(files[..i], files[i]);
      assert files[..i + 1] == files[..i] + [files[i]];
      ghost var names := ferryNames;
      LoadFerries(files[i]);
      DuplicateFerryReportsSplit(ferryNames, |names|);
      assert ferryNames[..|names|] == names;
      AppendAssoc(reports0, DuplicateFerryReports(names, 0), DuplicateFerryReports(ferryNames, |names|));
    }

    // ------------------------------------------------------------ roads


    method CreateRoadVariables()
      modifies this`roads, this`roadDistance, this`roadSpeed, this`roadTime, this`roadHasFerry, this`roadFerryIndex
      ensures roads == NoRoads && Columns() == NoColumns
    {
      roads := NoRoads;
      roadDistance, roadSpeed, roadTime, roadHasFerry, roadFerryIndex := [], [], [], [], [];
    }

    /** Checks one road's endpoints: both must be known airports and they must
        differ, each failed check being reported with the sheet row (the row
        index plus two). A valid road is committed as the next road under its
        airports' indices; an invalid one leaves the road table as it was. */
    method CheckRoadNodesValid(startName: AirportKey, endName: AirportKey, row: int) returns (valid: bool)
      modifies this`roads, this`reports
      ensures valid <==> EndpointsValid(airportNameIndices, startName, endName)
      ensures reports == old(reports) + NodeReports(airportNameIndices, startName, endName, row)
      ensures roads == if valid then old(roads).Add(startName, endName, airportNameIndices[startName], airportNameIndices[endName])
                       else old(roads)
    {
      valid := true;
      if startName !in airportNameIndices {
        reports := reports + [UnknownAirport(AirportNameToStr(startName), row + 2)];
        valid := false;
      }
      if endName !in airportNameIndices {
        reports := reports + [UnknownAirport(AirportNameToStr(endName), row + 2)];
        valid := false;
      }
      if startName == endName {
        reports := reports + [SameNodes(AirportNameToStr(startName), AirportNameToStr(endName), row + 2)];
        valid := false;
      }
      if valid {
        var nodeStartIndex := airportNameIndices[startName];
        var nodeEndIndex := airportNameIndices[endName];
        roads := roads.Add(startName, endName, nodeStartIndex, nodeEndIndex);
      }
    }

    /** Checks and commits every row of one road file; the result says whether
        every row passed. Rows that pass are committed even when others fail. */
    method GetRoadNames(rows: seq<RoadRow>) returns (allNodesValid: bool)
      modifies this`roads, this`reports
      ensures allNodesValid <==> AllEndpointsValid(rows, airportNameIndices)
      ensures roads == CommitRows(old(roads), rows, airportNameIndices)
      ensures reports == old(reports) + EndpointReports(rows, airportNameIndices)
    {
      ghost var roads0, reports0 := roads, reports;
      allNodesValid := true;
      var i := 0;
      while i < |rows|
        invariant 0 <= i <= |rows|
        invariant allNodesValid <==> AllEndpointsValid(rows[..i], airportNameIndices)
        invariant roads == CommitRows(roads0, rows[..i], airportNameIndices)
        invariant reports == reports0 + EndpointReports(rows[..i], airportNameIndices)
      {
        var nodesValid := CheckNextRoad(rows, i, roads0, reports0);
        allNodesValid := allNodesValid && nodesValid;
        i := i + 1;
      }
      assert rows[..i] == rows;
    }

    /** One turn of the endpoint loop: checks the row after the first i. */
    method CheckNextRoad(rows: seq<RoadRow>, i: nat, ghost roads0: RoadTable, ghost reports0: seq<Report>)
      returns (nodesValid: bool)
      requires i < |rows|
      requires roads == CommitRows(roads0, rows[..i], airportNameIndices)
      requires reports == reports0 + EndpointReports(rows[..i], airportNameIndices)
      modifies this`roads, this`reports
      ensures nodesValid <==> EndpointsValid(airportNameIndices, rows[i].start, rows[i].end)
      ensures AllEndpointsValid(rows[..i + 1], airportNameIndices)
          <==> AllEndpointsValid(rows[..i], airportNameIndices) && nodesValid
      ensures roads == CommitRows(roads0, rows[..i + 1], airportNameIndices)
      ensures reports == reports0 + EndpointReports(rows[..i + 1], airportNameIndices)
    {
      EndpointsStep(rows, airportNameIndices, i);
      CommitRowsStep(roads0, rows, airportNameIndices, i);
      AppendAssoc(reports0, EndpointReports(rows[..i], airportNameIndices),
                  NodeReports(airportNameIndices, rows[i].start, rows[i].end, i));
      nodesValid := CheckRoadNodesValid(rows[i].start, rows[i].end, i);
    }

    /** One row of the ferry loop: records whether the road has a ferry and, if
        it has, the index of each ferry its "Ferries" cell names, -1 (and a
        report) for an unknown one; a road without a ferry gets the single
        placeholder -1. The result says whether every named ferry is known. */
    method LinkRoad(row: RoadRow) returns (known: bool)
      modifies this`roadHasFerry, this`roadFerryIndex, this`reports
      ensures known <==> RowFerriesKnown(row, ferryIdByName)
      ensures roadHasFerry == old(roadHasFerry) + [HasFerry(row.hasFerry)]
      ensures roadFerryIndex == old(roadFerryIndex) + [FerryLink(row, ferryIdByName)]
      ensures reports == old(reports)
                         + if HasFerry(row.hasFerry) then UnknownFerryReports(SplitComma(row.ferries), ferryIdByName) else []
    {
      var hasFerry := Lower(row.hasFerry) == "yes";
      roadHasFerry := roadHasFerry + [hasFerry];
      known := true;
      if !hasFerry {
        roadFerryIndex := roadFerryIndex + [[-1]];
      } else {
        var ferryIndices;
        ferryIndices, known := LookUpFerries(SplitComma(row.ferries));
        roadFerryIndex := roadFerryIndex + [ferryIndices];
      }
    }

    /** The inner loop of the ferry linking: looks up each name, recording -1
        and reporting the name when it is not registered. */
    method LookUpFerries(names: seq<string>) returns (indices: seq<int>, known: bool)
      modifies this`reports
      ensures indices == FerryIndices(names, ferryIdByName)
      ensures known <==> forall m :: 0 <= m < |names| ==> names[m] in ferryIdByName
      ensures reports == old(reports) + UnknownFerryReports(names, ferryIdByName)
    {
      ghost var reports0 := reports;
      indices, known := [], true;
      var j := 0;
      while j < |names|
        invariant 0 <= j <= |names|
        invariant indices == FerryIndices(names[..j], ferryIdByName)
        invariant reports == reports0 + UnknownFerryReports(names[..j], ferryIdByName)
        invariant known <==> forall m :: 0 <= m < j ==> names[m] in ferryIdByName
      {
        FerryNamesStep(names, ferryIdByName, j);
        var name := names[j];
        if name in ferryIdByName {
          indices := indices + [ferryIdByName[name]];
        } else {
          AppendAssoc(reports0, UnknownFerryReports(names[..j], ferryIdByName), [UnknownFerry(name)]);
          reports := reports + [UnknownFerry(name)];
          indices := indices + [-1];
          known := false;
        }
        j := j + 1;
      }
      assert names[..j] == names;
    }

    /** Links every row of one road file with its ferries; the result says
        whether every named ferry is known. */
    method LinkRoadsWithFerries(rows: seq<RoadRow>) returns (allFerriesValid: bool)
      modifies this`roadHasFerry, this`roadFerryIndex, this`reports
      ensures allFerriesValid <==> AllFerriesKnown(rows, ferryIdByName)
      ensures roadHasFerry == old(roadHasFerry) + FerryFlags(rows)
      ensures roadFerryIndex == old(roadFerryIndex) + FerryLinks(rows, ferryIdByName)
      ensures reports == old(reports) + LinkReports(rows, ferryIdByName)
    {
      ghost var flags0, links0, reports0 := roadHasFerry, roadFerryIndex, reports;
      allFerriesValid := true;
      var i := 0;
      while i < |rows|
        invariant 0 <= i <= |rows|
        invariant allFerriesValid <==> AllFerriesKnown(rows[..i], ferryIdByName)
        invariant roadHasFerry == flags0 + FerryFlags(rows[..i])
        invariant roadFerryIndex == links0 + FerryLinks(rows[..i], ferryIdByName)
        invariant reports == reports0 + LinkReports(rows[..i], ferryIdByName)
      {
        var known := LinkNextRoad(rows, i, flags0, links0, reports0);
        allFerriesValid := allFerriesValid && known;
        i := i + 1;
      }
      assert rows[..i] == rows;
    }

    /** One turn of the linking loop: links the row after the first i. */
    method LinkNextRoad(rows: seq<RoadRow>, i: nat, ghost flags0: seq<bool>, ghost links0: seq<seq<int>>,
                        ghost reports0: seq<Report>) returns (known: bool)
      requires i < |rows|
      requires roadHasFerry == flags0 + FerryFlags(rows[..i])
      requires roadFerryIndex == links0 + FerryLinks(rows[..i], ferryIdByName)
      requires reports == reports0 + LinkReports(rows[..i], ferryIdByName)
      modifies this`roadHasFerry, this`roadFerryIndex, this`reports
      ensures known <==> RowFerriesKnown(rows[i], ferryIdByName)
      ensures AllFerriesKnown(rows[..i + 1], ferryIdByName)
          <==> AllFerriesKnown(rows[..i], ferryIdByName) && RowFerriesKnown(rows[i], ferryIdByName)
      ensures roadHasFerry == flags0 + FerryFlags(rows[..i + 1])
      ensures roadFerryIndex == links0 + FerryLinks(rows[..i + 1], ferryIdByName)
      ensures reports == reports0 + LinkReports(rows[..i + 1], ferryIdByName)
    {
      LinkStep(rows, ferryIdByName, i);
      AppendAssoc(flags0, FerryFlags(rows[..i]), [HasFerry(rows[i].hasFerry)]);
      AppendAssoc(links0, FerryLinks(rows[..i], ferryIdByName), [FerryLink(rows[i], ferryIdByName)]);
      AppendAssoc(reports0, LinkReports(rows[..i], ferryIdByName),
                  if HasFerry(rows[i].hasFerry) then UnknownFerryReports(SplitComma(rows[i].ferries), ferryIdByName) else []);
      known := LinkRoad(rows[i]);
    }

    /** Appends each row's distance, speed and travel time (distance over
        speed). A zero speed makes the division raise: the loop stops there,
        with the rows before it appended, and the result is false. */
    method GetRoadStatistics(rows: seq<RoadRow>) returns (ok: bool)
      modifies this`roadDistance, this`roadSpeed, this`roadTime
      ensures var k := SpeedPrefix(rows);
              (ok <==> k == |rows|) &&
              roadDistance == old(roadDistance) + Distances(rows[..k]) &&
              roadSpeed == old(roadSpeed) + Speeds(rows[..k]) &&
              roadTime == old(roadTime) + Times(rows[..k])
    {
      ghost var distance0, speed0, time0 := roadDistance, roadSpeed, roadTime;
      var i := 0;
      while i < |rows|
        invariant 0 <= i <= |rows|
        invariant forall j :: 0 <= j < i ==> rows[j].speed != 0.0
        invariant roadDistance == distance0 + Distances(rows[..i])
        invariant roadSpeed == speed0 + Speeds(rows[..i])
        invariant roadTime == time0 + Times(rows[..i])
      {
        if rows[i].speed == 0.0 {
          ok := false;
          return;
        }
        var roadTimeHours := rows[i].distance / rows[i].speed;
        StatisticsStep(rows, i);
        AppendAssoc(distance0, Distances(rows[..i]), [rows[i].distance]);
        AppendAssoc(speed0, Speeds(rows[..i]), [rows[i].speed]);
        AppendAssoc(time0, Times(rows[..i]), [roadTimeHours]);
        roadDistance := roadDistance + [rows[i].distance];
        roadSpeed := roadSpeed + [rows[i].speed];
        roadTime := roadTime + [roadTimeHours];
        i := i + 1;
      }
      ok := true;
    }

    /** Loads one road file: checks and commits every row's endpoints and, if
        some row failed, reports it and stops (the passing rows stay committed);
        otherwise links the ferries and loads the statistics. The result is
        false only when the statistics raise. */
    method LoadRoads(rows: seq<RoadRow>) returns (ok: bool)
      modifies this`roads, this`roadDistance, this`roadSpeed, this`roadTime, this`roadHasFerry, this`roadFerryIndex,
               this`reports
      ensures roads == CommitRows(old(roads), rows, airportNameIndices)
      ensures Columns() == LoadColumns(old(Columns()), rows, airportNameIndices, ferryIdByName)
      ensures ok <==> !StatisticsRaise(rows, airportNameIndices, ferryIdByName)
      ensures reports == old(reports) + LoadReports(rows, airportNameIndices, ferryIdByName)
    {
      ghost var reports0 := reports;
      var allNodesValid := GetRoadNames(rows);
      ghost var endpointReports := EndpointReports(rows, airportNameIndices);
      if !allNodesValid {
        AppendAssoc(reports0, endpointReports, [InvalidRoadNodes]);
        reports := reports + [InvalidRoadNodes];
        ok := true;
        return;
      }
      AppendAssoc(reports0, endpointReports, CheckedReports(rows, ferryIdByName));
      ok := LoadCheckedRoads(rows);
    }

    /** The rest of loading a file whose endpoints all passed: links every row
        with its ferries and, if some ferry is unknown, reports it and stops;
        otherwise appends the statistics. */
    method LoadCheckedRoads(rows: seq<RoadRow>) returns (ok: bool)
      requires AllEndpointsValid(rows, airportNameIndices)
      modifies this`roadDistance, this`roadSpeed, this`roadTime, this`roadHasFerry, this`roadFerryIndex, this`reports
      ensures Columns() == LoadColumns(old(Columns()), rows, airportNameIndices, ferryIdByName)
      ensures ok <==> !StatisticsRaise(rows, airportNameIndices, ferryIdByName)
      ensures reports == old(reports) + CheckedReports(rows, ferryIdByName)
    {
      ghost var reports0 := reports;
      var ferriesValid := LinkRoadsWithFerries(rows);
      ghost var linkReports := LinkReports(rows, ferryIdByName);
      if !ferriesValid {
        AppendAssoc(reports0, linkReports, [InvalidRoadFerries]);
        reports := reports + [InvalidRoadFerries];
        ok := true;
        return;
      }
      assert linkReports + [] == linkReports;
      ok := GetRoadStatistics(rows);
    }

    /** Loads every road file in turn into fresh road lists, against the
        airports and ferries already loaded. A zero speed raises out of the
        file's statistics and ends the loading after that file; the result
        says whether none did. */
    method LoadAllRoads(files: seq<seq<RoadRow>>) returns (ok: bool)
      modifies this`roads, this`roadDistance, this`roadSpeed, this`roadTime, this`roadHasFerry, this`roadFerryIndex,
               this`reports
      ensures ok <==> FirstRaise(files, airportNameIndices, ferryIdByName) == |files|
      ensures var loaded := LoadedFiles(files, airportNameIndices, ferryIdByName);
              roads == CommitFiles(NoRoads, loaded, airportNameIndices) &&
              Columns() == FilesColumns(NoColumns, loaded, airportNameIndices, ferryIdByName) &&
              reports == old(reports) + FilesReports(loaded, airportNameIndices, ferryIdByName)
    {
      ghost var reports0 := reports;
      CreateRoadVariables();
      var i := 0;
      while i < |files|
        invariant 0 <= i <= |files|
        invariant i <= FirstRaise(files, airportNameIndices, ferryIdByName)
        invariant roads == CommitFiles(NoRoads, files[..i], airportNameIndices)
        invariant Columns() == FilesColumns(NoColumns, files[..i], airportNameIndices, ferryIdByName)
        invariant reports == reports0 + FilesReports(files[..i], airportNameIndices, ferryIdByName)
      {
        ok := LoadNextRoads(files, i, reports0);
        if !ok {
          FirstRaiseAt(files, airportNameIndices, ferryIdByName, i);
          return;
        }
        i := i + 1;
      }
      assert files[..i] == files;
      FirstRaiseAt(files, airportNameIndices, ferryIdByName, i);
      ok := true;
    }

    /** One turn of the file loop: loads the file after the first i. */
    method LoadNextRoads(files: seq<seq<RoadRow>>, i: nat, ghost reports0: seq<Report>) returns (ok: bool)
      requires i < |files|
      requires roads == CommitFiles(NoRoads, files[..i], airportNameIndices)
      requires Columns() == FilesColumns(NoColumns, files[..i], airportNameIndices, ferryIdByName)
      requires reports == reports0 + FilesReports(files[..i], airportNameIndices, ferryIdByName)
      modifies this`roads, this`roadDistance, this`roadSpeed, this`roadTime, this`roadHasFerry, this`roadFerryIndex,
               this`reports
      ensures roads == CommitFiles(NoRoads, files[..i + 1], airportNameIndices)
      ensures Columns() == FilesColumns(NoColumns, files[..i + 1], airportNameIndices, ferryIdByName)
      ensures reports == reports0 + FilesReports(files[..i + 1], airportNameIndices, ferryIdByName)
      ensures ok <==> !StatisticsRaise(files[i], airportNameIndices, ferryIdByName)
    {
      CommitFilesStep(NoRoads, files, airportNameIndices, i);
      FilesColumnsStep(NoColumns, files, airportNameIndices, ferryIdByName, i);
      FilesReportsStep(files, airportNameIndices, ferryIdByName, i);
      AppendAssoc(reports0, FilesReports(files[..i], airportNameIndices, ferryIdByName),
                  LoadReports(files[i], airportNameIndices, ferryIdByName));
      ok := LoadRoads(files[i]);
    }

    /** Loads the airports, then the ferries, then the roads: every road is
        checked against the airports of every airport file and linked against
        every ferry. The result is false when the road statistics raise. */
    method SetupNetwork(airportFiles: seq<seq<AirportKey>>, ferryFiles: seq<seq<FerryRow>>,
                        roadFiles: seq<seq<RoadRow>>) returns (ok: bool)
      modifies this
      ensures airportNameIndices == LastIndexMap(Concat(airportFiles))
      ensures ferryIdByName == FirstIndexMap(FerryNames(Concat(ferryFiles)))
      ensures ok <==> FirstRaise(roadFiles, airportNameIndices, ferryIdByName) == |roadFiles|
      ensures var loaded := LoadedFiles(roadFiles, airportNameIndices, ferryIdByName);
              roads == CommitFiles(NoRoads, loaded, airportNameIndices) &&
              Columns() == FilesColumns(NoColumns, loaded, airportNameIndices, ferryIdByName)
    {
      LoadAllAirports(airportFiles);
      LoadAllFerries(ferryFiles);
      ghost var airports, ferries := airportNameIndices, ferryIdByName;
      assert airports == LastIndexMap(Concat(airportFiles));
      assert ferryNames == FerryNames(FerryRows());
      ok := LoadAllRoads(roadFiles);
      assert airportNameIndices == airports && ferryIdByName == ferries;
    }
  }
}
