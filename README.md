# Transport-network registry of the air-travel simulator

This project models the registry that the simulator's `Network` class builds
before a simulation runs. It proves properties of that model in Dafny.

- **Airports.** Airports come from airport files. Each airport is a composite
  key (name, state, country). Keys go into four parallel lists, and a
  dictionary maps each key to the index of its latest row.
- **Ferries.** Ferries come from ferry files and go into seven parallel lists.
  A name dictionary keeps the index of the first row with that name. A repeated
  name is reported and does not replace the first index.
- **Roads.** Roads come from road files, one file at a time, in three stages:
  1. Every row's endpoints are checked: both airports must be known and must
     differ. A passing row is committed at once as the next road. A commit
     appends to six lists and updates four index dictionaries. It also updates
     two adjacency maps, one keyed by airport index and one by airport key. If
     any row fails, the file stops here. Rows that passed stay committed.
  2. Each row is linked with its ferries. A row has a ferry only when its
     "Has Ferry" cell lowercases to `yes`. Its "Ferries" cell is split at
     commas, and each name is looked up exactly, with no trimming. An unknown
     name gets -1. If any name is unknown, the file stops here.
  3. Each row's distance, speed and travel time are appended. A zero speed
     makes the division raise, which ends the loading.

Each failed check adds a report to the log, in the order the code emits them.

The report messages render airports with the airport-name formatter of
`simulation.py`, which is modelled with its road-name companion; nothing in
the registry calls the road-name formatter.

A road file with one bad endpoint still commits its other rows: the rows that
pass before and after the bad one are committed and are never rolled back. Their roads then get no ferry or statistics entries, so the
per-road lists fall out of step with the road lists (`PerRoad.PartialFileMisaligns`).

Layout:

- `text.dfy` (`Text`): Python's `s.split(',')` and ASCII `lower()`.
- `naming.dfy` (`Naming`): the key types and the two formatters of `simulation.py`.
- `index_maps.dfy` (`IndexMaps`): dictionaries built by `d[k] = i` (last index
  wins) or guarded by `if k in d` (first index wins).
- `road_graph.dfy` (`RoadGraph`): the adjacency maps as a function of the road
  endpoint lists.
- `rows.dfy` (`Rows`): rows, reports, and what one file does, as functions of its rows.
- `road_table.dfy` (`RoadTables`): the twelve road lists and dictionaries as one
  value, committing roads, and the lookups.
- `road_columns.dfy` (`PerRoad`): the per-road ferry and statistics columns.
- `network.dfy` (`TransportNetwork`): the `Network` class. Its fields are the
  registry's lists and dictionaries, and its methods are the loaders, each
  proved against the functions above.

## Model

| member | source | states |
|---|---|---|
| Naming.AirportNameToStr | simulation.py:25-27 | the string is name, comma, state, comma, country: its length is the three lengths plus 2 and each piece sits at its offset |
| Naming.RoadNameToStr | simulation.py:30-34 | the string is the start airport's string, then " to ", then the end airport's string, with length the sum of the parts |
| Naming.AirportNameRoundTrip | simulation.py:25-27 | for comma-free components, splitting the airport string at commas gives back exactly the three components |
| Naming.AirportNameInjective | simulation.py:25-27 | two comma-free keys with the same airport string are the same key |
| Naming.RoadNameOf | network.py:296-297 | the road name's first three strings are the start key and its last three the end key |
| Text.SplitComma | network.py:339 | `split(',')` never returns an empty list |
| Text.JoinSplit | network.py:339 | joining the pieces of a split with commas gives back the original string |
| Text.SplitPiecesCommaFree | network.py:339 | no piece of a split contains a comma |
| Text.SplitJoin | network.py:339 | splitting comma-free pieces joined with commas gives back the pieces |
| Text.SplitAtComma | network.py:339 | splitting at a comma splits the two sides independently |
| Text.Lower | network.py:333 | lowercasing keeps the length and maps each character by itself |
| IndexMaps.LastIndexMap | network.py:127-128 | the airport dictionary: every entry points at a row holding its key |
| IndexMaps.LastIndexMapAppend | network.py:127-128 | registering one more key sets its entry to the previous count and changes no other entry |
| IndexMaps.LastIndexMapSpec | network.py:123-128 | a key is in the dictionary iff it was listed, and then maps to its last position |
| IndexMaps.LastIndexMapOverwrites | network.py:128 | a repeated key maps to the later row or a still later one |
| IndexMaps.LastIndexMapInjective | network.py:127-128 | no two keys share an index |
| IndexMaps.LastIndexMapParallel | network.py:308-311 | two lists whose entries match position by position give dictionaries with the same index for matching keys |
| IndexMaps.FirstIndexMap | network.py:212-216 | the ferry-name dictionary: every entry points at a row holding its name |
| IndexMaps.FirstIndexMapAppend | network.py:210-216 | one more name adds the entry with the new index only if the name is new; otherwise the dictionary is unchanged |
| IndexMaps.FirstIndexMapSpec | network.py:210-216 | a name is in the dictionary iff it was listed, and then maps to its first position |
| IndexMaps.FirstIndexMapKeeps | network.py:211-216 | a duplicate name keeps the earlier row's index |
| RoadGraph.Pairs | network.py:298-299 | the index pairs are (start, end) position by position, one per road |
| RoadGraph.AppendAtSpec | network.py:314-324 | adding a link at a node creates the node's entry if missing, keeps its earlier links, puts the new link last, and changes no other entry |
| RoadGraph.Adjacency | network.py:314-324 | the adjacency map built road by road, appending at the start's entry and then at the end's; characterised by `AdjacencyLinks`, `AdjacencyNodes` and `AdjacencyEntryRoads` |
| RoadGraph.AdjacencyAppend | network.py:314-324 | a road appends (end, r) at its start's entry and then (start, r) at its end's entry, creating an entry if missing; no other entry changes |
| RoadGraph.AdjacencyLinks | network.py:314-324 | a node's entry holds (n, r) iff road r joins it to n in either direction |
| RoadGraph.AdjacencyNodes | network.py:314-322 | a node has an entry iff some road ends at it |
| RoadGraph.AdjacencySymmetric | network.py:317-323 | by index, if b lists a via road r then a lists b via r |
| RoadGraph.AdjacencyEntryRoads | network.py:314-324 | every entry names an existing road, and each node's links are in road order |
| RoadGraph.ParallelRoads | network.py:308-324 | a second road between the same pair is listed at both ends alongside the first, while the pair dictionary moves to the later road |
| Rows.DuplicateReport | network.py:211-214 | registering a name gives a report iff the name is already taken, and never more than one |
| Rows.DuplicateFerryReports | network.py:211-214 | a file of ferry rows gives at most one duplicate report per row |
| Rows.DuplicateFerryReportsSplit | network.py:174-178 | the duplicate reports of all names are those of the names up to any point followed by those after it, so loading files one by one reports as loading them at once |
| Rows.NoDuplicatesNoReports | network.py:211-216 | ferry names that are new and distinct give no report |
| Rows.NodeReports | network.py:279-288 | a row gives no report iff both airports are known and differ; it gives at most three, each an endpoint report naming the row's spreadsheet row |
| Rows.EndpointReports | network.py:263-288 | the endpoint reports of a file, row by row in file order; characterised by `EndpointReportsRows` and `AcceptedAllIff` |
| Rows.EndpointReportsRows | network.py:279-288 | a file gives at most three endpoint reports per row, each naming a spreadsheet row of the file |
| Rows.Accepted | network.py:263-274 | a file commits at most as many roads as it has rows, each with known and distinct endpoints |
| Rows.AcceptedMembers | network.py:263-274 | a row is committed iff it is one of the file's rows and its endpoints pass: none is invented, none that passes is dropped |
| Rows.AcceptedAppend | network.py:263-274 | committing the rows of two files joined is committing each file's passing rows, the first file's before the second's, each in file order |
| Rows.AcceptedAllIff | network.py:260-275 | a file commits every row iff every row passes, iff it reports nothing about endpoints |
| Rows.HasFerry | network.py:333 | the ferry flag: the cell lowercases to "yes"; characterised by `HasFerrySpellings` |
| Rows.HasFerrySpellings | network.py:332-333 | the ferry flag is set exactly for the eight upper/lower-case spellings of "yes" |
| Rows.FerryIndices | network.py:340-348 | one index per ferry name, in order: the registered index, or -1 when the name is unknown |
| Rows.UnknownFerryReports | network.py:341-348 | there is no report iff every name is registered |
| Rows.UnknownFerryReportsNames | network.py:341-348 | at most one report per name, each naming an unregistered ferry |
| Rows.FerryLink | network.py:333-350 | a row with a ferry records one index per listed name and a row without one records [-1]; every recorded index is -1 or a registered ferry's index |
| Rows.FerryLinkUnknownIff | network.py:335-350 | a row with a ferry has all its ferries known iff -1 is absent from its indices, with one index per name; a row without a ferry records [-1] |
| Rows.FerryFlags | network.py:334 | one flag per row, set iff the row's cell lowercases to "yes" |
| Rows.FerryLinks | network.py:335-350 | one index list per row, in row order |
| Rows.LinkReports | network.py:331-350 | the unknown-ferry reports of a file, row by row; rows without a ferry add none; characterised by `LinkReportsIff` and `LinkReportsNames` |
| Rows.LinkReportsIff | network.py:328-352 | linking a file reports nothing iff every ferry it names is known |
| Rows.LinkReportsNames | network.py:328-350 | every report of the linking stage names an unregistered ferry |
| Rows.Distances | network.py:358 | one distance per row, in order |
| Rows.Speeds | network.py:359 | one speed per row, in order |
| Rows.Times | network.py:360 | each travel time is that row's distance divided by its speed |
| Rows.SpeedPrefix | network.py:357-360 | the statistics loop gets through exactly the rows before the first zero speed |
| Rows.LoadReports | network.py:245-257 | a file's reports start with its endpoint reports |
| Rows.LoadStops | network.py:247-255 | a file's reports contain the endpoint stop iff an endpoint fails, and the ferry stop iff every endpoint passes and some ferry is unknown |
| Rows.LoadQuiet | network.py:245-257 | loading a file reports nothing iff all endpoints pass and all ferries are known |
| Rows.FirstRaise | network.py:219-223 | no file before the returned position raises, and the file at it does |
| Rows.LoadedFiles | network.py:219-223 | the files loaded are a prefix; none but the last raises, and a proper prefix ends with the raising file |
| Rows.FirstRaiseAt | network.py:219-223 | a run of non-raising files ending at a raising file, or at the end, fixes the prefix that gets loaded |
| RoadTables.AirportIndicesInjective | network.py:123-128 | the airport dictionary never maps two keys to one index |
| RoadTables.RoadTable.Add | network.py:293-324 | the table after one committed road: the six lists grow by the road, the four dictionaries point its keys at the new index, and both adjacency maps list it at both ends; validity kept by `AddValid` |
| RoadTables.AddValid | network.py:293-324 | committing a road between distinct known airports uses two different indices and keeps every list and dictionary of the table in step |
| RoadTables.CommitRows | network.py:260-275 | the table after the endpoint loop over one file; characterised by `CommitRowsNames`, `CommitRowsCount` and `CommitRowsValid` |
| RoadTables.CommitLast | network.py:263-274 | the last row of a file is committed iff its endpoints pass |
| RoadTables.CommitRowsNames | network.py:263-275 | a file appends exactly its passing rows' endpoints, in file order |
| RoadTables.CommitRowsCount | network.py:260-275 | a file whose rows all pass adds one road per row |
| RoadTables.CommitRowsValid | network.py:260-325 | committing a file keeps a valid table valid |
| RoadTables.NoRoadsValid | network.py:226-243 | the freshly created table is valid |
| RoadTables.CommitFiles | network.py:219-223 | the table after the endpoint loops of several files, file after file; characterised by `CommitFilesNames` and `CommitFilesValid` |
| RoadTables.CommitFilesNames | network.py:219-223 | several files append exactly their passing rows' endpoints, file after file |
| RoadTables.CommitFilesValid | network.py:219-223 | committing several files keeps a valid table valid |
| RoadTables.RoadLinks | network.py:314-324 | airport a's key entry holds (n, r) iff road r has a at one end and the airport with index n at the other |
| RoadTables.RoadLinksSymmetric | network.py:317-323 | by index, node i lists (n, r) iff node n lists (i, r) |
| RoadTables.NoSelfLoops | network.py:286-288 | no road's start index equals its end index |
| RoadTables.PairLookup | network.py:298-308 | (si, ei) is a key iff some road runs from index si to ei, and then it maps to the last such road |
| RoadTables.PairReverse | network.py:298-309 | the end-start dictionary holds under (ei, si) the same road as the start-end dictionary under (si, ei) |
| RoadTables.NameLookup | network.py:296-310 | the name s to e is a key iff some road runs from s to e, and then it maps to the last such road |
| RoadTables.NameReverse | network.py:296-311 | the reverse-name dictionary holds under e to s the same road as the forward one under s to e |
| RoadTables.AdjacencyKeyView | network.py:314-324 | given injective airport indices, a node's key entry is its index entry |
| RoadTables.RoadKeyView | network.py:314-324 | in a valid table, airport a's entry in the key map equals its index's entry in the index map |
| PerRoad.LoadColumns | network.py:245-257 | a file keeps the per-road columns parallel; it adds one ferry entry per row iff every endpoint passes, and statistics for every row iff it is clean and no speed is zero; when a zero speed raises, it adds statistics for exactly the rows before it |
| PerRoad.FilesColumns | network.py:219-223 | loading several files keeps the per-road columns parallel |
| PerRoad.FilesAligned | network.py:245-257 | when every file is clean and none raises, each road has exactly one ferry entry and one statistics entry |
| PerRoad.PartialFileMisaligns | network.py:247-250 | a file with a failing and a passing row leaves more roads than ferry entries |
| TransportNetwork.FerryTableAppend | network.py:203-209 | appending one value to each of the seven ferry lists appends that row |
| TransportNetwork.Network.CreateAirportVariables | network.py:76-85 | the airport lists and dictionary are empty and consistent |
| TransportNetwork.Network.GetAirportNames | network.py:116-128 | keeps the airport lists parallel with the dictionary at each key's last row; the keys are the old ones plus the file's; each file key points at a new row; other keys keep their index |
| TransportNetwork.Network.AddNextAirport | network.py:119-128 | one row appends its key to the lists and points the dictionary at the new index, keeping the loop invariant |
| TransportNetwork.Network.GetAirportIndex | network.py:140-149 | found iff the key is registered; then the index is the dictionary's, names the key's last row, and no state changes; otherwise -1 |
| TransportNetwork.Network.LoadAllAirports | network.py:27-31 | the airport keys are all files' rows in order, with consistent lists and dictionary |
| TransportNetwork.Network.CreateFerryVariables | network.py:181-189 | the seven ferry lists and the dictionary are empty and consistent |
| TransportNetwork.Network.AddFerry | network.py:196-216 | every row, duplicates included, appends to all seven lists at index old count; the dictionary gains the name at that index only if the name is new, else a duplicate is reported |
| TransportNetwork.Network.LoadFerries | network.py:192-216 | the ferry rows grow by the file's rows; earlier dictionary entries are never overwritten; one report per repeated name |
| TransportNetwork.Network.LoadFerryRow | network.py:195-216 | one row of the ferry loop keeps the loop invariant |
| TransportNetwork.Network.LoadAllFerries | network.py:174-178 | the ferry rows are all files' rows in order, with the dictionary at each name's first row; the log gains one duplicate report per repeated name, in row order across all files |
| TransportNetwork.Network.LoadNextFerries | network.py:176-178 | one file of the ferry-file loop keeps the loop invariant, the report log included |
| TransportNetwork.Network.CreateRoadVariables | network.py:226-243 | the road table and the per-road columns are empty |
| TransportNetwork.Network.CheckRoadNodesValid | network.py:278-325 | valid iff both keys are known and differ; reports each failed check with the sheet row; commits the road under its airports' indices iff valid, else leaves the table unchanged |
| TransportNetwork.Network.GetRoadNames | network.py:260-275 | true iff every row passes; the table is the old one with the passing rows committed in order; the reports are the rows' reports in order |
| TransportNetwork.Network.CheckNextRoad | network.py:263-274 | one row of the endpoint loop keeps the loop invariant |
| TransportNetwork.Network.LinkRoad | network.py:332-350 | a row appends its flag and its ferry indices (or [-1]); true iff all its ferries are known; reports each unknown name |
| TransportNetwork.Network.LookUpFerries | network.py:339-348 | the indices of the names in order, -1 for unknown ones; true iff all are known; one report per unknown name |
| TransportNetwork.Network.LinkRoadsWithFerries | network.py:328-352 | appends one flag and one index list per row; true iff every named ferry is known |
| TransportNetwork.Network.LinkNextRoad | network.py:331-350 | one row of the linking loop keeps the loop invariant |
| TransportNetwork.Network.GetRoadStatistics | network.py:355-363 | appends distance, speed and distance/speed for the rows before the first zero speed; true iff no speed is zero |
| TransportNetwork.Network.LoadRoads | network.py:245-257 | commits the passing rows, appends the per-road columns the stages reach, logs the file's reports, and returns false iff the statistics raise |
| TransportNetwork.Network.LoadCheckedRoads | network.py:251-257 | after all endpoints pass: links the ferries, and only when all are known loads the statistics |
| TransportNetwork.Network.LoadAllRoads | network.py:219-223 | from fresh road variables, the state is that of loading the files up to the first that raises; true iff none raises |
| TransportNetwork.Network.LoadNextRoads | network.py:222-223 | one file of the road loop keeps the loop invariant |
| TransportNetwork.Network.SetupNetwork | network.py:19-22 | airports, then ferries, then roads: the dictionaries are those of all airport and ferry files, and the roads are loaded against them |

## Left out

- File and CSV reading, folder listing, progress bars and the null handling of
  cell values are not modelled: each file arrives as a sequence of parsed rows,
  and cells are plain strings.
- Float parsing and the coordinate and economics columns of airports are not
  modelled. Distances, speeds, ferry times and costs are `real`, with exact
  division instead of floating point.
- Great-circle distances, the distance metric, GDP and travel demand are not
  modelled: `setup_network` ends with them, and they are numpy float arithmetic.
- Reporting is modelled as an append-only log of `Report` values. In the source,
  `error_print` is not defined on `Network`. Lines 281 and 287 of `network.py`
  call `utility.unique_airport_name_to_str`, which `utility.py` does not
  define (the formatter lives in `simulation.py`), and line 284 calls a garbled
  function name. The crashes these would cause are not modelled.
- The message printed by `get_airport_index` for a missing key is not modelled,
  nor are the display methods.
- Lowercasing is ASCII-only. No other character lowercases to one of the
  letters in "yes", so the ferry flag is unaffected.
- A zero speed is modelled as the loading stopping after that file. An infinite
  or NaN value is not modelled.
- The `Network` constructor starts from empty lists. In the source they do not
  exist until the `create_*` methods run.
- TransportNetwork.Network.SetupNetwork: states the two dictionaries and the road
  state. The airport and ferry list invariants are stated by
  `LoadAllAirports` and `LoadAllFerries`, and the report log is not restated.
- TransportNetwork.Network.LoadCheckedRoads, LoadNextRoads, LoadFerryRow,
  LoadNextFerries, AddNextAirport, CheckNextRoad, LinkNextRoad and LookUpFerries are steps the
  source writes inline. They are split out here to keep each proof small.
- Table validity and column alignment are stated as lemmas about the road
  state (`CommitFilesValid`, `FilesAligned`) rather than as class invariants.
