/** The natural keys of the network and the two formatters that turn them into
    text for messages (`unique_airport_name_to_str`, `unique_road_name_to_str`). */
module Naming {
  import opened Text

  /** An airport's unique name: (name, state, country). */
  datatype AirportKey = AirportKey(name: string, state: string, country: string)

  /** A road's unique name: the six strings of its two airports, start first. */
  datatype RoadName = RoadName(startName: string, startState: string, startCountry: string,
                               endName: string, endState: string, endCountry: string)
  {
    function Start(): AirportKey { AirportKey(startName, startState, startCountry) }
    function End(): AirportKey { AirportKey(endName, endState, endCountry) }
  }

  /** The road name running from `s` to `e`. */
  function RoadNameOf(s: AirportKey, e: AirportKey): (t: RoadName)
    ensures t.Start() == s && t.End() == e
  {
    RoadName(s.name, s.state, s.country, e.name, e.state, e.country)
  }

  /** "name,state,country". */
  function AirportNameToStr(k: AirportKey): (r: string)
    ensures |r| == |k.name| + |k.state| + |k.country| + 2
    ensures r[..|k.name|] == k.name && r[|k.name|] == ','
    ensures r[|k.name| + 1..|k.name| + 1 + |k.state|] == k.state
    ensures r[|k.name| + 1 + |k.state|] == ','
    ensures r[|r| - |k.country|..] == k.country
  {
    k.name + "," + k.state + "," + k.country
  }

  /** "start airport to end airport". */
  function RoadNameToStr(t: RoadName): (r: string)
    ensures var s, e := AirportNameToStr(t.Start()), AirportNameToStr(t.End());
            |r| == |s| + 4 + |e| && r[..|s|] == s && r[|s|..|s| + 4] == " to " && r[|r| - |e|..] == e
  {
    var startName := AirportNameToStr(t.Start());
    var endName := AirportNameToStr(t.End());
    startName + " to " + endName
  }

  /** Where no component holds a comma, splitting the airport string at its commas
      recovers the key: the formatter loses nothing. */
  lemma AirportNameRoundTrip(k: AirportKey)
    requires CommaFree(k.name) && CommaFree(k.state) && CommaFree(k.country)
    ensures SplitComma(AirportNameToStr(k)) == [k.name, k.state, k.country]
  {
    var parts := [k.name, k.state, k.country];
    assert JoinComma(parts) == AirportNameToStr(k) by {
      assert parts[1..] == [k.state, k.country];
      assert parts[1..][1..] == [k.country];
      assert JoinComma(parts[1..][1..]) == k.country;
      assert JoinComma(parts[1..]) == k.state + "," + k.country;
      assert JoinComma(parts) == k.name + "," + (k.state + "," + k.country);
    }
    SplitJoin(parts);
  }

  /** Two comma-free keys with the same string are the same key. */
  lemma AirportNameInjective(k1: AirportKey, k2: AirportKey)
    requires CommaFree(k1.name) && CommaFree(k1.state) && CommaFree(k1.country)
    requires CommaFree(k2.name) && CommaFree(k2.state) && CommaFree(k2.country)
    requires AirportNameToStr(k1) == AirportNameToStr(k2)
    ensures k1 == k2
  {
    AirportNameRoundTrip(k1);
    AirportNameRoundTrip(k2);
  }
}
