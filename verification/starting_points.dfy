/**
 * Starting points of a city (client/src/lib/startingPoints.ts): airports,
 * cruise terminals, train stations and hotels per city, the translated name
 * of a point, and the list a city offers as starting points. The table is a
 * map from city id to the city's record; coordinates are left out.
 */
module StartingPoints {
  import opened Common

  datatype PointKind = Airport | CruiseTerminal | TrainStation | Hotel | MyLocation

  /** A point; `translations` maps a language to the point's name in it. */
  datatype StartingPoint = StartingPoint(id: string, kind: PointKind, name: string, translations: Option<map<string, string>>)

  datatype CityStartingPoints = CityStartingPoints(
    cityId: string,
    airports: seq<StartingPoint>,
    cruiseTerminals: seq<StartingPoint>,
    trainStations: seq<StartingPoint>,
    hotels: seq<StartingPoint>)

  type Table = map<string, CityStartingPoints>

  /** The translated name when the point has one for `language`, its own name otherwise. */
  function GetStartingPointName(point: StartingPoint, language: string): (r: string)
    ensures point.translations.Some? && language in point.translations.value ==> r == point.translations.value[language]
    ensures !(point.translations.Some? && language in point.translations.value) ==> r == point.name
  {
    if point.translations.Some? && language in point.translations.value
    then point.translations.value[language]
    else point.name
  }

  /** The city's record, or `null` for an unknown city. */
  function GetCityStartingPoints(table: Table, cityId: string): (r: Option<CityStartingPoints>)
    ensures r.Some? <==> cityId in table
    ensures r.Some? ==> r.value == table[cityId]
  {
    if cityId in table then Some(table[cityId]) else None
  }

  /** Airports, then cruise terminals, then train stations; `[]` for an unknown city. */
  function GetAllStartingPointsForCity(table: Table, cityId: string): (r: seq<StartingPoint>)
    ensures cityId !in table ==> r == []
    ensures cityId in table ==>
      var c := table[cityId];
      && |r| == |c.airports| + |c.cruiseTerminals| + |c.trainStations|
      && r[..|c.airports|] == c.airports
      && r[|c.airports|..|c.airports| + |c.cruiseTerminals|] == c.cruiseTerminals
      && r[|c.airports| + |c.cruiseTerminals|..] == c.trainStations
  {
    if cityId !in table then []
    else
      var c := table[cityId];
      c.airports + c.cruiseTerminals + c.trainStations
  }

  /** The flattened list is read off the city's record: nothing for `null`, its three travel buckets otherwise. */
  lemma AllPointsViaCityRecord(table: Table, cityId: string)
    ensures GetAllStartingPointsForCity(table, cityId) ==
      match GetCityStartingPoints(table, cityId)
      case None => []
      case Some(c) => c.airports + c.cruiseTerminals + c.trainStations
  {
  }

  /**
   * A point's name is its own name or one of its translations, and it is its
   * own name in every language the point has no translation for.
   */
  lemma NameIsOwnOrTranslated(point: StartingPoint, language: string)
    ensures var r := GetStartingPointName(point, language);
      r == point.name || (point.translations.Some? && r in point.translations.value.Values)
    ensures point.translations.None? || language !in point.translations.value ==>
      GetStartingPointName(point, language) == point.name
    ensures point.translations.Some? && language in point.translations.value ==>
      GetStartingPointName(point, language) == point.translations.value[language]
  {
  }

  /** Only the requested language's translation is read: points that agree on it and on their own name get the same name. */
  lemma NameReadsOneLanguage(p1: StartingPoint, p2: StartingPoint, language: string)
    requires p1.name == p2.name
    requires (p1.translations.Some? && language in p1.translations.value) <==> (p2.translations.Some? && language in p2.translations.value)
    requires p1.translations.Some? && language in p1.translations.value ==> p1.translations.value[language] == p2.translations.value[language]
    ensures GetStartingPointName(p1, language) == GetStartingPointName(p2, language)
  {
  }

  // ------------------------------------------------------- table invariant

  predicate AllOfKind(ps: seq<StartingPoint>, k: PointKind) {
    forall i :: 0 <= i < |ps| ==> ps[i].kind == k
  }

  /** Each record is filed under its own city id and each point sits in the bucket of its kind. */
  predicate WellFormed(table: Table) {
    forall id :: id in table ==>
      && table[id].cityId == id
      && AllOfKind(table[id].airports, Airport)
      && AllOfKind(table[id].cruiseTerminals, CruiseTerminal)
      && AllOfKind(table[id].trainStations, TrainStation)
      && AllOfKind(table[id].hotels, Hotel)
  }

  /** Airports, terminals and stations laid end to end: no hotel among them, and all of them present. */
  lemma ConcatenatedKinds(a: seq<StartingPoint>, b: seq<StartingPoint>, c: seq<StartingPoint>)
    requires AllOfKind(a, Airport) && AllOfKind(b, CruiseTerminal) && AllOfKind(c, TrainStation)
    ensures forall p :: p in a + b + c ==> p.kind != Hotel
    ensures forall p :: (p in a || p in b || p in c) ==> p in a + b + c
  {
    var r := a + b + c;
    forall p | p in r
      ensures p.kind != Hotel
    {
      var i :| 0 <= i < |r| && r[i] == p;
      if i < |a| {
        assert p == a[i];
      } else if i < |a| + |b| {
        assert p == b[i - |a|];
      } else {
        assert p == c[i - |a| - |b|];
      }
    }
  }

  /** A flattened list never holds a hotel, and holds every airport, terminal and station of the city. */
  lemma FlattenedHasNoHotels(table: Table, cityId: string)
    requires WellFormed(table)
    ensures forall p :: p in GetAllStartingPointsForCity(table, cityId) ==> p.kind != Hotel
    ensures cityId in table ==> forall p ::
      (p in table[cityId].airports || p in table[cityId].cruiseTerminals || p in table[cityId].trainStations) ==>
        p in GetAllStartingPointsForCity(table, cityId)
  {
    if cityId in table {
      var c := table[cityId];
      ConcatenatedKinds(c.airports, c.cruiseTerminals, c.trainStations);
    }
  }

  /** The ids and kinds of the points of one city, as the table lists them. */
  datatype PointKey = PointKey(id: string, kind: PointKind)

  datatype CityRoster = CityRoster(
    cityId: string,
    airports: seq<PointKey>,
    cruiseTerminals: seq<PointKey>,
    trainStations: seq<PointKey>,
    hotels: seq<PointKey>)

  function PointKeys(ps: seq<StartingPoint>): (ks: seq<PointKey>)
    ensures |ks| == |ps| && forall i :: 0 <= i < |ps| ==> ks[i] == PointKey(ps[i].id, ps[i].kind)
  {
    if ps == [] then [] else [PointKey(ps[0].id, ps[0].kind)] + PointKeys(ps[1..])
  }

  function RosterOf(c: CityStartingPoints): CityRoster {
    CityRoster(c.cityId, PointKeys(c.airports), PointKeys(c.cruiseTerminals), PointKeys(c.trainStations), PointKeys(c.hotels))
  }

  /** The ten cities of `cityStartingPoints`, with the id and type of every point. */
  const Rosters: map<string, CityRoster> := map[
    "rome" := CityRoster("rome",
      [PointKey("fco", Airport), PointKey("cia", Airport)],
      [PointKey("civitavecchia", CruiseTerminal)],
      [PointKey("termini", TrainStation)],
      [PointKey("rome_marriott", Hotel), PointKey("rome_hilton", Hotel), PointKey("hotel_eden", Hotel), PointKey("st_regis_rome", Hotel)]),
    "barcelona" := CityRoster("barcelona",
      [PointKey("bcn", Airport)],
      [PointKey("barcelona_port", CruiseTerminal)],
      [PointKey("sants", TrainStation)],
      [PointKey("hotel_arts", Hotel), PointKey("w_barcelona", Hotel), PointKey("mandarin_oriental_bcn", Hotel)]),
    "paris" := CityRoster("paris",
      [PointKey("cdg", Airport), PointKey("ory", Airport)],
      [],
      [PointKey("gare_du_nord", TrainStation)],
      [PointKey("ritz_paris", Hotel), PointKey("le_meurice", Hotel), PointKey("four_seasons_paris", Hotel)]),
    "london" := CityRoster("london",
      [PointKey("lhr", Airport), PointKey("lgw", Airport)],
      [PointKey("southampton", CruiseTerminal)],
      [PointKey("kings_cross", TrainStation)],
      [PointKey("the_savoy", Hotel), PointKey("claridges", Hotel), PointKey("the_ritz_london", Hotel)]),
    "amsterdam" := CityRoster("amsterdam",
      [PointKey("ams", Airport)],
      [PointKey("amsterdam_port", CruiseTerminal)],
      [PointKey("centraal", TrainStation)],
      [PointKey("hotel_pulitzer", Hotel), PointKey("waldorf_amsterdam", Hotel)]),
    "tokyo" := CityRoster("tokyo",
      [PointKey("nrt", Airport), PointKey("hnd", Airport)],
      [PointKey("tokyo_port", CruiseTerminal)],
      [PointKey("tokyo_station", TrainStation)],
      [PointKey("park_hyatt_tokyo", Hotel), PointKey("aman_tokyo", Hotel), PointKey("mandarin_oriental_tokyo", Hotel)]),
    "singapore" := CityRoster("singapore",
      [PointKey("sin", Airport)],
      [PointKey("marina_bay", CruiseTerminal)],
      [],
      [PointKey("marina_bay_sands", Hotel), PointKey("raffles_singapore", Hotel), PointKey("fullerton_hotel", Hotel)]),
    "stockholm" := CityRoster("stockholm",
      [PointKey("arn", Airport)],
      [PointKey("stockholm_port", CruiseTerminal)],
      [PointKey("central_station", TrainStation)],
      [PointKey("grand_hotel_stockholm", Hotel), PointKey("hotel_diplomat", Hotel)]),
    "copenhagen" := CityRoster("copenhagen",
      [PointKey("cph", Airport)],
      [PointKey("copenhagen_port", CruiseTerminal)],
      [PointKey("hovedbanegard", TrainStation)],
      [PointKey("hotel_dangleterre", Hotel), PointKey("nimb_hotel", Hotel)]),
    "sydney" := CityRoster("sydney",
      [PointKey("syd", Airport)],
      [PointKey("circular_quay", CruiseTerminal)],
      [PointKey("central_station", TrainStation)],
      [PointKey("park_hyatt_sydney", Hotel), PointKey("intercontinental_sydney", Hotel), PointKey("four_seasons_sydney", Hotel)])
  ]

  predicate KeysOfKind(ks: seq<PointKey>, k: PointKind) {
    forall i :: 0 <= i < |ks| ==> ks[i].kind == k
  }

  predicate RosterWellFormed(id: string, r: CityRoster) {
    && r.cityId == id
    && KeysOfKind(r.airports, Airport)
    && KeysOfKind(r.cruiseTerminals, CruiseTerminal)
    && KeysOfKind(r.trainStations, TrainStation)
    && KeysOfKind(r.hotels, Hotel)
  }

  /** The table's data keeps the invariant: every city and every point is filed where its id and type say. */
  lemma RostersWellFormed()
    ensures forall id :: id in Rosters ==> RosterWellFormed(id, Rosters[id])
  {
  }

  /** Any table with the source's ids and types is well formed. */
  lemma SourceTableWellFormed(table: Table)
    requires table.Keys == Rosters.Keys
    requires forall id :: id in table ==> RosterOf(table[id]) == Rosters[id]
    ensures WellFormed(table)
  {
    RostersWellFormed();
    forall id | id in table
      ensures table[id].cityId == id
      ensures AllOfKind(table[id].airports, Airport) && AllOfKind(table[id].cruiseTerminals, CruiseTerminal)
      ensures AllOfKind(table[id].trainStations, TrainStation) && AllOfKind(table[id].hotels, Hotel)
    {
      assert RosterWellFormed(id, Rosters[id]);
    }
  }
}
