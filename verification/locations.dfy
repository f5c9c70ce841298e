/**
 * The one-off gazetteer conversion (convert_locations.py, lines 15-29): every row of
 * the world-cities table becomes one "City, State, Country" or "City, Country" entry
 * of the location list, in row order.
 */
module Locations {
  import opened Wrappers
  import opened Strings

  /**
   * One row of the cities table; `subcountry` is None where the cell is empty (NaN).
   */
  datatype CityRecord = CityRecord(name: string, country: string, subcountry: Option<string>)

  const FieldSeparator: string := ", "

  /** The text of an entry built from its already-cleaned fields. */
  function Entry(city: string, subcountry: Option<string>, country: string): string
  {
    match subcountry
    case Some(sub) => city + FieldSeparator + sub + FieldSeparator + country
    case None => city + FieldSeparator + country
  }

  /**
   * The entry for one row: city and country are stripped, the subcountry is inserted
   * as it is, and it is left out together with its separator when absent.
   */
  function FormatLocation(row: CityRecord): string
  {
    Entry(Strip(row.name), row.subcountry, Strip(row.country))
  }

  /**
   * The loop over the table rows: one entry per row, in row order, so the list is as
   * long as the table.
   */
  method ConvertRows(rows: seq<CityRecord>) returns (locations: seq<string>)
    ensures |locations| == |rows|
    ensures forall i :: 0 <= i < |rows| ==> locations[i] == FormatLocation(rows[i])
  {
    locations := [];
    var i := 0;
    while i < |rows|
      invariant 0 <= i <= |rows|
      invariant |locations| == i
      invariant FormattedPrefix(rows, locations)
    {
      var entry := FormatLocation(rows[i]);
      FormattedPrefixGrows(rows, locations, entry);
      locations := locations + [entry];
      i := i + 1;
    }
  }

  /** The entries so far are the formatted leading rows of the table. */
  ghost predicate FormattedPrefix(rows: seq<CityRecord>, locations: seq<string>)
  {
    |locations| <= |rows| &&
    forall j :: 0 <= j < |locations| ==> locations[j] == FormatLocation(rows[j])
  }

  lemma FormattedPrefixGrows(rows: seq<CityRecord>, locations: seq<string>, entry: string)
    requires FormattedPrefix(rows, locations) && |locations| < |rows|
    requires entry == FormatLocation(rows[|locations|])
    ensures FormattedPrefix(rows, locations + [entry])
  {
    var next := locations + [entry];
    assert forall j :: 0 <= j < |locations| ==> next[j] == locations[j];
  }

  /**
   * Reads an entry back into its fields: two or three comma-separated fields, every
   * field after the first starting with the space the separator adds.
   */
  function ParseLocation(entry: string): Option<CityRecord>
  {
    var fields := Split(entry, ",");
    if |fields| == 2 && IsPrefix(" ", fields[1]) then
      Some(CityRecord(fields[0], fields[1][1..], None))
    else if |fields| == 3 && IsPrefix(" ", fields[1]) && IsPrefix(" ", fields[2]) then
      Some(CityRecord(fields[0], fields[2][1..], Some(fields[1][1..])))
    else None
  }

  lemma StripKeepsCommaOut(s: string)
    requires ',' !in s
    ensures ',' !in Strip(s)
  {
    var i := |s| - |TrimStart(s)|;
    var r := Strip(s);
    StripIsMiddle(s);
    assert forall k :: 0 <= k < |r| ==> r[k] == s[i + k];
  }

  lemma JoinThreeFields(city: string, sub: string, country: string)
    ensures Join([city, " " + sub, " " + country], ",") == city + FieldSeparator + sub + FieldSeparator + country
  {
    assert [city, " " + sub, " " + country][1..] == [" " + sub, " " + country];
    assert [" " + sub, " " + country][1..] == [" " + country];
    assert Join([" " + sub, " " + country], ",") == " " + sub + "," + " " + country;
    assert FieldSeparator == "," + " ";
  }

  lemma JoinTwoFields(city: string, country: string)
    ensures Join([city, " " + country], ",") == city + FieldSeparator + country
  {
    assert [city, " " + country][1..] == [" " + country];
    assert FieldSeparator == "," + " ";
  }

  lemma SplitThreeFields(city: string, sub: string, country: string)
    requires ',' !in city && ',' !in sub && ',' !in country
    ensures Split(Join([city, " " + sub, " " + country], ","), ",") == [city, " " + sub, " " + country]
  {
    JoinThenSplit([city, " " + sub, " " + country], ',');
  }

  lemma SplitTwoFields(city: string, country: string)
    requires ',' !in city && ',' !in country
    ensures Split(Join([city, " " + country], ","), ",") == [city, " " + country]
  {
    JoinThenSplit([city, " " + country], ',');
  }

  /**
   * For fields without commas, an entry reads back as the row with city and country
   * stripped and the subcountry exactly as given: the format loses nothing else.
   */
  lemma FormatThenParse(row: CityRecord)
    requires ',' !in row.name && ',' !in row.country
    requires row.subcountry.Some? ==> ',' !in row.subcountry.value
    ensures ParseLocation(FormatLocation(row)) ==
            Some(CityRecord(Strip(row.name), Strip(row.country), row.subcountry))
  {
    var city := Strip(row.name);
    var country := Strip(row.country);
    StripKeepsCommaOut(row.name);
    StripKeepsCommaOut(row.country);
    assert (" " + country)[1..] == country;
    match row.subcountry
    case Some(sub) =>
      JoinThreeFields(city, sub, country);
      SplitThreeFields(city, sub, country);
      assert (" " + sub)[1..] == sub;
    case None =>
      JoinTwoFields(city, country);
      SplitTwoFields(city, country);
  }
}
