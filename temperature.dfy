/**
 * The temperature shown on the dashboard. The platform's thermal sensors come
 * as a sequence of named groups, each with its readings in order. The first
 * reading, in group order and then reading order, whose label is exactly
 * "Package id 0" or empty is shown to one decimal with `°C`; with no sensors,
 * or no reading so labelled, the text is the sentinel "N/A".
 *
 * Readings are held in tenths of a degree, so `:.1f` is exact.
 */
module Temperature {

  import opened Wrappers
  import opened Text

  /** One reading: its label and its current value in tenths of a degree Celsius. */
  datatype Entry = Entry(labelText: string, current: int)

  /** A sensor group: its name and its readings, in the order the platform lists them. */
  datatype Sensor = Sensor(name: string, entries: seq<Entry>)

  const Sentinel: string := "N/A"
  const Degrees: string := "\U{B0}C"

  /** The labels that mark the package temperature. */
  predicate IsPackage(e: Entry) {
    e.labelText == "Package id 0" || e.labelText == ""
  }

  /** Every reading of every group, group by group. */
  function Readings(sensors: seq<Sensor>): seq<Entry> {
    if sensors == [] then [] else sensors[0].entries + Readings(sensors[1..])
  }

  /** The first reading with a package label, if there is one. */
  function FirstPackage(es: seq<Entry>): (r: Option<Entry>)
    ensures r.Some? ==> IsPackage(r.value)
  {
    if es == [] then None
    else if IsPackage(es[0]) then Some(es[0])
    else FirstPackage(es[1..])
  }

  /**
   * The text shown for a selected reading: never empty, and the sentinel exactly
   * when there is none; a reading's text is its value to one decimal followed by
   * `°C`, and that value reads back from it.
   */
  function TempText(reading: Option<Entry>): (text: string)
    ensures |text| >= 3
    ensures text == Sentinel <==> reading.None?
    ensures reading.Some? ==>
              |text| > |Degrees| && text[|text| - |Degrees|..] == Degrees &&
              ParseSignedOneDecimal(text[..|text| - |Degrees|]) == Some(reading.value.current) &&
              text[..|text| - |Degrees|] == SignedOneDecimal(reading.value.current)
  {
    match reading
    case None => Sentinel
    case Some(e) =>
      var value := SignedOneDecimal(e.current);
      var s := value + Degrees;
      assert s[|s| - 1] == 'C' != Sentinel[|Sentinel| - 1];
      assert s[..|s| - |Degrees|] == value && s[|s| - |Degrees|..] == Degrees;
      SignedOneDecimalRoundTrip(e.current);
      s
  }

  /** The search with the source's nested loops and early return; it shows the first package reading. */
  method GetTemperature(sensors: seq<Sensor>) returns (text: string)
    ensures text == TempText(FirstPackage(Readings(sensors)))
  {
    if sensors == [] {
      return Sentinel;
    }
    for i := 0 to |sensors|
      invariant FirstPackage(Readings(sensors[i..])) == FirstPackage(Readings(sensors))
    {
      var entries := sensors[i].entries;
      var rest := Readings(sensors[i + 1..]);
      assert sensors[i..][1..] == sensors[i + 1..];
      assert entries[0..] == entries;
      for j := 0 to |entries|
        invariant FirstPackage(entries[j..] + rest) == FirstPackage(Readings(sensors))
      {
        assert (entries[j..] + rest)[1..] == entries[j + 1..] + rest;
        if entries[j].labelText == "Package id 0" || entries[j].labelText == "" {
          return SignedOneDecimal(entries[j].current) + Degrees;
        }
      }
      assert entries[|entries|..] + rest == rest;
    }
    assert sensors[|sensors|..] == [];
    return Sentinel;
  }

  /**
   * FirstPackage picks the earliest package reading: it is None exactly when no
   * reading has a package label, and otherwise the reading at the least such index.
   */
  lemma {:induction false} FirstPackageIsFirst(es: seq<Entry>)
    ensures FirstPackage(es).None? <==> forall k :: 0 <= k < |es| ==> !IsPackage(es[k])
    ensures FirstPackage(es).Some? ==>
              exists k :: 0 <= k < |es| && es[k] == FirstPackage(es).value &&
                          forall j :: 0 <= j < k ==> !IsPackage(es[j])
  {
    if es != [] && !IsPackage(es[0]) {
      FirstPackageIsFirst(es[1..]);
      if FirstPackage(es).Some? {
        var k :| 0 <= k < |es[1..]| && es[1..][k] == FirstPackage(es[1..]).value &&
                 forall j :: 0 <= j < k ==> !IsPackage(es[1..][j]);
        assert es[k + 1] == FirstPackage(es).value;
        forall j | 0 <= j < k + 1 ensures !IsPackage(es[j]) {
          if j > 0 {
            assert es[j] == es[1..][j - 1];
          }
        }
      } else {
        forall k | 0 <= k < |es| ensures !IsPackage(es[k]) {
          if k > 0 {
            assert es[k] == es[1..][k - 1];
          }
        }
      }
    } else if es != [] {
      assert es[0] == FirstPackage(es).value;
    }
  }

  /** Group order comes first: a package reading in an earlier group wins over any later one. */
  lemma {:induction false} EarlierGroupWins(sensors: seq<Sensor>)
    requires sensors != []
    ensures FirstPackage(sensors[0].entries).Some? ==>
              FirstPackage(Readings(sensors)) == FirstPackage(sensors[0].entries)
    ensures FirstPackage(sensors[0].entries).None? ==>
              FirstPackage(Readings(sensors)) == FirstPackage(Readings(sensors[1..]))
  {
    FirstPackageConcat(sensors[0].entries, Readings(sensors[1..]));
  }

  lemma {:induction false} FirstPackageConcat(a: seq<Entry>, b: seq<Entry>)
    ensures FirstPackage(a + b) == if FirstPackage(a).Some? then FirstPackage(a) else FirstPackage(b)
  {
    if a != [] {
      assert (a + b)[0] == a[0] && (a + b)[1..] == a[1..] + b;
      FirstPackageConcat(a[1..], b);
    } else {
      assert a + b == b;
    }
  }

  /** With no sensor data at all, or none labelled as the package, the sentinel is shown. */
  lemma NoPackageShowsSentinel(sensors: seq<Sensor>)
    requires forall k :: 0 <= k < |Readings(sensors)| ==> !IsPackage(Readings(sensors)[k])
    ensures TempText(FirstPackage(Readings(sensors))) == Sentinel
  {
    FirstPackageIsFirst(Readings(sensors));
  }
}
