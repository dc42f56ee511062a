/**
  The flag view model: one decoded `Flag` record and the English translation
  table go in, the fields the flag screen binds to come out.

  `FlagViewModel.init` is modelled by its observable final state, `Normalize`:
  the plain copies, the colour set, the lower-cased image name, and the
  values the `defer` block installs (the resolved `Country` and the two
  `SelectionValue`s). The translation table, which the source reads from
  `FlagData().translationsEn`, is a parameter.
 */
module FlagViewModel {
  import opened Options
  import opened Ascii
  import opened Segments

  /** The decoded flag description record. */
  datatype Flag = Flag(
    country: string,
    continent: string,
    zone: string,
    bars: int,
    stripes: int,
    colors: seq<string>,
    circles: int,
    crosses: int,
    saltires: int,
    quarters: int,
    sunstars: int,
    crescent: int,
    triangle: int,
    text: bool,
    symbol: bool,
    imageName: string)

  /** One row of the country-name translation table. */
  datatype Translation = Translation(id: int, name: string, alpha2: string, alpha3: string)

  /** The resolved country: display name, the key it came from, ISO code. */
  datatype Country = Country(countryName: string, countryKey: string, isoCode: string)

  /** The tri-state selection shown for `text` and `symbol`. */
  datatype SelectionValue = Yes | No | Maybe {

    /** The label shown for the selection; each label belongs to exactly one case. */
    function Description(): (s: string)
      ensures s == "Yes" <==> Yes?
      ensures s == "No" <==> No?
      ensures s == "Maybe" <==> Maybe?
    {
      match this
      case Yes => "Yes"
      case No => "No"
      case Maybe => "Maybe"
    }
  }

  /** The fields the view model publishes once `init` has finished. */
  datatype ViewRecord = ViewRecord(
    country: Country,
    countryKey: string,
    continent: string,
    zone: string,
    bars: int,
    stripes: int,
    colors: set<string>,
    circles: int,
    crosses: int,
    saltires: int,
    quarters: int,
    sunstars: int,
    crescent: int,
    triangle: int,
    text: SelectionValue,
    symbol: SelectionValue,
    imageName: string)

  /** `Set(flag.colors)`: the elements of the list, without order or repeats. */
  function ToSet(s: seq<string>): (r: set<string>)
    ensures forall x :: x in r <==> x in s
    ensures |r| <= |s|
  {
    if s == [] then {} else {s[0]} + ToSet(s[1..])
  }

  /** No colour is listed twice. */
  predicate Distinct(s: seq<string>) {
    forall a, b :: 0 <= a < b < |s| ==> s[a] != s[b]
  }

  /** A list has no repeats iff its head is not repeated and its tail has none. */
  lemma DistinctCons(s: seq<string>)
    requires s != []
    ensures Distinct(s) <==> s[0] !in s[1..] && Distinct(s[1..])
  {
    if s[0] in s[1..] {
      var k :| 0 <= k < |s[1..]| && s[1..][k] == s[0];
      assert s[k + 1] == s[0];
    }
    if Distinct(s[1..]) && s[0] !in s[1..] {
      forall a, b | 0 <= a < b < |s|
        ensures s[a] != s[b]
      {
        assert s[b] == s[1..][b - 1];
        if a > 0 {
          assert s[a] == s[1..][a - 1];
        }
      }
    }
    if Distinct(s) {
      forall a, b | 0 <= a < b < |s[1..]|
        ensures s[1..][a] != s[1..][b]
      {
        assert s[1..][a] == s[a + 1] && s[1..][b] == s[b + 1];
      }
    }
  }

  /** The set is exactly as large as the list if and only if the list has no repeats. */
  lemma {:induction false} ToSetSize(s: seq<string>)
    ensures |ToSet(s)| == |s| <==> Distinct(s)
  {
    if s != [] {
      ToSetSize(s[1..]);
      DistinctCons(s);
      if s[0] in s[1..] {
        assert ToSet(s) == ToSet(s[1..]);
      } else {
        assert s[0] !in ToSet(s[1..]);
      }
    }
  }

  /** Reordering or repeating colours does not change the set. */
  lemma ToSetIgnoresOrder(s: seq<string>, t: seq<string>)
    requires forall x :: x in s <==> x in t
    ensures ToSet(s) == ToSet(t)
  {
  }

  /** `parseValue`: a decoded boolean becomes `.yes` or `.no`, never `.maybe`. */
  function ParseValue(b: bool): (v: SelectionValue)
    ensures v != Maybe
    ensures v == Yes <==> b
    ensures v == No <==> !b
  {
    if b then Yes else No
  }

  /** Index of the first translation whose `alpha2` equals `code` (`first(where:)`). */
  function FirstMatch(ts: seq<Translation>, code: string): (r: Option<nat>)
    ensures r.Some? ==> r.value < |ts| && ts[r.value].alpha2 == code
    ensures r.Some? ==> forall k :: 0 <= k < r.value ==> ts[k].alpha2 != code
    ensures r.None? <==> forall k :: 0 <= k < |ts| ==> ts[k].alpha2 != code
  {
    if ts == [] then None
    else if ts[0].alpha2 == code then Some(0)
    else
      match FirstMatch(ts[1..], code)
      case None => None
      case Some(k) => Some(k + 1)
  }

  /** The display name for `code`: the first matching entry's name, else `fallback`. */
  function NameFor(ts: seq<Translation>, code: string, fallback: string): (name: string)
    ensures (forall k :: 0 <= k < |ts| ==> ts[k].alpha2 != code) ==> name == fallback
    ensures forall k | 0 <= k < |ts| && ts[k].alpha2 == code
                  && (forall m :: 0 <= m < k ==> ts[m].alpha2 != code) :: name == ts[k].name
  {
    match FirstMatch(ts, code)
    case None => fallback
    case Some(k) => ts[k].name
  }

  /**
    `getCountry(from:)`: the key's last non-empty '.'-separated segment is
    lower-cased and looked up by `alpha2`; the ISO code is that segment
    upper-cased. A key that is empty or only dots has no segment and is
    used as name, key and ISO code alike.
   */
  function GetCountry(key: string, ts: seq<Translation>): (c: Country)
    ensures c.countryKey == key
    ensures AllDots(key) ==> c == Country(key, key, key)
    ensures !AllDots(key) ==> exists i, j :: LastRunAt(key, i, j)
    ensures forall i, j | LastRunAt(key, i, j) ::
              c.isoCode == Upper(key[i..j]) && c.countryName == NameFor(ts, Lower(key[i..j]), key)
  {
    match LastSegment(key)
    case None => Country(key, key, key)
    case Some(segment) =>
      LastSegmentIsRun(key);
      var code := Lower(segment);
      UpperOfLower(segment);
      assert forall i, j | LastRunAt(key, i, j) :: key[i..j] == segment by {
        forall i, j | LastRunAt(key, i, j) ensures key[i..j] == segment {
          LastSegmentOfRun(key, i, j);
        }
      }
      Country(NameFor(ts, code, key), key, Upper(code))
  }

  /** `FlagViewModel.init(flag:)`, as the state it leaves once `defer` has run. */
  function Normalize(flag: Flag, ts: seq<Translation>): (v: ViewRecord)
    ensures v.countryKey == flag.country && v.country.countryKey == flag.country
    ensures v.country == GetCountry(flag.country, ts)
    ensures v.continent == flag.continent && v.zone == flag.zone
    ensures v.bars == flag.bars && v.stripes == flag.stripes
    ensures v.circles == flag.circles && v.crosses == flag.crosses
    ensures v.saltires == flag.saltires && v.quarters == flag.quarters
    ensures v.sunstars == flag.sunstars && v.crescent == flag.crescent
    ensures v.triangle == flag.triangle
    ensures forall x :: x in v.colors <==> x in flag.colors
    ensures v.text != Maybe && v.symbol != Maybe
    ensures (v.text == Yes <==> flag.text) && (v.symbol == Yes <==> flag.symbol)
    ensures v.imageName == Lower(flag.imageName)
    ensures IsLowerCase(v.imageName) && |v.imageName| == |flag.imageName|
    ensures Lower(v.imageName) == v.imageName
    ensures Upper(v.imageName) == Upper(flag.imageName)
  {
    var image := Lower(flag.imageName);
    LowerIdempotent(flag.imageName);
    UpperOfLower(flag.imageName);
    ViewRecord(
      country := GetCountry(flag.country, ts),
      countryKey := flag.country,
      continent := flag.continent,
      zone := flag.zone,
      bars := flag.bars,
      stripes := flag.stripes,
      colors := ToSet(flag.colors),
      circles := flag.circles,
      crosses := flag.crosses,
      saltires := flag.saltires,
      quarters := flag.quarters,
      sunstars := flag.sunstars,
      crescent := flag.crescent,
      triangle := flag.triangle,
      text := ParseValue(flag.text),
      symbol := ParseValue(flag.symbol),
      imageName := image)
  }

  /** Different selections are never shown with the same label. */
  lemma DescriptionInjective(a: SelectionValue, b: SelectionValue)
    ensures a.Description() == b.Description() ==> a == b
    ensures Yes.Description() == "Yes" && No.Description() == "No" && Maybe.Description() == "Maybe"
  {
  }

  /** A key with no '.' is looked up as a whole; it does not fall back. */
  lemma PlainKeyIsLookedUp(key: string, ts: seq<Translation>)
    requires key != [] && DotFree(key)
    ensures GetCountry(key, ts).isoCode == Upper(key)
    ensures GetCountry(key, ts).countryName == NameFor(ts, Lower(key), key)
  {
    assert key[0..|key|] == key;
    assert LastRunAt(key, 0, |key|);
  }

  /**
    Trailing dots do not change which segment is looked up: the ISO code is
    the same, and the name differs only when both fall back to their raw key.
   */
  lemma TrailingDotsIgnored(key: string, ts: seq<Translation>)
    requires !AllDots(key)
    ensures GetCountry(key + [Separator], ts).isoCode == GetCountry(key, ts).isoCode
    ensures || GetCountry(key + [Separator], ts).countryName == GetCountry(key, ts).countryName
            || (&& GetCountry(key + [Separator], ts).countryName == key + [Separator]
                && GetCountry(key, ts).countryName == key)
  {
    TrailingSeparatorIgnored(key);
  }

  /**
    The lookup lower-cases only the key's segment, never the table: an entry
    whose `alpha2` holds an upper-case letter is never found.
   */
  lemma UpperCaseEntryNeverMatches(key: string, ts: seq<Translation>, k: nat, i: int, j: int)
    requires k < |ts| && exists p :: 0 <= p < |ts[k].alpha2| && IsUpperChar(ts[k].alpha2[p])
    requires LastRunAt(key, i, j)
    ensures FirstMatch(ts, Lower(key[i..j])) != Some(k)
  {
    NoUpperInLower(key[i..j], ts[k].alpha2);
  }
}
