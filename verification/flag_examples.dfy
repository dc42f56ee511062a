/**
  Worked cases of country-key resolution and record normalisation, each
  one an edge the `getCountry` code path distinguishes.
 */
module FlagExamples {
  import opened Options
  import opened Ascii
  import opened Segments
  import opened FlagViewModel

  const France := Translation(250, "France", "fr", "fra")

  /** "europe.fr" with a matching entry resolves to France / FR. */
  lemma DottedKeyFound()
    ensures GetCountry("europe.fr", [France]) == Country("France", "europe.fr", "FR")
  {
    var key := "europe.fr";
    assert key[7..9] == "fr";
    assert LastRunAt(key, 7, 9);
    assert Lower("fr") == "fr";
    assert Upper("fr") == "FR";
    assert FirstMatch([France], "fr") == Some(0);
  }

  /** An unknown code keeps the raw key as the name but still yields an ISO code. */
  lemma DottedKeyMissing()
    ensures GetCountry("europe.xx", [France]) == Country("europe.xx", "europe.xx", "XX")
  {
    var key := "europe.xx";
    assert key[7..9] == "xx";
    assert LastRunAt(key, 7, 9);
    assert Lower("xx") == "xx";
    assert Upper("xx") == "XX";
    assert France.alpha2 != "xx";
  }

  /** A key with no dot is looked up whole; it does not fall back. */
  lemma PlainKeyResolves()
    ensures GetCountry("fr", [France]) == Country("France", "fr", "FR")
  {
    assert LastRunAt("fr", 0, 2);
    assert "fr"[0..2] == "fr";
    assert Lower("fr") == "fr";
    assert Upper("fr") == "FR";
    assert FirstMatch([France], "fr") == Some(0);
  }

  /** A trailing dot is ignored. */
  lemma TrailingDotKey()
    ensures GetCountry("europe.fr.", [France]) == Country("France", "europe.fr.", "FR")
  {
    var key := "europe.fr.";
    assert key[7..9] == "fr";
    assert LastRunAt(key, 7, 9);
    assert Lower("fr") == "fr";
    assert Upper("fr") == "FR";
    assert FirstMatch([France], "fr") == Some(0);
  }

  /** Only an empty or all-dot key falls back entirely. */
  lemma DotsOnlyKey()
    ensures GetCountry("..", [France]) == Country("..", "..", "..")
    ensures GetCountry("", [France]) == Country("", "", "")
  {
    assert AllDots("..");
  }

  /** The table is compared verbatim: an upper-case "FR" entry never matches. */
  lemma UpperCaseTableEntry()
    ensures GetCountry("europe.fr", [Translation(250, "France", "FR", "FRA")])
         == Country("europe.fr", "europe.fr", "FR")
  {
    var key := "europe.fr";
    assert key[7..9] == "fr";
    assert LastRunAt(key, 7, 9);
    assert Lower("fr") == "fr";
    assert Upper("fr") == "FR";
    assert "FR" != "fr";
  }

  /** The first matching entry wins. */
  lemma FirstEntryWins()
    ensures GetCountry("fr", [France, Translation(1, "Frankreich", "fr", "fra")]).countryName == "France"
  {
    PlainKeyIsLookedUp("fr", [France, Translation(1, "Frankreich", "fr", "fra")]);
    assert Lower("fr") == "fr";
  }

  /** The image name is lower-cased whatever its input casing. */
  lemma ImageNameLowered()
    ensures Lower("FRANCE.PNG") == "france.png"
  {
  }

  /** Listing "blue" twice yields one "blue" in the set. */
  lemma RepeatedColourCollapses()
    ensures ToSet(["blue", "white", "red", "blue"]) == {"blue", "white", "red"}
  {
    var s := ["blue", "white", "red", "blue"];
    assert s[1..] == ["white", "red", "blue"];
    assert s[1..][1..] == ["red", "blue"];
    assert s[1..][1..][1..] == ["blue"];
    assert s[1..][1..][1..][1..] == [];
  }

  /**
    A record listing "blue" twice, with `text` false and `symbol` true: the
    colours collapse to three, the booleans become selections, and a
    "europe.fr" key resolves against the table.
   */
  lemma NormalizeRecord(flag: Flag)
    requires flag.country == "europe.fr"
    requires flag.colors == ["blue", "white", "red", "blue"]
    requires !flag.text && flag.symbol
    ensures Normalize(flag, [France]).country == Country("France", "europe.fr", "FR")
    ensures Normalize(flag, [France]).colors == {"blue", "white", "red"}
    ensures Normalize(flag, [France]).text == No
    ensures Normalize(flag, [France]).symbol == Yes
  {
    DottedKeyFound();
    RepeatedColourCollapses();
  }
}
