/** What a "City, Country" string finds among the packed places, from the string to the coordinates. */
module GazetteerSearch {
  import opened Wrappers
  import opened Bytes
  import opened GazetteerFile
  import opened Gazetteer

  /** Searching the packed places for a location gives these candidates. */
  ghost predicate Finds(places: seq<Place>, countries: map<string, string>, location: string, n: Naming,
                        out: seq<Candidate>) {
    var f := Serialize(EntriesOf(places), RowsUpTo(places, |places|, n));
    && f.Some? && ReadHeader(f.value).Ok?
    && CandidatesIn(f.value, ReadHeader(f.value).value, countries, location, n) == Some(out)
  }

  /** A place as a candidate: its coordinates, in units of a hundred-thousandth of a degree, and its population. */
  ghost predicate Shows(c: Candidate, p: Place) {
    c.lat * 100_000.0 == p.lat as real && c.lng * 100_000.0 == p.lng as real && c.population == p.population
  }

  /** `country` is the country of code `iso`, and nothing in it ends the name of a city. */
  ghost predicate InCountry(country: string, iso: string, countries: map<string, string>, n: Naming) {
    && ',' !in country && n.norm(country) != "" && n.norm(country) in countries
    && countries[n.norm(country)] == iso
  }

  /** The last comma divides the string: before it the city, after it the country. */
  lemma LastComma(name: string, country: string)
    requires ',' !in country
    ensures
      var location := name + "," + country;
      var k := LastIndex(location, ',');
      k == |name| && location[..k] == name && location[k + 1..] == country
  {
    var location := name + "," + country;
    var k := LastIndex(location, ',');
    assert location[|name|] == ',';
    forall i | |name| < i < |location| ensures location[i] != ',' {
      assert location[i] == country[i - |name| - 1] && country[i - |name| - 1] in country;
    }
    assert location[|name| + 1..] == country;
  }

  /** A string asks for the key under which a name is packed. */
  lemma AsksForKey(name: string, country: string, iso: string, packed: string, countries: map<string, string>,
                   n: Naming)
    requires InCountry(country, iso, countries, n) && n.norm(name) == n.norm(packed) != ""
    ensures QueryKey(name + "," + country, countries, n) == Some(KeyFor(iso, packed, n))
    ensures KeyFor(iso, packed, n) == iso + "\0" + n.norm(name)
  {
    hide LastIndex;
    LastComma(name, country);
  }

  /** Nothing is asked for without a comma, without a name, or in a country that is not known. */
  lemma AsksForNothing(location: string, countries: map<string, string>, n: Naming)
    ensures QueryKey(location, countries, n) == None <==>
              !exists name, country ::
                && location == name + "," + country && ',' !in country
                && n.norm(name) != "" && n.norm(country) != "" && n.norm(country) in countries
  {
    hide LastIndex;
    var k := LastIndex(location, ',');
    if k >= 0 {
      var name, country := location[..k], location[k + 1..];
      assert location == name + "," + country;
      assert ',' !in country;
    }
    forall name, country | location == name + "," + country && ',' !in country
      ensures k == |name| && location[..k] == name && location[k + 1..] == country
    {
      LastComma(name, country);
    }
  }

  // ---------- a place is found ----------

  lemma {:induction false} AliasEntries(p: Place, aliases: seq<string>, idx: nat, n: Naming)
    ensures forall r :: r in AliasRows(p, aliases, idx, n) ==> r.entry == idx
  {
    hide KeyFor, PrimaryKey;
    if aliases != [] {
      AliasEntries(p, aliases[..|aliases| - 1], idx, n);
    }
  }

  lemma {:induction false} RowEntries(places: seq<Place>, k: nat, n: Naming)
    requires k <= |places|
    ensures forall r :: r in RowsUpTo(places, k, n) ==> r.entry < k
  {
    hide KeyFor, PrimaryKey, AliasRows;
    if k > 0 {
      RowEntries(places, k - 1, n);
      AliasEntries(places[k - 1], places[k - 1].aliases, k - 1, n);
    }
  }

  lemma {:induction false} MatchEntries(rows: seq<KeyRow>, hash: int, primary: bool, bound: nat)
    requires forall r :: r in rows ==> r.entry < bound
    ensures forall i :: 0 <= i < |Matches(rows, hash, primary)| ==> Matches(rows, hash, primary)[i] < bound
  {
    if rows != [] {
      MatchEntries(rows[..|rows| - 1], hash, primary, bound);
    }
  }

  lemma {:induction false} ListHolds(places: seq<Place>, es: seq<nat>, i: nat)
    requires AllPlaces(places, es) && i in es
    ensures i < |places| && CandidateOf(places[i]) in CandidateList(places, es)
  {
    var init, last := es[..|es| - 1], es[|es| - 1];
    assert es == init + [last];
    if i != last {
      ListHolds(places, init, i);
    }
  }

  lemma ShownAs(p: Place)
    ensures Shows(CandidateOf(p), p)
  {
  }

  /**
   A packed place is found under its own name in its country, however the two are written, and whatever
   other names share its hash.
   */
  lemma {:induction false} FoundByName(places: seq<Place>, countries: map<string, string>, name: string,
      country: string, i: nat, n: Naming)
    requires Fits(EntriesOf(places), RowsUpTo(places, |places|, n))
    requires i < |places| && InCountry(country, places[i].iso, countries, n)
    requires n.norm(name) == n.norm(places[i].primary) != ""
    ensures exists out, c :: Finds(places, countries, name + "," + country, n, out) && c in out && Shows(c, places[i])
  {
    hide Fits, Serialize, ReadHeader, HoldsRow, HoldsEntry, LookupIn, CandidatesAt, AllZero32, QueryKey, RowsUpTo,
         Matches, StableSort, CandidateList, Unpopulated, KeyFor, Shows, InCountry;
    var location := name + "," + country;
    var p := places[i];
    AsksForKey(name, country, p.iso, p.primary, countries, n);
    var entries, rows := EntriesOf(places), RowsUpTo(places, |places|, n);
    var hash := n.hash(PrimaryKey(p, n));
    PackedHolds(entries, rows);
    var f := Serialize(entries, rows).value;
    var h := ReadHeader(f).value;
    LookupFindsMatches(entries, rows, hash);
    var ps, as' := Matches(rows, hash, true), Matches(rows, hash, false);
    RowEntries(places, |places|, n);
    MatchEntries(rows, hash, true, |places|);
    MatchEntries(rows, hash, false, |places|);
    FindsItself(places, |places|, i, n);
    ReadAllZero(f, h, places, ps);
    ReadCandidates(f, h, places, ps);
    BothPlaces(places, ps, as');
    ReadCandidates(f, h, places, ps + as');
    ListHolds(places, ps, i);
    ListHolds(places, ps + as', i);
    ShownAs(p);
    var es := if as' != [] && Unpopulated(places, ps) then ps + as' else ps;
    var out := CandidateList(places, es);
    assert Finds(places, countries, location, n, out) && CandidateOf(p) in out;
  }

  // ---------- other names ----------

  lemma {:induction false} HitsHold(p: Place, aliases: seq<string>, idx: nat, key: string, a: string, n: Naming)
    requires a in aliases && KeyFor(p.iso, a, n) == key && PrimaryKey(p, n) != key
    ensures idx in AliasHits(p, aliases, idx, key, n)
  {
    hide KeyFor, PrimaryKey;
    var init, last := aliases[..|aliases| - 1], aliases[|aliases| - 1];
    assert aliases == init + [last];
    if a in init {
      HitsHold(p, init, idx, key, a, n);
    }
  }

  lemma {:induction false} AliasPlaceHolds(places: seq<Place>, k: nat, i: nat, key: string, a: string, n: Naming)
    requires i < k <= |places| && a in places[i].aliases
    requires KeyFor(places[i].iso, a, n) == key && PrimaryKey(places[i], n) != key
    ensures i in AliasPlaces(places, k, key, n)
  {
    hide KeyFor, PrimaryKey, AliasHits;
    if i == k - 1 {
      HitsHold(places[i], places[i].aliases, i, key, a, n);
    } else {
      AliasPlaceHolds(places, k - 1, i, key, a, n);
    }
  }

  /**
   A packed place is found under another of its names, if every place whose own name that is has no
   population, which it is if there is none.
   */
  lemma {:induction false} FoundByAlias(places: seq<Place>, countries: map<string, string>, name: string,
      country: string,
                     i: nat, a: string, n: Naming)
    requires Fits(EntriesOf(places), RowsUpTo(places, |places|, n))
    requires i < |places| && a in places[i].aliases && InCountry(country, places[i].iso, countries, n)
    requires n.norm(name) == n.norm(a) != ""
    requires
      var key := KeyFor(places[i].iso, a, n);
      NoCollision(places, key, n) && forall p :: p in places && PrimaryKey(p, n) == key ==> p.population == 0
    ensures exists out, c :: Finds(places, countries, name + "," + country, n, out) && c in out && Shows(c, places[i])
  {
    hide Fits, QueryKey, RowsUpTo, CandidateList, KeyFor, PrimaryKey, Shows, InCountry, CandidatesIn, NoCollision;
    var location, key := name + "," + country, KeyFor(places[i].iso, a, n);
    AsksForKey(name, country, places[i].iso, a, countries, n);
    CandidatesAreReference(places, countries, location, n);
    var ps := PrimaryPlaces(places, |places|, key, n);
    if PrimaryKey(places[i], n) == key {
      assert i in ps;
    } else {
      AliasPlaceHolds(places, |places|, i, key, a, n);
    }
    forall j | 0 <= j < |ps| ensures places[ps[j]].population == 0 {
      assert ps[j] in ps && places[ps[j]] in places;
    }
    var es := Reference(places, key, n);
    ListHolds(places, es, i);
    ShownAs(places[i]);
    assert Finds(places, countries, location, n, CandidateList(places, es));
  }

  lemma {:induction false} ListFrom(places: seq<Place>, es: seq<nat>, c: Candidate)
    requires AllPlaces(places, es) && c in CandidateList(places, es)
    ensures exists i :: i in es && i < |places| && c == CandidateOf(places[i])
  {
    var init, last := es[..|es| - 1], es[|es| - 1];
    assert es == init + [last];
    if c != CandidateOf(places[last]) {
      ListFrom(places, init, c);
      var i :| i in init && i < |places| && c == CandidateOf(places[i]);
      assert i in es;
    }
  }

  /** Where a place of that very name has a population, only places of that name are found. */
  lemma {:induction false} OnlyNamesakes(places: seq<Place>, countries: map<string, string>, name: string,
      country: string, iso: string,
                      i: nat, n: Naming, out: seq<Candidate>, c: Candidate)
    requires Fits(EntriesOf(places), RowsUpTo(places, |places|, n))
    requires InCountry(country, iso, countries, n) && n.norm(name) != "" && NoCollision(places, KeyFor(iso, name, n), n)
    requires i < |places| && PrimaryKey(places[i], n) == KeyFor(iso, name, n) && places[i].population != 0
    requires Finds(places, countries, name + "," + country, n, out) && c in out
    ensures exists p :: p in places && PrimaryKey(p, n) == KeyFor(iso, name, n) && Shows(c, p)
  {
    hide Fits, QueryKey, RowsUpTo, CandidateList, KeyFor, PrimaryKey, Shows, InCountry, CandidatesIn, NoCollision;
    var key := KeyFor(iso, name, n);
    AsksForKey(name, country, iso, name, countries, n);
    CandidatesAreReference(places, countries, name + "," + country, n);
    var ps := PrimaryPlaces(places, |places|, key, n);
    assert i in ps;
    assert !Unpopulated(places, ps) by {
      var j :| 0 <= j < |ps| && ps[j] == i;
    }
    ListFrom(places, ps, c);
    var j :| j in ps && j < |places| && c == CandidateOf(places[j]);
    ShownAs(places[j]);
    assert places[j] in places;
  }
}
