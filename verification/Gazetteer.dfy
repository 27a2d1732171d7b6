/**
 Place names: how the packer keys them, and which candidates a "City, Country" string finds.
 */
module Gazetteer {
  import opened Wrappers
  import opened Bytes
  import opened Sorting
  import opened GazetteerFile
  import T = Text

  /** One row of the source data, with the other names it can be found under. */
  datatype Place = Place(iso: string, primary: string, lat: int, lng: int, population: int, aliases: seq<string>)

  /** Case and white-space folding of names, and the hash of a key, which are not part of this model. */
  datatype Naming = Naming(norm: string -> string, hash: string -> u64)

  function KeyFor(iso: string, name: string, n: Naming): string {
    iso + "\0" + n.norm(name)
  }

  function PrimaryKey(p: Place, n: Naming): string {
    KeyFor(p.iso, p.primary, n)
  }

  // ---------- building the tables ----------

  function AliasRows(p: Place, aliases: seq<string>, idx: nat, n: Naming): seq<KeyRow> {
    if aliases == [] then []
    else
      var init := AliasRows(p, aliases[..|aliases| - 1], idx, n);
      var key := KeyFor(p.iso, aliases[|aliases| - 1], n);
      if key == PrimaryKey(p, n) then init else init + [KeyRow(n.hash(key), idx, FLAG_ALIAS)]
  }

  function RowsFor(p: Place, idx: nat, n: Naming): seq<KeyRow> {
    [KeyRow(n.hash(PrimaryKey(p, n)), idx, FLAG_PRIMARY)] + AliasRows(p, p.aliases, idx, n)
  }

  function RowsUpTo(places: seq<Place>, k: nat, n: Naming): seq<KeyRow>
    requires k <= |places|
  {
    if k == 0 then [] else RowsUpTo(places, k - 1, n) + RowsFor(places[k - 1], k - 1, n)
  }

  function EntriesOf(places: seq<Place>): (e: seq<Entry>)
    ensures |e| == |places|
  {
    seq(|places|, i requires 0 <= i < |places| => Entry(places[i].lat, places[i].lng, places[i].population))
  }

  method KeyRowsFor(p: Place, idx: nat, n: Naming) returns (rows: seq<KeyRow>)
    ensures rows == RowsFor(p, idx, n)
  {
    hide KeyFor;
    var primaryKey := PrimaryKey(p, n);
    rows := [KeyRow(n.hash(primaryKey), idx, FLAG_PRIMARY)];
    ghost var first := rows;
    for i := 0 to |p.aliases|
      invariant rows == first + AliasRows(p, p.aliases[..i], idx, n)
    {
      assert p.aliases[..i + 1][..i] == p.aliases[..i];
      var aliasKey := KeyFor(p.iso, p.aliases[i], n);
      if aliasKey != primaryKey {
        rows := rows + [KeyRow(n.hash(aliasKey), idx, FLAG_ALIAS)];
      }
    }
    assert p.aliases[..|p.aliases|] == p.aliases;
  }

  method BuildTables(places: seq<Place>, n: Naming) returns (entries: seq<Entry>, rows: seq<KeyRow>)
    ensures entries == EntriesOf(places) && rows == RowsUpTo(places, |places|, n)
  {
    entries, rows := [], [];
    for i := 0 to |places|
      invariant entries == EntriesOf(places)[..i] && rows == RowsUpTo(places, i, n)
    {
      var added := KeyRowsFor(places[i], i, n);
      entries := entries + [Entry(places[i].lat, places[i].lng, places[i].population)];
      rows := rows + added;
    }
  }

  // ---------- the shortlist of other names ----------

  const MAX_EXTRA_ALIASES: nat := 12

  /** Shorter names first, equal lengths in the order of the strings. */
  predicate Shorter(a: string, b: string) {
    |a| < |b| || (|a| == |b| && T.Less(a, b))
  }

  /** What the shortlist needs of the string library: lower case, trimming, and which names are usable. */
  datatype Names = Names(lower: string -> string, strip: string -> string, usable: string -> bool)

  /** A name the row may be found under: its own, or a usable one among the alternates. */
  ghost predicate Offered(x: string, name: string, alternates: seq<string>, s: Names) {
    (x == name && name != "") || exists i :: 0 <= i < |alternates| && x == s.strip(alternates[i]) && s.usable(x)
  }

  ghost predicate DistinctFold(extras: seq<string>, s: Names) {
    forall i, j :: 0 <= i < j < |extras| ==> s.lower(extras[i]) != s.lower(extras[j])
  }

  /** The extras gathered from the row's own name and its first `k` alternates. */
  ghost predicate Gathered(extras: seq<string>, seen: set<string>, primary: string, name: string,
                           alternates: seq<string>, k: nat, s: Names)
    requires k <= |alternates|
  {
    && DistinctFold(extras, s)
    && (forall x :: x in seen <==> x == s.lower(primary) || exists e :: e in extras && x == s.lower(e))
    && (forall e :: e in extras ==> s.lower(e) != s.lower(primary) && Offered(e, name, alternates[..k], s))
    && (forall x :: Offered(x, name, alternates[..k], s) ==> s.lower(x) in seen)
  }

  /** One name for each way the offered names fold, but for the way the primary one does. */
  ghost predicate OneForEachFold(
    extras: seq<string>, primary: string, name: string, alternates: seq<string>, s: Names)
  {
    && DistinctFold(extras, s)
    && (forall e :: e in extras ==> s.lower(e) != s.lower(primary) && Offered(e, name, alternates, s))
    && (forall x :: Offered(x, name, alternates, s) ==>
          s.lower(x) == s.lower(primary) || exists e :: e in extras && s.lower(e) == s.lower(x))
  }

  /** The shortest twelve of the names, or all of them if there are no more, in order. */
  ghost predicate ShortestOf(list: seq<string>, extras: seq<string>) {
    exists sorted ::
      && multiset(sorted) == multiset(extras) && Sorted(sorted, Shorter)
      && list == if |sorted| > MAX_EXTRA_ALIASES then sorted[..MAX_EXTRA_ALIASES] else sorted
  }

  /**
   At most twelve extra names, no two of which fold alike and none like the primary one; the shortest
   of all that were offered.
   */
  method AliasShortlist(primary: string, name: string, alternates: seq<string>, s: Names)
    returns (list: seq<string>, ghost extras: seq<string>)
    ensures OneForEachFold(extras, primary, name, alternates, s) && ShortestOf(list, extras)
    ensures |list| <= MAX_EXTRA_ALIASES && DistinctFold(list, s) && Sorted(list, Shorter)
    ensures forall x :: x in list ==> s.lower(x) != s.lower(primary) && Offered(x, name, alternates, s)
    ensures forall x :: Offered(x, name, alternates, s) ==>
              || s.lower(x) == s.lower(primary)
              || (exists e :: e in list && s.lower(e) == s.lower(x))
              || (|list| == MAX_EXTRA_ALIASES
                  && exists e :: e in extras && s.lower(e) == s.lower(x) && forall y :: y in list ==> !Shorter(e, y))
  {
    hide T.Less, Shorter, Sorted, WeakOrder;
    var seen := {s.lower(primary)};
    var found: seq<string> := [];
    if name != "" && s.lower(name) !in seen {
      found := [name];
      seen := seen + {s.lower(name)};
    }
    for k := 0 to |alternates|
      invariant Gathered(found, seen, primary, name, alternates, k, s)
    {
      var a := s.strip(alternates[k]);
      GatherOne(found, seen, primary, name, alternates, k, s);
      if s.usable(a) && s.lower(a) !in seen {
        seen := seen + {s.lower(a)};
        found := found + [a];
      }
    }
    assert alternates[..|alternates|] == alternates;
    extras := found;
    AllGathered(extras, seen, primary, name, alternates, s);
    ShorterOrder();
    list := SortSlice(found, Shorter);
    ghost var sorted := list;
    if |list| > MAX_EXTRA_ALIASES {
      list := list[..MAX_EXTRA_ALIASES];
    }
    ShortestCover(extras, sorted, list, primary, name, alternates, s);
  }

  lemma AllGathered(extras: seq<string>, seen: set<string>, primary: string, name: string, alternates: seq<string>,
                    s: Names)
    requires Gathered(extras, seen, primary, name, alternates, |alternates|, s)
    ensures OneForEachFold(extras, primary, name, alternates, s)
  {
    assert alternates[..|alternates|] == alternates;
  }

  /** What the shortest of the names leave out is no shorter than any of them. */
  lemma ShortestCover(extras: seq<string>, sorted: seq<string>, list: seq<string>,
                      primary: string, name: string, alternates: seq<string>, s: Names)
    requires OneForEachFold(extras, primary, name, alternates, s)
    requires multiset(sorted) == multiset(extras) && Sorted(sorted, Shorter)
    requires list == if |sorted| > MAX_EXTRA_ALIASES then sorted[..MAX_EXTRA_ALIASES] else sorted
    ensures DistinctFold(list, s) && Sorted(list, Shorter)
    ensures forall x :: x in list ==> x in extras
    ensures forall e :: e in extras && e !in list ==>
              |list| == MAX_EXTRA_ALIASES && forall y :: y in list ==> !Shorter(e, y)
  {
    hide Shorter;
    SameElements(extras, sorted);
    FoldPermutation(extras, sorted, s);
    forall e, y | e in extras && e !in list && y in list ensures !Shorter(e, y) {
      var j :| 0 <= j < |sorted| && sorted[j] == e;
      var i :| 0 <= i < |list| && list[i] == y;
      if j < |list| {
        assert list[j] == e;
      }
    }
  }

  lemma ShorterOrder()
    ensures WeakOrder(Shorter)
  {
    T.LessIsOrder();
  }

  lemma GatherOne(extras: seq<string>, seen: set<string>, primary: string, name: string, alternates: seq<string>,
                  k: nat, s: Names)
    requires k < |alternates| && Gathered(extras, seen, primary, name, alternates, k, s)
    ensures
      var a := s.strip(alternates[k]);
      if s.usable(a) && s.lower(a) !in seen
      then Gathered(extras + [a], seen + {s.lower(a)}, primary, name, alternates, k + 1, s)
      else Gathered(extras, seen, primary, name, alternates, k + 1, s)
  {
    var a := s.strip(alternates[k]);
    forall x
      ensures Offered(x, name, alternates[..k + 1], s)
         <==> Offered(x, name, alternates[..k], s) || (x == a && s.usable(a))
    {
    }
  }

  lemma FoldPermutation(a: seq<string>, b: seq<string>, s: Names)
    requires multiset(a) == multiset(b) && DistinctFold(a, s)
    ensures DistinctFold(b, s)
  {
    SameElements(a, b);
    assert Distinct(a);
    DistinctPermutation(a, b);
    forall i, j | 0 <= i < j < |b| ensures s.lower(b[i]) != s.lower(b[j]) {
      assert b[i] in a && b[j] in a;
      var k :| 0 <= k < |a| && a[k] == b[i];
      var m :| 0 <= m < |a| && a[m] == b[j];
      if k < m {
        assert s.lower(a[k]) != s.lower(a[m]);
      } else {
        assert s.lower(a[m]) != s.lower(a[k]);
      }
    }
  }

  // ---------- candidates ----------

  datatype Candidate = Candidate(lat: real, lng: real, population: int)

  function FixedToReal(v: int): real {
    v as real / 100_000.0
  }

  function CandidateAt(f: seq<byte>, h: Header, e: nat): Option<Candidate> {
    match ReadInt32(f, h.latOffset, e)
    case None => None
    case Some(lat) =>
      match ReadInt32(f, h.lngOffset, e)
      case None => None
      case Some(lng) =>
        match ReadInt32(f, h.populationOffset, e)
        case None => None
        case Some(pop) => Some(Candidate(FixedToReal(lat), FixedToReal(lng), pop))
  }

  function CandidatesAt(f: seq<byte>, h: Header, es: seq<nat>): Option<seq<Candidate>> {
    if es == [] then Some([])
    else
      match CandidatesAt(f, h, es[..|es| - 1])
      case None => None
      case Some(init) =>
        match CandidateAt(f, h, es[|es| - 1])
        case None => None
        case Some(c) => Some(init + [c])
  }

  function AllZero32(f: seq<byte>, h: Header, es: seq<nat>): Option<bool> {
    if es == [] then Some(true)
    else
      match ReadInt32(f, h.populationOffset, es[0])
      case None => None
      case Some(pop) => if pop != 0 then Some(false) else AllZero32(f, h, es[1..])
  }

  method CandidatesOf(f: seq<byte>, h: Header, es: seq<nat>) returns (out: Option<seq<Candidate>>)
    ensures out == CandidatesAt(f, h, es)
  {
    hide CandidateAt;
    var list: seq<Candidate> := [];
    for i := 0 to |es|
      invariant CandidatesAt(f, h, es[..i]) == Some(list)
    {
      assert es[..i + 1][..i] == es[..i];
      var c := CandidateAt(f, h, es[i]);
      if c == None {
        NoneOnwards(f, h, es, i + 1);
        return None;
      }
      list := list + [c.value];
    }
    assert es[..|es|] == es;
    return Some(list);
  }

  lemma {:induction false} NoneOnwards(f: seq<byte>, h: Header, es: seq<nat>, k: nat)
    requires k <= |es| && CandidatesAt(f, h, es[..k]) == None
    ensures CandidatesAt(f, h, es) == None
    decreases |es|
  {
    if k == |es| {
      assert es[..k] == es;
    } else {
      var init := es[..|es| - 1];
      assert init[..k] == es[..k];
      NoneOnwards(f, h, init, k);
    }
  }

  method AllZeroPopulation(f: seq<byte>, h: Header, es: seq<nat>) returns (r: Option<bool>)
    ensures r == AllZero32(f, h, es)
  {
    hide ReadInt32;
    assert es[0..] == es;
    for i := 0 to |es|
      invariant AllZero32(f, h, es) == AllZero32(f, h, es[i..])
    {
      assert es[i..][1..] == es[i + 1..];
      var pop := ReadInt32(f, h.populationOffset, es[i]);
      if pop == None {
        return None;
      }
      if pop.value != 0 {
        return Some(false);
      }
    }
    return Some(true);
  }

  function LastIndex(s: string, c: char): (k: int)
    ensures -1 <= k < |s|
    ensures k >= 0 ==> s[k] == c
    ensures forall i :: k < i < |s| ==> s[i] != c
  {
    if s == "" then -1
    else if s[|s| - 1] == c then |s| - 1
    else LastIndex(s[..|s| - 1], c)
  }

  /** The key a location string asks for: its last comma divides city and country. */
  function QueryKey(location: string, countries: map<string, string>, n: Naming): Option<string> {
    var comma := LastIndex(location, ',');
    if comma < 0 then None
    else
      var city, country := n.norm(location[..comma]), n.norm(location[comma + 1..]);
      if city == "" || country == "" || country !in countries then None
      else Some(countries[country] + "\0" + city)
  }

  /** Which matches count: the primary ones if any, with the aliases too when all of those have population 0. */
  function Tiers(f: seq<byte>, h: Header, m: LookupResult): Option<seq<nat>> {
    if m.primary == [] then Some(m.alias)
    else if m.alias == [] then Some(m.primary)
    else
      match AllZero32(f, h, m.primary)
      case None => None
      case Some(zero) => Some(if zero then m.primary + m.alias else m.primary)
  }

  /** `candidates`: no candidates for a string that asks for nothing, no result on a read error. */
  method FindCandidates(f: seq<byte>, h: Header, countries: map<string, string>, location: string, n: Naming)
    returns (out: Option<seq<Candidate>>)
    ensures out == CandidatesIn(f, h, countries, location, n)
  {
    hide LookupIn, AllZero32, CandidatesAt, LastIndex;
    var comma := LastIndex(location, ',');
    if comma < 0 {
      return Some([]);
    }
    var city, country := n.norm(location[..comma]), n.norm(location[comma + 1..]);
    if city == "" || country == "" || country !in countries {
      return Some([]);
    }
    var m := Lookup(f, h, n.hash(countries[country] + "\0" + city));
    if m == None {
      return None;
    }
    if |m.value.primary| == 0 {
      if |m.value.alias| == 0 {
        NoneToRead(f, h);
        return Some([]);
      }
      out := CandidatesOf(f, h, m.value.alias);
    } else if |m.value.alias| == 0 {
      out := CandidatesOf(f, h, m.value.primary);
    } else {
      var zero := AllZeroPopulation(f, h, m.value.primary);
      if zero == None {
        return None;
      }
      if !zero.value {
        out := CandidatesOf(f, h, m.value.primary);
      } else {
        out := CandidatesOf(f, h, m.value.primary + m.value.alias);
      }
    }
  }

  lemma {:induction false} NoneToRead(f: seq<byte>, h: Header)
    ensures CandidatesAt(f, h, []) == Some([])
  {
  }

  function CandidatesIn(f: seq<byte>, h: Header, countries: map<string, string>, location: string,
                        n: Naming): Option<seq<Candidate>> {
    match QueryKey(location, countries, n)
    case None => Some([])
    case Some(key) =>
      match LookupIn(f, h, n.hash(key))
      case None => None
      case Some(m) =>
        match Tiers(f, h, m)
        case None => None
        case Some(es) => CandidatesAt(f, h, es)
  }

  /** `Resolve` on a list of candidates: the most populous, the first of equals. */
  method MostPopulous(candidates: seq<Candidate>) returns (k: nat)
    requires candidates != []
    ensures k < |candidates|
    ensures forall i :: 0 <= i < |candidates| ==> candidates[i].population <= candidates[k].population
    ensures forall i :: 0 <= i < k ==> candidates[i].population < candidates[k].population
  {
    k := 0;
    for i := 1 to |candidates|
      invariant k < i
      invariant forall j :: 0 <= j < i ==> candidates[j].population <= candidates[k].population
      invariant forall j :: 0 <= j < k ==> candidates[j].population < candidates[k].population
    {
      if candidates[i].population > candidates[k].population {
        k := i;
      }
    }
  }

  // ---------- the reference over the place list ----------

  /** The places among the first `k` whose own name has the key, in order. */
  function PrimaryPlaces(places: seq<Place>, k: nat, key: string, n: Naming): (r: seq<nat>)
    requires k <= |places|
    ensures forall i :: i in r <==> 0 <= i < k && PrimaryKey(places[i], n) == key
    ensures AllPlaces(places, r)
  {
    if k == 0 then []
    else
      var init := PrimaryPlaces(places, k - 1, key, n);
      if PrimaryKey(places[k - 1], n) == key then init + [k - 1] else init
  }

  /** A place's entry, once for each of its other names with the key, unless its own name has it. */
  function AliasHits(p: Place, aliases: seq<string>, idx: nat, key: string, n: Naming): (r: seq<nat>)
    ensures forall e :: e in r ==> e == idx
    ensures PrimaryKey(p, n) == key ==> r == []
  {
    if aliases == [] then []
    else
      var init := AliasHits(p, aliases[..|aliases| - 1], idx, key, n);
      if KeyFor(p.iso, aliases[|aliases| - 1], n) == key && PrimaryKey(p, n) != key then init + [idx] else init
  }

  function AliasPlaces(places: seq<Place>, k: nat, key: string, n: Naming): (r: seq<nat>)
    requires k <= |places|
    ensures forall j :: 0 <= j < |r| ==> r[j] < k && PrimaryKey(places[r[j]], n) != key
    ensures AllPlaces(places, r)
  {
    if k == 0 then []
    else
      var init, hits := AliasPlaces(places, k - 1, key, n),
                        AliasHits(places[k - 1], places[k - 1].aliases, k - 1, key, n);
      assert forall j :: 0 <= j < |init + hits| ==>
          if j < |init| then (init + hits)[j] == init[j]
          else (init + hits)[j] == hits[j - |init|] && hits[j - |init|] in hits;
      init + hits
  }

  function CandidateOf(p: Place): Candidate {
    Candidate(FixedToReal(p.lat), FixedToReal(p.lng), p.population)
  }

  ghost function CandidateList(places: seq<Place>, es: seq<nat>): seq<Candidate>
    requires AllPlaces(places, es)
  {
    if es == [] then [] else CandidateList(places, es[..|es| - 1]) + [CandidateOf(places[es[|es| - 1]])]
  }

  ghost predicate AllPlaces(places: seq<Place>, es: seq<nat>) {
    forall k :: 0 <= k < |es| ==> es[k] < |places|
  }

  ghost predicate Unpopulated(places: seq<Place>, es: seq<nat>)
    requires AllPlaces(places, es)
  {
    forall k :: 0 <= k < |es| ==> places[es[k]].population == 0
  }

  /**
   The places a key stands for: those of that name; when there are none, those with that other name;
   and both, when every place of that name is unpopulated.
   */
  ghost function Reference(places: seq<Place>, key: string, n: Naming): (r: seq<nat>)
    ensures AllPlaces(places, r)
  {
    var ps, as' := PrimaryPlaces(places, |places|, key, n), AliasPlaces(places, |places|, key, n);
    if ps == [] then as'
    else if as' != [] && Unpopulated(places, ps) then ps + as'
    else ps
  }

  /** No name of a place shares its hash with the key without being the key. */
  ghost predicate NoCollision(places: seq<Place>, key: string, n: Naming) {
    forall p :: p in places ==>
      && (n.hash(PrimaryKey(p, n)) == n.hash(key) ==> PrimaryKey(p, n) == key)
      && forall a :: a in p.aliases && n.hash(KeyFor(p.iso, a, n)) == n.hash(key) ==> KeyFor(p.iso, a, n) == key
  }

  lemma {:induction false} MatchesConcat(a: seq<KeyRow>, b: seq<KeyRow>, hash: int, primary: bool)
    ensures Matches(a + b, hash, primary) == Matches(a, hash, primary) + Matches(b, hash, primary)
  {
    if b == [] {
      assert a + b == a;
    } else {
      assert (a + b)[..|a + b| - 1] == a + b[..|b| - 1];
      MatchesConcat(a, b[..|b| - 1], hash, primary);
    }
  }

  lemma {:induction false} AliasMatches(p: Place, aliases: seq<string>, idx: nat, key: string, n: Naming)
    requires forall a :: a in aliases && n.hash(KeyFor(p.iso, a, n)) == n.hash(key) ==> KeyFor(p.iso, a, n) == key
    ensures Matches(AliasRows(p, aliases, idx, n), n.hash(key), true) == []
    ensures Matches(AliasRows(p, aliases, idx, n), n.hash(key), false) == AliasHits(p, aliases, idx, key, n)
  {
    hide KeyFor;
    if aliases != [] {
      var init := aliases[..|aliases| - 1];
      AliasMatches(p, init, idx, key, n);
      var alias := KeyFor(p.iso, aliases[|aliases| - 1], n);
      var row := KeyRow(n.hash(alias), idx, FLAG_ALIAS);
      MatchesAppend(AliasRows(p, init, idx, n), row, n.hash(key), true);
      MatchesAppend(AliasRows(p, init, idx, n), row, n.hash(key), false);
    }
  }

  lemma {:induction false} RowMatches(p: Place, idx: nat, key: string, n: Naming)
    requires NoCollision([p], key, n)
    ensures Matches(RowsFor(p, idx, n), n.hash(key), true) == if PrimaryKey(p, n) == key then [idx] else []
    ensures Matches(RowsFor(p, idx, n), n.hash(key), false) == AliasHits(p, p.aliases, idx, key, n)
  {
    hide KeyFor, Matches;
    assert p in [p];
    AliasMatches(p, p.aliases, idx, key, n);
    var row := KeyRow(n.hash(PrimaryKey(p, n)), idx, FLAG_PRIMARY);
    assert [] + [row] == [row];
    NoRows(n.hash(key));
    MatchesAppend([], row, n.hash(key), true);
    MatchesAppend([], row, n.hash(key), false);
    MatchesConcat([row], AliasRows(p, p.aliases, idx, n), n.hash(key), true);
    MatchesConcat([row], AliasRows(p, p.aliases, idx, n), n.hash(key), false);
  }

  lemma {:induction false} NoRows(hash: int)
    ensures Matches([], hash, true) == [] && Matches([], hash, false) == []
  {
  }

  /** Without collisions, the rows with a key's hash are the places the key stands for. */
  lemma {:induction false} BuildMatches(places: seq<Place>, k: nat, key: string, n: Naming)
    requires k <= |places| && NoCollision(places, key, n)
    ensures Matches(RowsUpTo(places, k, n), n.hash(key), true) == PrimaryPlaces(places, k, key, n)
    ensures Matches(RowsUpTo(places, k, n), n.hash(key), false) == AliasPlaces(places, k, key, n)
  {
    hide KeyFor, Matches, RowsFor, AliasHits;
    if k == 0 {
      NoRows(n.hash(key));
    } else {
      BuildMatches(places, k - 1, key, n);
      assert places[k - 1] in places;
      RowMatches(places[k - 1], k - 1, key, n);
      var init, last := RowsUpTo(places, k - 1, n), RowsFor(places[k - 1], k - 1, n);
      MatchesConcat(init, last, n.hash(key), true);
      MatchesConcat(init, last, n.hash(key), false);
    }
  }

  lemma {:induction false} ReadCandidates(f: seq<byte>, h: Header, places: seq<Place>, es: seq<nat>)
    requires forall i :: 0 <= i < |places| ==> HoldsEntry(f, h, i, EntriesOf(places)[i])
    requires AllPlaces(places, es)
    ensures CandidatesAt(f, h, es) == Some(CandidateList(places, es))
  {
    hide ReadInt32;
    if es != [] {
      ReadCandidates(f, h, places, es[..|es| - 1]);
      var last := es[|es| - 1];
      assert HoldsEntry(f, h, last, EntriesOf(places)[last]);
    }
  }

  lemma {:induction false} ReadAllZero(f: seq<byte>, h: Header, places: seq<Place>, es: seq<nat>)
    requires forall i :: 0 <= i < |places| ==> HoldsEntry(f, h, i, EntriesOf(places)[i])
    requires AllPlaces(places, es)
    ensures AllZero32(f, h, es) == Some(Unpopulated(places, es))
  {
    hide ReadInt32;
    if es != [] {
      ReadAllZero(f, h, places, es[1..]);
      assert HoldsEntry(f, h, es[0], EntriesOf(places)[es[0]]);
    }
  }

  lemma BothPlaces(places: seq<Place>, a: seq<nat>, b: seq<nat>)
    requires AllPlaces(places, a) && AllPlaces(places, b)
    ensures AllPlaces(places, a + b)
  {
  }

  /**
   Searching the packed file for a location gives exactly the candidates the place list gives for
   its key, when no other name shares the key's hash.
   */
  lemma {:induction false} CandidatesAreReference(places: seq<Place>, countries: map<string, string>,
      location: string, n: Naming)
    requires Fits(EntriesOf(places), RowsUpTo(places, |places|, n))
    requires var key := QueryKey(location, countries, n); key.Some? ==> NoCollision(places, key.value, n)
    ensures
      var f := Serialize(EntriesOf(places), RowsUpTo(places, |places|, n));
      var key := QueryKey(location, countries, n);
      && f.Some? && ReadHeader(f.value).Ok?
      && CandidatesIn(f.value, ReadHeader(f.value).value, countries, location, n)
      == Some(if key.None? then [] else CandidateList(places, Reference(places, key.value, n)))
  {
    hide Fits, Serialize, ReadHeader, HoldsRow, HoldsEntry, LookupIn, CandidatesAt, AllZero32, QueryKey, NoCollision,
         PrimaryPlaces, AliasPlaces, RowsUpTo, Matches, StableSort, CandidateList, Unpopulated, AllPlaces;
    var entries, rows := EntriesOf(places), RowsUpTo(places, |places|, n);
    PackedHolds(entries, rows);
    var key := QueryKey(location, countries, n);
    if key.Some? {
      var f := Serialize(entries, rows).value;
      var h := ReadHeader(f).value;
      LookupFindsMatches(entries, rows, n.hash(key.value));
      BuildMatches(places, |places|, key.value, n);
      var ps, as' := PrimaryPlaces(places, |places|, key.value, n), AliasPlaces(places, |places|, key.value, n);
      ReadAllZero(f, h, places, ps);
      ReadCandidates(f, h, places, ps);
      ReadCandidates(f, h, places, as');
      BothPlaces(places, ps, as');
      ReadCandidates(f, h, places, ps + as');
    }
  }

  /** Whatever collides, a place is in the primary tier of a lookup of its own name. */
  lemma {:induction false} FindsItself(places: seq<Place>, k: nat, i: nat, n: Naming)
    requires i < k <= |places|
    ensures i in Matches(RowsUpTo(places, k, n), n.hash(PrimaryKey(places[i], n)), true)
  {
    hide KeyFor, Matches;
    var hash := n.hash(PrimaryKey(places[i], n));
    var init, last := RowsUpTo(places, k - 1, n), RowsFor(places[k - 1], k - 1, n);
    MatchesConcat(init, last, hash, true);
    if i == k - 1 {
      var row := KeyRow(hash, i, FLAG_PRIMARY);
      MatchesConcat([row], AliasRows(places[i], places[i].aliases, i, n), hash, true);
      assert [] + [row] == [row];
      MatchesAppend([], row, hash, true);
    } else {
      FindsItself(places, k - 1, i, n);
    }
  }

  /** Without collisions, no place is in both tiers of a lookup. */
  lemma {:induction false} NeverInBothTiers(places: seq<Place>, key: string, n: Naming, i: nat)
    requires NoCollision(places, key, n)
    ensures
      var rows := RowsUpTo(places, |places|, n);
      !(i in Matches(rows, n.hash(key), true) && i in Matches(rows, n.hash(key), false))
  {
    BuildMatches(places, |places|, key, n);
  }
}
