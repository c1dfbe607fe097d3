/**
 * The country list built at start-up and `findCountry`, the fuzzy lookup of
 * a country's 3-letter code by its English name. The similarity library's
 * `ref.score(candidate, fuzziness)` is passed in as `score(ref, candidate, fuzziness)`.
 */
module Countries {
  import opened Js
  import opened Strings
  import opened Interning
  import opened StaticStrings

  /** One record of the country reference data; a field may be missing (None). */
  datatype Country = Country(code: string, name: Option<string>, alpha3: Option<string>)

  /** `ref.score(candidate, fuzziness)`. */
  type Scorer = (string, string, real) -> real

  const GREAT_BRITAIN := "Great Britain"
  const THE := "The "

  // ----- The country list -----

  /** The key argument `countryData.countries[code].name` (undefined when missing). */
  function NameArg(c: Country): Value {
    if c.name.Some? then Str(c.name.value) else Undefined
  }

  /** Only codes of at least three characters are listed. */
  predicate Listed(c: Country) {
    3 <= |c.code|
  }

  /** The normalised constructions `__('countries', name)` that building the list performs, in order. */
  function CountryCalls(data: seq<Country>): seq<Entry>
    decreases |data|
  {
    if data == [] then []
    else
      var last := data[|data| - 1];
      CountryCalls(data[..|data| - 1])
        + (if Listed(last) then [Normalize(Str("countries"), NameArg(last), Undefined, Undefined)] else [])
  }

  /** The codes the list gets: those of length 3 or more. */
  function ListedCodes(data: seq<Country>): set<string> {
    set j | 0 <= j < |data| && Listed(data[j]) :: data[j].code
  }

  lemma ListedCodesSnoc(data: seq<Country>, i: nat)
    requires i < |data|
    ensures ListedCodes(data[..i + 1]) == ListedCodes(data[..i]) + (if Listed(data[i]) then {data[i].code} else {})
  {
  }

  /** After the first `i` records: the listed codes are the keys, each with its handle. */
  ghost predicate ListedSoFar(data: seq<Country>, i: nat, countries: map<string, StaticString>)
    requires i <= |data|
  {
    && countries.Keys == ListedCodes(data[..i])
    && forall j :: 0 <= j < i && Listed(data[j]) ==> data[j].code in countries && ListedAs(countries[data[j].code], data[j])
  }

  /** A short code leaves the list as it is. */
  lemma ListedSoFarSkip(data: seq<Country>, i: nat, countries: map<string, StaticString>)
    requires i < |data| && !Listed(data[i]) && ListedSoFar(data, i, countries)
    ensures ListedSoFar(data, i + 1, countries)
  {
  }

  /** A listed code adds its handle; the distinct codes keep the earlier entries. */
  lemma ListedSoFarAdd(data: seq<Country>, i: nat, countries: map<string, StaticString>, h: StaticString)
    requires forall i, j :: 0 <= i < j < |data| ==> data[i].code != data[j].code
    requires i < |data| && Listed(data[i]) && ListedSoFar(data, i, countries)
    requires ListedAs(h, data[i])
    ensures ListedSoFar(data, i + 1, countries[data[i].code := h])
  {
  }

  lemma CountryCallsSnoc(data: seq<Country>, i: nat)
    requires i < |data|
    ensures CountryCalls(data[..i + 1]) == CountryCalls(data[..i])
      + (if Listed(data[i]) then [Normalize(Str("countries"), NameArg(data[i]), Undefined, Undefined)] else [])
  {
    assert data[..i + 1][..i] == data[..i];
  }

  /**
   * The handle listed for a country: domain "countries" and the name as key;
   * without a name, the arguments shift and it is the key "countries" in the
   * domain "default".
   */
  predicate ListedAs(h: StaticString, c: Country) {
    if c.name.Some? then h.domain == Str("countries") && h.key == Str(c.name.value) && h.placeholders == Undefined
    else h.domain == Str("default") && h.key == Str("countries") && h.placeholders == Undefined
  }

  /** `__('countries', name)` for one listed country. */
  method ListCountry(reg: Registry, c: Country) returns (h: StaticString)
    requires reg.Valid()
    modifies reg, reg.Handles()
    ensures reg.Valid() && fresh(h) && reg.Handles() <= old(reg.Handles()) + {h}
    ensures ListedAs(h, c)
    ensures h.View() == Normalize(Str("countries"), NameArg(c), Undefined, Undefined)
    ensures reg.Abstract() == Step(old(reg.Abstract()), h.View())
  {
    h := Translate(reg, Str("countries"), NameArg(c), Undefined);
  }

  /**
   * The `for (code in countryData.countries)` loop: every code of length 3 or
   * more gets the handle `__('countries', name)`, shorter codes are skipped.
   * Codes are distinct, being the keys of an object.
   */
  method BuildCountryList(reg: Registry, data: seq<Country>) returns (countries: map<string, StaticString>)
    requires reg.Valid()
    requires forall i, j :: 0 <= i < j < |data| ==> data[i].code != data[j].code
    modifies reg, reg.Handles()
    ensures reg.Valid()
    ensures countries.Keys == ListedCodes(data)
    ensures forall i :: 0 <= i < |data| && Listed(data[i]) ==> ListedAs(countries[data[i].code], data[i])
    ensures reg.Abstract() == Run(old(reg.Abstract()), CountryCalls(data))
  {
    ghost var start := reg.Abstract();
    ghost var calls: seq<Entry> := [];
    ghost var added: set<StaticString> := {};
    countries := map[];
    var i := 0;
    assert data[..0] == [];
    while i < |data|
      invariant 0 <= i <= |data|
      invariant reg.Valid()
      invariant fresh(added) && reg.Handles() <= old(reg.Handles()) + added
      invariant ListedSoFar(data, i, countries)
      invariant calls == CountryCalls(data[..i])
      invariant reg.Abstract() == Run(start, calls)
    {
      CountryCallsSnoc(data, i);
      var country := data[i];
      if |country.code| < 3 {
        assert CountryCalls(data[..i + 1]) == CountryCalls(data[..i]);
        ListedSoFarSkip(data, i, countries);
        i := i + 1;
        continue;
      }
      ghost var prev := reg.Abstract();
      var h := ListCountry(reg, country);
      ListedSoFarAdd(data, i, countries, h);
      countries := countries[country.code := h];
      assert reg.Abstract() == Step(prev, h.View());
      assert CountryCalls(data[..i + 1]) == calls + [h.View()];
      RunSnoc(start, calls, h.View());
      calls := calls + [h.View()];
      added := added + {h};
      i := i + 1;
    }
    assert data[..i] == data;
    assert calls == CountryCalls(data);
    assert ListedSoFar(data, |data|, countries);
  }

  // ----- findCountry -----

  /** An entry takes part in the search only when it has a name and an alpha3 code. */
  predicate Considered(c: Country) {
    c.name.Some? && c.name.value != "" && c.alpha3.Some? && c.alpha3.value != ""
  }

  /** The entry's score against the searched name, with fuzziness 0.5. */
  function ScoreOf(c: Country, name: string, score: Scorer): real {
    score(if c.name.Some? then c.name.value else "", name, 0.5)
  }

  predicate Exact(c: Country, name: string, score: Scorer) {
    Considered(c) && ScoreOf(c, name, score) == 1.0
  }

  /** The first considered entry at or after `from` whose score is exactly 1. */
  function FirstExactFrom(t: seq<Country>, name: string, score: Scorer, from: nat): (r: Option<nat>)
    requires from <= |t|
    ensures r.Some? ==> from <= r.value < |t| && Exact(t[r.value], name, score)
    ensures forall j :: from <= j < |t| && (r.None? || j < r.value) ==> !Exact(t[j], name, score)
    decreases |t| - from
  {
    if from == |t| then None
    else if Exact(t[from], name, score) then Some(from)
    else FirstExactFrom(t, name, score, from + 1)
  }

  function FirstExact(t: seq<Country>, name: string, score: Scorer): (r: Option<nat>)
    ensures r.Some? ==> r.value < |t| && Exact(t[r.value], name, score)
    ensures forall j :: 0 <= j < |t| && (r.None? || j < r.value) ==> !Exact(t[j], name, score)
  {
    FirstExactFrom(t, name, score, 0)
  }

  /**
   * Entry `i` is the best match among the first `k` entries: considered,
   * scoring above 0, scoring at least as much as every considered entry, and
   * strictly more than every earlier one.
   */
  ghost predicate IsBest(t: seq<Country>, name: string, score: Scorer, k: nat, i: nat) {
    && i < k <= |t|
    && Considered(t[i])
    && 0.0 < ScoreOf(t[i], name, score)
    && (forall j :: 0 <= j < k && Considered(t[j]) ==> ScoreOf(t[j], name, score) <= ScoreOf(t[i], name, score))
    && (forall j :: 0 <= j < i && Considered(t[j]) ==> ScoreOf(t[j], name, score) < ScoreOf(t[i], name, score))
  }

  /** The running best among the first `k` entries: replaced only by a strictly higher score, starting from 0. */
  function Best(t: seq<Country>, name: string, score: Scorer, k: nat): (r: Option<nat>)
    requires k <= |t|
    ensures r.Some? ==> IsBest(t, name, score, k, r.value)
    ensures r.None? ==> forall j :: 0 <= j < k && Considered(t[j]) ==> ScoreOf(t[j], name, score) <= 0.0
  {
    if k == 0 then None
    else
      var b := Best(t, name, score, k - 1);
      var current := if b.Some? then ScoreOf(t[b.value], name, score) else 0.0;
      if Considered(t[k - 1]) && ScoreOf(t[k - 1], name, score) > current then Some(k - 1) else b
  }

  /** The name searched for: the first "The " removed. */
  function Searched(name: string): string {
    ReplaceFirst(name, THE, "")
  }

  /** What `findCountry(name)` returns, None standing for undefined. */
  function CountryMatch(name: Option<string>, t: seq<Country>, score: Scorer): Option<string> {
    if name.None? || name.value == "" then None
    else if score(GREAT_BRITAIN, name.value, 0.9) > 0.7 then Some("GBR")
    else
      var n := Searched(name.value);
      match FirstExact(t, n, score)
      case Some(i) => t[i].alpha3
      case None =>
        match Best(t, n, score, |t|)
        case Some(i) => t[i].alpha3
        case None => None
  }

  /** `findCountry(name)` over the reference entries in iteration order. */
  method FindCountry(name: Option<string>, table: seq<Country>, score: Scorer) returns (code: Option<string>)
    ensures code == CountryMatch(name, table, score)
  {
    var currentScore: real := 0.0;
    var currentCode: Option<string> := None;
    if name.None? || name.value == "" {
      return None;
    }
    if score(GREAT_BRITAIN, name.value, 0.9) > 0.7 {
      return Some("GBR");
    }
    var n := ReplaceFirst(name.value, THE, "");
    ghost var best: Option<nat> := None;
    var i := 0;
    while i < |table|
      invariant i <= |table|
      invariant forall j :: 0 <= j < i ==> !Exact(table[j], n, score)
      invariant best == Best(table, n, score, i)
      invariant currentCode == if best.Some? then table[best.value].alpha3 else None
      invariant currentScore == if best.Some? then ScoreOf(table[best.value], n, score) else 0.0
    {
      var country := table[i];
      if country.name.None? || country.name.value == "" || country.alpha3.None? || country.alpha3.value == "" {
        i := i + 1;
        continue;
      }
      var s := score(country.name.value, n, 0.5);
      if s == 1.0 {
        return country.alpha3;
      }
      if s > currentScore {
        currentScore := s;
        currentCode := country.alpha3;
        best := Some(i);
      }
      i := i + 1;
    }
    return currentCode;
  }

  // ----- Properties of findCountry -----

  /** An empty or missing name gives undefined. */
  lemma NoNameNoMatch(t: seq<Country>, score: Scorer)
    ensures CountryMatch(None, t, score) == None
    ensures CountryMatch(Some(""), t, score) == None
  {
  }

  /** A name close enough to "Great Britain" gives "GBR", whatever the table holds. */
  lemma GreatBritainFirst(name: string, t: seq<Country>, score: Scorer)
    requires name != "" && score(GREAT_BRITAIN, name, 0.9) > 0.7
    ensures CountryMatch(Some(name), t, score) == Some("GBR")
  {
  }

  /** The first considered entry scoring exactly 1 wins, whatever the later entries score. */
  lemma ExactMatchWins(name: string, t: seq<Country>, score: Scorer, i: nat)
    requires name != "" && score(GREAT_BRITAIN, name, 0.9) <= 0.7
    requires i < |t| && Exact(t[i], Searched(name), score)
    requires forall j :: 0 <= j < i ==> !Exact(t[j], Searched(name), score)
    ensures CountryMatch(Some(name), t, score) == t[i].alpha3
  {
  }

  /**
   * Without an exact match the result is the alpha3 code of the earliest
   * entry with the strictly highest positive score, and undefined exactly
   * when no considered entry scores above 0.
   */
  lemma BestMatchSelected(name: string, t: seq<Country>, score: Scorer)
    requires name != "" && score(GREAT_BRITAIN, name, 0.9) <= 0.7
    requires forall j :: 0 <= j < |t| ==> !Exact(t[j], Searched(name), score)
    ensures var r := CountryMatch(Some(name), t, score);
      && (r.None? <==> forall j :: 0 <= j < |t| && Considered(t[j]) ==> ScoreOf(t[j], Searched(name), score) <= 0.0)
      && (forall i :: 0 <= i < |t| && IsBest(t, Searched(name), score, |t|, i) ==> r == t[i].alpha3)
      && (r.Some? ==> exists i :: 0 <= i < |t| && IsBest(t, Searched(name), score, |t|, i) && r == t[i].alpha3)
  {
    var n := Searched(name);
    var b := Best(t, n, score, |t|);
    assert FirstExact(t, n, score).None?;
    forall i | 0 <= i < |t| && IsBest(t, n, score, |t|, i)
      ensures b == Some(i)
    {
      assert b.Some?;
      assert b.value == i;
    }
  }

  /** A result is "GBR" or the alpha3 code of a considered entry of the table. */
  lemma MatchComesFromTable(name: Option<string>, t: seq<Country>, score: Scorer)
    ensures var r := CountryMatch(name, t, score);
      r.Some? ==> r.value == "GBR" || exists i :: 0 <= i < |t| && Considered(t[i]) && t[i].alpha3 == r
  {
  }

  /**
   * A leading "The " does not matter: "The Bahamas" and "Bahamas" give the
   * same result, as long as neither is close to "Great Britain".
   */
  lemma LeadingTheIgnored(rest: string, t: seq<Country>, score: Scorer)
    requires rest != ""
    requires forall p: nat :: !OccursAt(rest, THE, p)
    requires score(GREAT_BRITAIN, THE + rest, 0.9) <= 0.7 && score(GREAT_BRITAIN, rest, 0.9) <= 0.7
    ensures CountryMatch(Some(THE + rest), t, score) == CountryMatch(Some(rest), t, score)
  {
    StripLeading(THE, rest);
    ReplaceAbsent(rest, THE, "");
  }
}
