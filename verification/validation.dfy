/**
 * Request and response schemas of the two routes, with the validation the
 * request bodies go through before a route runs.
 */
module Validation {
  import opened Wrappers
  import opened OrmBase

  /** Required length of every `iso` field (ISO 3166-1 alpha-3). */
  const IsoLength: nat := 3

  /** One element of the merge request body as it arrives: `names` is a JSON array. */
  datatype RawCountryMap = RawCountryMap(iso: string, names: seq<string>)

  /**
   * `CountryMapIn` after validation. `names` is a set; it is kept here as the
   * order in which that set is iterated, which never repeats a name.
   */
  datatype CountryMapIn = CountryMapIn(iso: string, names: seq<string>)

  /** The match request body as it arrives: `countries` is a JSON array. */
  datatype RawMatchRequest = RawMatchRequest(iso: string, countries: seq<string>)

  /** `MatchedCountriesIn` after validation. */
  datatype MatchedCountriesIn = MatchedCountriesIn(iso: string, countries: set<string>)

  /** `MatchedCountriesOut`: the code, the number of matches and the matched names. */
  datatype MatchedCountriesOut = MatchedCountriesOut(iso: string, matchCount: int, matches: set<string>)

  /** Response schema `CountryCode`. */
  datatype CountryCodeOut = CountryCodeOut(id: int, code: string)

  /** Response schema `CountryName`. */
  datatype CountryNameOut = CountryNameOut(id: int, name: string, countryCodeId: int)

  /** `CountryMapOut`: the added codes and the added names, as two separate lists. */
  datatype CountryMapOut = CountryMapOut(codes: seq<CountryCodeOut>, names: seq<CountryNameOut>)

  /** A request body the schema rejects (HTTP 422); names the offending `iso`. */
  datatype ValidationError = BadIsoLength(iso: string)

  /** No name occurs twice. */
  predicate Distinct(xs: seq<string>)
  {
    forall i, j | 0 <= i < j < |xs| :: xs[i] != xs[j]
  }

  /** Collapsing a list into a set, keeping each element's first occurrence. */
  function Dedup(xs: seq<string>): (r: seq<string>)
    ensures Distinct(r)
    ensures forall x :: x in r <==> x in xs
    ensures |r| <= |xs|
  {
    if xs == [] then []
    else
      var rest := Dedup(xs[..|xs| - 1]);
      var last := xs[|xs| - 1];
      assert xs == xs[..|xs| - 1] + [last];
      if last in rest then rest else rest + [last]
  }

  /** Validating one merge entry: `iso` must be exactly three characters, `names` becomes a set. */
  function ParseCountryMap(raw: RawCountryMap): (r: Result<CountryMapIn, ValidationError>)
    ensures r.Success? <==> |raw.iso| == IsoLength
    ensures r.Success? ==> r.value.iso == raw.iso
    ensures r.Success? ==> Distinct(r.value.names) && (forall n :: n in r.value.names <==> n in raw.names)
    ensures r.Failure? ==> r.error == BadIsoLength(raw.iso)
  {
    if |raw.iso| != IsoLength then Failure(BadIsoLength(raw.iso))
    else Success(CountryMapIn(raw.iso, Dedup(raw.names)))
  }

  /**
   * Validating the whole merge body `list[CountryMapIn]`: one bad entry rejects
   * the request; the error names the first bad entry.
   */
  function ParseUpsertRequest(raws: seq<RawCountryMap>): (r: Result<seq<CountryMapIn>, ValidationError>)
    ensures r.Success? <==> forall i | 0 <= i < |raws| :: |raws[i].iso| == IsoLength
    ensures r.Success? ==> |r.value| == |raws|
    ensures r.Success? ==> forall i | 0 <= i < |raws| :: ParseCountryMap(raws[i]) == Success(r.value[i])
    ensures r.Failure? ==> exists i | 0 <= i < |raws| :: ParseCountryMap(raws[i]) == Failure(r.error)
  {
    if raws == [] then Success([])
    else
      match ParseCountryMap(raws[0])
      case Failure(e) => Failure(e)
      case Success(head) =>
        match ParseUpsertRequest(raws[1..])
        case Failure(e) =>
          assert forall i | 1 <= i < |raws| :: raws[1..][i - 1] == raws[i];
          Failure(e)
        case Success(tail) =>
          assert forall i | 1 <= i < |raws| :: raws[1..][i - 1] == raws[i];
          Success([head] + tail)
  }

  /** Validating the match body: `iso` must be exactly three characters, `countries` becomes a set. */
  function ParseMatchRequest(raw: RawMatchRequest): (r: Result<MatchedCountriesIn, ValidationError>)
    ensures r.Success? <==> |raw.iso| == IsoLength
    ensures r.Success? ==> r.value.iso == raw.iso && forall n :: n in r.value.countries <==> n in raw.countries
  {
    if |raw.iso| != IsoLength then Failure(BadIsoLength(raw.iso))
    else Success(MatchedCountriesIn(raw.iso, set n | n in raw.countries))
  }

  /** `CountryCode(**d)`: fields `id_` (int) and `code` (str); other keys are ignored. */
  function CodeOutFromDict(d: map<string, Value>): Option<CountryCodeOut>
  {
    if "id_" in d && "code" in d && d["id_"].IntVal? && d["code"].StrVal?
    then Some(CountryCodeOut(d["id_"].i, d["code"].s))
    else None
  }

  /** `CountryName(**d)`: fields `id_` (int), `name` (str), `country_code_id` (int). */
  function NameOutFromDict(d: map<string, Value>): Option<CountryNameOut>
  {
    if "id_" in d && "name" in d && "country_code_id" in d
       && d["id_"].IntVal? && d["name"].StrVal? && d["country_code_id"].IntVal?
    then Some(CountryNameOut(d["id_"].i, d["name"].s, d["country_code_id"].i))
    else None
  }
}
