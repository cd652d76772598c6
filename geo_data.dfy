/** GeoData.cs: the queries over the loaded data set. `GetCountry` and the
    proximity search `PostalCodeNearBy` are step-by-step code; the other
    queries are LINQ comprehensions. */
module GeoData {
  import opened Wrappers
  import opened Text
  import opened Seqs
  import opened Entities
  import opened Spatial
  import PhoneManager

  /** The collections a `GeoData` instance holds once loaded. */
  datatype Dataset = Dataset(
    timeZones: seq<TimeZone>,
    featureCodes: seq<FeatureCode>,
    countries: seq<Country>,
    geoNames: seq<GeoName>,
    postalCodes: seq<PostalCode>)

  // ------------------------------------------------------------ GetCountry

  /** The fields `GetCountry` compares the input with, in the order it tries them. */
  datatype CountryField = ISOAlpha2 | ISOAlpha3 | ISONumeric | Name | FipsCode

  function FieldValue(c: Country, f: CountryField): string {
    match f
    case ISOAlpha2 => c.isoAlpha2
    case ISOAlpha3 => c.isoAlpha3
    case ISONumeric => c.isoNumeric
    case Name => c.name
    case FipsCode => c.fipsCode
  }

  const Chain: seq<CountryField> := [ISOAlpha2, ISOAlpha3, ISONumeric, Name, FipsCode]

  /** `(from c in Countries where <field> == Input select c).FirstOrDefault()`. */
  function FirstWith(countries: seq<Country>, f: CountryField, input: string): Option<Country> {
    FirstOrDefault(countries, c => FieldValue(c, f) == input)
  }

  /** Country `i` is the one a chain of fields finds: for the earliest field
      of the chain that some country has equal to `input`, it is the first
      such country. */
  ghost predicate FoundAt(countries: seq<Country>, fields: seq<CountryField>, input: string, i: int) {
    0 <= i < |countries| &&
    exists k :: 0 <= k < |fields| && FieldValue(countries[i], fields[k]) == input &&
      (forall k', j :: 0 <= k' < k && 0 <= j < |countries| ==> FieldValue(countries[j], fields[k']) != input) &&
      (forall j :: 0 <= j < i ==> FieldValue(countries[j], fields[k]) != input)
  }

  /** The fallback chain over `fields`: the first country matching on the
      first field, else the chain over the remaining fields. */
  function FindFrom(countries: seq<Country>, fields: seq<CountryField>, input: string): Option<Country> {
    if fields == [] then None
    else match FirstWith(countries, fields[0], input)
      case Some(c) => Some(c)
      case None => FindFrom(countries, fields[1..], input)
  }

  /** The chain finds nothing exactly when no country matches on any field;
      otherwise it finds the first country for the earliest field matched. */
  lemma {:induction false} FindFromSpec(countries: seq<Country>, fields: seq<CountryField>, input: string)
    ensures var r := FindFrom(countries, fields, input);
      && (r.None? <==>
        forall k, j :: 0 <= k < |fields| && 0 <= j < |countries| ==> FieldValue(countries[j], fields[k]) != input)
      && (r.Some? ==> exists i :: FoundAt(countries, fields, input, i) && countries[i] == r.value)
  {
    if fields != [] {
      match FirstWith(countries, fields[0], input)
      case Some(c) =>
        var i :| 0 <= i < |countries| && countries[i] == c && FieldValue(c, fields[0]) == input &&
                 forall j :: 0 <= j < i ==> FieldValue(countries[j], fields[0]) != input;
        assert FoundAt(countries, fields, input, i);
      case None =>
        FindFromSpec(countries, fields[1..], input);
        var r := FindFrom(countries, fields[1..], input);
        assert forall k :: 0 < k < |fields| ==> fields[k] == fields[1..][k - 1];
        if r.Some? {
          var i :| FoundAt(countries, fields[1..], input, i) && countries[i] == r.value;
          FoundAtShift(countries, fields, input, i);
        }
    }
  }

  lemma FoundAtShift(countries: seq<Country>, fields: seq<CountryField>, input: string, i: int)
    requires fields != [] && forall j :: 0 <= j < |countries| ==> FieldValue(countries[j], fields[0]) != input
    requires FoundAt(countries, fields[1..], input, i)
    ensures FoundAt(countries, fields, input, i)
  {
    var k :| 0 <= k < |fields[1..]| && FieldValue(countries[i], fields[1..][k]) == input &&
      (forall k', j :: 0 <= k' < k && 0 <= j < |countries| ==> FieldValue(countries[j], fields[1..][k']) != input) &&
      (forall j :: 0 <= j < i ==> FieldValue(countries[j], fields[1..][k]) != input);
    assert fields[k + 1] == fields[1..][k];
    forall k', j | 0 <= k' < k + 1 && 0 <= j < |countries| ensures FieldValue(countries[j], fields[k']) != input {
      if k' > 0 { assert fields[k'] == fields[1..][k' - 1]; }
    }
  }

  /** The country `GetCountry` finds, before it sets its phone information. */
  function FindCountry(countries: seq<Country>, input: string): Option<Country> {
    FindFrom(countries, Chain, input)
  }

  /** `GetCountry` as a function: the country the chain finds, with its
      `PhoneInformation` replaced by the phone entries of its name. */
  function ResolveCountry(countries: seq<Country>, phones: seq<PhoneInformation>, input: string): (r: Option<Country>)
    ensures r.None? <==>
      forall k, j :: 0 <= k < |Chain| && 0 <= j < |countries| ==> FieldValue(countries[j], Chain[k]) != input
    ensures r.Some? ==>
      exists i :: FoundAt(countries, Chain, input, i) &&
        r.value == countries[i].(phoneInformation := Some(PhoneManager.AllByCountry(phones, countries[i].name)))
  {
    FindFromSpec(countries, Chain, input);
    match FindCountry(countries, input)
    case None => None
    case Some(c) => Some(c.(phoneInformation := Some(PhoneManager.AllByCountry(phones, c.name))))
  }

  /** `GetCountry`: ISOAlpha2, then ISOAlpha3, ISONumeric, Name and FipsCode,
      each compared exactly; the country found gets the phone entries of its
      name. */
  method GetCountry(d: Dataset, phones: seq<PhoneInformation>, input: string) returns (country: Option<Country>)
    ensures country == ResolveCountry(d.countries, phones, input)
  {
    ghost var fields := Chain;
    country := FirstWith(d.countries, ISOAlpha2, input);
    FindFromFirst(d.countries, fields, input);
    if country.None? {
      fields := fields[1..];
      country := FirstWith(d.countries, ISOAlpha3, input);
      FindFromFirst(d.countries, fields, input);
      if country.None? {
        fields := fields[1..];
        country := FirstWith(d.countries, ISONumeric, input);
        FindFromFirst(d.countries, fields, input);
        if country.None? {
          fields := fields[1..];
          country := FirstWith(d.countries, Name, input);
          FindFromFirst(d.countries, fields, input);
          if country.None? {
            fields := fields[1..];
            country := FirstWith(d.countries, FipsCode, input);
            FindFromFirst(d.countries, fields, input);
            assert fields[1..] == [];
          }
        }
      }
    }
    assert country == FindCountry(d.countries, input);
    if country.Some? {
      country := Some(country.value.(phoneInformation := Some(PhoneManager.AllByCountry(phones, country.value.name))));
    }
  }

  /** One step of the chain: the first field's match, or the rest of the chain. */
  lemma FindFromFirst(countries: seq<Country>, fields: seq<CountryField>, input: string)
    requires fields != []
    ensures FindFrom(countries, fields, input) ==
      if FirstWith(countries, fields[0], input).Some? then FirstWith(countries, fields[0], input)
      else FindFrom(countries, fields[1..], input)
  {
  }

  /** A country whose ISOAlpha2 equals the input is found by it, whatever the
      other countries' other fields hold. */
  lemma ResolveByIsoAlpha2(countries: seq<Country>, phones: seq<PhoneInformation>, i: nat)
    requires i < |countries|
    requires forall j :: 0 <= j < i ==> countries[j].isoAlpha2 != countries[i].isoAlpha2
    ensures ResolveCountry(countries, phones, countries[i].isoAlpha2) ==
      Some(countries[i].(phoneInformation := Some(PhoneManager.AllByCountry(phones, countries[i].name))))
  {
    var input := countries[i].isoAlpha2;
    var r := FirstWith(countries, ISOAlpha2, input);
    assert FieldValue(countries[i], ISOAlpha2) == input;
    var i' :| 0 <= i' < |countries| && countries[i'] == r.value && FieldValue(countries[i'], ISOAlpha2) == input &&
      forall j :: 0 <= j < i' ==> FieldValue(countries[j], ISOAlpha2) != input;
    assert i' == i;
  }

  // ------------------------------------------------ FeatureCode and TimeZone

  /** `FeatureCode(geoName)`: the first feature code whose Class is the
      GeoName's FeatureClass and whose Code is its FeatureCodeId. */
  function FeatureCodeOf(d: Dataset, g: GeoName): (r: Option<FeatureCode>)
    ensures r.None? <==> forall j :: 0 <= j < |d.featureCodes| ==>
      !(d.featureCodes[j].featureClass == g.featureClass && d.featureCodes[j].code == g.featureCodeId)
    ensures r.Some? ==>
      exists i :: 0 <= i < |d.featureCodes| && d.featureCodes[i] == r.value &&
        r.value.featureClass == g.featureClass && r.value.code == g.featureCodeId &&
        forall j :: 0 <= j < i ==> !(d.featureCodes[j].featureClass == g.featureClass && d.featureCodes[j].code == g.featureCodeId)
  {
    FirstOrDefault(d.featureCodes, (fc: FeatureCode) => fc.featureClass == g.featureClass && fc.code == g.featureCodeId)
  }

  /** `TimeZone(timeZoneId)`: the first time zone whose id equals the given one
      ignoring case; the country plays no part. */
  function TimeZoneById(d: Dataset, timeZoneId: string): (r: Option<TimeZone>)
    ensures r.None? <==> forall j :: 0 <= j < |d.timeZones| ==> !EqualsIgnoreCase(d.timeZones[j].timeZoneId, timeZoneId)
    ensures r.Some? ==>
      exists i :: 0 <= i < |d.timeZones| && d.timeZones[i] == r.value &&
        EqualsIgnoreCase(r.value.timeZoneId, timeZoneId) &&
        forall j :: 0 <= j < i ==> !EqualsIgnoreCase(d.timeZones[j].timeZoneId, timeZoneId)
  {
    FirstOrDefault(d.timeZones, (tz: TimeZone) => EqualsIgnoreCase(tz.timeZoneId, timeZoneId))
  }

  /** `TimeZone(geoName)`: the lookup by the GeoName's TimeZoneId. */
  function TimeZoneOf(d: Dataset, g: GeoName): (r: Option<TimeZone>)
    ensures r == TimeZoneById(d, g.timeZoneId)
  {
    FirstOrDefault(d.timeZones, (tz: TimeZone) => EqualsIgnoreCase(tz.timeZoneId, g.timeZoneId))
  }

  /** Ids that differ only in case find the same time zone. */
  lemma TimeZoneIgnoresCase(d: Dataset, id1: string, id2: string)
    requires EqualsIgnoreCase(id1, id2)
    ensures TimeZoneById(d, id1) == TimeZoneById(d, id2)
  {
    FirstOrDefaultAgree(d.timeZones,
      (tz: TimeZone) => EqualsIgnoreCase(tz.timeZoneId, id1),
      (tz: TimeZone) => EqualsIgnoreCase(tz.timeZoneId, id2));
  }

  // ------------------------------------------------------------- provinces

  predicate IsProvinceOf(g: GeoName, c: Country) {
    g.featureClass == "ADM1" && EqualsIgnoreCase(g.countryCode, c.isoAlpha2)
  }

  /** `ProvincesByCountry(Country)`: the GeoNames of feature class "ADM1"
      whose country code equals the country's ISOAlpha2 ignoring case, in
      order, each as often as it occurs. */
  function ProvincesOf(d: Dataset, c: Country): (r: seq<GeoName>)
    ensures forall g :: g in r <==> g in d.geoNames && IsProvinceOf(g, c)
    ensures forall g :: multiset(r)[g] == if IsProvinceOf(g, c) then multiset(d.geoNames)[g] else 0
  {
    var r := Filter(d.geoNames, g => IsProvinceOf(g, c));
    forall g ensures multiset(r)[g] == if IsProvinceOf(g, c) then multiset(d.geoNames)[g] else 0 {
      FilterCount(d.geoNames, g => IsProvinceOf(g, c), g);
    }
    r
  }

  /** The provinces keep the order of the GeoNames: those of two runs of
      GeoNames are the first run's followed by the second's. */
  lemma ProvincesOfAppend(d: Dataset, a: seq<GeoName>, b: seq<GeoName>, c: Country)
    ensures ProvincesOf(d.(geoNames := a + b), c) == ProvincesOf(d.(geoNames := a), c) + ProvincesOf(d.(geoNames := b), c)
  {
    FilterAppend(a, b, g => IsProvinceOf(g, c));
  }

  /** `ProvincesByCountry(string)`: null when the country does not resolve. */
  function ProvincesByName(d: Dataset, country: string): (r: Option<seq<GeoName>>)
    ensures r.None? <==> FindCountry(d.countries, country).None?
    ensures r.Some? ==> r.value == ProvincesOf(d, FindCountry(d.countries, country).value)
  {
    match FindCountry(d.countries, country)
    case None => None
    case Some(c) => Some(ProvincesOf(d, c))
  }

  /** The `Where` of `CountryHasProvince`, for a GeoName with alternate names. */
  predicate NamedAs(g: GeoName, province: string)
    requires g.alternateNames.Some?
  {
    province in g.alternateNames.value || EqualsIgnoreCase(g.asciiName, province)
  }

  /** `Count()` of that `Where`: it visits every GeoName and reads its
      AlternateNames first, so a GeoName without alternate names throws. */
  function CountNamed(provinces: seq<GeoName>, province: string): (r: Result<nat>)
    ensures r.Err? <==> exists i :: 0 <= i < |provinces| && provinces[i].alternateNames.None?
    ensures r.Err? ==> r.error == NullReference
    ensures r.Ok? ==> (r.value > 0 <==> exists i :: 0 <= i < |provinces| && NamedAs(provinces[i], province))
  {
    if provinces == [] then Ok(0)
    else if provinces[0].alternateNames.None? then Err(NullReference)
    else
      var rest := CountNamed(provinces[1..], province);
      assert forall i :: 0 < i < |provinces| ==> provinces[i] == provinces[1..][i - 1];
      match rest
      case Err(e) => Err(e)
      case Ok(n) => Ok(n + if NamedAs(provinces[0], province) then 1 else 0)
  }

  /** `CountryHasProvince`: false when the country does not resolve; otherwise
      whether one of its provinces has the name among its alternate names
      (exactly) or as its ASCII name (ignoring case). A province without
      alternate names makes it throw. */
  function CountryHasProvince(d: Dataset, country: string, province: string): (r: Result<bool>)
    ensures FindCountry(d.countries, country).None? ==> r == Ok(false)
    ensures FindCountry(d.countries, country).Some? ==>
      var ps := ProvincesOf(d, FindCountry(d.countries, country).value);
      && (r.Err? <==> exists i :: 0 <= i < |ps| && ps[i].alternateNames.None?)
      && (r == Ok(true) <==> r.Ok? && exists i :: 0 <= i < |ps| && NamedAs(ps[i], province))
  {
    match ProvincesByName(d, country)
    case None => Ok(false)
    case Some(ps) =>
      match CountNamed(ps, province)
      case Err(e) => Err(e)
      case Ok(n) => Ok(n > 0)
  }

  /** What `CountryHasProvince` decides, stated over the GeoNames themselves. */
  lemma CountryHasProvinceSpec(d: Dataset, country: string, province: string)
    requires FindCountry(d.countries, country).Some?
    requires forall g :: g in d.geoNames ==> g.alternateNames.Some?
    ensures CountryHasProvince(d, country, province) ==
      Ok(exists g :: g in d.geoNames && IsProvinceOf(g, FindCountry(d.countries, country).value) && NamedAs(g, province))
  {
    var c := FindCountry(d.countries, country).value;
    var ps := ProvincesOf(d, c);
    forall i | 0 <= i < |ps| ensures ps[i].alternateNames.Some? {
      assert ps[i] in ps;
    }
    var r := CountryHasProvince(d, country, province);
    assert !(exists i :: 0 <= i < |ps| && ps[i].alternateNames.None?);
    assert r.Ok?;
    NamedAmong(ps, province);
    ghost var named := exists g :: g in d.geoNames && IsProvinceOf(g, c) && NamedAs(g, province);
    assert named <==> exists g :: g in ps && g.alternateNames.Some? && NamedAs(g, province);
    assert r.value == named;
  }

  /** Some province at an index bears the name exactly when some province does. */
  lemma NamedAmong(ps: seq<GeoName>, province: string)
    requires forall i :: 0 <= i < |ps| ==> ps[i].alternateNames.Some?
    ensures (exists i :: 0 <= i < |ps| && NamedAs(ps[i], province)) <==>
      (exists g :: g in ps && g.alternateNames.Some? && NamedAs(g, province))
  {
    if exists g :: g in ps && g.alternateNames.Some? && NamedAs(g, province) {
      var g :| g in ps && g.alternateNames.Some? && NamedAs(g, province);
      var i :| 0 <= i < |ps| && ps[i] == g;
    }
  }

  // ------------------------------------------------------ postal code queries

  /** `ValidatePostalCodeByCountry`: the country's postal code regular
      expression, trimmed, matched against the untrimmed input; false when
      the country has none. The country is dereferenced before the null check,
      so a country that does not resolve throws. */
  function ValidatePostalCodeByCountry(d: Dataset, matches: (string, string) -> bool, country: string, input: string)
    : (r: Result<bool>)
    ensures r.Err? <==> FindCountry(d.countries, country).None?
    ensures r.Err? ==> r.error == NullReference
    ensures r == Ok(true) <==>
      && FindCountry(d.countries, country).Some?
      && FindCountry(d.countries, country).value.postalCodeRegex != ""
      && matches(input, Trim(FindCountry(d.countries, country).value.postalCodeRegex))
  {
    match FindCountry(d.countries, country)
    case None => Err(NullReference)
    case Some(c) =>
      var pattern := Trim(c.postalCodeRegex);
      Ok(c.postalCodeRegex != "" && matches(input, pattern))
  }

  /** The check `ValidatePostalCodeByCountry` evidently intends with its
      `c == null` test: false for a country that does not resolve. */
  function ValidatePostalCodeChecked(d: Dataset, matches: (string, string) -> bool, country: string, input: string)
    : (r: bool)
    ensures FindCountry(d.countries, country).None? ==> !r
    ensures r <==>
      && FindCountry(d.countries, country).Some?
      && FindCountry(d.countries, country).value.postalCodeRegex != ""
      && matches(input, Trim(FindCountry(d.countries, country).value.postalCodeRegex))
  {
    match FindCountry(d.countries, country)
    case None => false
    case Some(c) => c.postalCodeRegex != "" && matches(input, Trim(c.postalCodeRegex))
  }

  /** Where the code as written returns, it agrees with the intended check;
      it differs only by throwing where the intended check says false. */
  lemma ValidateAgrees(d: Dataset, matches: (string, string) -> bool, country: string, input: string)
    ensures ValidatePostalCodeByCountry(d, matches, country, input).Ok? ==>
      ValidatePostalCodeByCountry(d, matches, country, input).value == ValidatePostalCodeChecked(d, matches, country, input)
    ensures ValidatePostalCodeByCountry(d, matches, country, input).Err? ==>
      !ValidatePostalCodeChecked(d, matches, country, input)
  {
  }

  /** An unknown country: the code as written throws a null reference where
      the intended check answers false. */
  lemma ValidateUnknownCountry(matches: (string, string) -> bool)
    ensures var d := Dataset([], [], [], [], []);
      && ValidatePostalCodeByCountry(d, matches, "XX", "90210") == Err(NullReference)
      && !ValidatePostalCodeChecked(d, matches, "XX", "90210")
  {
    var d := Dataset([], [], [], [], []);
    assert FindCountry(d.countries, "XX").None?;
  }

  /** The postal codes `PostalCodeInfo` selects for a resolved country. */
  predicate InfoMatch(c: Country, code: string, p: PostalCode) {
    p.country.geoNameId == c.geoNameId && EqualsIgnoreCase(p.code, code)
  }

  /** `PostalCodeInfo`: the postal codes whose country has the resolved
      country's GeoNameId and whose code equals `code` ignoring case. The
      query is lazy: a country that does not resolve throws once the query
      reaches a postal code, so not for an empty collection. */
  function PostalCodeInfo(d: Dataset, country: string, code: string): (r: Result<seq<PostalCode>>)
    ensures r.Err? <==> FindCountry(d.countries, country).None? && d.postalCodes != []
    ensures r.Err? ==> r.error == NullReference
    ensures r.Ok? && FindCountry(d.countries, country).Some? ==>
      var c := FindCountry(d.countries, country).value;
      forall p :: (p in r.value <==> p in d.postalCodes && InfoMatch(c, code, p)) &&
        multiset(r.value)[p] == if InfoMatch(c, code, p) then multiset(d.postalCodes)[p] else 0
  {
    match FindCountry(d.countries, country)
    case None => if d.postalCodes == [] then Ok([]) else Err(NullReference)
    case Some(c) =>
      var r := Filter(d.postalCodes, p => InfoMatch(c, code, p));
      forall p ensures multiset(r)[p] == if InfoMatch(c, code, p) then multiset(d.postalCodes)[p] else 0 {
        FilterCount(d.postalCodes, p => InfoMatch(c, code, p), p);
      }
      Ok(r)
  }

  /** The matches keep the order of the postal codes: for a resolved country,
      those of two runs of postal codes are the first run's followed by the
      second's. */
  lemma PostalCodeInfoAppend(d: Dataset, a: seq<PostalCode>, b: seq<PostalCode>, country: string, code: string)
    ensures FindCountry(d.countries, country).Some? ==>
      && PostalCodeInfo(d.(postalCodes := a + b), country, code).Ok?
      && PostalCodeInfo(d.(postalCodes := a + b), country, code).value ==
           PostalCodeInfo(d.(postalCodes := a), country, code).value + PostalCodeInfo(d.(postalCodes := b), country, code).value
  {
    if FindCountry(d.countries, country).Some? {
      var c := FindCountry(d.countries, country).value;
      FilterAppend(a, b, p => InfoMatch(c, code, p));
    }
  }

  /** Since the postal code parser leaves the placeholder country's GeoNameId
      at 0, a country with a GeoNameId other than 0 finds none of them. */
  lemma PostalCodeInfoPlaceholders(d: Dataset, country: string, code: string)
    requires forall p :: p in d.postalCodes ==> p.country.geoNameId == 0
    requires FindCountry(d.countries, country).Some? && FindCountry(d.countries, country).value.geoNameId != 0
    ensures PostalCodeInfo(d, country, code) == Ok([])
  {
  }

  // ------------------------------------------------------- PostalCodeNearBy

  /** `Distance.BetweenPlaces(lon1, lat1, lon2, lat2)`. */
  type DistanceFn = (real, real, real, real) -> real

  /** The distance from postal code `i` to (lat, lng). */
  function DistTo(pcs: seq<PostalCode>, dist: DistanceFn, lat: real, lng: real, i: nat): real {
    if i < |pcs| then dist(pcs[i].longitude, pcs[i].latitude, lng, lat) else 0.0
  }

  /** The radius after the clamp into [1, 100] km. */
  function Clamp(radiusKm: real): (r: real)
    ensures 1.0 <= r <= 100.0
    ensures 1.0 <= radiusKm <= 100.0 ==> r == radiusKm
    ensures radiusKm < 1.0 ==> r == 1.0
    ensures radiusKm > 100.0 ==> r == 100.0
  {
    if radiusKm < 1.0 then 1.0 else if radiusKm > 100.0 then 100.0 else radiusKm
  }

  /** `from k in keys where PostalGeoHash.ContainsKey(k) from c in PostalGeoHash[k]`. */
  function Candidates(m: map<Key, seq<nat>>, keys: seq<Key>): seq<nat> {
    if keys == [] then []
    else (if keys[0] in m then m[keys[0]] else []) + Candidates(m, keys[1..])
  }

  lemma {:induction false} CandidatesSpec(pcs: seq<PostalCode>, m: map<Key, seq<nat>>, keys: seq<Key>)
    requires IsIndex(pcs, m) && NoDup(keys)
    ensures NoDup(Candidates(m, keys))
    ensures forall i :: i in Candidates(m, keys) <==>
      0 <= i < |pcs| && CodeKey(pcs[i]) != NoBucket && CodeKey(pcs[i]) in keys
  {
    if keys != [] {
      var k, rest := keys[0], keys[1..];
      var b := if k in m then m[k] else [];
      assert NoDup(rest);
      CandidatesSpec(pcs, m, rest);
      var c := Candidates(m, rest);
      assert Candidates(m, keys) == b + c;
      forall i | i in b ensures i < |pcs| && CodeKey(pcs[i]) == k {
        var j :| 0 <= j < |b| && b[j] == i;
      }
      assert k !in rest;
      forall a, e | 0 <= a < e < |b + c| ensures (b + c)[a] != (b + c)[e] {
        if e < |b| {
          assert m[k][a] < m[k][e];
        } else if a < |b| {
          assert (b + c)[a] in b && (b + c)[e] in c;
        } else {
          assert (b + c)[a] == c[a - |b|] && (b + c)[e] == c[e - |b|];
        }
      }
      forall i ensures i in b + c <==> 0 <= i < |pcs| && CodeKey(pcs[i]) != NoBucket && CodeKey(pcs[i]) in keys {
        if 0 <= i < |pcs| && CodeKey(pcs[i]) == k && k != NoBucket {
          assert i in m[k];
        }
      }
    }
  }

  /** The query of `PostalCodeNearBy` over index `m` and keys `keys`: the
      candidates within the radius, ordered by distance. */
  function Query(pcs: seq<PostalCode>, m: map<Key, seq<nat>>, keys: seq<Key>, dist: DistanceFn,
                 lat: real, lng: real, radius: real): seq<nat>
  {
    var near := Filter(Candidates(m, keys), (i: nat) => i < |pcs| && DistTo(pcs, dist, lat, lng, i) <= radius);
    SortBy(near, (i: nat) => DistTo(pcs, dist, lat, lng, i))
  }

  /** The positions `PostalCodeNearBy` returns for a radius already clamped. */
  function NearBy(pcs: seq<PostalCode>, dist: DistanceFn, lat: real, lng: real, radius: real): seq<nat> {
    Query(pcs, GroupByHash(pcs), SampleKeys(lat, lng, 0.01 * radius), dist, lat, lng, radius)
  }

  lemma QueryNearBy(pcs: seq<PostalCode>, m: map<Key, seq<nat>>, keys: seq<Key>, dist: DistanceFn,
                    lat: real, lng: real, radius: real)
    requires m == GroupByHash(pcs) && keys == SampleKeys(lat, lng, 0.01 * radius)
    ensures Query(pcs, m, keys, dist, lat, lng, radius) == NearBy(pcs, dist, lat, lng, radius)
  {
  }

  /** The query orders its results by distance. */
  lemma QuerySorted(pcs: seq<PostalCode>, m: map<Key, seq<nat>>, keys: seq<Key>, dist: DistanceFn,
                    lat: real, lng: real, radius: real)
    ensures var r := Query(pcs, m, keys, dist, lat, lng, radius);
      forall a, b :: 0 <= a < b < |r| ==> DistTo(pcs, dist, lat, lng, r[a]) <= DistTo(pcs, dist, lat, lng, r[b])
  {
    var near := Filter(Candidates(m, keys), (i: nat) => i < |pcs| && DistTo(pcs, dist, lat, lng, i) <= radius);
    SortBySpec(near, (i: nat) => DistTo(pcs, dist, lat, lng, i));
  }

  /** Over an index and distinct keys, no postal code is a result twice. */
  lemma QueryNoDup(pcs: seq<PostalCode>, m: map<Key, seq<nat>>, keys: seq<Key>, dist: DistanceFn,
                   lat: real, lng: real, radius: real)
    requires IsIndex(pcs, m) && NoDup(keys)
    ensures NoDup(Query(pcs, m, keys, dist, lat, lng, radius))
  {
    var key := (i: nat) => DistTo(pcs, dist, lat, lng, i);
    var within := (i: nat) => i < |pcs| && DistTo(pcs, dist, lat, lng, i) <= radius;
    var cands := Candidates(m, keys);
    CandidatesSpec(pcs, m, keys);
    var near := Filter(cands, within);
    NoDupFilter(cands, within);
    SortBySpec(near, key);
    NoDupPermutation(near, SortBy(near, key));
  }

  /** Over an index and keys without `'\0'`, the results are exactly the
      postal codes whose key is one of the keys and whose distance is within
      the radius. */
  lemma QueryMembers(pcs: seq<PostalCode>, m: map<Key, seq<nat>>, keys: seq<Key>, dist: DistanceFn,
                     lat: real, lng: real, radius: real)
    requires IsIndex(pcs, m) && NoDup(keys) && NoBucket !in keys
    ensures forall i :: i in Query(pcs, m, keys, dist, lat, lng, radius) <==>
      0 <= i < |pcs| && CodeKey(pcs[i]) in keys && dist(pcs[i].longitude, pcs[i].latitude, lng, lat) <= radius
  {
    var near := Filter(Candidates(m, keys), (i: nat) => i < |pcs| && DistTo(pcs, dist, lat, lng, i) <= radius);
    NearMembers(pcs, m, keys, dist, lat, lng, radius);
    SortBySpec(near, (i: nat) => DistTo(pcs, dist, lat, lng, i));
    SameMembers(SortBy(near, (i: nat) => DistTo(pcs, dist, lat, lng, i)), near);
  }

  /** The candidates within the radius, before ordering by distance. */
  lemma NearMembers(pcs: seq<PostalCode>, m: map<Key, seq<nat>>, keys: seq<Key>, dist: DistanceFn,
                    lat: real, lng: real, radius: real)
    requires IsIndex(pcs, m) && NoDup(keys) && NoBucket !in keys
    ensures var near := Filter<nat>(Candidates(m, keys), (i: nat) => i < |pcs| && DistTo(pcs, dist, lat, lng, i) <= radius);
      forall k :: k in near <==>
        0 <= k < |pcs| && CodeKey(pcs[k]) in keys && dist(pcs[k].longitude, pcs[k].latitude, lng, lat) <= radius
  {
    var within := (i: nat) => i < |pcs| && DistTo(pcs, dist, lat, lng, i) <= radius;
    var cands := Candidates(m, keys);
    var near := Filter<nat>(cands, within);
    CandidatesSpec(pcs, m, keys);
    forall k ensures k in near <==>
      0 <= k < |pcs| && CodeKey(pcs[k]) in keys && dist(pcs[k].longitude, pcs[k].latitude, lng, lat) <= radius
    {
      assert k in near <==> k in cands && within(k);
      assert 0 <= k < |pcs| && CodeKey(pcs[k]) in keys ==> CodeKey(pcs[k]) != NoBucket;
    }
  }

  /** Every result is a postal code in a bucket of a sampled key and within
      the radius, and every such postal code is a result; none occurs twice,
      and they come in non-decreasing distance. */
  lemma NearBySpec(pcs: seq<PostalCode>, dist: DistanceFn, lat: real, lng: real, radius: real)
    ensures var r := NearBy(pcs, dist, lat, lng, radius);
      && NoDup(r)
      && (forall a, b :: 0 <= a < b < |r| ==> DistTo(pcs, dist, lat, lng, r[a]) <= DistTo(pcs, dist, lat, lng, r[b]))
      && forall i :: i in r <==>
           0 <= i < |pcs| && CodeKey(pcs[i]) in SampleKeys(lat, lng, 0.01 * radius) &&
           dist(pcs[i].longitude, pcs[i].latitude, lng, lat) <= radius
  {
    var m, keys := GroupByHash(pcs), SampleKeys(lat, lng, 0.01 * radius);
    SampleKeysSpec(lat, lng, 0.01 * radius);
    QuerySorted(pcs, m, keys, dist, lat, lng, radius);
    QueryNoDup(pcs, m, keys, dist, lat, lng, radius);
    QueryMembers(pcs, m, keys, dist, lat, lng, radius);
  }

  /** `PostalCodeNearBy`: null when there is no index or it is empty;
      otherwise the radius is clamped into [1, 100] km and the keys sampled
      one hundredth of the radius away (in degrees) are searched. */
  method PostalCodeNearBy(d: Dataset, dist: DistanceFn, lat: real, lng: real, radiusKm: real)
    returns (res: Option<seq<nat>>)
    ensures res.None? <==> d.postalCodes == [] || |GroupByHash(d.postalCodes)| == 0
    ensures res.Some? ==> res.value == NearBy(d.postalCodes, dist, lat, lng, Clamp(radiusKm))
  {
    res := None;
    var index := PostalGeoHash(d.postalCodes);
    if index.Some? && |index.value| > 0 {
      var radius := radiusKm;
      if radius < 1.0 {
        radius := 1.0;
      } else if radius > 100.0 {
        radius := 100.0;
      }
      var sampleSize := if radius < 1.0 then 0.0 else 0.01 * radius;
      var keys := HashesSamples(lat, lng, sampleSize);
      assert radius == Clamp(radiusKm) && sampleSize == 0.01 * radius;
      QueryNearBy(d.postalCodes, index.value, keys, dist, lat, lng, radius);
      res := Some(Query(d.postalCodes, index.value, keys, dist, lat, lng, radius));
    }
  }
}
