/** The entity records of GeoDataSource, with the fields the parsers write and the
    queries read, and the foreign parsing routines they depend on. */
module Entities {
  import opened Wrappers

  /** GPSAccuracy.cs. */
  datatype GPSAccuracy = Unknown | Estimated | NotGreat | CityLevel | FifteenMeters | OneMeter | Centroid

  /** A `System.DateTime`, by its tick count; `default(DateTime)` has tick count 0. */
  datatype DateTime = DateTime(ticks: int)

  const MinDateTime := DateTime(0)

  /** A phone-number-format record as PhoneManager.cs builds it. */
  datatype PhoneInformation = PhoneInformation(
    country: string,
    countryCode: Int32,
    mobilePrefix: Int32,
    digitsAfterMobilePrefix: Int32,   // NumberOfDigitsAfterMobilePrevix
    comment: Option<string>)

  /** Country.cs. */
  datatype Country = Country(
    isoNumeric: string,
    isoAlpha2: string,
    isoAlpha3: string,
    name: string,
    fipsCode: string,
    capital: string,
    population: string,
    continentId: string,
    continent: string,
    tld: string,
    currencyCode: string,
    currencyName: string,
    phonePrefix: string,
    postalCodeFormat: string,
    postalCodeRegex: string,          // PostalCodeRegularExpression
    languages: string,
    equivalentFipsCode: string,
    neighbours: string,
    geoNameId: Int32,
    phoneInformation: Option<seq<PhoneInformation>>)

  /** GeoName.cs: one row of the geonames dump (a province, once filtered). */
  datatype GeoName = GeoName(
    geoNameId: Int32,
    name: string,
    asciiName: string,
    alternateNames: Option<seq<string>>,
    latitude: real,
    longitude: real,
    featureClass: string,
    featureCodeId: string,
    countryCode: string,
    alternateCountryCode: string,
    admin1Code: string,
    admin2Code: string,
    admin3Code: string,
    admin4Code: string,
    population: Int64,
    elevation: Int32,
    digitalElevationModel: string,
    timeZoneId: string,
    lastModified: DateTime,
    twoLetterName: Option<string>)

  /** The Country object a postal code points to, reduced to what is read of it:
      its ISOAlpha2 (set by the parser) and its GeoNameId (compared by queries). */
  datatype CountryRef = CountryRef(isoAlpha2: string, geoNameId: Int32)

  /** Admin1Code.cs, Admin2Code, Admin3Code.cs: the name and code of a subdivision. */
  datatype AdminCode = AdminCode(name: string, code: string)

  /** PostalCode.cs. */
  datatype PostalCode = PostalCode(
    country: CountryRef,
    code: string,
    name: string,
    admin1: AdminCode,
    admin2: AdminCode,
    admin3: AdminCode,                // Amdin3
    latitude: real,
    longitude: real,
    accuracy: GPSAccuracy)

  /** TimeZone.cs. */
  datatype TimeZone = TimeZone(
    countryCode: string,
    timeZoneId: string,
    gmtOffset: real,
    dstOffset: real,
    rawOffset: real)

  /** FeatureCode.cs. */
  datatype FeatureCode = FeatureCode(
    code: string,
    featureClass: string,             // Class
    name: string,
    description: string)

  /** The framework's `TryParse` routines: each yields the parsed value or `None`. */
  datatype TryParse = TryParse(
    parseInt: string -> Option<Int32>,              // int.TryParse
    parseLong: string -> Option<Int64>,             // long.TryParse
    parseDecimal: string -> Option<real>,           // decimal.TryParse
    parseDouble: string -> Option<real>,            // double.TryParse
    parseDateTime: string -> Option<DateTime>,      // DateTime.TryParse
    parseAccuracy: string -> Option<GPSAccuracy>)   // Enum.TryParse(s, true, ...)
}
