# GeoDataSource, modelled in Dafny

GeoDataSource is a .NET library that answers offline questions about countries,
provinces, postal codes, time zones, feature codes and phone-number formats.
It loads the GeoNames dumps (`countryInfo.txt`, the admin-1 rows of `allCountries.txt`,
the postal code file, `featureCodes_en.txt`, `timeZones.txt`) through one
tab-separated line parser per file. It keeps them as collections of a `GeoData`
singleton. It reads a phone-format table into the `PhoneManager` singleton.

This project models three parts in Dafny and proves what they compute:

- **The line parsers** (`CountryParser`, `GeoNameParser`, `PostalCodeParser`,
  `FeatureCodeParser`, `TimeZoneParser`):
  - A file is a sequence of lines.
  - Each `ParseFile` loop (`LineFile.ReadLines`) reads up to the first empty line.
  - Each per-line handling is a function with three outcomes: skip, add one record, or throw.
  - Each `ParseLine` is a column-to-record function. Its `Columns` lemma proves where every
    column of a tab-joined line ends up.
- **The phone table** (`PhoneManager`):
  - `ParseFromBytes` is a state machine with a current country, an entry in progress
    and two expectation flags. It is written as a loop over the lines and proved equal to a
    step function (`Step`/`Run`). Further lemmas cover the step function.
  - It also has the case-insensitive `AllByCountry` filter and the first-match `AutoDetect` scan.
- **The queries of `GeoData`** (`GeoData`, `Spatial`):
  - the five-step country fallback chain `GetCountry`;
  - the province, time zone, feature code and postal code lookups;
  - postal code validation;
  - the proximity search:
    - the two-byte cell key `GetGeohash`;
    - the bucket index built when the data loads;
    - 3×3 oversampling of the query point;
    - the clamped, distance-filtered, distance-ordered result of `PostalCodeNearBy`.

Foreign routines are parameters of the model, with no behaviour assumed. These are:
- `int`/`long`/`decimal`/`double`/`DateTime`/`Enum` `TryParse`, as `Entities.TryParse`;
- `Regex.Match`/`Regex.IsMatch` and the unseen `PhoneInformation.Reliable` and
  `RegexPattern`, as `PhoneManager.PhoneRules` and the `matches` parameter;
- `Distance.BetweenPlaces`, as `GeoData.DistanceFn`.

Other modelling choices:
- Null references and exceptions are `Wrappers.Option` and `Wrappers.Result`.
- The bucket index holds positions into the postal code collection. A position stands
  for the identity of the `PostalCode` object, so `PostalCodeNearBy` returns positions.

Facts about the code that the model keeps:
- The radius is clamped into [1, 100] km (GeoData.cs:132-135).
- Oversampling uses the offsets {0, +s, −s} only (GeoData.cs:148-151).
- No pass links GeoNames to countries, time zones or feature codes.
- No pass replaces the placeholder country of a postal code.
- Validation trims the pattern but not the input (GeoData.cs:107).
- The time-zone lookups ignore the country (GeoData.cs:74-85).
- Nothing guards the argument of `acos` in the distance.
- `PostalCodeInfo` compares the GeoNameId stored in the placeholder country, which the
  parser leaves at 0.

## Model

| member | source | states |
|---|---|---|
| LineFile.UntilBlank | GeoDataSource/CountryParser.cs:29-40 | the lines a `do … while (!IsNullOrEmpty(line))` loop handles: a prefix of the file, with no empty line, followed in the file by an empty line when it is not all of it |
| LineFile.UntilBlankStops | GeoDataSource/CountryParser.cs:29-40 | nothing after the first empty line is read |
| LineFile.CollectOk | GeoDataSource/GeoNameParser.cs:23-35 | collecting the records of the lines succeeds exactly when no line throws |
| LineFile.CollectEmits | GeoDataSource/PostalCodeParser.cs:24-36 | when nothing throws, a record is collected exactly when some line read yields it |
| LineFile.CollectAppend | GeoDataSource/FeatureCodeParser.cs:25-34 | the records of two runs of lines are those of the first followed by those of the second; the first exception wins |
| LineFile.ReadLines | GeoDataSource/TimeZoneParser.cs:25-34 | the loop returns the records, in order, of the lines before the first empty line, or the first exception thrown |
| CountryParser.Columns | GeoDataSource/CountryParser.cs:46-84 | a line with fewer than 19 columns yields null; otherwise columns 0–4 are ISOAlpha2, ISOAlpha3, ISONumeric, FipsCode, Name, column 13 is the format untrimmed, column 14 the regular expression trimmed, GeoNameId is column 16 when it parses and 0 otherwise, and columns 17 and 18 are Neighbours and EquivalentFipsCode |
| CountryParser.RegexTrimmed | GeoDataSource/CountryParser.cs:67 | the parsed pattern is already trimmed, so the second `Trim()` of the validation changes nothing on a parsed country |
| CountryParser.HandleLine | GeoDataSource/CountryParser.cs:33-38 | a line adds a country exactly when it is non-empty, does not start with '#' and parses; it never throws |
| CountryParser.ParseFile | GeoDataSource/CountryParser.cs:21-44 | the countries of the lines before the first empty line, in order; a country is in the result exactly when some such line yields it; never throws |
| GeoNameParser.LastTwoLetterNameSpec | GeoDataSource/GeoNameParser.cs:53-56 | the name the loop leaves behind has `Length` 2 (UTF-16 code units) and no later alternate name does; none is found exactly when no name has `Length` 2 |
| GeoNameParser.TwoLetterNameCodeUnits | GeoDataSource/GeoNameParser.cs:55 | one character outside the Basic Multilingual Plane is a two-letter name, and a letter followed by such a character is not |
| Text.Utf16LengthBmp | GeoDataSource/GeoNameParser.cs:55 | on text inside the Basic Multilingual Plane, `Length` is the number of characters |
| GeoNameParser.Columns | GeoDataSource/GeoNameParser.cs:40-85 | fewer than 19 columns throws; otherwise each field from its column (FeatureClass from 7, FeatureCodeId from 6, CountryCode 8, TimeZoneId 17), the parsed fields from their columns when they parse and their defaults otherwise; AlternateNames is unset exactly when column 3 is empty, and otherwise the ','-free names that join back to column 3 (so its ','-split); the two-letter name is unset exactly when there are no alternate names or none has `Length` 2 in UTF-16 code units, and otherwise the last alternate name of `Length` 2 |
| GeoNameParser.HandleLine | GeoDataSource/GeoNameParser.cs:26-33 | a non-empty line throws exactly when its ParseLine throws, and adds its GeoName exactly when the feature class starts with "ADM1" |
| GeoNameParser.KeptIsProvince | GeoDataSource/GeoNameParser.cs:26-33 | every GeoName collected from rows has a feature class starting with "ADM1" |
| GeoNameParser.ParseFile | GeoDataSource/GeoNameParser.cs:16-38 | the ADM1 GeoNames of the lines read, in order; succeeds exactly when every line read has at least 19 columns |
| PostalCodeParser.Coordinate | GeoDataSource/PostalCodeParser.cs:55-60 | a coordinate column gives its parsed value when non-blank and parseable, and 0 otherwise |
| PostalCodeParser.Accuracy | GeoDataSource/PostalCodeParser.cs:62-64 | the accuracy column gives its parsed value when non-blank and parseable, and Unknown otherwise |
| PostalCodeParser.Columns | GeoDataSource/PostalCodeParser.cs:41-67 | a non-blank line with fewer than 12 columns throws; otherwise the placeholder country has ISOAlpha2 from column 0 and GeoNameId 0, code and name are columns 1 and 2, the admin pairs are (3,4), (5,6), (7,8), the coordinates come from columns 9 and 10 when non-blank and parseable (else 0), and accuracy is Unknown unless column 11 is non-blank and parses |
| PostalCodeParser.HandleLine | GeoDataSource/PostalCodeParser.cs:27-34 | a blank line adds nothing; a non-empty line throws exactly when its ParseLine throws, and otherwise adds the postal code |
| PostalCodeParser.ParseFile | GeoDataSource/PostalCodeParser.cs:17-39 | the postal codes of the lines read, in order; succeeds exactly when every line read is blank or has at least 12 columns |
| FeatureCodeParser.Columns | GeoDataSource/FeatureCodeParser.cs:39-59 | fewer than 3 columns throws; with a '.' in column 0 Code is its first '.'-segment and Class its second, else both are column 0; Name and Description are columns 1 and 2 |
| FeatureCodeParser.CodeBeforeDot | GeoDataSource/FeatureCodeParser.cs:44-48 | Code is the text of column 0 before its first '.' |
| FeatureCodeParser.HandleLine | GeoDataSource/FeatureCodeParser.cs:28-32 | a line is skipped exactly when it is empty or starts with "CountryCode"; any other line throws exactly when it has fewer than 3 columns, and otherwise adds one feature code |
| FeatureCodeParser.ParseFile | GeoDataSource/FeatureCodeParser.cs:18-37 | the feature codes of the lines read, in order; succeeds exactly when every line read that is not a header has at least 3 columns |
| TimeZoneParser.Columns | GeoDataSource/TimeZoneParser.cs:39-53 | fewer than 5 columns throws; otherwise CountryCode and TimeZoneId are columns 0 and 1, and each offset is column 2, 3 or 4 when it parses and 0 otherwise |
| TimeZoneParser.HandleLine | GeoDataSource/TimeZoneParser.cs:28-32 | a line is skipped exactly when it is empty or starts with "CountryCode"; any other line throws exactly when it has fewer than 5 columns, and otherwise adds one time zone |
| TimeZoneParser.ParseFile | GeoDataSource/TimeZoneParser.cs:18-37 | the time zones of the lines read, in order; succeeds exactly when every line read that is not a header has at least 5 columns |
| PhoneManager.StepSpec | GeoDataSource/PhoneManager.cs:85-118 | a '#' line changes nothing; any other line appends the entry in progress and starts one for the current country; a blank line keeps the country and expects a country; a country line sets the country and expects a code; a code line keeps the country and both flags and its entry is the one the line describes; any other line keeps the country and the flags; a step throws exactly on a code line with fewer than three comma parts |
| PhoneManager.CodeEntryColumns | GeoDataSource/PhoneManager.cs:107-116 | a code line of comma parts and optional '#' comment segments is short exactly when it has fewer than three parts; otherwise its entry's CountryCode, MobilePrefix and digits after the prefix are parts 0, 1, 2 when they parse and 0 otherwise, and its comment is the first segment after '#', or none |
| PhoneManager.ReadCode | GeoDataSource/PhoneManager.cs:107-116 | the code-line branch throws exactly on a short line and otherwise builds that entry |
| PhoneManager.RunCount | GeoDataSource/PhoneManager.cs:85-119 | one entry is appended per non-comment line, so the entry in progress after the last line is never appended; the two flags are never both set |
| PhoneManager.RunCountries | GeoDataSource/PhoneManager.cs:90-106 | every country of an entry is empty or one of the trimmed lines |
| PhoneManager.ReadEntries | GeoDataSource/PhoneManager.cs:80-119 | the first loop yields exactly the entries of the step function, and throws exactly when it does |
| PhoneManager.ParseFromBytes | GeoDataSource/PhoneManager.cs:75-127 | throws (index out of range) exactly when a code line is short; otherwise the appended entries with a country that are reliable, in order |
| PhoneManager.KeepEntries | GeoDataSource/PhoneManager.cs:120-126 | the second loop keeps, in order, exactly the entries with a country that are reliable |
| PhoneManager.KeptEntries | GeoDataSource/PhoneManager.cs:120-126 | an entry is kept exactly when it was appended, has a country and is reliable, and as often as it was appended |
| PhoneManager.AllByCountry | GeoDataSource/PhoneManager.cs:55-60 | exactly the entries whose country equals the argument ignoring case, each as often as in the table |
| PhoneManager.AllByCountryAppend | GeoDataSource/PhoneManager.cs:55-60 | the lookup keeps table order: over two tables it is the first's result followed by the second's |
| PhoneManager.Unformat | GeoDataSource/PhoneManager.cs:64 | the number keeps exactly its characters other than '(', ')', '-' and ' ', each as often as it occurs |
| PhoneManager.UnformatAppend | GeoDataSource/PhoneManager.cs:64 | removal works character by character and keeps the order: a formatting character disappears, any other stays in place |
| PhoneManager.AutoDetect | GeoDataSource/PhoneManager.cs:62-73 | null exactly when no reliable entry's pattern matches the unformatted number; otherwise the first such entry in table order |
| Spatial.Truncate | GeoDataSource/GeoData.cs:186-187 | `(int)x`: the integer part, rounded toward zero |
| Spatial.ToByte | GeoDataSource/GeoData.cs:186-187 | `(byte)i` unchecked: the byte congruent to i modulo 256 |
| Spatial.Geohash | GeoDataSource/GeoData.cs:169-192 | '\0' outside latitude [−90, 90] or longitude [−180, 180]; otherwise low byte the truncated latitude and high byte the truncated longitude, each modulo 256 |
| Spatial.GetGeohash | GeoDataSource/GeoData.cs:169-199 | the char the two-byte array yields on a little-endian host is that key |
| Spatial.GeohashNoBucket | GeoDataSource/GeoData.cs:172-192 | the key is '\0' exactly when the point is out of range or both coordinates are within 1 of zero |
| Spatial.GeohashCells | GeoDataSource/GeoData.cs:186-192 | two points in range share a key exactly when their latitudes truncate alike and their truncated longitudes agree modulo 256 |
| Spatial.ByteEq | GeoDataSource/GeoData.cs:186-187 | two integers give the same byte exactly when they are congruent modulo 256 |
| Spatial.LatitudeByte | GeoDataSource/GeoData.cs:186 | two truncated latitudes in [−90, 90] give the same byte exactly when they are equal |
| Spatial.GeohashLongitudeAlias | GeoDataSource/GeoData.cs:186-192 | longitudes 100.5 and −156.5 share a key at the same latitude |
| Spatial.SampleKeysSpec | GeoDataSource/GeoData.cs:148-167 | the sampled keys are distinct, never '\0', at most 9, and exactly the nonzero keys of the nine points {lat, lat+s, lat−s}×{lng, lng+s, lng−s} |
| Spatial.HashesSamples | GeoDataSource/GeoData.cs:152-167 | the nested loops fill the set with exactly the sampled keys |
| Spatial.SoundExtend | GeoDataSource/GeoData.cs:40-45 | after adding one postal code, every position in a bucket is a postal code of that bucket's key |
| Spatial.OrderedExtend | GeoDataSource/GeoData.cs:40-45 | appending the new position keeps each bucket strictly increasing, so no postal code is in a bucket twice |
| Spatial.CompleteExtend | GeoDataSource/GeoData.cs:40-45 | after adding one postal code, every postal code with a nonzero key is in the bucket of its key |
| Spatial.IndexExtend | GeoDataSource/GeoData.cs:40-45 | adding one postal code to its bucket (or to none, for key '\0') keeps the index property |
| Spatial.GroupByHash | GeoDataSource/GeoData.cs:37-46 | the index: no '\0' bucket, no empty bucket, each bucket holds exactly the postal codes of its key once each, and every postal code with a nonzero key is in its bucket |
| Spatial.PostalGeoHash | GeoDataSource/GeoData.cs:37-46 | the index is absent exactly when there are no postal codes |
| Spatial.IndexEmpty | GeoDataSource/GeoData.cs:37-46 | the index is empty exactly when every postal code has key '\0' |
| GeoData.FindFromSpec | GeoDataSource/GeoData.cs:218-234 | a fallback chain of fields finds nothing exactly when no country matches on any field; otherwise the first country in order for the earliest field any country matches |
| GeoData.ResolveCountry | GeoDataSource/GeoData.cs:216-238 | null exactly when no country matches on any of ISOAlpha2, ISOAlpha3, ISONumeric, Name, FipsCode; otherwise the first country for the earliest of them that matches, carrying the phone entries of its name |
| GeoData.GetCountry | GeoDataSource/GeoData.cs:216-238 | the nested reassignments compute that country |
| GeoData.ResolveByIsoAlpha2 | GeoDataSource/GeoData.cs:218 | a country's ISOAlpha2 finds it when no earlier country has the same ISOAlpha2, whatever the other fields hold |
| GeoData.FeatureCodeOf | GeoDataSource/GeoData.cs:67-72 | the first feature code whose Class and Code equal the GeoName's FeatureClass and FeatureCodeId, null if none |
| GeoData.TimeZoneById | GeoDataSource/GeoData.cs:80-85 | the first time zone whose id equals the given one ignoring case, null if none |
| GeoData.TimeZoneOf | GeoDataSource/GeoData.cs:74-79 | the lookup by GeoName is the lookup by its TimeZoneId; the country plays no part |
| Seqs.FirstOrDefaultAgree | GeoDataSource/GeoData.cs:74-85 | `FirstOrDefault` with two predicates that agree on every element finds the same element |
| GeoData.TimeZoneIgnoresCase | GeoDataSource/GeoData.cs:74-85 | ids that differ only in case find the same time zone |
| GeoData.ProvincesOf | GeoDataSource/GeoData.cs:201-206 | exactly the GeoNames of class "ADM1" whose country code equals ISOAlpha2 ignoring case, each as often as it occurs |
| GeoData.ProvincesOfAppend | GeoDataSource/GeoData.cs:201-206 | the provinces keep the GeoNames' order: those of two runs are the first run's followed by the second's |
| GeoData.ProvincesByName | GeoDataSource/GeoData.cs:207-214 | null exactly when the country does not resolve, otherwise the provinces of the country found |
| GeoData.CountNamed | GeoDataSource/GeoData.cs:95-99 | the count throws exactly when some province has no alternate names; otherwise it is positive exactly when some province bears the name |
| GeoData.CountryHasProvince | GeoDataSource/GeoData.cs:90-102 | false when the country does not resolve; otherwise throws exactly when one of its provinces has no alternate names, and true exactly when one of them has the name among its alternate names or as its ASCII name ignoring case |
| GeoData.NamedAmong | GeoDataSource/GeoData.cs:95-99 | the count is positive exactly when some of the provinces, all with alternate names, bears the name |
| GeoData.CountryHasProvinceSpec | GeoDataSource/GeoData.cs:90-102 | with alternate names on every GeoName, the answer is whether some ADM1 GeoName of the resolved country bears the name |
| GeoData.ValidatePostalCodeByCountry | GeoDataSource/GeoData.cs:104-112 | throws exactly when the country does not resolve; otherwise true exactly when the country has a pattern and the input matches the trimmed pattern |
| GeoData.ValidatePostalCodeChecked | GeoDataSource/GeoData.cs:104-112 | the intended check: false for an unknown country, otherwise the same answer |
| GeoData.ValidateAgrees | GeoDataSource/GeoData.cs:104-112 | the code as written agrees with the intended check wherever it returns |
| GeoData.ValidateUnknownCountry | GeoDataSource/GeoData.cs:106-108 | with no countries, "XX" throws where the intended check says false |
| GeoData.PostalCodeInfo | GeoDataSource/GeoData.cs:114-120 | for a resolved country, exactly the postal codes with its GeoNameId and the code ignoring case, each as often as it occurs; for an unresolved one, throws exactly when there is a postal code to test |
| GeoData.PostalCodeInfoAppend | GeoDataSource/GeoData.cs:114-120 | for a resolved country the matches keep the postal codes' order: those of two runs are the first run's followed by the second's |
| GeoData.PostalCodeInfoPlaceholders | GeoDataSource/GeoData.cs:118 | with the parser's placeholder countries (GeoNameId 0), a country with a nonzero GeoNameId finds no postal codes |
| GeoData.Clamp | GeoDataSource/GeoData.cs:132-135 | the radius lies in [1, 100] and is unchanged inside it |
| GeoData.CandidatesSpec | GeoDataSource/GeoData.cs:139-141 | the postal codes of the buckets of distinct keys are distinct, and are exactly those whose nonzero key is one of the keys |
| GeoData.QuerySorted | GeoDataSource/GeoData.cs:142-144 | the query's results come in non-decreasing distance |
| GeoData.QueryNoDup | GeoDataSource/GeoData.cs:139-144 | over the index and distinct keys, no postal code is a result twice |
| GeoData.NearMembers | GeoDataSource/GeoData.cs:139-143 | before ordering, the bucket entries within the radius are exactly the postal codes whose key is one of the keys and whose distance is within the radius |
| GeoData.QueryMembers | GeoDataSource/GeoData.cs:139-144 | over the index and distinct nonzero keys, the results are exactly the postal codes whose key is one of the keys and whose distance is within the radius |
| GeoData.QueryNearBy | GeoDataSource/GeoData.cs:137-144 | the query over the built index and sampled keys is the proximity result |
| GeoData.NearBySpec | GeoDataSource/GeoData.cs:138-144 | the results are distinct, in non-decreasing distance, and exactly the postal codes whose key is sampled and whose distance is within the radius |
| GeoData.PostalCodeNearBy | GeoDataSource/GeoData.cs:127-147 | null exactly when the index is missing or empty; otherwise the proximity result for the radius clamped into [1, 100] and sample step 0.01·radius |

## Left out

- Reading files, the embedded resources, the singletons and static-constructor loading, `DataManager` (download, unzip, update), `Serialize` and the command-line utility: these are I/O and concurrency. All data is passed in as sequences.
- UTF-8 decoding in `ParseFromBytes`: the model starts from the decoded text.
- `Distance.BetweenPlaces`: floating-point trigonometry. It is a parameter, and the `acos` argument and NaN are not modelled.
- Coordinates and radii are exact reals. The decimal/double conversions, the double overload of `PostalCodeNearBy` and decimal overflow are not modelled.
- Regular expressions and `TryParse`: foreign routines, passed as parameters.
- Case-insensitive comparison folds ASCII letters only; culture-sensitive `StartsWith` and case folding are not modelled.
- Null strings and null collections passed by callers are not modelled; inputs are non-null.
- `GeoName.Country`, `TimeZone` and `FeatureCode` references, `Area`, and the other fields of the placeholder country in a postal code: nothing in the core sets or reads them.
- `GeoData.GetCountry`: writing `PhoneInformation` into the shared country object is modelled as the returned copy's field. The write-back into the `Countries` collection (aliasing) is not modelled; no query reads `PhoneInformation`, so the other queries resolve countries without it.
- `Spatial.HashesSamples`: the `HashSet<char>` is a sequence in insertion order. Its enumeration order in .NET is unspecified, so the model fixes one.
- `GeoData.NearBySpec`: the stability of `OrderBy` among equal distances is not stated; only the order by distance and the permutation are.
- `GeoData.PostalCodeInfo`: the LINQ query is lazy. Only the point where it throws is modelled, not when that happens.
- The `count++` counters in the `ParseFile` loops and the logging: they affect no result.
- `Admin2Code` is not part of this model except as the name/code pair it holds.

## Findings

| source | as written | input that shows it | evidently intended | confidence | as-written member | corrected member |
|---|---|---|---|---|---|---|
| GeoDataSource/GeoData.cs:106-108 | `c.PostalCodeRegularExpression.Trim()` runs before the `c == null` check, so a country that does not resolve throws a null reference | an empty country collection and country "XX" | false for a country that does not resolve, as the null check says | high, not executed | GeoData.ValidateUnknownCountry | GeoData.ValidatePostalCodeChecked |
