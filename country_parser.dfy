/** CountryParser.cs: one country per tab-separated line of countryInfo.txt. */
module CountryParser {
  import opened Wrappers
  import opened Text
  import opened Entities
  import opened LineFile

  /** `ParseLine`: columns 0..18 become the country's fields. Any exception
      (a line with fewer than 19 columns) is caught and yields null. */
  function ParseLine(p: TryParse, line: string): Option<Country> {
    var parts := Split(line, '\t');
    if |parts| < 19 then None
    else Some(Country(
      isoNumeric := parts[2],
      isoAlpha2 := parts[0],
      isoAlpha3 := parts[1],
      name := parts[4],
      fipsCode := parts[3],
      capital := parts[5],
      population := parts[6],
      continentId := parts[7],
      continent := parts[8],
      tld := parts[9],
      currencyCode := parts[10],
      currencyName := parts[11],
      phonePrefix := parts[12],
      postalCodeFormat := parts[13],
      postalCodeRegex := Trim(parts[14]),
      languages := parts[15],
      equivalentFipsCode := parts[18],
      neighbours := parts[17],
      geoNameId := p.parseInt(parts[16]).GetOr(0),
      phoneInformation := None))
  }

  /** Column `i` of a line made of tab-free columns goes to its field; a line
      with fewer than 19 columns yields null. */
  lemma Columns(p: TryParse, cols: seq<string>)
    requires |cols| >= 1 && Separable(cols, '\t')
    ensures var r := ParseLine(p, Join(cols, '\t'));
      && (r.None? <==> |cols| < 19)
      && (r.Some? ==>
        && r.value.isoAlpha2 == cols[0] && r.value.isoAlpha3 == cols[1]
        && r.value.isoNumeric == cols[2] && r.value.fipsCode == cols[3]
        && r.value.name == cols[4] && r.value.capital == cols[5]
        && r.value.population == cols[6] && r.value.continentId == cols[7]
        && r.value.continent == cols[8] && r.value.tld == cols[9]
        && r.value.currencyCode == cols[10] && r.value.currencyName == cols[11]
        && r.value.phonePrefix == cols[12]
        && r.value.postalCodeFormat == cols[13]
        && r.value.postalCodeRegex == Trim(cols[14])
        && r.value.languages == cols[15]
        && (r.value.geoNameId == if p.parseInt(cols[16]).Some? then p.parseInt(cols[16]).value else 0)
        && r.value.neighbours == cols[17]
        && r.value.equivalentFipsCode == cols[18]
        && r.value.phoneInformation == None)
  {
    SplitJoin(cols, '\t');
  }

  /** The parsed pattern is already trimmed, so trimming it again (as the
      postal code validation does) changes nothing. */
  lemma RegexTrimmed(p: TryParse, line: string)
    ensures ParseLine(p, line).Some? ==>
      Trim(ParseLine(p, line).value.postalCodeRegex) == ParseLine(p, line).value.postalCodeRegex
  {
    var parts := Split(line, '\t');
    if |parts| >= 19 {
      TrimIdempotent(parts[14]);
    }
  }

  /** What the `ParseFile` loop does with one line: comment lines and lines
      `ParseLine` rejects add nothing; this parser never throws. */
  function HandleLine(p: TryParse, line: string): (r: LineOutcome<Country>)
    ensures !r.Fail?
    ensures r.Emit? <==> line != "" && !("#" <= line) && ParseLine(p, line).Some?
    ensures r.Emit? ==> r.value == ParseLine(p, line).value
  {
    if line != "" && !("#" <= line) then
      match ParseLine(p, line)
      case None => Skip
      case Some(c) => Emit(c)
    else Skip
  }

  /** `ParseFile`: the countries of the lines before the first empty line, in
      order; it never throws. */
  method ParseFile(p: TryParse, lines: seq<string>) returns (names: seq<Country>)
    ensures Collect(UntilBlank(lines), l => HandleLine(p, l)) == Ok(names)
    ensures forall c :: c in names <==>
      exists i :: 0 <= i < |UntilBlank(lines)| && HandleLine(p, UntilBlank(lines)[i]) == Emit(c)
  {
    var r := ReadLines(lines, l => HandleLine(p, l));
    CollectOk(UntilBlank(lines), l => HandleLine(p, l));
    names := r.value;
    forall c ensures c in names <==>
      exists i :: 0 <= i < |UntilBlank(lines)| && HandleLine(p, UntilBlank(lines)[i]) == Emit(c)
    {
      CollectEmits(UntilBlank(lines), l => HandleLine(p, l), c);
    }
  }
}
