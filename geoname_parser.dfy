/** GeoNameParser.cs: the first-order administrative divisions among the
    tab-separated rows of the geonames dump. */
module GeoNameParser {
  import opened Wrappers
  import opened Text
  import opened Entities
  import opened LineFile

  /** The `TwoLetterName` the `foreach` over the alternate names leaves behind:
      the last name whose `Length` (in UTF-16 code units) is 2, if any. */
  function LastTwoLetterName(names: seq<string>): Option<string> {
    if names == [] then None
    else if Utf16Length(names[|names| - 1]) == 2 then Some(names[|names| - 1])
    else LastTwoLetterName(names[..|names| - 1])
  }

  /** `names[i]` has `Length` 2 and no later name does. */
  predicate LastOfLengthTwo(names: seq<string>, i: int) {
    0 <= i < |names| && Utf16Length(names[i]) == 2 && forall j :: i < j < |names| ==> Utf16Length(names[j]) != 2
  }

  /** The name found has length 2 and no later name does; none is found
      exactly when no name has length 2. */
  lemma {:induction false} LastTwoLetterNameSpec(names: seq<string>)
    ensures var r := LastTwoLetterName(names);
      && (r.None? <==> forall i :: 0 <= i < |names| ==> Utf16Length(names[i]) != 2)
      && (r.Some? ==> exists i :: LastOfLengthTwo(names, i) && names[i] == r.value)
  {
    if names == [] {
    } else if Utf16Length(names[|names| - 1]) == 2 {
      assert LastOfLengthTwo(names, |names| - 1);
    } else {
      var pre := names[..|names| - 1];
      LastTwoLetterNameSpec(pre);
      assert forall j :: 0 <= j < |pre| ==> pre[j] == names[j];
      var r := LastTwoLetterName(pre);
      assert LastTwoLetterName(names) == r;
      if r.Some? {
        var i :| LastOfLengthTwo(pre, i) && pre[i] == r.value;
        assert LastOfLengthTwo(names, i);
      }
    }
  }

  /** `Length` counts UTF-16 code units: one character outside the Basic
      Multilingual Plane is a two-letter name, and two characters of which
      one lies outside it are not. */
  lemma TwoLetterNameCodeUnits()
    ensures LastTwoLetterName(["\U{20000}"]) == Some("\U{20000}")
    ensures LastTwoLetterName(["a\U{20000}"]) == None
    ensures LastTwoLetterName(["ab", "a\U{20000}"]) == Some("ab")
  {
    assert Utf16Length("\U{20000}") == 2;
    assert Utf16Length("a\U{20000}") == 3;
    assert ["ab", "a\U{20000}"][..1] == ["ab"];
  }

  /** `ParseLine`: columns 0..18 become the row's fields; a field parsed with
      `TryParse` keeps its default (0, `DateTime.MinValue`) when parsing fails.
      A row with fewer than 19 columns throws. */
  function ParseLine(p: TryParse, line: string): Result<GeoName> {
    var parts := Split(line, '\t');
    if |parts| < 19 then Err(IndexOutOfRange)
    else
      var alternate := if parts[3] != "" then Some(Split(parts[3], ',')) else None;
      Ok(GeoName(
        geoNameId := p.parseInt(parts[0]).GetOr(0),
        name := parts[1],
        asciiName := parts[2],
        alternateNames := alternate,
        latitude := p.parseDecimal(parts[4]).GetOr(0.0),
        longitude := p.parseDecimal(parts[5]).GetOr(0.0),
        featureClass := parts[7],
        featureCodeId := parts[6],
        countryCode := parts[8],
        alternateCountryCode := parts[9],
        admin1Code := parts[10],
        admin2Code := parts[11],
        admin3Code := parts[12],
        admin4Code := parts[13],
        population := p.parseLong(parts[14]).GetOr(0),
        elevation := p.parseInt(parts[15]).GetOr(0),
        digitalElevationModel := parts[16],
        timeZoneId := parts[17],
        lastModified := p.parseDateTime(parts[18]).GetOr(MinDateTime),
        twoLetterName := if alternate.Some? then LastTwoLetterName(alternate.value) else None))
  }

  /** Column `i` of a row made of tab-free columns goes to its field; a row
      with fewer than 19 columns throws. The alternate names are the
      comma-separated parts of column 3, and absent when it is empty. */
  lemma Columns(p: TryParse, cols: seq<string>)
    requires |cols| >= 1 && Separable(cols, '\t')
    ensures var r := ParseLine(p, Join(cols, '\t'));
      && (r.Err? <==> |cols| < 19)
      && (r.Err? ==> r.error == IndexOutOfRange)
      && (r.Ok? ==>
        && r.value.geoNameId == p.parseInt(cols[0]).GetOr(0)
        && r.value.name == cols[1] && r.value.asciiName == cols[2]
        && (r.value.alternateNames.None? <==> cols[3] == "")
        && (r.value.alternateNames.Some? ==>
              && Separable(r.value.alternateNames.value, ',')
              && Join(r.value.alternateNames.value, ',') == cols[3])
        && (r.value.twoLetterName.None? <==>
              r.value.alternateNames.None? ||
              forall i :: 0 <= i < |r.value.alternateNames.value| ==> Utf16Length(r.value.alternateNames.value[i]) != 2)
        && (r.value.twoLetterName.Some? ==>
              exists i :: LastOfLengthTwo(r.value.alternateNames.value, i) &&
                r.value.alternateNames.value[i] == r.value.twoLetterName.value)
        && r.value.latitude == p.parseDecimal(cols[4]).GetOr(0.0)
        && r.value.longitude == p.parseDecimal(cols[5]).GetOr(0.0)
        && r.value.featureCodeId == cols[6] && r.value.featureClass == cols[7]
        && r.value.countryCode == cols[8] && r.value.alternateCountryCode == cols[9]
        && r.value.admin1Code == cols[10] && r.value.admin2Code == cols[11]
        && r.value.admin3Code == cols[12] && r.value.admin4Code == cols[13]
        && r.value.population == p.parseLong(cols[14]).GetOr(0)
        && r.value.elevation == p.parseInt(cols[15]).GetOr(0)
        && r.value.digitalElevationModel == cols[16]
        && r.value.timeZoneId == cols[17]
        && r.value.lastModified == p.parseDateTime(cols[18]).GetOr(MinDateTime))
  {
    SplitJoin(cols, '\t');
    if |cols| >= 19 {
      JoinSplit(cols[3], ',');
      if cols[3] != "" {
        LastTwoLetterNameSpec(Split(cols[3], ','));
      }
    }
  }

  /** What the `ParseFile` loop does with one non-empty line: rows whose feature
      class starts with "ADM1" are kept, other rows are dropped, and a short
      row throws out of `ParseFile`. */
  function HandleLine(p: TryParse, line: string): (r: LineOutcome<GeoName>)
    ensures r.Fail? <==> line != "" && ParseLine(p, line).Err?
    ensures r.Emit? <==> line != "" && ParseLine(p, line).Ok? && "ADM1" <= ParseLine(p, line).value.featureClass
    ensures r.Emit? ==> r.value == ParseLine(p, line).value
  {
    if line == "" then Skip
    else match ParseLine(p, line)
      case Err(e) => Fail(e)
      case Ok(n) => if "ADM1" <= n.featureClass then Emit(n) else Skip
  }

  /** Every GeoName collected from rows is a first-order division. */
  lemma KeptIsProvince(p: TryParse, rows: seq<string>, n: GeoName)
    requires Collect(rows, l => HandleLine(p, l)).Ok?
    ensures n in Collect(rows, l => HandleLine(p, l)).value ==> "ADM1" <= n.featureClass
  {
    CollectEmits(rows, l => HandleLine(p, l), n);
    if n in Collect(rows, l => HandleLine(p, l)).value {
      var i :| 0 <= i < |rows| && HandleLine(p, rows[i]) == Emit(n);
    }
  }

  /** `ParseFile`: the provinces among the rows before the first empty line, in
      order, or the exception of the first short row. */
  method ParseFile(p: TryParse, lines: seq<string>) returns (r: Result<seq<GeoName>>)
    ensures r == Collect(UntilBlank(lines), l => HandleLine(p, l))
    ensures r.Ok? <==> forall i :: 0 <= i < |UntilBlank(lines)| ==> |Split(UntilBlank(lines)[i], '\t')| >= 19
    ensures r.Ok? ==> forall n :: n in r.value ==> "ADM1" <= n.featureClass
  {
    r := ReadLines(lines, l => HandleLine(p, l));
    CollectOk(UntilBlank(lines), l => HandleLine(p, l));
    if r.Ok? {
      forall n | n in r.value ensures "ADM1" <= n.featureClass {
        KeptIsProvince(p, UntilBlank(lines), n);
      }
    }
  }
}
