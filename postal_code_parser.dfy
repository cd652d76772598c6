/** PostalCodeParser.cs: one postal code per tab-separated line. */
module PostalCodeParser {
  import opened Wrappers
  import opened Text
  import opened Entities
  import opened LineFile

  /** A coordinate column: its value when it is not blank and parses, 0 otherwise. */
  function Coordinate(p: TryParse, col: string): (r: real)
    ensures !IsBlank(col) && p.parseDecimal(col).Some? ==> r == p.parseDecimal(col).value
    ensures IsBlank(col) || p.parseDecimal(col).None? ==> r == 0.0
  {
    if !IsBlank(col) then p.parseDecimal(col).GetOr(0.0) else 0.0
  }

  /** The accuracy column: its value when it is not blank and parses
      (ignoring case), `Unknown` otherwise. */
  function Accuracy(p: TryParse, col: string): (r: GPSAccuracy)
    ensures !IsBlank(col) && p.parseAccuracy(col).Some? ==> r == p.parseAccuracy(col).value
    ensures IsBlank(col) || p.parseAccuracy(col).None? ==> r == Unknown
  {
    if !IsBlank(col) then p.parseAccuracy(col).GetOr(Unknown) else Unknown
  }

  /** `ParseLine`: a blank line yields null; otherwise columns 0..11 become the
      fields and a line with fewer than 12 columns throws. The country is a
      placeholder carrying only the ISO code of column 0. */
  function ParseLine(p: TryParse, line: string): Result<Option<PostalCode>> {
    if IsBlank(line) then Ok(None)
    else
      var arr := Split(line, '\t');
      if |arr| < 12 then Err(IndexOutOfRange)
      else Ok(Some(PostalCode(
        country := CountryRef(arr[0], 0),
        code := arr[1],
        name := arr[2],
        admin1 := AdminCode(arr[3], arr[4]),
        admin2 := AdminCode(arr[5], arr[6]),
        admin3 := AdminCode(arr[7], arr[8]),
        latitude := Coordinate(p, arr[9]),
        longitude := Coordinate(p, arr[10]),
        accuracy := Accuracy(p, arr[11]))))
  }

  /** Column `i` of a non-blank line made of tab-free columns goes to its
      field; a line with fewer than 12 columns throws. */
  lemma Columns(p: TryParse, cols: seq<string>)
    requires |cols| >= 1 && Separable(cols, '\t')
    requires !IsBlank(Join(cols, '\t'))
    ensures var r := ParseLine(p, Join(cols, '\t'));
      && (r.Err? <==> |cols| < 12)
      && (r.Err? ==> r.error == IndexOutOfRange)
      && (r.Ok? ==> r.value.Some?)
      && (r.Ok? && r.value.Some? ==>
        var c := r.value.value;
        && c.country == CountryRef(cols[0], 0)
        && c.code == cols[1] && c.name == cols[2]
        && c.admin1 == AdminCode(cols[3], cols[4])
        && c.admin2 == AdminCode(cols[5], cols[6])
        && c.admin3 == AdminCode(cols[7], cols[8])
        && c.latitude == Coordinate(p, cols[9])
        && c.longitude == Coordinate(p, cols[10])
        && c.accuracy == Accuracy(p, cols[11]))
  {
    SplitJoin(cols, '\t');
  }

  /** What the `ParseFile` loop does with one non-empty line. */
  function HandleLine(p: TryParse, line: string): (r: LineOutcome<PostalCode>)
    ensures r.Fail? <==> line != "" && ParseLine(p, line).Err?
    ensures r.Emit? <==> ParseLine(p, line).Ok? && ParseLine(p, line).value.Some?
    ensures r.Emit? ==> r.value == ParseLine(p, line).value.value
    ensures IsBlank(line) ==> r.Skip?
  {
    if line == "" then Skip
    else match ParseLine(p, line)
      case Err(e) => Fail(e)
      case Ok(None) => Skip
      case Ok(Some(c)) => Emit(c)
  }

  /** `ParseFile`: the postal codes of the lines before the first empty line,
      in order, or the exception of the first short line. */
  method ParseFile(p: TryParse, lines: seq<string>) returns (r: Result<seq<PostalCode>>)
    ensures r == Collect(UntilBlank(lines), l => HandleLine(p, l))
    ensures r.Ok? <==> forall i :: 0 <= i < |UntilBlank(lines)| ==>
      IsBlank(UntilBlank(lines)[i]) || |Split(UntilBlank(lines)[i], '\t')| >= 12
  {
    r := ReadLines(lines, l => HandleLine(p, l));
    CollectOk(UntilBlank(lines), l => HandleLine(p, l));
  }
}
