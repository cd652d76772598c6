/** TimeZoneParser.cs: one time zone per tab-separated line, with a header line
    starting with "CountryCode". */
module TimeZoneParser {
  import opened Wrappers
  import opened Text
  import opened Entities
  import opened LineFile

  /** `ParseLine`: country code and id from columns 0 and 1, the three offsets
      from columns 2..4 (0 when they do not parse). A line with fewer than 5
      columns throws. */
  function ParseLine(p: TryParse, line: string): Result<TimeZone> {
    var parts := Split(line, '\t');
    if |parts| < 5 then Err(IndexOutOfRange)
    else Ok(TimeZone(
      countryCode := parts[0],
      timeZoneId := parts[1],
      gmtOffset := p.parseDouble(parts[2]).GetOr(0.0),
      dstOffset := p.parseDouble(parts[3]).GetOr(0.0),
      rawOffset := p.parseDouble(parts[4]).GetOr(0.0)))
  }

  lemma Columns(p: TryParse, cols: seq<string>)
    requires |cols| >= 1 && Separable(cols, '\t')
    ensures var r := ParseLine(p, Join(cols, '\t'));
      && (r.Err? <==> |cols| < 5)
      && (r.Err? ==> r.error == IndexOutOfRange)
      && (r.Ok? ==>
        && r.value.countryCode == cols[0] && r.value.timeZoneId == cols[1]
        && r.value.gmtOffset == p.parseDouble(cols[2]).GetOr(0.0)
        && r.value.dstOffset == p.parseDouble(cols[3]).GetOr(0.0)
        && r.value.rawOffset == p.parseDouble(cols[4]).GetOr(0.0))
  {
    SplitJoin(cols, '\t');
  }

  /** What the `ParseFile` loop does with one line: the header is skipped and
      every other non-empty line is added or throws. */
  function HandleLine(p: TryParse, line: string): (r: LineOutcome<TimeZone>)
    ensures r.Skip? <==> line == "" || "CountryCode" <= line
    ensures r.Fail? <==> !r.Skip? && |Split(line, '\t')| < 5
    ensures r.Emit? ==> r.value == ParseLine(p, line).value
  {
    if line == "" || "CountryCode" <= line then Skip
    else match ParseLine(p, line)
      case Err(e) => Fail(e)
      case Ok(n) => Emit(n)
  }

  /** `ParseFile`: one time zone per non-header line before the first empty
      line, in order, or the exception of the first short line. */
  method ParseFile(p: TryParse, lines: seq<string>) returns (r: Result<seq<TimeZone>>)
    ensures r == Collect(UntilBlank(lines), l => HandleLine(p, l))
    ensures r.Ok? <==> forall i :: 0 <= i < |UntilBlank(lines)| ==>
      "CountryCode" <= UntilBlank(lines)[i] || |Split(UntilBlank(lines)[i], '\t')| >= 5
  {
    r := ReadLines(lines, l => HandleLine(p, l));
    CollectOk(UntilBlank(lines), l => HandleLine(p, l));
  }
}
