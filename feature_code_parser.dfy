/** FeatureCodeParser.cs: one feature code per tab-separated line, with a
    header line starting with "CountryCode". */
module FeatureCodeParser {
  import opened Wrappers
  import opened Text
  import opened Entities
  import opened LineFile

  /** `ParseLine`: column 0 is `class.code`-style text split at '.' (or used
      whole when it has no '.'), columns 1 and 2 are name and description. A
      line with fewer than 3 columns throws. */
  function ParseLine(line: string): Result<FeatureCode> {
    var parts := Split(line, '\t');
    var first := parts[0];
    if |parts| < 3 then Err(IndexOutOfRange)
    else if '.' in first then
      var codeAndClass := Split(first, '.');
      SplitCount(first, '.');
      Ok(FeatureCode(code := codeAndClass[0], featureClass := codeAndClass[1],
                     name := parts[1], description := parts[2]))
    else
      Ok(FeatureCode(code := first, featureClass := first, name := parts[1], description := parts[2]))
  }

  /** For a line whose column 0 is `segs` joined by '.', the code is the first
      segment and the class the second (both the whole column when there is
      no '.'); name and description are columns 1 and 2. */
  lemma Columns(cols: seq<string>, segs: seq<string>)
    requires |cols| >= 1 && Separable(cols, '\t')
    requires |segs| >= 1 && Separable(segs, '.') && cols[0] == Join(segs, '.')
    ensures var r := ParseLine(Join(cols, '\t'));
      && (r.Err? <==> |cols| < 3)
      && (r.Err? ==> r.error == IndexOutOfRange)
      && (r.Ok? ==>
        && r.value.code == segs[0]
        && r.value.featureClass == (if |segs| >= 2 then segs[1] else segs[0])
        && r.value.name == cols[1] && r.value.description == cols[2])
  {
    SplitJoin(cols, '\t');
    SplitJoin(segs, '.');
    SplitCount(cols[0], '.');
  }

  /** The code is the text before the first '.', when there is one. */
  lemma CodeBeforeDot(line: string, k: nat)
    requires ParseLine(line).Ok?
    requires var c := Split(line, '\t')[0]; k < |c| && c[k] == '.' && '.' !in c[..k]
    ensures ParseLine(line).value.code == Split(line, '\t')[0][..k]
  {
    SplitFirst(Split(line, '\t')[0], '.', k);
  }

  /** What the `ParseFile` loop does with one line: the header is skipped and
      every other non-empty line is added or throws. */
  function HandleLine(line: string): (r: LineOutcome<FeatureCode>)
    ensures r.Skip? <==> line == "" || "CountryCode" <= line
    ensures r.Fail? <==> !r.Skip? && |Split(line, '\t')| < 3
    ensures r.Emit? ==> r.value == ParseLine(line).value
  {
    if line == "" || "CountryCode" <= line then Skip
    else match ParseLine(line)
      case Err(e) => Fail(e)
      case Ok(n) => Emit(n)
  }

  /** `ParseFile`: one feature code per non-header line before the first empty
      line, in order, or the exception of the first short line. */
  method ParseFile(lines: seq<string>) returns (r: Result<seq<FeatureCode>>)
    ensures r == Collect(UntilBlank(lines), HandleLine)
    ensures r.Ok? <==> forall i :: 0 <= i < |UntilBlank(lines)| ==>
      "CountryCode" <= UntilBlank(lines)[i] || |Split(UntilBlank(lines)[i], '\t')| >= 3
  {
    r := ReadLines(lines, HandleLine);
    CollectOk(UntilBlank(lines), HandleLine);
  }
}
