/** PhoneManager.cs: the phone-number-format table and its lookups. The table
    is read from a text in which a blank line announces a country name and the
    line after a country name holds `countryCode,mobilePrefix,digits#comment`. */
module PhoneManager {
  import opened Wrappers
  import opened Text
  import opened Seqs
  import opened Entities

  /** The parts of `PhoneInformation` that are not shown: its `Reliable` flag and
      its `RegexPattern`, and `Regex.IsMatch`. */
  datatype PhoneRules = PhoneRules(
    reliable: PhoneInformation -> bool,
    regexPattern: PhoneInformation -> string,
    isMatch: (string, string) -> bool)

  /** `new PhoneInformation()`: no country (null), no comment, zero numbers. */
  const NewEntry := PhoneInformation("", 0, 0, 0, None)

  // ------------------------------------------------- the reading state machine

  /** The locals of `ParseFromBytes`' first loop. */
  datatype Reader = Reader(
    phones: seq<PhoneInformation>,
    currentCountry: string,
    currentPhone: PhoneInformation,
    nextIsCountry: bool,
    nextIsCode: bool)

  const Start := Reader([], "", NewEntry, false, false)

  /** A code line whose text before the first '#' has fewer than three
      comma-separated parts makes `ParseFromBytes` index past the end. */
  predicate ShortCodeLine(trimmed: string) {
    |Split(Split(trimmed, '#')[0], ',')| < 3
  }

  /** The entry a code line describes: the numbers of its first three
      comma-separated parts (each when it parses) and the text after its first
      '#' as the comment. */
  function CodeEntry(parseInt: string -> Option<Int32>, country: string, trimmed: string): PhoneInformation
    requires !ShortCodeLine(trimmed)
  {
    var commentedBits := Split(trimmed, '#');
    var parts := Split(commentedBits[0], ',');
    PhoneInformation(
      country := country,
      countryCode := parseInt(parts[0]).GetOr(0),
      mobilePrefix := parseInt(parts[1]).GetOr(0),
      digitsAfterMobilePrefix := parseInt(parts[2]).GetOr(0),
      comment := if |commentedBits| > 1 then Some(commentedBits[1]) else None)
  }

  /** A trimmed code line made of comma-separated parts, then optionally '#'
      and '#'-separated comment segments: it is short exactly when it has
      fewer than three parts; otherwise its entry has the country it was read
      under, the numbers of parts 0, 1 and 2 (each 0 when it does not parse),
      and the first comment segment as its comment. */
  lemma CodeEntryColumns(parseInt: string -> Option<Int32>, country: string, parts: seq<string>, segs: seq<string>)
    requires |parts| >= 1 && Separable(parts, ',') && Separable(parts, '#') && Separable(segs, '#')
    ensures var line := Join([Join(parts, ',')] + segs, '#');
      && (ShortCodeLine(line) <==> |parts| < 3)
      && (|parts| >= 3 ==> CodeEntry(parseInt, country, line) == PhoneInformation(
            country := country,
            countryCode := parseInt(parts[0]).GetOr(0),
            mobilePrefix := parseInt(parts[1]).GetOr(0),
            digitsAfterMobilePrefix := parseInt(parts[2]).GetOr(0),
            comment := if segs == [] then None else Some(segs[0])))
  {
    var numbers := Join(parts, ',');
    JoinAvoids(parts, ',', '#');
    var bits := [numbers] + segs;
    assert Separable(bits, '#');
    SplitJoin(bits, '#');
    SplitJoin(parts, ',');
  }

  /** One iteration of the first loop; `None` when the line throws. */
  function Step(parseInt: string -> Option<Int32>, s: Reader, line: string): Option<Reader>
  {
    var trimmed := Trim(line);
    if "#" <= trimmed then Some(s)
    else
      var phones := s.phones + [s.currentPhone];
      var entry := NewEntry.(country := s.currentCountry);
      if trimmed == "" then
        Some(Reader(phones, s.currentCountry, entry, true, false))
      else if s.nextIsCountry then
        Some(Reader(phones, trimmed, entry, false, true))
      else if s.nextIsCode then
        if ShortCodeLine(trimmed) then None
        else Some(Reader(phones, s.currentCountry, CodeEntry(parseInt, s.currentCountry, trimmed), false, true))
      else
        Some(Reader(phones, s.currentCountry, entry, s.nextIsCountry, s.nextIsCode))
  }

  /** What one line does to the reader: a comment line changes nothing; any
      other line appends the entry in progress and starts a new one for the
      current country; a blank line expects a country; a country line sets
      the country and expects a code; a code line keeps the country and the
      flags and fills the entry from the line; only a short code line throws. */
  lemma StepSpec(parseInt: string -> Option<Int32>, s: Reader, line: string)
    ensures var r := Step(parseInt, s, line);
      && ("#" <= Trim(line) ==> r == Some(s))
      && (r.None? <==> !("#" <= Trim(line)) && Trim(line) != "" && !s.nextIsCountry && s.nextIsCode && ShortCodeLine(Trim(line)))
      && (r.Some? && !("#" <= Trim(line)) ==>
          && r.value.phones == s.phones + [s.currentPhone]
          && r.value.currentPhone.country == s.currentCountry)
      && (r.Some? && Trim(line) == "" ==> r.value.nextIsCountry && !r.value.nextIsCode)
      && (r.Some? && Trim(line) == "" ==> r.value.currentCountry == s.currentCountry)
      && (r.Some? && !("#" <= Trim(line)) && Trim(line) != "" && s.nextIsCountry ==>
          r.value.currentCountry == Trim(line) && !r.value.nextIsCountry && r.value.nextIsCode)
      && (r.Some? && !("#" <= Trim(line)) && Trim(line) != "" && !s.nextIsCountry ==>
          && r.value.currentCountry == s.currentCountry
          && r.value.nextIsCountry == s.nextIsCountry && r.value.nextIsCode == s.nextIsCode)
      && (r.Some? && !("#" <= Trim(line)) && Trim(line) != "" && !s.nextIsCountry && s.nextIsCode ==>
          r.value.currentPhone == CodeEntry(parseInt, s.currentCountry, Trim(line)))
      && (r.Some? && !("#" <= Trim(line)) && !(Trim(line) != "" && !s.nextIsCountry && s.nextIsCode) ==>
          r.value.currentPhone == NewEntry.(country := s.currentCountry))
  {
  }

  /** The state after reading all of `lines`, or `None` if some line throws. */
  function Run(parseInt: string -> Option<Int32>, lines: seq<string>): Option<Reader> {
    if lines == [] then Some(Start)
    else match Run(parseInt, lines[..|lines| - 1])
      case None => None
      case Some(s) => Step(parseInt, s, lines[|lines| - 1])
  }

  /** A line that is not a comment once trimmed. */
  predicate Counted(line: string) {
    !("#" <= Trim(line))
  }

  /** Reading a prefix of the lines throws no sooner than reading them all. */
  lemma {:induction false} RunPrefix(parseInt: string -> Option<Int32>, lines: seq<string>, i: nat)
    requires i <= |lines|
    ensures Run(parseInt, lines).Some? ==> Run(parseInt, lines[..i]).Some?
    decreases |lines| - i
  {
    if i < |lines| {
      var pre := lines[..|lines| - 1];
      RunPrefix(parseInt, pre, i);
      assert pre[..i] == lines[..i];
    } else {
      assert lines[..i] == lines;
    }
  }

  /** Every non-comment line appends exactly one entry (the one in progress
      before it), so the entry in progress after the last line is never
      appended; and the two expectation flags are never both set. */
  lemma {:induction false} RunCount(parseInt: string -> Option<Int32>, lines: seq<string>)
    requires Run(parseInt, lines).Some?
    ensures |Run(parseInt, lines).value.phones| == |Filter(lines, Counted)|
    ensures !(Run(parseInt, lines).value.nextIsCountry && Run(parseInt, lines).value.nextIsCode)
  {
    if lines != [] {
      RunCount(parseInt, lines[..|lines| - 1]);
      StepSpec(parseInt, Run(parseInt, lines[..|lines| - 1]).value, lines[|lines| - 1]);
    }
  }

  /** Every country name that reaches an entry is one of the trimmed lines. */
  predicate FromLines(country: string, lines: seq<string>) {
    country == "" || exists i :: 0 <= i < |lines| && Trim(lines[i]) == country
  }

  lemma FromLinesGrow(country: string, pre: seq<string>, lines: seq<string>)
    requires pre <= lines && FromLines(country, pre)
    ensures FromLines(country, lines)
  {
    if country != "" {
      var i :| 0 <= i < |pre| && Trim(pre[i]) == country;
      assert lines[i] == pre[i];
    }
  }

  lemma {:induction false} RunCountries(parseInt: string -> Option<Int32>, lines: seq<string>)
    requires Run(parseInt, lines).Some?
    ensures var s := Run(parseInt, lines).value;
      && FromLines(s.currentCountry, lines)
      && FromLines(s.currentPhone.country, lines)
      && forall k :: 0 <= k < |s.phones| ==> FromLines(s.phones[k].country, lines)
  {
    if lines != [] {
      var pre, last := lines[..|lines| - 1], lines[|lines| - 1];
      RunCountries(parseInt, pre);
      var s := Run(parseInt, pre).value;
      StepSpec(parseInt, s, last);
      var t := Step(parseInt, s, last).value;
      assert Run(parseInt, lines).value == t;
      FromLinesGrow(s.currentCountry, pre, lines);
      FromLinesGrow(s.currentPhone.country, pre, lines);
      assert FromLines(Trim(last), lines) by {
        assert Trim(lines[|lines| - 1]) == Trim(last);
      }
      forall k | 0 <= k < |s.phones| ensures FromLines(s.phones[k].country, lines) {
        FromLinesGrow(s.phones[k].country, pre, lines);
      }
      assert t.currentCountry == s.currentCountry || t.currentCountry == Trim(last);
      assert t.currentPhone.country == s.currentCountry || t.currentPhone == s.currentPhone;
      if Counted(last) {
        assert t.phones == s.phones + [s.currentPhone];
        forall k | 0 <= k < |t.phones| ensures FromLines(t.phones[k].country, lines) {
          if k == |s.phones| { assert t.phones[k] == s.currentPhone; }
          else { assert t.phones[k] == s.phones[k]; }
        }
      } else {
        assert t == s;
      }
    }
  }

  /** An entry `ParseFromBytes` keeps: one with a country that is reliable. */
  predicate Keep(rules: PhoneRules, p: PhoneInformation) {
    p.country != "" && rules.reliable(p)
  }

  /** The first loop of `ParseFromBytes`: the entries appended while reading
      `lines`, or `None` where a short code line makes it index past the end. */
  method ReadEntries(lines: seq<string>, parseInt: string -> Option<Int32>)
    returns (r: Option<seq<PhoneInformation>>)
    ensures r.None? <==> Run(parseInt, lines).None?
    ensures r.Some? ==> r.value == Run(parseInt, lines).value.phones
  {
    var phones := [];
    var currentCountry := "";
    var currentPhone := NewEntry;
    var nextIsCountry := false;
    var nextIsCode := false;
    for i := 0 to |lines|
      invariant Run(parseInt, lines[..i]) == Some(Reader(phones, currentCountry, currentPhone, nextIsCountry, nextIsCode))
    {
      ghost var before := Reader(phones, currentCountry, currentPhone, nextIsCountry, nextIsCode);
      assert lines[..i + 1][..i] == lines[..i];
      assert Run(parseInt, lines[..i + 1]) == Step(parseInt, before, lines[i]);
      var trimmedLine := Trim(lines[i]);
      if !("#" <= trimmedLine) {
        phones := phones + [currentPhone];
        currentPhone := NewEntry.(country := currentCountry);
        if trimmedLine == "" {
          nextIsCode := false;
          nextIsCountry := true;
        } else if nextIsCountry {
          currentCountry := trimmedLine;
          nextIsCountry := false;
          nextIsCode := true;
        } else if nextIsCode {
          var entry := ReadCode(parseInt, currentCountry, trimmedLine);
          if entry.None? {
            RunPrefix(parseInt, lines, i + 1);
            return None;
          }
          currentPhone := entry.value;
        }
      }
      assert Step(parseInt, before, lines[i]) == Some(Reader(phones, currentCountry, currentPhone, nextIsCountry, nextIsCode));
    }
    assert lines[..|lines|] == lines;
    r := Some(phones);
  }

  /** The code-line branch of the first loop: the entry for `country` filled
      from the trimmed line, or `None` where the line is too short and the
      loop would index past the end. */
  method ReadCode(parseInt: string -> Option<Int32>, country: string, trimmedLine: string)
    returns (r: Option<PhoneInformation>)
    ensures r.None? <==> ShortCodeLine(trimmedLine)
    ensures r.Some? ==> r.value == CodeEntry(parseInt, country, trimmedLine)
  {
    var currentPhone := NewEntry.(country := country);
    var commentedBits := Split(trimmedLine, '#');
    var parts := Split(commentedBits[0], ',');
    if |commentedBits| > 1 {
      currentPhone := currentPhone.(comment := Some(commentedBits[1]));
    }
    if |parts| < 3 {
      return None;
    }
    var num := parseInt(parts[0]);
    if num.Some? { currentPhone := currentPhone.(countryCode := num.value); }
    num := parseInt(parts[1]);
    if num.Some? { currentPhone := currentPhone.(mobilePrefix := num.value); }
    num := parseInt(parts[2]);
    if num.Some? { currentPhone := currentPhone.(digitsAfterMobilePrefix := num.value); }
    r := Some(currentPhone);
  }

  /** `ParseFromBytes`, after UTF-8 decoding: runs the state machine over the
      '\n'-separated lines, then keeps the reliable entries with a country, in
      order; a short code line throws. */
  method ParseFromBytes(text: string, parseInt: string -> Option<Int32>, rules: PhoneRules)
    returns (r: Result<seq<PhoneInformation>>)
    ensures r.Err? <==> Run(parseInt, Split(text, '\n')).None?
    ensures r.Err? ==> r.error == IndexOutOfRange
    ensures r.Ok? ==> r.value == Filter(Run(parseInt, Split(text, '\n')).value.phones, p => Keep(rules, p))
  {
    var read := ReadEntries(Split(text, '\n'), parseInt);
    if read.None? {
      return Err(IndexOutOfRange);
    }
    var good := KeepEntries(read.value, rules);
    r := Ok(good);
  }

  /** The second loop of `ParseFromBytes`: the entries it keeps, in order. */
  method KeepEntries(phones: seq<PhoneInformation>, rules: PhoneRules) returns (good: seq<PhoneInformation>)
    ensures good == Filter(phones, p => Keep(rules, p))
  {
    good := [];
    for j := 0 to |phones|
      invariant good == Filter(phones[..j], p => Keep(rules, p))
    {
      assert phones[..j + 1][..j] == phones[..j];
      if phones[j].country != "" && rules.reliable(phones[j]) {
        good := good + [phones[j]];
      }
    }
    assert phones[..|phones|] == phones;
  }

  /** The kept entries are exactly the reliable ones with a country, each as
      often as it was read. */
  lemma KeptEntries(rules: PhoneRules, phones: seq<PhoneInformation>, p: PhoneInformation)
    ensures var good := Filter(phones, q => Keep(rules, q));
      && (p in good <==> p in phones && p.country != "" && rules.reliable(p))
      && multiset(good)[p] == if Keep(rules, p) then multiset(phones)[p] else 0
  {
    FilterCount(phones, q => Keep(rules, q), p);
  }

  // ---------------------------------------------------------------- lookups

  /** `AllByCountry`: the entries whose country equals `country` ignoring case,
      in table order, each as often as in the table. */
  function AllByCountry(phones: seq<PhoneInformation>, country: string): (r: seq<PhoneInformation>)
    ensures forall p :: p in r <==> p in phones && EqualsIgnoreCase(p.country, country)
    ensures forall p :: multiset(r)[p] == if EqualsIgnoreCase(p.country, country) then multiset(phones)[p] else 0
  {
    var r := Filter(phones, (p: PhoneInformation) => EqualsIgnoreCase(p.country, country));
    forall p ensures multiset(r)[p] == if EqualsIgnoreCase(p.country, country) then multiset(phones)[p] else 0 {
      FilterCount(phones, (p: PhoneInformation) => EqualsIgnoreCase(p.country, country), p);
    }
    r
  }

  /** The table lookup is line by line: the entries of two tables are those of
      each, in order. */
  lemma AllByCountryAppend(a: seq<PhoneInformation>, b: seq<PhoneInformation>, country: string)
    ensures AllByCountry(a + b, country) == AllByCountry(a, country) + AllByCountry(b, country)
  {
    FilterAppend(a, b, (p: PhoneInformation) => EqualsIgnoreCase(p.country, country));
  }

  /** `Regex.Replace(phone, @"[\(\)\- ]", "")`. */
  function Unformat(phone: string): (r: string)
    ensures forall c :: c in r <==> c in phone && c !in "()- "
    ensures forall c :: multiset(r)[c] == if c in "()- " then 0 else multiset(phone)[c]
  {
    var r := Filter(phone, c => c !in "()- ");
    forall c ensures multiset(r)[c] == if c in "()- " then 0 else multiset(phone)[c] {
      FilterCount(phone, c => c !in "()- ", c);
    }
    r
  }

  /** Removing the formatting characters works character by character, in
      order: a formatting character disappears, any other stays. */
  lemma UnformatAppend(a: string, b: string, c: char)
    ensures Unformat(a + b) == Unformat(a) + Unformat(b)
    ensures Unformat([c]) == if c in "()- " then [] else [c]
  {
    FilterAppend(a, b, c => c !in "()- ");
    FilterAppend([], [c], c => c !in "()- ");
    assert [] + [c] == [c];
  }

  /** An entry `AutoDetect` accepts for the unformatted number. */
  predicate Detects(rules: PhoneRules, phone: string, p: PhoneInformation) {
    rules.reliable(p) && rules.isMatch(phone, rules.regexPattern(p))
  }

  /** `AutoDetect`: the first reliable entry, in table order, whose pattern
      matches the number without its formatting characters; null if none. */
  method AutoDetect(phones: seq<PhoneInformation>, rules: PhoneRules, number: string)
    returns (r: Option<PhoneInformation>)
    ensures r.None? <==> forall i :: 0 <= i < |phones| ==> !Detects(rules, Unformat(number), phones[i])
    ensures r.Some? ==>
      exists i :: 0 <= i < |phones| && phones[i] == r.value && Detects(rules, Unformat(number), phones[i]) &&
                  forall j :: 0 <= j < i ==> !Detects(rules, Unformat(number), phones[j])
  {
    var phone := Unformat(number);
    for i := 0 to |phones|
      invariant forall j :: 0 <= j < i ==> !Detects(rules, phone, phones[j])
    {
      var p := phones[i];
      if rules.reliable(p) {
        if rules.isMatch(phone, rules.regexPattern(p)) {
          return Some(p);
        }
      }
    }
    return None;
  }
}
