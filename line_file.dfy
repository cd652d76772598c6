/** The loop every `IGeoFileParser.ParseFile` runs: read a line, handle it when it
    is not empty, and stop after the first empty line or at the end of the file. */
module LineFile {
  import opened Wrappers

  /** What handling one line does: nothing, add one record, or throw. */
  datatype LineOutcome<T> = Skip | Emit(value: T) | Fail(error: Error)

  /** The lines a `do { line = ReadLine(); ... } while (!string.IsNullOrEmpty(line))`
      loop gets to handle: those before the first empty line. */
  function UntilBlank(lines: seq<string>): (r: seq<string>)
    ensures r <= lines
    ensures forall i :: 0 <= i < |r| ==> r[i] != ""
    ensures |r| < |lines| ==> lines[|r|] == ""
  {
    if lines == [] || lines[0] == "" then [] else [lines[0]] + UntilBlank(lines[1..])
  }

  /** Nothing after the first empty line is ever read. */
  lemma UntilBlankStops(pre: seq<string>, tail: seq<string>)
    requires forall i :: 0 <= i < |pre| ==> pre[i] != ""
    ensures UntilBlank(pre + [""] + tail) == pre
    ensures UntilBlank(pre) == pre
  {
    var lines := pre + [""] + tail;
    assert lines[|pre|] == "";
  }

  /** The records collected from `lines`, in order; the first line that throws
      ends the collection with its exception. */
  function Collect<T>(lines: seq<string>, f: string -> LineOutcome<T>): Result<seq<T>>
  {
    if lines == [] then Ok([])
    else match Collect(lines[..|lines| - 1], f)
      case Err(e) => Err(e)
      case Ok(acc) =>
        match f(lines[|lines| - 1])
        case Skip => Ok(acc)
        case Emit(v) => Ok(acc + [v])
        case Fail(e) => Err(e)
  }

  /** Sequencing two results: the first exception wins. */
  function Then<T>(a: Result<seq<T>>, b: Result<seq<T>>): Result<seq<T>> {
    match a
    case Err(e) => Err(e)
    case Ok(x) => match b case Err(e) => Err(e) case Ok(y) => Ok(x + y)
  }

  /** Collecting is line by line: the records of `a + b` are those of `a`
      followed by those of `b`, and the first exception wins. */
  lemma {:induction false} CollectAppend<T>(a: seq<string>, b: seq<string>, f: string -> LineOutcome<T>)
    ensures Collect(a + b, f) == Then(Collect(a, f), Collect(b, f))
    decreases |b|
  {
    if b == [] {
      assert a + b == a;
      match Collect(a, f) {
        case Err(_) =>
        case Ok(x) => assert x + [] == x;
      }
    } else {
      var b' := b[..|b| - 1];
      assert (a + b)[..|a + b| - 1] == a + b';
      assert (a + b)[|a + b| - 1] == b[|b| - 1];
      CollectAppend(a, b', f);
      match Collect(a, f) {
        case Err(_) =>
        case Ok(x) =>
          match Collect(b', f) {
            case Err(_) =>
            case Ok(y) =>
              match f(b[|b| - 1]) {
                case Skip =>
                case Fail(_) =>
                case Emit(v) => assert x + y + [v] == x + (y + [v]);
              }
          }
      }
    }
  }

  /** Collecting fails exactly when some line throws. */
  lemma {:induction false} CollectOk<T>(lines: seq<string>, f: string -> LineOutcome<T>)
    ensures Collect(lines, f).Ok? <==> forall i :: 0 <= i < |lines| ==> !f(lines[i]).Fail?
  {
    if lines != [] {
      var pre := lines[..|lines| - 1];
      CollectOk(pre, f);
      assert forall i :: 0 <= i < |pre| ==> pre[i] == lines[i];
    }
  }

  /** Every collected record comes from a line that emits it, and every
      emitted record is collected when nothing throws. */
  lemma {:induction false} CollectEmits<T>(lines: seq<string>, f: string -> LineOutcome<T>, x: T)
    requires Collect(lines, f).Ok?
    ensures x in Collect(lines, f).value <==> exists i :: 0 <= i < |lines| && f(lines[i]) == Emit(x)
  {
    if lines != [] {
      var pre := lines[..|lines| - 1];
      CollectEmits(pre, f, x);
      assert forall i :: 0 <= i < |pre| ==> pre[i] == lines[i];
      if exists i :: 0 <= i < |lines| && f(lines[i]) == Emit(x) {
        var i :| 0 <= i < |lines| && f(lines[i]) == Emit(x);
        if i < |pre| { assert f(pre[i]) == Emit(x); }
      }
    }
  }

  /** The `ParseFile` loop: `f` is the per-line handling of one parser. */
  method ReadLines<T>(lines: seq<string>, f: string -> LineOutcome<T>) returns (r: Result<seq<T>>)
    ensures r == Collect(UntilBlank(lines), f)
  {
    var acc: seq<T> := [];
    var i := 0;
    while i < |lines| && lines[i] != ""
      invariant 0 <= i <= |lines|
      invariant forall k :: 0 <= k < i ==> lines[k] != ""
      invariant Collect(lines[..i], f) == Ok(acc)
    {
      assert lines[..i + 1][..i] == lines[..i];
      match f(lines[i]) {
        case Skip =>
        case Emit(v) =>
          acc := acc + [v];
        case Fail(e) =>
          var read := UntilBlank(lines);
          assert read == lines[..i + 1] + read[i + 1..];
          CollectAppend(lines[..i + 1], read[i + 1..], f);
          return Err(e);
      }
      i := i + 1;
    }
    var read := UntilBlank(lines);
    assert read == lines[..i];
    r := Ok(acc);
  }
}
