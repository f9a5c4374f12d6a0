/**
  `analyse_log`: one pass over the log, echoing every line whose time lies strictly inside the
  search window and which contains one of the keywords to the output file. The output file is
  created (truncated) by the scan itself, so its final contents are a result of the scan.
 */
module Scanner {
  import opened Wrappers
  import opened Clock
  import opened LogLine
  import opened Matcher
  import opened Histogram

  /** `(timestamp > start) && (timestamp < finish)`: both bounds are excluded. */
  predicate InWindow(t: Time, start: Time, finish: Time) {
    start < t && t < finish
  }

  /** The scan writes `line`: its time is inside the window and it contains some keyword. */
  predicate Echoes(line: string, keywords: seq<string>, start: Time, finish: Time, parse: Parser) {
    match Timestamp(line, parse)
    case Failure(_) => false
    case Success(t) => InWindow(t, start, finish) && FirstMatch(line, keywords).Some?
  }

  /** The lines of `lines` that the scan writes, in file order. */
  function Echoed(lines: seq<string>, keywords: seq<string>, start: Time, finish: Time, parse: Parser): seq<string> {
    if lines == [] then []
    else
      var last := lines[|lines| - 1];
      Echoed(lines[..|lines| - 1], keywords, start, finish, parse)
        + (if Echoes(last, keywords, start, finish, parse) then [last] else [])
  }

  /** Where the scan stopped: the index of the line whose timestamp could not be read, and why. */
  datatype ScanFailure = ScanFailure(line: nat, error: LineError)

  /**
    analyse_log(filename, keywords, start, finish, output_file): `log` is the file's lines,
    `written` the lines put to the output file. A line without a readable timestamp raises and
    ends the scan; the lines written before it stay in the output file. The returned hash
    `data`, in the form prepare_data takes it, is always empty: the only code that filled it is
    commented out in the source.
   */
  method AnalyseLog(log: seq<string>, keywords: seq<string>, start: Time, finish: Time, parse: Parser)
    returns (data: MatchRecord, written: seq<string>, failure: Option<ScanFailure>)
    ensures data == []
    ensures failure.None? ==>
      && (forall i :: 0 <= i < |log| ==> Timestamp(log[i], parse).Success?)
      && written == Echoed(log, keywords, start, finish, parse)
    ensures failure.Some? ==>
      && failure.value.line < |log|
      && (forall i :: 0 <= i < failure.value.line ==> Timestamp(log[i], parse).Success?)
      && Timestamp(log[failure.value.line], parse) == Failure(failure.value.error)
      && written == Echoed(log[..failure.value.line], keywords, start, finish, parse)
  {
    data := [];
    written := [];
    failure := None;
    var n := 0;
    while n < |log|
      invariant 0 <= n <= |log|
      invariant forall i :: 0 <= i < n ==> Timestamp(log[i], parse).Success?
      invariant written == Echoed(log[..n], keywords, start, finish, parse)
    {
      var line := log[n];
      var stamp := Timestamp(line, parse);
      if stamp.Failure? {
        failure := Some(ScanFailure(n, stamp.error));
        return;
      }
      var timestamp := stamp.value;
      assert log[..n + 1][..n] == log[..n];
      if InWindow(timestamp, start, finish) {
        // wordFound is set but never read: its reader is commented out in the source
        var wordFound := false;
        var count := 0;
        var j := 0;
        while j < |keywords|
          invariant 0 <= j <= |keywords|
          invariant count == 0 || count == 1
          invariant count == 0 <==> forall m :: 0 <= m < j ==> !Contains(line, keywords[m])
          invariant written == Echoed(log[..n], keywords, start, finish, parse) + (if count == 1 then [line] else [])
        {
          if count == 0 {
            var includes := Contains(line, keywords[j]);
            if includes {
              count := count + 1;
              written := written + [line];
              wordFound := true;
            }
          } else if count == 1 {
            break;
          }
          j := j + 1;
        }
        assert count == 1 <==> FirstMatch(line, keywords).Some?;
      }
      n := n + 1;
    }
    assert log[..n] == log;
  }

  /** Scanning two stretches of a log in turn writes what each writes, one after the other. */
  lemma {:induction false} EchoedAppend(a: seq<string>, b: seq<string>, keywords: seq<string>, start: Time, finish: Time, parse: Parser)
    ensures Echoed(a + b, keywords, start, finish, parse) ==
      Echoed(a, keywords, start, finish, parse) + Echoed(b, keywords, start, finish, parse)
    decreases |b|
  {
    if b == [] {
      assert a + b == a;
    } else {
      var b' := b[..|b| - 1];
      assert (a + b)[..|a + b| - 1] == a + b';
      assert (a + b)[|a + b| - 1] == b[|b| - 1];
      EchoedAppend(a, b', keywords, start, finish, parse);
    }
  }

  /**
    Output is exactly the echoing lines: every occurrence of a line that the scan admits is
    written once, and no other line is ever written.
   */
  lemma {:induction false} EchoedCount(lines: seq<string>, keywords: seq<string>, start: Time, finish: Time, parse: Parser, l: string)
    ensures multiset(Echoed(lines, keywords, start, finish, parse))[l] ==
      if Echoes(l, keywords, start, finish, parse) then multiset(lines)[l] else 0
    decreases |lines|
  {
    if lines != [] {
      var init := lines[..|lines| - 1];
      assert lines == init + [lines[|lines| - 1]];
      EchoedCount(init, keywords, start, finish, parse, l);
    }
  }

  /** A written line was in the log, has its time inside the window and contains some keyword. */
  lemma EchoedMembers(lines: seq<string>, keywords: seq<string>, start: Time, finish: Time, parse: Parser, l: string)
    ensures l in Echoed(lines, keywords, start, finish, parse) <==>
      && l in lines
      && (exists t :: Timestamp(l, parse) == Success(t) && start < t < finish)
      && (exists k :: k in keywords && Contains(l, k))
  {
    EchoedCount(lines, keywords, start, finish, parse, l);
    assert l in Echoed(lines, keywords, start, finish, parse) <==> multiset(Echoed(lines, keywords, start, finish, parse))[l] > 0;
    assert l in lines <==> multiset(lines)[l] > 0;
    var m := FirstMatch(l, keywords);
    if m.Some? {
      assert keywords[m.value] in keywords;
    }
    if exists k :: k in keywords && Contains(l, k) {
      var k :| k in keywords && Contains(l, k);
      var i :| 0 <= i < |keywords| && keywords[i] == k;
      assert m.Some?;
    }
  }

  /** A line stamped exactly at either bound, or outside them, is never written. */
  lemma BoundsNeverWritten(lines: seq<string>, keywords: seq<string>, start: Time, finish: Time, parse: Parser, l: string, t: Time)
    requires Timestamp(l, parse) == Success(t)
    requires t <= start || t >= finish
    ensures l !in Echoed(lines, keywords, start, finish, parse)
  {
    EchoedMembers(lines, keywords, start, finish, parse, l);
  }
}
