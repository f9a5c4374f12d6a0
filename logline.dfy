/**
  The log line format read by the search script: `<timestamp>|<words>`. The timestamp is taken
  from the text before the first `|` and handed to Ruby's `Time.parse`, which is not modelled:
  it is a parameter of type `Parser`.
 */
module LogLine {
  import opened Wrappers
  import opened Clock

  /** `Time.parse` applied to a header: `None` where it raises (no time in the text). */
  type Parser = string -> Option<Time>

  /** Why no timestamp can be read from a line. */
  datatype LineError =
    | NoDelimiter              // `line.index('|')` is nil and `nil - 1` raises
    | NoTime(header: string)   // `Time.parse` raises on the header

  /** `s.index(c)`: the position of the first `c` in `s`. */
  function IndexOf(s: string, c: char): (r: Option<nat>)
    ensures r.None? <==> c !in s
    ensures r.Some? ==> r.value < |s| && s[r.value] == c && c !in s[..r.value]
  {
    if |s| == 0 then None
    else if s[0] == c then Some(0)
    else match IndexOf(s[1..], c)
      case None => None
      case Some(i) =>
        assert s[1..][..i] == s[1..i + 1];
        Some(i + 1)
  }

  /**
    `line[0..line.index('|')-1]`: the text before the first `|`. A line without `|` has no
    header. When the line starts with `|` the range is `0..-1`, which Ruby reads as the whole
    line, so the header is then the entire line.
   */
  function Header(line: string): (r: Option<string>)
    ensures r.None? <==> '|' !in line
    ensures r.Some? && line[0] == '|' ==> r.value == line
    ensures r.Some? && line[0] != '|' ==>
      |r.value| < |line| && line[|r.value|] == '|' && r.value == line[..|r.value|] && '|' !in r.value
  {
    match IndexOf(line, '|')
    case None => None
    case Some(i) => if i == 0 then Some(line) else Some(line[..i])
  }

  /** The time of a log line, or why there is none. */
  function Timestamp(line: string, parse: Parser): Result<Time, LineError> {
    match Header(line)
    case None => Failure(NoDelimiter)
    case Some(h) =>
      match parse(h)
      case None => Failure(NoTime(h))
      case Some(t) => Success(t)
  }

  /** Searching past a prefix without `c` finds what the rest holds, shifted by the prefix. */
  lemma {:induction false} IndexOfAppend(a: string, b: string, c: char)
    requires c !in a
    ensures IndexOf(a + b, c) == match IndexOf(b, c) case None => None case Some(j) => Some(|a| + j)
  {
    if a != [] {
      assert (a + b)[0] == a[0];
      assert (a + b)[1..] == a[1..] + b;
      IndexOfAppend(a[1..], b, c);
    } else {
      assert a + b == b;
    }
  }

  /** A line with a `|` past its first character is timed by exactly the text before that `|`. */
  lemma TimestampReadsHeader(header: string, rest: string, parse: Parser)
    requires header != [] && '|' !in header
    ensures Timestamp(header + "|" + rest, parse) ==
      match parse(header) case None => Failure(NoTime(header)) case Some(t) => Success(t)
  {
    var line := header + "|" + rest;
    assert line == header + ("|" + rest);
    IndexOfAppend(header, "|" + rest, '|');
    assert line[..|header|] == header;
  }
}
