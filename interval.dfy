/**
  `get_time_interval`: the search window. Missing bounds default to the time of the first log
  line and to the last second of the year 3000; an explicit finish before the first line's time
  is refused; with `-n` both bounds are cut back to the midnight of their day.
 */
module Interval {
  import opened Wrappers
  import opened Clock
  import opened LogLine
  import opened Matcher
  import opened Scanner

  /** Why no window can be given. */
  datatype IntervalError =
    | EmptyLog                              // `file.gets` is nil and indexing it raises
    | FirstLine(error: LineError)           // the first line has no readable timestamp
    | FinishBeforeFirst(finish: Time, first: Time)  // "Last time is out of the log time interval"

  /** A bound as handed out: the chosen time itself, or with `fromNoon` the midnight of its day. */
  predicate Snapped(bound: Time, chosen: Time, fromNoon: bool) {
    if fromNoon then DayNumber(bound) == DayNumber(chosen) && SecondOfDay(bound) == 0
    else bound == chosen
  }

  /**
    get_time_interval(filename, start, finish, from_noon), with `log` the lines of the file.
    The finish is checked against the first line's time before any snapping, and a start after
    the finish is not refused.
   */
  method GetTimeInterval(log: seq<string>, start: Option<Time>, finish: Option<Time>, fromNoon: bool, parse: Parser)
    returns (r: Result<(Time, Time), IntervalError>)
    ensures |log| == 0 <==> r == Failure(EmptyLog)
    ensures |log| > 0 && Timestamp(log[0], parse).Failure? ==>
      r == Failure(FirstLine(Timestamp(log[0], parse).error))
    ensures |log| > 0 && Timestamp(log[0], parse).Success? ==>
      var first := Timestamp(log[0], parse).value;
      && (r.Failure? <==> finish.Some? && finish.value < first)
      && (r.Failure? ==> r.error == FinishBeforeFirst(finish.value, first))
      && (r.Success? ==>
            && Snapped(r.value.0, start.GetOr(first), fromNoon)
            && Snapped(r.value.1, finish.GetOr(FarFuture), fromNoon))
  {
    if |log| == 0 {
      return Failure(EmptyLog);
    }
    var firstRow := log[0];
    var stamp := Timestamp(firstRow, parse);
    if stamp.Failure? {
      return Failure(FirstLine(stamp.error));
    }
    var firstTime := stamp.value;
    var s: Time;
    if start.None? {
      s := firstTime;
    } else {
      s := start.value;
    }
    var f: Time;
    if finish.None? {
      f := FarFuture;
    } else if finish.value < firstTime {
      return Failure(FinishBeforeFirst(finish.value, firstTime));
    } else {
      f := finish.value;
    }
    if fromNoon {
      s := AdjustToNoon(s);
      f := AdjustToNoon(f);
    }
    return Success((s, f));
  }

  /** A snapped bound is the chosen time, or the midnight that adjust_to_noon gives for it. */
  lemma SnappedIsAdjusted(bound: Time, chosen: Time, fromNoon: bool)
    requires Snapped(bound, chosen, fromNoon)
    ensures bound == if fromNoon then AdjustToNoon(chosen) else chosen
    ensures bound <= chosen
  {
    if fromNoon {
      AdjustToNoonUnique(chosen, bound);
      AdjustToNoonNotLater(chosen);
    }
  }

  /**
    With the default start, the first line of the log is never written (nor any copy of it):
    its time equals the start and the window excludes its start.
   */
  lemma DefaultStartSkipsFirstLine(log: seq<string>, keywords: seq<string>, finish: Time, parse: Parser, first: Time)
    requires |log| > 0 && Timestamp(log[0], parse) == Success(first)
    ensures log[0] !in Echoed(log, keywords, first, finish, parse)
  {
    EchoedMembers(log, keywords, first, finish, parse, log[0]);
  }

  /**
    With `-n` the default start moves back to midnight, so a first line stamped after midnight
    that holds a keyword and lies before the finish is written.
   */
  lemma FromNoonKeepsFirstLine(log: seq<string>, keywords: seq<string>, finish: Time, parse: Parser, first: Time)
    requires |log| > 0 && Timestamp(log[0], parse) == Success(first)
    requires SecondOfDay(first) > 0 && first < finish
    requires exists i :: 0 <= i < |keywords| && Contains(log[0], keywords[i])
    ensures log[0] in Echoed(log, keywords, AdjustToNoon(first), finish, parse)
  {
    AdjustToNoonNotLater(first);
    assert AdjustToNoon(first) != first;
    EchoedMembers(log, keywords, AdjustToNoon(first), finish, parse, log[0]);
    var i :| 0 <= i < |keywords| && Contains(log[0], keywords[i]);
    assert keywords[i] in keywords;
  }

  /** A window with no whole second strictly between its bounds writes nothing. */
  lemma EmptyWindowWritesNothing(lines: seq<string>, keywords: seq<string>, start: Time, finish: Time, parse: Parser)
    requires finish <= start + 1
    ensures Echoed(lines, keywords, start, finish, parse) == []
  {
    if |Echoed(lines, keywords, start, finish, parse)| > 0 {
      var l := Echoed(lines, keywords, start, finish, parse)[0];
      EchoedMembers(lines, keywords, start, finish, parse, l);
      assert false;
    }
  }
}
