/**
  Keyword matching as the search script does it: `line.include?(w)` for each keyword in list
  order, and, for a case-insensitive search, keywords lowered once before the scan while the
  log lines are left as they are.
 */
module Matcher {
  import opened Wrappers

  /** `w` occurs in `s` starting at position `i`. */
  predicate OccursAt(s: string, w: string, i: int) {
    0 <= i && i + |w| <= |s| && s[i..i + |w|] == w
  }

  /** `s.include?(w)`: `w` is a substring of `s` (the empty string is in every string). */
  predicate Contains(s: string, w: string) {
    exists i :: 0 <= i <= |s| - |w| && OccursAt(s, w, i)
  }

  /**
    The keyword a line is echoed for: the first in list order that the line contains, or
    `None` when it contains none of them.
   */
  function FirstMatch(line: string, keywords: seq<string>): (r: Option<nat>)
    ensures r.None? <==> forall m :: 0 <= m < |keywords| ==> !Contains(line, keywords[m])
    ensures r.Some? ==> r.value < |keywords| && Contains(line, keywords[r.value])
    ensures r.Some? ==> forall m :: 0 <= m < r.value ==> !Contains(line, keywords[m])
  {
    if |keywords| == 0 then None
    else if Contains(line, keywords[0]) then Some(0)
    else match FirstMatch(line, keywords[1..])
      case None => None
      case Some(j) => Some(j + 1)
  }

  predicate IsUpper(c: char) {
    'A' <= c <= 'Z'
  }

  predicate IsLower(c: char) {
    'a' <= c <= 'z'
  }

  /** `downcase` on one character (ASCII letters only). */
  function LowerChar(c: char): char {
    if IsUpper(c) then (c as int + 32) as char else c
  }

  /** `String#downcase` (ASCII letters only). */
  function Lower(s: string): string {
    seq(|s|, i requires 0 <= i < |s| => LowerChar(s[i]))
  }

  /** Lower-casing leaves no upper-case letter and changes nothing but upper-case letters. */
  lemma LowerSpec(s: string)
    ensures |Lower(s)| == |s|
    ensures forall i :: 0 <= i < |s| ==> !IsUpper(Lower(s)[i])
    ensures forall i :: 0 <= i < |s| && !IsUpper(s[i]) ==> Lower(s)[i] == s[i]
    ensures forall i :: 0 <= i < |s| && IsUpper(s[i]) ==> IsLower(Lower(s)[i])
  {
  }

  /** Lower-casing twice is lower-casing once. */
  lemma LowerIdempotent(s: string)
    ensures Lower(Lower(s)) == Lower(s)
  {
    LowerSpec(s);
    LowerSpec(Lower(s));
  }

  /** Lower-casing works character by character, so it commutes with taking a slice. */
  lemma LowerSlice(s: string, i: int, j: int)
    requires 0 <= i <= j <= |s|
    ensures Lower(s)[i..j] == Lower(s[i..j])
  {
  }

  /** Lower-casing each of a list of strings twice is lower-casing each once. */
  lemma LowerAllIdempotent(keywords: seq<string>)
    ensures forall i :: 0 <= i < |keywords| ==> Lower(Lower(keywords[i])) == Lower(keywords[i])
  {
    forall i | 0 <= i < |keywords|
      ensures Lower(Lower(keywords[i])) == Lower(keywords[i])
    {
      LowerIdempotent(keywords[i]);
    }
  }

  /**
    search_log.rb lines 90-92: with `-i` every keyword is replaced, in its place, by its own
    lower-case form; otherwise the keywords are used as given. The log lines are never
    lower-cased.
   */
  function SearchKeywords(keywords: seq<string>, insensitive: bool): (r: seq<string>)
    ensures |r| == |keywords|
    ensures !insensitive ==> r == keywords
    ensures insensitive ==> forall i :: 0 <= i < |r| ==> Lower(r[i]) == Lower(keywords[i]) && Lower(r[i]) == r[i]
    ensures insensitive ==> forall i, j :: 0 <= i < |r| && 0 <= j < |r[i]| ==> !IsUpper(r[i][j])
  {
    if insensitive then
      LowerAllIdempotent(keywords);
      seq(|keywords|, i requires 0 <= i < |keywords| => Lower(keywords[i]))
    else keywords
  }

  /** With `-i`, a line matches exactly when it contains some keyword in lower case as it stands. */
  lemma InsensitiveSearchUnloweredLine(line: string, keywords: seq<string>)
    ensures FirstMatch(line, SearchKeywords(keywords, true)).Some? <==>
      exists i :: 0 <= i < |keywords| && Contains(line, Lower(keywords[i]))
  {
    var ks := SearchKeywords(keywords, true);
    if FirstMatch(line, ks).Some? {
      var i := FirstMatch(line, ks).value;
      assert Contains(line, Lower(keywords[i]));
    } else {
      forall i | 0 <= i < |keywords|
        ensures !Contains(line, Lower(keywords[i]))
      {
        assert ks[i] == Lower(keywords[i]);
      }
    }
  }

  /** A string with no lower-case letter contains no string that has one. */
  lemma NoLowerNoMatch(line: string, w: string, j: int)
    requires forall k :: 0 <= k < |line| ==> !IsLower(line[k])
    requires 0 <= j < |w| && IsLower(w[j])
    ensures !Contains(line, w)
  {
    forall i | 0 <= i <= |line| - |w|
      ensures !OccursAt(line, w, i)
    {
      assert line[i..i + |w|][j] == line[i + j];
    }
  }

  /**
    With `-i`, text written in capitals is never found by a keyword that holds a letter: a line
    with no lower-case letter matches no such keyword, whatever the keyword's case, although the
    same keyword matches the lower-case spelling.
   */
  lemma InsensitiveMissesCapitals(line: string, keywords: seq<string>)
    requires forall k :: 0 <= k < |line| ==> !IsLower(line[k])
    requires forall i :: 0 <= i < |keywords| ==>
      exists j :: 0 <= j < |keywords[i]| && (IsUpper(keywords[i][j]) || IsLower(keywords[i][j]))
    ensures FirstMatch(line, SearchKeywords(keywords, true)).None?
  {
    var ks := SearchKeywords(keywords, true);
    forall m | 0 <= m < |ks|
      ensures !Contains(line, ks[m])
    {
      var j :| 0 <= j < |keywords[m]| && (IsUpper(keywords[m][j]) || IsLower(keywords[m][j]));
      LowerSpec(keywords[m]);
      NoLowerNoMatch(line, ks[m], j);
    }
  }

  /**
    Every match of the script's `-i` search is also a match of a search that lowers the line
    as well, so the script's search finds no more than a truly case-insensitive one.
   */
  lemma InsensitiveWithinLoweredSearch(line: string, k: string)
    requires Contains(line, Lower(k))
    ensures Contains(Lower(line), Lower(k))
  {
    var w := Lower(k);
    var i :| 0 <= i <= |line| - |w| && OccursAt(line, w, i);
    LowerSlice(line, i, i + |w|);
    LowerIdempotent(k);
    assert OccursAt(Lower(line), w, i);
  }

  /**
    With `-i`, the keyword `ERROR` finds `disk error 42` but not `DISK ERROR 42`, which a
    search that lowered the line as well would find.
   */
  lemma InsensitiveErrorExample()
    ensures FirstMatch("disk error 42", SearchKeywords(["ERROR"], true)) == Some(0)
    ensures FirstMatch("DISK ERROR 42", SearchKeywords(["ERROR"], true)) == None
    ensures Contains(Lower("DISK ERROR 42"), Lower("ERROR"))
  {
    var ks := SearchKeywords(["ERROR"], true);
    assert ks[0] == "error";
    assert OccursAt("disk error 42", "error", 5);
    assert OccursAt(Lower("DISK ERROR 42"), "error", 5);
    InsensitiveMissesCapitals("DISK ERROR 42", ["ERROR"]) by {
      assert IsUpper("ERROR"[0]);
    }
  }
}
