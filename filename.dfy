/**
  `make_filename`: the name of a results file, built from the log's path, a short description
  and the keywords, as `<dir>/results/<stem>_<description>_<k1>_..._<kn>.txt`. Ruby's
  `File.dirname`, `File.basename` and `File.extname` are modelled on the last `/` and the last
  `.` of a path.
 */
module Filename {
  import opened Wrappers
  import opened LogLine

  /** `s.rindex(c)`: the position of the last `c` in `s`. */
  function LastIndexOf(s: string, c: char): (r: Option<nat>)
    ensures r.None? <==> c !in s
    ensures r.Some? ==> r.value < |s| && s[r.value] == c && c !in s[r.value + 1..]
  {
    if |s| == 0 then None
    else if s[|s| - 1] == c then Some(|s| - 1)
    else
      var r := LastIndexOf(s[..|s| - 1], c);
      assert r.Some? ==> s[r.value + 1..] == s[..|s| - 1][r.value + 1..] + [s[|s| - 1]];
      r
  }

  /** `File.dirname`: the text before the last `/`; `.` without one, `/` when it is the first character. */
  function DirName(path: string): string {
    match LastIndexOf(path, '/')
    case None => "."
    case Some(i) => if i == 0 then "/" else path[..i]
  }

  /** `File.basename`: the text after the last `/`. */
  function BaseName(path: string): (r: string)
    ensures '/' !in r
  {
    match LastIndexOf(path, '/')
    case None => path
    case Some(i) => path[i + 1..]
  }

  /** The number of `.` at the start of `s`. */
  function LeadingDots(s: string): (k: nat)
    ensures k <= |s| && (k < |s| ==> s[k] != '.')
  {
    if |s| > 0 && s[0] == '.' then 1 + LeadingDots(s[1..]) else 0
  }

  /**
    The extension of a base name: from its last `.` on. Dots that start the name do not count,
    and a `.` that ends the name gives no extension.
   */
  function DotExt(base: string): string {
    var rest := base[LeadingDots(base)..];
    match LastIndexOf(rest, '.')
    case None => ""
    case Some(j) => if j == |rest| - 1 then "" else rest[j..]
  }

  /** `File.extname`: the extension of the base name. */
  function ExtName(path: string): string {
    DotExt(BaseName(path))
  }

  /** `s.chomp(suffix)` for a non-empty `suffix`: `s` without `suffix` at its end. */
  function Chomp(s: string, suffix: string): string {
    if suffix != "" && |suffix| <= |s| && s[|s| - |suffix|..] == suffix then s[..|s| - |suffix|] else s
  }

  /** `File.basename(path).chomp(File.extname(path))`: the base name without its extension. */
  function Stem(path: string): string {
    Chomp(BaseName(path), ExtName(path))
  }

  /** `parts.join(sep)`. */
  function Join(parts: seq<string>, sep: string): string {
    if |parts| == 0 then ""
    else if |parts| == 1 then parts[0]
    else parts[0] + sep + Join(parts[1..], sep)
  }

  /** Cutting `s` at every `c`: the inverse of joining with `c`. */
  function Split(s: string, c: char): (r: seq<string>)
    ensures |r| > 0
    decreases |s|
  {
    match IndexOf(s, c)
    case None => [s]
    case Some(i) => [s[..i]] + Split(s[i + 1..], c)
  }

  /** make_filename(filename, description, keywords). */
  function MakeFilename(filename: string, description: string, keywords: seq<string>): string {
    DirName(filename) + "/results/" + Stem(filename) + "_" + description + "_" + Join(keywords, "_") + ".txt"
  }

  /** Cutting at the first `c`, found at `i`, gives the text before it and the cuts of the rest. */
  lemma SplitAtFirst(s: string, c: char, i: nat)
    requires IndexOf(s, c) == Some(i)
    ensures Split(s, c) == [s[..i]] + Split(s[i + 1..], c)
  {
  }

  /** A string with `c` after a prefix without `c` has its first `c` right after that prefix. */
  lemma FirstAfterPrefix(head: string, c: char, tail: string)
    requires c !in head
    ensures IndexOf(head + [c] + tail, c) == Some(|head|)
    ensures (head + [c] + tail)[..|head|] == head && (head + [c] + tail)[|head| + 1..] == tail
  {
    assert head + [c] + tail == head + ([c] + tail);
    IndexOfAppend(head, [c] + tail, c);
  }

  /** Cutting `head`, `c`, `tail` at `c` when `head` has no `c`: `head`, then the cuts of `tail`. */
  lemma SplitStep(s: string, head: string, c: char, tail: string)
    requires s == head + [c] + tail && c !in head
    ensures Split(s, c) == [head] + Split(tail, c)
  {
    FirstAfterPrefix(head, c, tail);
    SplitAtFirst(s, c, |head|);
  }

  /** Joining more than one part puts the separator after the first one. */
  lemma JoinStep(parts: seq<string>, c: char)
    requires |parts| > 1
    ensures Join(parts, [c]) == parts[0] + [c] + Join(parts[1..], [c])
  {
  }

  /** Keywords joined with `_` are cut back into the same keywords, when none holds a `_`. */
  lemma {:induction false} SplitJoin(parts: seq<string>, c: char)
    requires |parts| > 0 && forall i :: 0 <= i < |parts| ==> c !in parts[i]
    ensures Split(Join(parts, [c]), c) == parts
  {
    if |parts| == 1 {
      assert Join(parts, [c]) == parts[0];
    } else {
      var s := Join(parts, [c]);
      var rest := parts[1..];
      JoinStep(parts, c);
      SplitStep(s, parts[0], c, Join(rest, [c]));
      SplitJoin(rest, c);
      assert parts == [parts[0]] + rest;
    }
  }

  /** The text from a `.` at `j` of `rest`, a tail of `base` that does not start with `.`, to its end. */
  lemma TailFromDot(base: string, k: nat, rest: string, j: nat)
    requires k <= |base| && (k < |base| ==> base[k] != '.') && rest == base[k..]
    requires j < |rest| - 1 && rest[j] == '.' && '.' !in rest[j + 1..]
    ensures var ext := rest[j..];
      2 <= |ext| < |base| && ext[0] == '.' && '.' !in ext[1..] && base[|base| - |ext|..] == ext
  {
    assert rest[0] == base[k];
    assert rest[j..] == base[k + j..];
    assert rest[j..][1..] == rest[j + 1..];
  }

  /** The extension, when there is one, is a `.` and what follows it at the end of the base name. */
  lemma ExtNameShape(path: string)
    ensures var ext := ExtName(path); var base := BaseName(path);
      ext == "" || (2 <= |ext| < |base| && ext[0] == '.' && '.' !in ext[1..] && base[|base| - |ext|..] == ext)
  {
    DotExtShape(BaseName(path));
  }

  /** DotExt is empty or a `.` and what follows it at the end of the base name. */
  lemma DotExtShape(base: string)
    ensures var ext := DotExt(base);
      ext == "" || (2 <= |ext| < |base| && ext[0] == '.' && '.' !in ext[1..] && base[|base| - |ext|..] == ext)
  {
    var k := LeadingDots(base);
    var rest := base[k..];
    match LastIndexOf(rest, '.')
    case None =>
    case Some(j) =>
      if j != |rest| - 1 {
        TailFromDot(base, k, rest, j);
      }
  }

  /** The stem and the extension make up the base name again. */
  lemma StemThenExt(path: string)
    ensures Stem(path) + ExtName(path) == BaseName(path)
  {
    ExtNameShape(path);
    var base := BaseName(path);
    var ext := ExtName(path);
    if ext != "" {
      assert base[..|base| - |ext|] + base[|base| - |ext|..] == base;
    }
  }

  /** A path with a `/` past its first character is its directory, a `/`, and its base name. */
  lemma DirThenBase(path: string)
    requires '/' in path && path[0] != '/'
    ensures DirName(path) + "/" + BaseName(path) == path
  {
    var i := LastIndexOf(path, '/').value;
    assert i != 0;
    assert path[..i] + "/" + path[i + 1..] == path;
  }

  /** The last `c` of `a + b`, when `b` holds a `c`, is the last `c` of `b`. */
  lemma {:induction false} LastIndexOfAppend(a: string, b: string, c: char)
    requires c in b
    ensures LastIndexOf(a + b, c) == Some(|a| + LastIndexOf(b, c).value)
    decreases |b|
  {
    var ab := a + b;
    assert ab[|ab| - 1] == b[|b| - 1];
    if b[|b| - 1] != c {
      var b' := b[..|b| - 1];
      assert ab[..|ab| - 1] == a + b';
      assert c in b' by {
        var k :| 0 <= k < |b| && b[k] == c;
        assert b'[k] == c;
      }
      LastIndexOfAppend(a, b', c);
    }
  }

  /** In `c` followed by text without `c`, the last `c` is the first character. */
  lemma OnlyLeading(c: char, name: string)
    requires c !in name
    ensures LastIndexOf([c] + name, c) == Some(0)
  {
    assert ([c] + name)[1..] == name;
  }

  /** The stem is part of the base name, so it holds no `/`. */
  lemma StemHasNoSlash(path: string)
    ensures '/' !in Stem(path)
  {
    StemThenExt(path);
    var stem := Stem(path);
    assert stem == BaseName(path)[..|stem|];
  }

  /** A path made of a directory, a `/` and a name without `/` splits back into the two. */
  lemma DirAndBaseOfJoined(dir: string, name: string)
    requires |dir| > 0 && '/' !in name
    ensures DirName(dir + "/" + name) == dir && BaseName(dir + "/" + name) == name
  {
    var r := dir + "/" + name;
    assert r == dir + ("/" + name);
    OnlyLeading('/', name);
    LastIndexOfAppend(dir, "/" + name, '/');
    assert r[..|dir|] == dir;
    assert r[|dir| + 1..] == name;
  }

  /**
    The results file lies in the `results` directory beside the log, and its base name is the
    log's stem, the description and the keywords joined by `_`, with the extension `.txt`,
    provided neither the description nor a keyword holds a `/`.
   */
  lemma MakeFilenameLayout(filename: string, description: string, keywords: seq<string>)
    requires '/' !in description && forall i :: 0 <= i < |keywords| ==> '/' !in keywords[i]
    ensures DirName(MakeFilename(filename, description, keywords)) == DirName(filename) + "/results"
    ensures BaseName(MakeFilename(filename, description, keywords)) ==
      Stem(filename) + "_" + description + "_" + Join(keywords, "_") + ".txt"
  {
    ResultName(filename, description, keywords);
    MakeFilenameRegrouped(filename, description, keywords);
    DirAndBaseOfJoined(DirName(filename) + "/results", Stem(filename) + "_" + description + "_" + Join(keywords, "_") + ".txt");
  }

  /** The results file's name holds no `/` when neither the description nor a keyword does. */
  lemma ResultName(filename: string, description: string, keywords: seq<string>)
    requires '/' !in description && forall i :: 0 <= i < |keywords| ==> '/' !in keywords[i]
    ensures '/' !in Stem(filename) + "_" + description + "_" + Join(keywords, "_") + ".txt"
  {
    StemHasNoSlash(filename);
    JoinKeepsOut(keywords, "_", '/');
    NotInConcat('/', Stem(filename), "_", description, "_", Join(keywords, "_"), ".txt");
  }

  /** A character in none of six strings is not in them put together. */
  lemma NotInConcat(c: char, a: string, b: string, d: string, e: string, f: string, g: string)
    requires c !in a && c !in b && c !in d && c !in e && c !in f && c !in g
    ensures c !in a + b + d + e + f + g
  {
  }

  /** make_filename's text is the results directory, a `/`, and the results file's name. */
  lemma MakeFilenameRegrouped(filename: string, description: string, keywords: seq<string>)
    ensures MakeFilename(filename, description, keywords) ==
      (DirName(filename) + "/results") + "/" + (Stem(filename) + "_" + description + "_" + Join(keywords, "_") + ".txt")
  {
    var dir := DirName(filename) + "/results";
    var stem := Stem(filename);
    var joined := Join(keywords, "_");
    calc {
      MakeFilename(filename, description, keywords);
      DirName(filename) + "/results/" + stem + "_" + description + "_" + joined + ".txt";
      { assert DirName(filename) + "/results/" == dir + "/"; }
      dir + "/" + stem + "_" + description + "_" + joined + ".txt";
      { Assoc5(dir + "/", stem, "_", description, "_", joined, ".txt"); }
      dir + "/" + (stem + "_" + description + "_" + joined + ".txt");
    }
  }

  /** Concatenation regroups: a prefix followed by six pieces in turn is the prefix and the six together. */
  lemma Assoc5(x: string, a: string, b: string, c: string, d: string, e: string, f: string)
    ensures x + a + b + c + d + e + f == x + (a + b + c + d + e + f)
  {
  }

  /** Joining strings without `c` by a separator without `c` gives a string without `c`. */
  lemma {:induction false} JoinKeepsOut(parts: seq<string>, sep: string, c: char)
    requires c !in sep && forall i :: 0 <= i < |parts| ==> c !in parts[i]
    ensures c !in Join(parts, sep)
  {
    if |parts| > 1 {
      JoinKeepsOut(parts[1..], sep, c);
    }
  }

  /** A name `stem.ext` holds no `/` and splits around the `.` before `ext`. */
  lemma NameSlices(name: string, stem: string, ext: string)
    requires name == stem + "." + ext && '/' !in stem && '/' !in ext
    ensures '/' !in name
    ensures name[|stem|..] == "." + ext && name[..|stem|] == stem
  {
    assert name == stem + ("." + ext);
  }

  /** A name `stem.ext` with no `.` in `ext`: its last `.` is the one before `ext`. */
  lemma NameDots(name: string, stem: string, ext: string)
    requires name == stem + ("." + ext) && stem != [] && stem[0] != '.' && '.' !in ext
    ensures LeadingDots(name) == 0
    ensures LastIndexOf(name, '.') == Some(|stem|)
  {
    assert name[0] == stem[0];
    OnlyLeading('.', ext);
    LastIndexOfAppend(stem, "." + ext, '.');
  }

  /** A base name that is `stem.ext`, with no leading `.` and its last `.` before `ext`, has extension `.ext`. */
  lemma ExtOfName(path: string, name: string, stem: string, ext: string)
    requires BaseName(path) == name && LeadingDots(name) == 0 && LastIndexOf(name, '.') == Some(|stem|)
    requires |name| == |stem| + 1 + |ext| && ext != [] && name[|stem|..] == "." + ext
    ensures ExtName(path) == "." + ext
  {
    assert name[0..] == name;
    assert DotExt(name) == "." + ext;
  }

  /** Chomping the extension `.ext` off the base name `stem.ext` leaves `stem`. */
  lemma StemOfName(path: string, name: string, stem: string, ext: string)
    requires BaseName(path) == name && ExtName(path) == "." + ext
    requires |name| == |stem| + 1 + |ext| && name[|stem|..] == "." + ext && name[..|stem|] == stem
    ensures Stem(path) == stem
  {
  }

  /**
    A log `dir/stem.ext` whose stem does not start with `.` and whose extension holds no `.`:
    its directory is `dir`, its extension `.ext` and its stem `stem`.
   */
  lemma PathParts(dir: string, stem: string, ext: string)
    requires |dir| > 0 && stem != [] && stem[0] != '.' && ext != []
    requires '/' !in stem && '/' !in ext && '.' !in ext
    ensures DirName(dir + "/" + (stem + "." + ext)) == dir
    ensures ExtName(dir + "/" + (stem + "." + ext)) == "." + ext
    ensures Stem(dir + "/" + (stem + "." + ext)) == stem
  {
    var name := stem + "." + ext;
    var path := dir + "/" + name;
    NameSlices(name, stem, ext);
    NameDots(name, stem, ext);
    DirAndBaseOfJoined(dir, name);
    ExtOfName(path, name, stem, ext);
    StemOfName(path, name, stem, ext);
  }

  /** make_filename on a log `dir/stem.ext` as PathParts describes it. */
  lemma MakeFilenameOf(dir: string, stem: string, ext: string, description: string, keywords: seq<string>)
    requires |dir| > 0 && stem != [] && stem[0] != '.' && ext != []
    requires '/' !in stem && '/' !in ext && '.' !in ext
    ensures MakeFilename(dir + "/" + (stem + "." + ext), description, keywords) ==
      dir + "/results/" + stem + "_" + description + "_" + Join(keywords, "_") + ".txt"
  {
    PathParts(dir, stem, ext);
  }

  /**
    The keywords of the source's example, `ERROR` and `THIS`, joined as its results file names
    them; with MakeFilenameOf for `logs`, `test_log` and `txt` this gives the example's name
    `logs/results/test_log_output_ERROR_THIS.txt`.
   */
  lemma ExampleKeywordsJoined()
    ensures Join(["ERROR", "THIS"], "_") == "ERROR_THIS"
    ensures Split("ERROR_THIS", '_') == ["ERROR", "THIS"]
  {
    assert ["ERROR", "THIS"][1..] == ["THIS"];
    SplitJoin(["ERROR", "THIS"], '_');
  }
}
