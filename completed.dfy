/** The list of already transcribed episodes (src/main.rs:60-64): the text of
    `transcribed.txt` split with `str::lines`, empty lines dropped, order kept. */
module Completed {

  /** Index of the first '\n' of `s`, or `|s|` when there is none. */
  function NewlineIndex(s: string): (k: nat)
    ensures k <= |s|
    ensures k < |s| ==> s[k] == '\n'
    ensures forall j :: 0 <= j < k ==> s[j] != '\n'
  {
    if s == [] || s[0] == '\n' then 0 else 1 + NewlineIndex(s[1..])
  }

  predicate EndsWithCr(line: string) {
    line != [] && line[|line| - 1] == '\r'
  }

  /** Drops the '\r' of a "\r\n" line ending (the '\n' is already gone). */
  function StripCr(line: string): string {
    if EndsWithCr(line) then line[..|line| - 1] else line
  }

  /** `str::lines`: lines end at '\n' or "\r\n", the last line ending is
      optional, and a '\r' not followed by '\n' stays in the line. */
  function Lines(s: string): (r: seq<string>)
    ensures |r| <= |s|
    ensures forall l :: l in r ==> '\n' !in l
    decreases |s|
  {
    if s == [] then []
    else
      var k := NewlineIndex(s);
      if k == |s| then [s]
      else
        assert forall c :: c in StripCr(s[..k]) ==> c in s[..k];
        [StripCr(s[..k])] + Lines(s[k + 1..])
  }

  /** `filter(|l| !l.is_empty())`. */
  function NonEmpty(ls: seq<string>): (r: seq<string>)
    ensures |r| <= |ls|
    ensures forall l :: l in r <==> l in ls && l != []
  {
    if ls == [] then []
    else if ls[0] != [] then [ls[0]] + NonEmpty(ls[1..])
    else NonEmpty(ls[1..])
  }

  /** The parsed completed list: every entry is a non-empty line of the file. */
  function ParseCompleted(contents: string): (r: seq<string>)
    ensures forall l :: l in r <==> l in Lines(contents) && l != []
    ensures forall l :: l in r ==> l != [] && '\n' !in l
  {
    NonEmpty(Lines(contents))
  }

  lemma {:induction false} NonEmptyConcat(a: seq<string>, b: seq<string>)
    ensures NonEmpty(a + b) == NonEmpty(a) + NonEmpty(b)
    decreases |a|
  {
    if a == [] {
      assert a + b == b;
    } else {
      assert (a + b)[1..] == a[1..] + b;
      NonEmptyConcat(a[1..], b);
    }
  }

  /** A list without empty lines passes the filter unchanged. */
  lemma {:induction false} NonEmptyKeepsAll(ls: seq<string>)
    requires forall l :: l in ls ==> l != []
    ensures NonEmpty(ls) == ls
    decreases |ls|
  {
    if ls != [] {
      assert ls[0] in ls;
      assert forall l :: l in ls[1..] ==> l in ls;
      NonEmptyKeepsAll(ls[1..]);
    }
  }

  /** A line ending that is found in a prefix is found in the whole text. */
  lemma NewlineIndexAppend(x: string, y: string)
    requires NewlineIndex(x) < |x|
    ensures NewlineIndex(x + y) == NewlineIndex(x)
  {
    var k := NewlineIndex(x);
    assert (x + y)[k] == '\n';
    assert forall j :: 0 <= j < k ==> (x + y)[j] == x[j];
  }

  /** The first line of a text that has a line ending, and the rest. */
  lemma LinesUnfold(s: string, k: nat)
    requires k == NewlineIndex(s) && k < |s|
    ensures Lines(s) == [StripCr(s[..k])] + Lines(s[k + 1..])
  {
  }

  lemma ConsAssoc<T>(a: T, b: seq<T>, c: seq<T>)
    ensures [a] + (b + c) == ([a] + b) + c
  {
  }

  /** The text after the first line of `x`, when `x` ends at a line ending. */
  function AfterFirstLine(x: string): (rest: string)
    requires x != [] && x[|x| - 1] == '\n'
    ensures |rest| < |x| && (rest == [] || rest[|rest| - 1] == '\n')
  {
    assert x[|x| - 1] == '\n';
    var rest := x[NewlineIndex(x) + 1..];
    assert rest == [] || rest[|rest| - 1] == x[|x| - 1];
    rest
  }

  lemma SliceAppend(x: string, y: string, k: nat)
    requires k < |x|
    ensures (x + y)[..k] == x[..k] && (x + y)[k + 1..] == x[k + 1..] + y
  {
  }

  /** One step of LinesAppend: the first line of `x + y` is that of `x`. */
  lemma LinesAppendStep(x: string, y: string)
    requires x != [] && x[|x| - 1] == '\n'
    requires Lines(AfterFirstLine(x) + y) == Lines(AfterFirstLine(x)) + Lines(y)
    ensures Lines(x + y) == Lines(x) + Lines(y)
  {
    var k := NewlineIndex(x);
    var rest := AfterFirstLine(x);
    NewlineIndexAppend(x, y);
    SliceAppend(x, y, k);
    LinesUnfold(x + y, k);
    LinesUnfold(x, k);
    ConsAssoc(StripCr(x[..k]), Lines(rest), Lines(y));
  }

  /** Splitting at a line ending: the lines of `x + y` are those of `x`
      followed by those of `y`, when `x` ends at a line ending. */
  lemma {:induction false} LinesAppend(x: string, y: string)
    requires x == [] || x[|x| - 1] == '\n'
    ensures Lines(x + y) == Lines(x) + Lines(y)
    decreases |x|
  {
    if x == [] {
      assert x + y == y;
    } else {
      LinesAppend(AfterFirstLine(x), y);
      LinesAppendStep(x, y);
    }
  }

  /** Entries keep the order of the file: parsing two concatenated chunks of
      complete lines gives the entries of the first, then those of the second. */
  lemma ParseCompletedAppend(x: string, y: string)
    requires x == [] || x[|x| - 1] == '\n'
    ensures ParseCompleted(x + y) == ParseCompleted(x) + ParseCompleted(y)
  {
    LinesAppend(x, y);
    NonEmptyConcat(Lines(x), Lines(y));
  }

  /** Writes each line followed by '\n'. */
  function JoinLines(ls: seq<string>): string {
    if ls == [] then [] else ls[0] + "\n" + JoinLines(ls[1..])
  }

  /** Writes each line followed by "\r\n". */
  function JoinCrlf(ls: seq<string>): string {
    if ls == [] then [] else ls[0] + "\r\n" + JoinCrlf(ls[1..])
  }

  lemma NewlineIndexAfter(a: string, rest: string)
    requires '\n' !in a
    ensures NewlineIndex(a + "\n" + rest) == |a|
  {
    var s := a + "\n" + rest;
    assert s[|a|] == '\n';
    assert forall j :: 0 <= j < |a| ==> s[j] == a[j];
  }

  /** Round trip: lines written with '\n' endings are read back as they were,
      provided none contains '\n' or ends in '\r'. */
  lemma {:induction false} LinesJoinLines(ls: seq<string>)
    requires forall l :: l in ls ==> '\n' !in l && !EndsWithCr(l)
    ensures Lines(JoinLines(ls)) == ls
    decreases |ls|
  {
    if ls != [] {
      var s := JoinLines(ls);
      var rest := JoinLines(ls[1..]);
      assert s == ls[0] + "\n" + rest;
      NewlineIndexAfter(ls[0], rest);
      assert s[..|ls[0]|] == ls[0];
      assert s[|ls[0]| + 1..] == rest;
      assert forall l :: l in ls[1..] ==> l in ls;
      LinesJoinLines(ls[1..]);
    }
  }

  /** Round trip with Windows line endings: the '\r' of each "\r\n" is
      dropped, so any line without '\n' is read back as it was. */
  lemma {:induction false} LinesJoinCrlf(ls: seq<string>)
    requires forall l :: l in ls ==> '\n' !in l
    ensures Lines(JoinCrlf(ls)) == ls
    decreases |ls|
  {
    if ls != [] {
      var s := JoinCrlf(ls);
      var rest := JoinCrlf(ls[1..]);
      var withCr := ls[0] + "\r";
      assert s == withCr + "\n" + rest;
      assert '\n' !in withCr;
      NewlineIndexAfter(withCr, rest);
      assert s[..|withCr|] == withCr;
      assert StripCr(withCr) == ls[0];
      assert s[|withCr| + 1..] == rest;
      assert forall l :: l in ls[1..] ==> l in ls;
      LinesJoinCrlf(ls[1..]);
    }
  }

  /** A file of non-empty lines (each written with '\n') parses back to
      exactly those lines, in order. */
  lemma ParseCompletedJoin(ls: seq<string>)
    requires forall l :: l in ls ==> l != [] && '\n' !in l && !EndsWithCr(l)
    ensures ParseCompleted(JoinLines(ls)) == ls
  {
    LinesJoinLines(ls);
    NonEmptyKeepsAll(ls);
  }

  /** Blank lines between entries are ignored. */
  lemma ParseCompletedSkipsBlank(x: string, y: string)
    requires x == [] || x[|x| - 1] == '\n'
    ensures ParseCompleted(x + "\n" + y) == ParseCompleted(x) + ParseCompleted(y)
  {
    var nl: string := "\n";
    assert x + nl + y == x + (nl + y);
    ParseCompletedAppend(x, nl + y);
    ParseCompletedAppend(nl, y);
    assert NewlineIndex(nl) == 0;
    assert nl[1..] == [];
    assert Lines(nl) == [""];
    assert NonEmpty([""]) == [];
  }
}
