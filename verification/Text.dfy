/** Byte sequences cut into lines: the vocabulary in which a file scan is specified. */
module Text {

  newtype byte = x: int | 0 <= x < 256

  const NL: byte := 10

  type Bytes = seq<byte>

  predicate NewlineFree(s: Bytes) {
    forall j :: 0 <= j < |s| ==> s[j] != NL
  }

  predicate Terminated(line: Bytes) {
    line != [] && line[|line| - 1] == NL
  }

  /** The line without its newline. */
  function Chomp(line: Bytes): Bytes {
    if Terminated(line) then line[..|line| - 1] else line
  }

  /** Adds one byte to a list of lines: to the last line, or as a new line when that one is complete. */
  function Extend(ls: seq<Bytes>, x: byte): seq<Bytes> {
    if ls == [] || Terminated(ls[|ls| - 1]) then ls + [[x]]
    else ls[..|ls| - 1] + [ls[|ls| - 1] + [x]]
  }

  /** The lines of `s`, newlines included. A last piece without newline is a line if it is not empty. */
  function Lines(s: Bytes): seq<Bytes> {
    if s == [] then [] else Extend(Lines(s[..|s| - 1]), s[|s| - 1])
  }

  /** A place where a line may start: the beginning, or just after a newline. */
  predicate Boundary(s: Bytes, at: int) {
    0 <= at <= |s| && (at == 0 || s[at - 1] == NL)
  }

  /** Where the line that contains or ends at position `at` starts. */
  function LineStart(s: Bytes, at: nat): (i: nat)
    requires at <= |s|
    ensures i <= at && Boundary(s, i)
    ensures forall j :: i <= j < at ==> s[j] != NL
  {
    if Boundary(s, at) then at else LineStart(s, at - 1)
  }

  /** How many newlines `s` holds. */
  ghost function NewlineCount(s: Bytes): nat {
    multiset(s)[NL]
  }

  ghost function Flatten(ls: seq<Bytes>): Bytes {
    if ls == [] then [] else Flatten(ls[..|ls| - 1]) + ls[|ls| - 1]
  }

  lemma SubSlice(b: Bytes, c: nat, l: nat, x: nat, y: nat)
    requires c <= l <= |b| && x <= y <= l - c
    ensures b[c..l][x..y] == b[c + x..c + y]
  {
    forall i | 0 <= i < y - x
      ensures b[c..l][x..y][i] == b[c + x..c + y][i]
    {
      assert b[c..l][x + i] == b[c + x + i];
    }
  }

  /** A line is not empty and holds no newline except as its last byte. */
  predicate IsLine(line: Bytes) {
    line != [] && NewlineFree(line[..|line| - 1])
  }

  lemma IsLineSlice(b: Bytes, x: nat, y: nat)
    requires x < y <= |b|
    requires forall j :: x <= j < y - 1 ==> b[j] != NL
    ensures IsLine(b[x..y])
  {
  }

  /** A list of lines of which only the last may lack its newline. */
  ghost predicate WellSplit(ls: seq<Bytes>) {
    && (forall i :: 0 <= i < |ls| ==> IsLine(ls[i]))
    && (forall i :: 0 <= i < |ls| - 1 ==> Terminated(ls[i]))
  }

  predicate Complete(ls: seq<Bytes>) {
    ls == [] || Terminated(ls[|ls| - 1])
  }

  lemma LongerLine(line: Bytes, x: byte)
    requires IsLine(line) && !Terminated(line)
    ensures IsLine(line + [x])
  {
  }

  lemma ExtendWellSplit(ls: seq<Bytes>, x: byte)
    requires WellSplit(ls)
    ensures WellSplit(Extend(ls, x)) && (Complete(Extend(ls, x)) <==> x == NL)
    ensures Extend(ls, x) != []
    ensures |Extend(ls, x)| == |ls| + if Complete(ls) then 1 else 0
  {
    if Complete(ls) {
      assert IsLine([x]);
    } else {
      LongerLine(ls[|ls| - 1], x);
    }
  }

  lemma ExtendFlatten(ls: seq<Bytes>, x: byte)
    ensures Flatten(Extend(ls, x)) == Flatten(ls) + [x]
  {
  }

  lemma ExtendAppend(ls: seq<Bytes>, ms: seq<Bytes>, x: byte)
    requires Complete(ls)
    ensures Extend(ls + ms, x) == ls + Extend(ms, x)
  {
  }

  lemma {:induction false} LinesWellSplit(s: Bytes)
    ensures WellSplit(Lines(s))
    ensures Complete(Lines(s)) <==> Boundary(s, |s|)
  {
    if s != [] {
      LinesWellSplit(s[..|s| - 1]);
      ExtendWellSplit(Lines(s[..|s| - 1]), s[|s| - 1]);
    }
  }

  /** Splitting loses nothing: the lines put together are the text. */
  lemma {:induction false} LinesRoundTrip(s: Bytes)
    ensures Flatten(Lines(s)) == s
  {
    if s != [] {
      LinesRoundTrip(s[..|s| - 1]);
      ExtendFlatten(Lines(s[..|s| - 1]), s[|s| - 1]);
    }
  }

  /** Cutting a text at a line boundary cuts its list of lines. */
  lemma {:induction false} LinesConcat(a: Bytes, b: Bytes)
    requires Boundary(a, |a|)
    ensures Lines(a + b) == Lines(a) + Lines(b)
    decreases |b|
  {
    if b == [] {
      assert a + b == a;
    } else {
      var t, x := b[..|b| - 1], b[|b| - 1];
      LinesConcat(a, t);
      LinesWellSplit(a);
      ExtendAppend(Lines(a), Lines(t), x);
      assert (a + b)[..|a + b| - 1] == a + t;
    }
  }

  /** A text that is a line is not cut. */
  lemma {:induction false} LinesSingle(s: Bytes)
    requires IsLine(s)
    ensures Lines(s) == [s]
  {
    var t := s[..|s| - 1];
    if t != [] {
      assert forall j :: 0 <= j < |t| - 1 ==> t[..|t| - 1][j] == t[j];
      LinesSingle(t);
    }
    assert s == t + [s[|s| - 1]];
  }

  /** Up to a boundary there are as many lines as newlines. */
  lemma {:induction false} LineCount(s: Bytes)
    ensures |Lines(s)| == NewlineCount(s) + if Boundary(s, |s|) then 0 else 1
  {
    if s != [] {
      var t, x := s[..|s| - 1], s[|s| - 1];
      LineCount(t);
      LinesWellSplit(t);
      ExtendWellSplit(Lines(t), x);
      assert s == t + [x];
      assert multiset(s) == multiset(t) + multiset{x};
    }
  }
}
