/** What the scan's contract amounts to: when it ends, and what depends on the buffer. */
module GrepTheorems {
  import opened Text
  import opened GrepSpec
  import opened GrepLemmas
  import opened Grep

  /** A full buffer without a newline: nothing is consumed, and every later round finds the same buffer. */
  ghost predicate Stalls(file: Bytes, capacity: nat, k: nat) {
    var s := FillStart(file, capacity, k);
    s + capacity <= |file| && !HasNewline(file, s, capacity)
  }

  lemma {:induction false} StallsForever(file: Bytes, capacity: nat, k: nat, l: nat)
    requires Stalls(file, capacity, k) && k <= l
    ensures FillStart(file, capacity, l) == FillStart(file, capacity, k) && Stalls(file, capacity, l)
    decreases l
  {
    if k < l {
      StallsForever(file, capacity, k, l - 1);
      NothingToCut(file, capacity, FillStart(file, capacity, k));
    }
  }

  lemma NothingToCut(file: Bytes, capacity: nat, s: nat)
    requires Boundary(file, s) && s + capacity <= |file| && !HasNewline(file, s, capacity)
    ensures LineStart(file, s + capacity) == s
  {
  }

  /** A newline-free stretch as long as the buffer is reached: a fill gets to its line's start and stays. */
  lemma {:induction false} LongLineStalls(file: Bytes, capacity: nat, q: nat, k: nat) returns (l: nat)
    requires q + capacity <= |file| && !HasNewline(file, q, capacity)
    requires FillStart(file, capacity, k) <= LineStart(file, q)
    ensures Stalls(file, capacity, l)
    decreases LineStart(file, q) - FillStart(file, capacity, k)
  {
    l := k;
    var s, p := FillStart(file, capacity, k), LineStart(file, q);
    if !Stalls(file, capacity, k) {
      var next := LineStart(file, s + capacity);
      assert HasNewline(file, s, capacity);
      assert s < next;
      assert next <= p by {
        assert forall j :: p <= j < q + capacity ==> file[j] != NL;
      }
      l := LongLineStalls(file, capacity, q, k + 1);
    }
  }

  /** The scan comes to an end exactly on the files without a newline-free stretch as long as the buffer. */
  lemma ScanEndsIff(file: Bytes, capacity: nat)
    ensures (forall k :: !Stalls(file, capacity, k)) <==> NewlineInEveryFill(file, capacity)
  {
    if !NewlineInEveryFill(file, capacity) {
      var q: nat :| q + capacity <= |file| && !HasNewline(file, q, capacity);
      var l := LongLineStalls(file, capacity, q, 0);
    }
  }

  /** Without context the report does not depend on the buffer: scans with any two buffers return the same map,
      of as many entries as there are matching lines. */
  lemma CapacityIrrelevant(test: LineTest, file: Bytes, c1: nat, c2: nat, m1: map<nat, Bytes>, m2: map<nat, Bytes>)
    requires MapsLines(m1, Lines(file), ReportedLines(test, file, c1, false))
    requires MapsLines(m2, Lines(file), ReportedLines(test, file, c2, false))
    ensures m1 == m2 && |m1| == |HitLines(test, file)|
  {
    hide Lines, Hit;
    assert ReportedLines(test, file, c1, false) == HitLines(test, file) == ReportedLines(test, file, c2, false);
    assert m1.Keys == m2.Keys && |m1| == |m1.Keys|;
  }

  /** Line `n` is one of the three before the matching line `m`, and no line from it on matches before `m`. */
  ghost predicate Near(test: LineTest, file: Bytes, n: nat, m: nat) {
    1 <= n < m <= n + 3 && Hit(test, file, m) && Misses(test, file, n - 1, m)
  }

  lemma NearFirst(test: LineTest, file: Bytes, n: nat, m: nat, m': nat)
    requires Near(test, file, n, m) && Near(test, file, n, m')
    ensures m' <= m
  {
    hide Hit;
    assert n - 1 < m && (m < m' ==> !Hit(test, file, m));
  }

  lemma NearOnce(test: LineTest, file: Bytes, n: nat, m: nat, m': nat)
    requires Near(test, file, n, m) && Near(test, file, n, m')
    ensures m == m'
  {
    hide Near;
    NearFirst(test, file, n, m, m');
    NearFirst(test, file, n, m', m);
  }

  /** Leading context is the lines near a match that no cut separates from it. */
  lemma ContextIsNear(test: LineTest, file: Bytes, capacity: nat, n: nat, m: nat)
    ensures IsContextOf(test, file, capacity, n, m) <==>
            Near(test, file, n, m) && !CutBetween(file, capacity, n, m)
  {
    hide CutBetween, Hit;
    if Near(test, file, n, m) {
      forall i | n <= i < m ensures !Hit(test, file, i) {
        assert n - 1 < i < m;
      }
    }
  }

  /** A file that fits into the buffer is not cut. */
  lemma NoCut(file: Bytes, capacity: nat, n: nat, m: nat)
    requires |file| < capacity && 1 <= n
    ensures !CutBetween(file, capacity, n, m)
  {
    forall k: nat
      ensures LineNo(file, FillStart(file, capacity, k)) == 0
    {
      LastFill(file, capacity, 0, k);
    }
  }

  /** In one fill, leading context is every line within three lines before a match with no match between. */
  lemma ContextInOneFill(test: LineTest, file: Bytes, capacity: nat, n: nat)
    requires |file| < capacity
    ensures IsContext(test, file, capacity, n) <==> exists m: nat :: Near(test, file, n, m)
  {
    hide CutBetween, Near, IsContextOf;
    forall m: nat
      ensures IsContextOf(test, file, capacity, n, m) <==> Near(test, file, n, m)
    {
      ContextIsNear(test, file, capacity, n, m);
      if Near(test, file, n, m) {
        NearIsLine(test, file, n, m);
        NoCut(file, capacity, n, m);
      }
    }
  }

  lemma NearIsLine(test: LineTest, file: Bytes, n: nat, m: nat)
    requires Near(test, file, n, m)
    ensures 1 <= n <= |Lines(file)| && !Hit(test, file, n)
  {
  }

  /** The lines a smaller buffer loses: near a match, and cut off from it. */
  ghost predicate CutOff(test: LineTest, file: Bytes, small: nat, n: nat, m: nat) {
    Near(test, file, n, m) && CutBetween(file, small, n, m)
  }

  lemma ReportedIn(test: LineTest, file: Bytes, capacity: nat, n: nat)
    ensures n in ReportedLines(test, file, capacity, true) <==>
            1 <= n <= |Lines(file)| && (Hit(test, file, n) || IsContext(test, file, capacity, n))
  {
  }

  lemma LostLine(test: LineTest, file: Bytes, small: nat, large: nat, n: nat)
    requires |file| < large
    ensures n in ReportedLines(test, file, large, true) && n !in ReportedLines(test, file, small, true) <==>
            exists m: nat :: CutOff(test, file, small, n, m)
    ensures n in ReportedLines(test, file, small, true) ==> n in ReportedLines(test, file, large, true)
  {
    hide CutBetween, Near, IsContextOf, ReportedLines, Hit, Lines;
    ReportedIn(test, file, small, n);
    ReportedIn(test, file, large, n);
    ContextInOneFill(test, file, large, n);
    forall m: nat
      ensures IsContextOf(test, file, small, n, m) <==> Near(test, file, n, m) && !CutBetween(file, small, n, m)
      ensures Near(test, file, n, m) ==> 1 <= n <= |Lines(file)| && !Hit(test, file, n)
    {
      ContextIsNear(test, file, small, n, m);
      if Near(test, file, n, m) {
        NearIsLine(test, file, n, m);
      }
    }
    if m: nat :| CutOff(test, file, small, n, m) {
      forall m': nat ensures !IsContextOf(test, file, small, n, m') {
        if Near(test, file, n, m') {
          NearOnce(test, file, n, m, m');
        }
      }
    }
    if n in ReportedLines(test, file, large, true) && n !in ReportedLines(test, file, small, true) {
      var m: nat :| Near(test, file, n, m);
      assert !IsContextOf(test, file, small, n, m);
      assert CutOff(test, file, small, n, m);
    }
  }

  /** A smaller buffer reports no line that one as large as the file does not. It loses exactly the lines near a match
      that one of its cuts separates from the match, so it reports the same exactly if no cut falls between. */
  lemma ContextLostAtCuts(test: LineTest, file: Bytes, small: nat, large: nat)
    requires |file| < large
    ensures ReportedLines(test, file, small, true) <= ReportedLines(test, file, large, true)
    ensures forall n :: n in ReportedLines(test, file, large, true) - ReportedLines(test, file, small, true) <==>
              exists m: nat :: CutOff(test, file, small, n, m)
    ensures ReportedLines(test, file, small, true) == ReportedLines(test, file, large, true) <==>
            forall n: nat, m: nat :: Near(test, file, n, m) ==> !CutBetween(file, small, n, m)
  {
    hide CutBetween, Near, ReportedLines;
    forall n: nat
      ensures n in ReportedLines(test, file, large, true) && n !in ReportedLines(test, file, small, true) <==>
              exists m: nat :: CutOff(test, file, small, n, m)
      ensures n in ReportedLines(test, file, small, true) ==> n in ReportedLines(test, file, large, true)
    {
      LostLine(test, file, small, large, n);
    }
    var all, kept := ReportedLines(test, file, large, true), ReportedLines(test, file, small, true);
    if n: nat, m: nat :| Near(test, file, n, m) && CutBetween(file, small, n, m) {
      assert CutOff(test, file, small, n, m);
      assert n in all && n !in kept;
    } else {
      forall n | n in all ensures n in kept {
        assert forall m: nat :: !CutOff(test, file, small, n, m);
      }
    }
  }

  /** It does happen: in "a\nm\n" the line before the match "m" is reported by a large buffer only. */
  lemma ContextDependsOnBuffer(test: LineTest)
    requires forall begin, end :: test([109], begin, end) && !test([97], begin, end)
    ensures ReportedLines(test, [97, NL, 109, NL], 5, true) == {1, 2}
    ensures ReportedLines(test, [97, NL, 109, NL], 2, true) == {2}
  {
    hide Lines, FillStart;
    var file: Bytes := [97, NL, 109, NL];
    TwoLines(file);
    assert Chomp([97, NL]) == [97] && Chomp([109, NL]) == [109];
    assert !Hit(test, file, 1) && Hit(test, file, 2);
    ContextInOneFill(test, file, 5, 1);
    assert Near(test, file, 1, 2);
    assert CutBetween(file, 2, 1, 2);
    assert !IsContext(test, file, 2, 1);
  }

  lemma TwoLines(file: Bytes)
    requires file == [97, NL, 109, NL]
    ensures Lines(file) == [[97, NL], [109, NL]]
    ensures LineNo(file, FillStart(file, 2, 1)) == 1
  {
    hide Lines;
    var a, b := [97, NL], [109, NL];
    LinesSingle(a);
    LinesSingle(b);
    assert file == a + b;
    LinesConcat(a, b);
    assert FillStart(file, 2, 0) == 0;
    assert FillStart(file, 2, 1) == LineStart(file, 2) == 2;
    assert file[..2] == a;
  }

  // ----- what a matching line is

  lemma StartsAt(file: Bytes, s: nat, e: nat)
    requires s <= e <= |file| && Boundary(file, s) && forall j :: s <= j < e ==> file[j] != NL
    ensures LineStart(file, e) == s
  {
  }

  /** A piece of a file without byte 10 in it, from the beginning or after a byte 10 up to another one or the end, is
      a line. Its number is one more than the bytes 10 before it. It matches if it passes the test, without its
      newline; the test is told whether the line begins the file and whether it ends it without a newline. */
  lemma HitIs(test: LineTest, before: Bytes, line: Bytes, after: Bytes)
    requires (before == [] || before[|before| - 1] == 10) && forall j :: 0 <= j < |line| ==> line[j] != 10
    ensures var n := multiset(before)[10] + 1; var file := before + line + [10] + after;
            && n <= |Lines(file)| && Lines(file)[n - 1] == line + [10]
            && (Hit(test, file, n) <==> test(line, before == [], false))
    ensures line != [] ==>
              var n := multiset(before)[10] + 1; var file := before + line;
              && n == |Lines(file)| && Lines(file)[n - 1] == line
              && (Hit(test, file, n) <==> test(line, before == [], true))
  {
    hide Lines, LineStart, Hit;
    LineCount(before);
    HitInside(test, before, line, after);
    if line != [] {
      HitAtEnd(test, before, line);
    }
  }

  lemma HitInside(test: LineTest, before: Bytes, line: Bytes, after: Bytes)
    requires Boundary(before, |before|) && NewlineFree(line)
    ensures var n := |Lines(before)| + 1; var file := before + line + [NL] + after;
            && n <= |Lines(file)| && Lines(file)[n - 1] == line + [NL]
            && (Hit(test, file, n) <==> test(line, before == [], false))
  {
    hide Lines, LineStart, Hit;
    var file := before + line + [NL] + after;
    var s, e := |before|, |before| + |line|;
    assert file[..s] == before && file[s..e] == line && file[s..e + 1] == line + [NL];
    StartsAt(file, s, e);
    HitNumber(test, file, s, e, e + 1);
  }

  lemma HitAtEnd(test: LineTest, before: Bytes, line: Bytes)
    requires Boundary(before, |before|) && NewlineFree(line) && line != []
    ensures var n := |Lines(before)| + 1; var file := before + line;
            && n == |Lines(file)| && Lines(file)[n - 1] == line
            && (Hit(test, file, n) <==> test(line, before == [], true))
  {
    hide Lines, LineStart, Hit;
    var file := before + line;
    var s, e := |before|, |file|;
    assert file[..s] == before && file[s..e] == line && file[..e] == file;
    StartsAt(file, s, e);
    HitNumber(test, file, s, e, e);
  }

  // ----- trailing context

  /** What trailing context is meant to be: the first `n` lines of the text after the match. */
  function FirstLines(rest: Bytes, n: int): seq<Bytes> {
    Lines(rest)[..Min(if n < 0 then 0 else n, |Lines(rest)|)]
  }

  /** A newline, or the very last byte of the text. */
  predicate EndsLine(rest: Bytes, i: int)
    requires 0 <= i < |rest|
  {
    rest[i] == NL || i == |rest| - 1
  }

  lemma LastApartFrom(t: Bytes, x: byte)
    requires t == [] || t[|t| - 1] == NL
    ensures Lines(t + [x]) == Lines(t) + [[x]]
  {
    hide Lines;
    LinesConcat(t, [x]);
    LinesSingle([x]);
  }

  lemma {:induction false} LinesAtMost(s: Bytes)
    ensures |Lines(s)| <= |s|
  {
    if s != [] {
      LinesAtMost(s[..|s| - 1]);
    }
  }

  lemma EndsBefore(t: Bytes, x: byte)
    requires forall i :: 0 <= i < |t + [x]| ==> EndsLine(t + [x], i)
    ensures forall i :: 0 <= i < |t| ==> t[i] == NL && EndsLine(t, i)
  {
    forall i | 0 <= i < |t| ensures t[i] == NL {
      assert EndsLine(t + [x], i);
    }
  }

  lemma PiecesPush(t: Bytes, x: byte)
    ensures Pieces(t + [x], |t| + 1) == Pieces(t, |t|) + [[x]]
  {
  }

  lemma {:induction false} SingleBytes(s: Bytes)
    requires forall i :: 0 <= i < |s| ==> EndsLine(s, i)
    ensures Lines(s) == Pieces(s, |s|)
  {
    if s != [] {
      hide Pieces, EndsLine, Lines;
      var t, x := s[..|s| - 1], s[|s| - 1];
      assert s == t + [x];
      EndsBefore(t, x);
      SingleBytes(t);
      LastApartFrom(t, x);
      PiecesPush(t, x);
    }
  }

  lemma PiecesPrefix(rest: Bytes, n: nat)
    requires n <= |rest|
    ensures Pieces(rest[..n], n) == Pieces(rest, n)
  {
  }

  /** If the pieces all end lines, the lines start with them. */
  lemma PiecesAreLines(rest: Bytes, n: nat)
    requires n <= |rest| && forall i :: 0 <= i < n ==> EndsLine(rest, i)
    ensures n <= |Lines(rest)| && Lines(rest)[..n] == Pieces(rest, n)
    ensures n == |rest| ==> |Lines(rest)| == n
  {
    hide Lines;
    var head := rest[..n];
    forall i | 0 <= i < n ensures EndsLine(head, i) {
      assert EndsLine(rest, i);
    }
    SingleBytes(head);
    PiecesPrefix(rest, n);
    if n < |rest| {
      if 0 < n {
        assert EndsLine(rest, n - 1);
      }
      LinesCut(rest, n, |rest|);
      assert rest[..|rest|] == rest;
    } else {
      assert head == rest;
    }
  }

  lemma {:induction false} PiecesFlatten(rest: Bytes, n: nat)
    requires n <= |rest|
    ensures Flatten(Pieces(rest, n)) == rest[..n]
    decreases n
  {
    if n != 0 {
      PiecesFlatten(rest, n - 1);
      assert Pieces(rest, n)[..n - 1] == Pieces(rest, n - 1);
    }
  }

  /** A piece that is a line ends one. */
  lemma LinePieceEnds(rest: Bytes, k: nat, i: nat)
    requires i < k <= |rest| && k <= |Lines(rest)| && Lines(rest)[..k] == Pieces(rest, k)
    requires k < |rest| || k == |Lines(rest)|
    ensures EndsLine(rest, i)
  {
    hide Lines;
    LinesWellSplit(rest);
    assert Lines(rest)[i] == Lines(rest)[..k][i] == [rest[i]];
    if i == |Lines(rest)| - 1 {
      assert Lines(rest) == Lines(rest)[..k];
      PiecesFlatten(rest, k);
      LinesRoundTrip(rest);
      assert |rest[..k]| == k;
    } else {
      assert Terminated(Lines(rest)[i]);
    }
  }

  /** The trailing context entered after a match is the first lines after it exactly if each of its bytes is a newline
      or the last byte of the text. */
  lemma TrailingIsLinesIff(rest: Bytes, n: int)
    ensures Pieces(rest, n) == FirstLines(rest, n) <==>
            forall i :: 0 <= i < Min(n, |rest|) ==> EndsLine(rest, i)
  {
    hide Lines, EndsLine;
    var k := |Pieces(rest, n)|;
    if 0 < n {
      if forall i :: 0 <= i < k ==> EndsLine(rest, i) {
        PiecesAreLines(rest, k);
        assert Pieces(rest, n) == Pieces(rest, k);
      }
      if Pieces(rest, n) == FirstLines(rest, n) {
        assert Pieces(rest, n) == Pieces(rest, k);
        assert Lines(rest)[..k] == Pieces(rest, k);
        LinesAtMost(rest);
        forall i | 0 <= i < k ensures EndsLine(rest, i) {
          LinePieceEnds(rest, k, i);
        }
      }
    }
  }

  /** After a match whose file goes on with the line "ab", three single bytes are entered instead. */
  lemma TrailingNotLines()
    ensures FirstLines([97, 98, NL], 3) == [[97, 98, NL]]
    ensures Pieces([97, 98, NL], 3) == [[97], [98], [NL]]
  {
    hide Lines;
    LinesSingle([97, 98, NL]);
  }
}
