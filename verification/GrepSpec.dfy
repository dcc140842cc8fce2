/** What a line-oriented scan of a file should report, and how the chunks of the scan lie in the file. */
module GrepSpec {
  import opened Text

  /** A line's text without newline, whether it begins the text, and whether it ends the text unterminated. */
  type LineTest = (Bytes, bool, bool) -> bool

  // ----- the simple form: split the whole file, test each line

  ghost predicate Hit(test: LineTest, file: Bytes, n: int) {
    var ls := Lines(file);
    1 <= n <= |ls| && test(Chomp(ls[n - 1]), n == 1, !Terminated(ls[n - 1]))
  }

  ghost function HitsUpTo(test: LineTest, file: Bytes, k: nat): set<nat> {
    set n: nat | 1 <= n <= k && Hit(test, file, n)
  }

  /** The 1-based numbers of the lines that match. */
  ghost function HitLines(test: LineTest, file: Bytes): set<nat> {
    HitsUpTo(test, file, |Lines(file)|)
  }

  /** `m` maps exactly the line numbers in `keys`, each to the text of that line. */
  ghost predicate MapsLines(m: map<nat, Bytes>, ls: seq<Bytes>, keys: set<nat>) {
    && m.Keys == keys
    && forall n :: n in keys ==> 1 <= n <= |ls| && m[n] == ls[n - 1]
  }

  // ----- the chunks

  /** The number of lines before position `at`. */
  ghost function LineNo(file: Bytes, at: nat): nat
    requires at <= |file|
  {
    |Lines(file[..at])|
  }

  /** Where the fill that starts at line start `s` is cut: after its last newline, or at the end of the file. */
  ghost function NextCut(file: Bytes, capacity: nat, s: nat): nat
    requires Boundary(file, s)
  {
    if s + capacity <= |file| then LineStart(file, s + capacity) else s
  }

  /** Where the k-th fill of a buffer of this capacity starts. */
  ghost function FillStart(file: Bytes, capacity: nat, k: nat): (s: nat)
    ensures Boundary(file, s)
  {
    if k == 0 then 0 else NextCut(file, capacity, FillStart(file, capacity, k - 1))
  }

  /** Some fill starts after line `n` and before line `m`, or with line `m`. */
  ghost predicate CutBetween(file: Bytes, capacity: nat, n: nat, m: nat) {
    exists k: nat :: n <= LineNo(file, FillStart(file, capacity, k)) < m
  }

  /** The lines reported as leading context: not matching, within three lines of the next match,
      and in the same fill as that match. */
  ghost predicate IsContext(test: LineTest, file: Bytes, capacity: nat, n: nat) {
    exists m: nat :: IsContextOf(test, file, capacity, n, m)
  }

  ghost predicate IsContextOf(test: LineTest, file: Bytes, capacity: nat, n: nat, m: nat) {
    && 1 <= n < m <= n + 3 && Hit(test, file, m)
    && (forall i :: n <= i < m ==> !Hit(test, file, i))
    && !CutBetween(file, capacity, n, m)
  }

  ghost function KeysUpTo(test: LineTest, file: Bytes, capacity: nat, pre: bool, k: nat): set<nat> {
    set n: nat | 1 <= n <= k && (Hit(test, file, n) || (pre && IsContext(test, file, capacity, n)))
  }

  /** The line numbers a scan reports, with or without leading context. */
  ghost function ReportedLines(test: LineTest, file: Bytes, capacity: nat, pre: bool): set<nat> {
    KeysUpTo(test, file, capacity, pre, |Lines(file)|)
  }

  // ----- positions and line numbers

  lemma SomeLine(s: Bytes)
    ensures Lines(s) == [] <==> s == []
  {
  }

  lemma LinesCut(file: Bytes, a: nat, b: nat)
    requires Boundary(file, a) && a <= b <= |file|
    ensures Lines(file[..b]) == Lines(file[..a]) + Lines(file[a..b])
    ensures LineNo(file, a) <= LineNo(file, b)
  {
    assert file[..b] == file[..a] + file[a..b];
    LinesConcat(file[..a], file[a..b]);
  }

  /** One more line: it stands in the file's list of lines at the number of lines before it. */
  lemma LineAt(file: Bytes, s: nat, e: nat)
    requires Boundary(file, s) && s < e <= |file| && IsLine(file[s..e])
    requires Boundary(file, e) || e == |file|
    ensures LineNo(file, e) == LineNo(file, s) + 1 <= |Lines(file)|
    ensures Lines(file)[LineNo(file, s)] == file[s..e]
  {
    LinesCut(file, s, e);
    LinesSingle(file[s..e]);
    assert file[..|file|] == file;
    if Boundary(file, e) {
      LinesCut(file, e, |file|);
    }
  }

  /** Does the line that ends at position `e` of `b` pass the test? */
  ghost predicate HitAt(test: LineTest, b: Bytes, begin: bool, e: nat)
    requires e <= |b|
  {
    var s := LineStart(b, e);
    test(b[s..e], begin && s == 0, e == |b|)
  }

  lemma ChompSlice(file: Bytes, s: nat, e: nat)
    requires s <= e < |file| && file[e] == NL
    ensures Terminated(file[s..e + 1]) && Chomp(file[s..e + 1]) == file[s..e]
  {
  }

  /** The line that ends at `e`, as a numbered line of the file. */
  lemma HitNumber(test: LineTest, file: Bytes, s: nat, e: nat, end: nat)
    requires e <= |file| && (e < |file| ==> file[e] == NL)
    requires end == if e < |file| then e + 1 else e
    requires s == LineStart(file, e) < end
    ensures LineNo(file, end) == LineNo(file, s) + 1 <= |Lines(file)|
    ensures Lines(file)[LineNo(file, s)] == file[s..end]
    ensures Hit(test, file, LineNo(file, end)) <==> HitAt(test, file, true, e)
  {
    hide Lines, LineStart, IsLine;
    IsLineSlice(file, s, end);
    LineAt(file, s, end);
    SomeLine(file[..s]);
    if e < |file| {
      ChompSlice(file, s, e);
    } else {
      assert file[s..end][|file[s..end]| - 1] == file[end - 1] != NL;
    }
  }
}
