/** What trailing context leaves in a report: single bytes, under line numbers after a match. */
module GrepTrailing {
  import opened Text
  import opened GrepSpec
  import opened GrepLemmas

  /** Where line `l` ends. */
  ghost function LineEnd(file: Bytes, l: nat): nat
    requires l <= |Lines(file)|
  {
    |Flatten(Lines(file)[..l])|
  }

  /** Position `e` is in the i-th fill, not at its start, and the fill ends at `f`. */
  ghost predicate InFill(file: Bytes, capacity: nat, i: nat, e: nat, f: nat) {
    FillStart(file, capacity, i) < e <= f && FillEnds(file, capacity, i, f)
  }

  /** The match of line `l` leaves a byte under number `n`: one of the three after the line, in the same fill. */
  ghost predicate Trails(test: LineTest, file: Bytes, capacity: nat, l: nat, n: nat) {
    && 1 <= l <= |Lines(file)| && l < n <= l + 3 && Hit(test, file, l)
    && exists i: nat, f: nat :: InFill(file, capacity, i, LineEnd(file, l), f) && LineEnd(file, l) + (n - l) <= f
  }

  ghost predicate TrailedBy(test: LineTest, file: Bytes, capacity: nat, k: nat, n: nat) {
    exists l: nat :: l <= k && Trails(test, file, capacity, l, n)
  }

  ghost predicate LastTrail(test: LineTest, file: Bytes, capacity: nat, k: nat, l: nat, n: nat) {
    l <= k && Trails(test, file, capacity, l, n) && forall j: nat :: l < j <= k ==> !Trails(test, file, capacity, j, n)
  }

  /** The byte it leaves. */
  ghost predicate IsTrailByte(file: Bytes, l: nat, n: nat, text: Bytes) {
    && l <= |Lines(file)| && l < n && LineEnd(file, l) + (n - l) <= |file|
    && text == [file[LineEnd(file, l) + (n - l) - 1]]
  }

  /** A report of the lines in the keys up to line `k`, and under every other number that a match up to line `kt`
      leaves a byte under, the byte of the last such match. */
  ghost predicate Trailed(test: LineTest, file: Bytes, capacity: nat, pre: bool, kt: nat, k: nat, m: map<nat, Bytes>) {
    var keys := KeysUpTo(test, file, capacity, pre, k);
    && k <= |Lines(file)|
    && (forall n :: n in m <==> n in keys || TrailedBy(test, file, capacity, kt, n))
    && (forall n :: n in keys ==> n in m && m[n] == Lines(file)[n - 1])
    && (forall l: nat, n: nat :: n in m && n !in keys && LastTrail(test, file, capacity, kt, l, n) ==>
          IsTrailByte(file, l, n, m[n]))
  }

  lemma LineEndAt(file: Bytes, e: nat)
    requires e <= |file| && (Boundary(file, e) || e == |file|)
    ensures LineNo(file, e) <= |Lines(file)| && LineEnd(file, LineNo(file, e)) == e
  {
    hide Lines;
    assert file[..|file|] == file;
    if Boundary(file, e) {
      LinesCut(file, e, |file|);
    }
    assert Lines(file)[..LineNo(file, e)] == Lines(file[..e]);
    LinesRoundTrip(file[..e]);
  }

  lemma OneFillEnd(file: Bytes, capacity: nat, i: nat, j: nat, e: nat, f: nat, g: nat)
    requires InFill(file, capacity, i, e, f) && InFill(file, capacity, j, e, g)
    ensures f == g
  {
    hide Lines, NextCut;
    if i < j {
      LaterFill(file, capacity, i, j, e, f);
    } else if j < i {
      LaterFill(file, capacity, j, i, e, g);
    }
  }

  lemma LaterFill(file: Bytes, capacity: nat, i: nat, j: nat, e: nat, f: nat)
    requires i < j && InFill(file, capacity, i, e, f) && FillStart(file, capacity, j) < e
    ensures FillStart(file, capacity, j) == FillStart(file, capacity, i)
  {
    if FillStart(file, capacity, i) + capacity <= |file| {
      FillsAdvance(file, capacity, i + 1, j);
    } else {
      LastFill(file, capacity, i, j);
    }
  }

  /** A match whose line ends at `e` of a fill that ends at `f` leaves up to three bytes, as far as the fill goes. */
  lemma TrailsOf(test: LineTest, file: Bytes, capacity: nat, i: nat, e: nat, f: nat, n: nat)
    requires e <= |file| && (Boundary(file, e) || e == |file|) && InFill(file, capacity, i, e, f)
    requires Hit(test, file, LineNo(file, e))
    ensures var l := LineNo(file, e);
            Trails(test, file, capacity, l, n) <==> l < n <= l + 3 && e + (n - l) <= f
  {
    hide Lines, InFill;
    var l := LineNo(file, e);
    LineEndAt(file, e);
    if Trails(test, file, capacity, l, n) {
      var j: nat, g: nat :| InFill(file, capacity, j, LineEnd(file, l), g) && LineEnd(file, l) + (n - l) <= g;
      OneFillEnd(file, capacity, i, j, e, f, g);
    }
  }

  lemma TrailsHit(test: LineTest, file: Bytes, capacity: nat, l: nat, n: nat)
    requires Trails(test, file, capacity, l, n)
    ensures 1 <= l < n && Hit(test, file, l)
  {
  }

  /** Lines that do not match leave nothing. */
  lemma QuietTrails(test: LineTest, file: Bytes, capacity: nat, k: nat, l: nat, n: nat)
    requires k <= l && Misses(test, file, k, l + 1)
    ensures TrailedBy(test, file, capacity, l, n) <==> TrailedBy(test, file, capacity, k, n)
    ensures forall j: nat :: LastTrail(test, file, capacity, l, j, n) <==> LastTrail(test, file, capacity, k, j, n)
  {
    hide Trails, Hit;
    forall j: nat | k < j <= l ensures !Trails(test, file, capacity, j, n) {
      if Trails(test, file, capacity, j, n) {
        TrailsHit(test, file, capacity, j, n);
      }
    }
    if TrailedBy(test, file, capacity, l, n) {
      var j: nat :| j <= l && Trails(test, file, capacity, j, n);
      assert j <= k;
    }
  }

  /** A region without a match, up to a cut or to the last line, changes nothing. */
  lemma TrailedQuiet(test: LineTest, file: Bytes, capacity: nat, pre: bool, k: nat, l: nat, m: map<nat, Bytes>)
    requires Trailed(test, file, capacity, pre, k, k, m)
    requires k <= l <= |Lines(file)| && Misses(test, file, k, l + 1)
    requires KeysUpTo(test, file, capacity, pre, l) == KeysUpTo(test, file, capacity, pre, k)
    ensures Trailed(test, file, capacity, pre, l, l, m)
  {
    hide Lines, KeysUpTo, TrailedBy, LastTrail, IsTrailByte, Misses;
    forall n: nat
      ensures TrailedBy(test, file, capacity, l, n) <==> TrailedBy(test, file, capacity, k, n)
      ensures forall j: nat :: LastTrail(test, file, capacity, l, j, n) <==> LastTrail(test, file, capacity, k, j, n)
    {
      QuietTrails(test, file, capacity, k, l, n);
    }
  }

  /** Entering lines `lo` to `l`: they take their numbers over from bytes left there. */
  lemma TrailedEnter(test: LineTest, file: Bytes, capacity: nat, pre: bool, k: nat, l: nat, lo: nat,
                     m: map<nat, Bytes>, m': map<nat, Bytes>)
    requires Trailed(test, file, capacity, pre, k, k, m) && k < lo <= l <= |Lines(file)|
    requires forall n: nat :: n in KeysUpTo(test, file, capacity, pre, l) <==>
               n in KeysUpTo(test, file, capacity, pre, k) || lo <= n <= l
    requires forall n :: n in m' <==> n in m || lo <= n <= l
    requires forall n :: n in m' ==> m'[n] == if lo <= n <= l then Lines(file)[n - 1] else m[n]
    requires forall n :: n in KeysUpTo(test, file, capacity, pre, k) ==> n <= k
    ensures Trailed(test, file, capacity, pre, k, l, m')
  {
    hide Lines, KeysUpTo, TrailedBy, LastTrail, IsTrailByte;
  }

  /** The bytes after the match of line `l`, which ends at `e`, take their numbers over from earlier ones. */
  lemma TrailedBytes(test: LineTest, file: Bytes, capacity: nat, pre: bool, k: nat, i: nat, e: nat, f: nat, count: nat,
                     m: map<nat, Bytes>, m': map<nat, Bytes>)
    requires e <= f <= |file| && (Boundary(file, e) || e == |file|) && InFill(file, capacity, i, e, f)
    requires var l := LineNo(file, e);
             && k < l <= |Lines(file)| && Misses(test, file, k, l) && Hit(test, file, l)
             && Trailed(test, file, capacity, pre, k, l, m)
             && count == (if f - e < 3 then f - e else 3)
             && (forall n :: n in m' <==> n in m || l < n <= l + count)
             && (forall n :: n in m' ==> m'[n] == if l < n <= l + count then [file[e + n - l - 1]] else m[n])
             && (forall n :: n in KeysUpTo(test, file, capacity, pre, l) ==> n <= l)
    ensures Trailed(test, file, capacity, pre, LineNo(file, e), LineNo(file, e), m')
  {
    hide Lines, KeysUpTo, TrailedBy, LastTrail, IsTrailByte, Misses, InFill, Hit;
    var l := LineNo(file, e);
    hide LineNo;
    var keys := KeysUpTo(test, file, capacity, pre, l);
    forall n
      ensures n in m' <==> n in keys || TrailedBy(test, file, capacity, l, n)
    {
      NewTrail(test, file, capacity, k, i, e, f, count, n);
    }
    forall j: nat, n: nat | n in m' && n !in keys && LastTrail(test, file, capacity, l, j, n)
      ensures IsTrailByte(file, j, n, m'[n])
    {
      NewTrail(test, file, capacity, k, i, e, f, count, n);
    }
  }

  lemma NewTrail(test: LineTest, file: Bytes, capacity: nat, k: nat, i: nat, e: nat, f: nat, count: nat, n: nat)
    requires e <= f <= |file| && (Boundary(file, e) || e == |file|) && InFill(file, capacity, i, e, f)
    requires var l := LineNo(file, e);
             k < l && Misses(test, file, k, l) && Hit(test, file, l) && count == (if f - e < 3 then f - e else 3)
    ensures var l := LineNo(file, e);
      && (TrailedBy(test, file, capacity, l, n) <==> TrailedBy(test, file, capacity, k, n) || l < n <= l + count)
      && (l < n <= l + count ==>
            forall j: nat, text :: LastTrail(test, file, capacity, l, j, n) ==>
              (IsTrailByte(file, j, n, text) <==> text == [file[e + n - l - 1]]))
      && (!(l < n <= l + count) ==>
            forall j: nat :: LastTrail(test, file, capacity, l, j, n) <==> LastTrail(test, file, capacity, k, j, n))
  {
    hide Lines, Trails, InFill, Hit;
    var l := LineNo(file, e);
    LineEndAt(file, e);
    TrailsOf(test, file, capacity, i, e, f, n);
    QuietTrails(test, file, capacity, k, l - 1, n);
    if TrailedBy(test, file, capacity, l, n) && !Trails(test, file, capacity, l, n) {
      var j: nat :| j <= l && Trails(test, file, capacity, j, n);
      assert j <= l - 1;
    }
  }
}
