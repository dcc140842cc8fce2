/** How the scan's positions, fills and recorded keys relate; used to prove the reader. */
module GrepLemmas {
  import opened Text
  import opened GrepSpec

  lemma LineNoEnd(file: Bytes)
    ensures LineNo(file, |file|) == |Lines(file)|
  {
    assert file[..|file|] == file;
  }

  lemma LineNoBound(file: Bytes, x: nat)
    requires Boundary(file, x)
    ensures LineNo(file, x) <= LineNo(file, |file|) == |Lines(file)|
  {
    assert file[..|file|] == file;
    LinesCut(file, x, |file|);
  }

  /** Before the next matching line end, every line misses. */
  lemma {:induction false} MissesBetween(test: LineTest, file: Bytes, c: nat, x: nat)
    requires c <= x && Boundary(file, c) && Boundary(file, x)
    requires forall p :: c <= p < x && file[p] == NL ==> !HitAt(test, file, true, p)
    ensures LineNo(file, c) <= LineNo(file, x)
    ensures forall n :: LineNo(file, c) < n <= LineNo(file, x) ==> !Hit(test, file, n)
    decreases x
  {
    if c < x {
      var y := LineStart(file, x - 1);
      assert c <= y;
      assert LineNo(file, x) == LineNo(file, y) + 1 && !Hit(test, file, LineNo(file, x)) by {
        HitNumber(test, file, y, x - 1, x);
      }
      MissesBetween(test, file, c, y);
    }
  }

  /** The same at the end of the text, where the last line may lack its newline. */
  lemma MissesToEnd(test: LineTest, file: Bytes, c: nat)
    requires c <= |file| && Boundary(file, c)
    requires forall p :: c <= p < |file| && file[p] == NL ==> !HitAt(test, file, true, p)
    requires !HitAt(test, file, true, |file|)
    ensures LineNo(file, c) <= LineNo(file, |file|) == |Lines(file)|
    ensures forall n :: LineNo(file, c) < n <= |Lines(file)| ==> !Hit(test, file, n)
  {
    hide Lines, Hit;
    var y := LineStart(file, |file|);
    LineNoBound(file, y);
    assert c <= y;
    MissesBetween(test, file, c, y);
    if y < |file| {
      HitNumber(test, file, y, |file|, |file|);
    }
  }

  lemma LineStartShift(file: Bytes, c: nat, f: nat, e: nat)
    requires Boundary(file, c) && c + e <= f <= |file|
    ensures LineStart(file, c + e) == c + LineStart(file[c..f], e)
    decreases e
  {
  }

  /** Testing a line in a slice of the file is testing it in the file, if the flags say where the slice lies. */
  lemma SliceHit(test: LineTest, file: Bytes, c: nat, f: nat, e: nat)
    requires Boundary(file, c) && c + e <= f <= |file|
    requires e == f - c ==> f == |file|
    ensures HitAt(test, file[c..f], c == 0, e) <==> HitAt(test, file, true, c + e)
  {
    LineStartShift(file, c, f, e);
    var s := LineStart(file[c..f], e);
    SubSlice(file, c, f, s, e);
  }

  /** Newlines counted between two line starts are the lines between them. */
  lemma LinesBetween(file: Bytes, a: nat, b: nat)
    requires a <= b && Boundary(file, a) && Boundary(file, b)
    ensures LineNo(file, b) == LineNo(file, a) + NewlineCount(file[a..b])
  {
    LineCount(file[..a]);
    LineCount(file[..b]);
    assert file[..b] == file[..a] + file[a..b];
    assert multiset(file[..b]) == multiset(file[..a]) + multiset(file[a..b]);
  }

  // ----- fills

  lemma {:induction false} FillsAdvance(file: Bytes, capacity: nat, i: nat, j: nat)
    requires i <= j
    ensures FillStart(file, capacity, i) <= FillStart(file, capacity, j)
    ensures LineNo(file, FillStart(file, capacity, i)) <= LineNo(file, FillStart(file, capacity, j))
    decreases j
  {
    if i < j {
      FillsAdvance(file, capacity, i, j - 1);
      var a, b := FillStart(file, capacity, j - 1), FillStart(file, capacity, j);
      LinesCut(file, a, b);
    }
  }

  /** Nothing is cut inside a fill. `end` is where the i-th fill ends: its cut, or the end of the file. */
  lemma NoCutInside(file: Bytes, capacity: nat, i: nat, end: nat, n: nat, m: nat)
    requires FillEnds(file, capacity, i, end)
    requires LineNo(file, FillStart(file, capacity, i)) < n <= m <= LineNo(file, end)
    ensures !CutBetween(file, capacity, n, m)
  {
    forall k: nat ensures !(n <= LineNo(file, FillStart(file, capacity, k)) < m) {
      if k <= i {
        FillsAdvance(file, capacity, k, i);
      } else if end == FillStart(file, capacity, i + 1) {
        FillsAdvance(file, capacity, i + 1, k);
      } else {
        LastFill(file, capacity, i, k);
      }
    }
  }

  /** The i-th fill ends at `end`: at the next cut, or (a short read) at the end of the file. */
  ghost predicate FillEnds(file: Bytes, capacity: nat, i: nat, end: nat) {
    var s := FillStart(file, capacity, i);
    if s + capacity <= |file| then end == NextCut(file, capacity, s) else end == |file|
  }

  lemma {:induction false} LastFill(file: Bytes, capacity: nat, i: nat, k: nat)
    requires i <= k && |file| < FillStart(file, capacity, i) + capacity
    ensures FillStart(file, capacity, k) == FillStart(file, capacity, i)
    decreases k
  {
    if i < k {
      LastFill(file, capacity, i, k - 1);
    }
  }

  // ----- what one more scanned region adds

  ghost predicate Misses(test: LineTest, file: Bytes, k: nat, l: nat) {
    forall n :: k < n < l ==> !Hit(test, file, n)
  }

  lemma HitsStep(test: LineTest, file: Bytes, k: nat, l: nat)
    requires k < l && Misses(test, file, k, l) && Hit(test, file, l)
    ensures HitsUpTo(test, file, l) == HitsUpTo(test, file, k) + {l}
    ensures |HitsUpTo(test, file, l)| == |HitsUpTo(test, file, k)| + 1
  {
    assert l !in HitsUpTo(test, file, k);
    assert HitsUpTo(test, file, l) == HitsUpTo(test, file, k) + {l};
  }

  lemma HitsQuiet(test: LineTest, file: Bytes, k: nat, l: nat)
    requires k <= l && Misses(test, file, k, l + 1)
    ensures HitsUpTo(test, file, l) == HitsUpTo(test, file, k)
  {
  }

  /** One of the up to three lines just before line `l`, and after line `k`. */
  ghost predicate IsPreceding(k: nat, l: nat, n: nat) {
    k < n < l && l <= n + 3
  }

  /** A match brings itself and, with leading context on, the lines before it in its region. */
  lemma KeysStep(test: LineTest, file: Bytes, capacity: nat, pre: bool, k: nat, l: nat)
    requires k < l && Misses(test, file, k, l) && Hit(test, file, l)
    requires forall n: nat :: k < n < l ==> !CutBetween(file, capacity, n, l)
    ensures forall n: nat :: n in KeysUpTo(test, file, capacity, pre, l) <==>
              n in KeysUpTo(test, file, capacity, pre, k) || n == l || (pre && IsPreceding(k, l, n))
  {
    forall n: nat | k < n < l
      ensures IsContext(test, file, capacity, n) <==> IsPreceding(k, l, n)
    {
      if IsContext(test, file, capacity, n) {
        var m :| IsContextOf(test, file, capacity, n, m);
        assert m == l;
      }
      if IsPreceding(k, l, n) {
        assert IsContextOf(test, file, capacity, n, l);
      }
    }
  }

  /** A region without a match, up to a cut or to the last line, brings nothing. */
  lemma KeysQuiet(test: LineTest, file: Bytes, capacity: nat, pre: bool, k: nat, l: nat)
    requires k <= l && Misses(test, file, k, l + 1)
    requires l == |Lines(file)| || exists j: nat :: LineNo(file, FillStart(file, capacity, j)) == l
    ensures KeysUpTo(test, file, capacity, pre, l) == KeysUpTo(test, file, capacity, pre, k)
  {
  }
}
