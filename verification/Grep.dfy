/** The file scanner: one buffer, refilled and shifted, asking a matcher for the next matching line. */
module Grep {
  import opened Text
  import opened GrepSpec
  import opened GrepLemmas
  import opened GrepTrailing

  datatype ReadStatus = NoError | EndOfFile | UnexpectedEnd | Broken

  /** A stream of bytes. After the bytes it either ends or fails. */
  class Source {
    const data: Bytes
    const fails: bool
    var pos: nat

    constructor (data: Bytes, fails: bool)
      ensures this.data == data && this.fails == fails && pos == 0
    {
      this.data, this.fails, pos := data, fails, 0;
    }

    /** Reads until `a` is full from index `from` on, or the stream has no more bytes. */
    method ReadFull(a: array<byte>, from: nat) returns (n: nat, status: ReadStatus)
      requires from <= a.Length && pos <= |data|
      modifies this, a
      ensures n <= a.Length - from && pos == old(pos) + n <= |data|
      ensures n < a.Length - from ==> pos == |data|
      ensures status == if n == a.Length - from then NoError
                        else if fails then Broken
                        else if n == 0 then EndOfFile else UnexpectedEnd
      ensures a[..from] == old(a[..from])
      ensures a[from..from + n] == data[old(pos)..pos]
    {
      n := 0;
      while from + n < a.Length && pos < |data|
        invariant from + n <= a.Length && pos == old(pos) + n <= |data|
        invariant a[..from] == old(a[..from])
        invariant a[from..from + n] == data[old(pos)..pos]
      {
        a[from + n] := data[pos];
        n, pos := n + 1, pos + 1;
      }
      status := if from + n == a.Length then NoError
                else if fails then Broken
                else if n == 0 then EndOfFile else UnexpectedEnd;
    }
  }

  /** bytes.LastIndex(b, "\n"). */
  method LastIndex(b: Bytes) returns (i: int)
    ensures i + 1 == LineStart(b, |b|)
  {
    i := |b| - 1;
    while 0 <= i && b[i] != NL
      invariant -1 <= i < |b|
      invariant LineStart(b, i + 1) == LineStart(b, |b|)
    {
      i := i - 1;
    }
  }

  /** Counts newlines, jumping from one to the next. */
  method CountNL(b: Bytes) returns (n: nat)
    ensures n == NewlineCount(b)
  {
    n := 0;
    var rest := b;
    while true
      invariant NewlineCount(b) == n + NewlineCount(rest)
      decreases |rest|
    {
      var i := IndexByte(rest);
      if i < 0 {
        break;
      }
      NewlineCountSplit(rest, i);
      n := n + 1;
      rest := rest[i + 1..];
    }
  }

  /** bytes.IndexByte(b, '\n'). */
  method IndexByte(b: Bytes) returns (i: int)
    ensures -1 <= i < |b|
    ensures i < 0 ==> NewlineCount(b) == 0
    ensures 0 <= i ==> b[i] == NL && forall j :: 0 <= j < i ==> b[j] != NL
  {
    i := 0;
    while i < |b|
      invariant 0 <= i <= |b| && forall j :: 0 <= j < i ==> b[j] != NL
    {
      if b[i] == NL {
        return;
      }
      i := i + 1;
    }
    NewlineCountFree(b);
    i := -1;
  }

  lemma NewlineCountFree(b: Bytes)
    requires NewlineFree(b)
    ensures NewlineCount(b) == 0
  {
  }

  lemma NewlineCountSplit(b: Bytes, i: int)
    requires 0 <= i < |b| && b[i] == NL && forall j :: 0 <= j < i ==> b[j] != NL
    ensures NewlineCount(b) == 1 + NewlineCount(b[i + 1..])
  {
    NewlineCountFree(b[..i]);
    assert b == b[..i] + [NL] + b[i + 1..];
    assert multiset(b) == multiset(b[..i]) + multiset{NL} + multiset(b[i + 1..]);
  }

  // ----- the matcher

  /** Positions where a line of the slice may end: its newlines and, at end of text, its end. */
  ghost predicate Candidate(b: Bytes, endText: bool, e: int) {
    0 <= e <= |b| && if e < |b| then b[e] == NL else endText
  }

  /** The contract assumed of the regular-expression library, over an arbitrary test of lines. */
  ghost predicate FirstMatch(test: LineTest, b: Bytes, beginText: bool, endText: bool, m: int) {
    && (0 <= m ==> Candidate(b, endText, m) && HitAt(test, b, beginText, m))
    && forall e :: Candidate(b, endText, e) && (0 <= m ==> e < m) ==> !HitAt(test, b, beginText, e)
  }

  /** A matcher with that contract, so that the contract is one a matcher can have. */
  method Match(test: LineTest, b: Bytes, beginText: bool, endText: bool) returns (m: int)
    ensures m <= |b| && FirstMatch(test, b, beginText, endText, m)
  {
    m := 0;
    while m < |b|
      invariant 0 <= m <= |b|
      invariant forall e :: Candidate(b, endText, e) && e < m ==> !HitAt(test, b, beginText, e)
    {
      var s := LineStart(b, m);
      if b[m] == NL && test(b[s..m], beginText && s == 0, false) {
        return;
      }
      m := m + 1;
    }
    var s := LineStart(b, m);
    assert b[s..] == b[s..|b|];
    if !endText || !test(b[s..], beginText && s == 0, true) {
      m := -1;
    }
  }

  // ----- leading context

  /** The last newline before the final byte of `r[..y]` is where its last line starts. */
  lemma LastLineStart(r: Bytes, y: nat, x: nat)
    requires 0 < y <= |r| && x == LineStart(r[0..y - 1], y - 1)
    ensures x < y && Boundary(r, x) && IsLine(r[x..y])
  {
    hide LineStart, IsLine;
    LineStartShift(r, 0, y - 1, y - 1);
    IsLineSlice(r, x, y);
  }

  lemma LastLineOf(r: Bytes, y: nat, x: nat)
    requires 0 < y <= |r| && x == LineStart(r[0..y - 1], y - 1)
    ensures x < y && Boundary(r, x) && Lines(r[..y]) == Lines(r[..x]) + [r[x..y]]
  {
    hide Lines, LineStart, IsLine, Boundary;
    LastLineStart(r, y, x);
    LinesCut(r, x, y);
    LinesSingle(r[x..y]);
  }

  /** `result` holds the last lines of `ls`, the last one first. */
  ghost predicate NearestFirst(result: seq<Bytes>, ls: seq<Bytes>) {
    |result| <= |ls| && forall i :: 0 <= i < |result| ==> result[i] == ls[|ls| - 1 - i]
  }

  /** `result` holds the lines of `r` from position `y` on, `r[..y]` the others. */
  ghost predicate Collected(r: Bytes, y: nat, result: seq<Bytes>) {
    && y <= |r| && NearestFirst(result, Lines(r))
    && Lines(r[..y]) == Lines(r)[..|Lines(r)| - |result|]
  }

  lemma CollectNone(r: Bytes)
    ensures Collected(r, |r|, [])
  {
    assert r[..|r|] == r;
  }

  lemma CollectOne(r: Bytes, y: nat, x: nat, result: seq<Bytes>)
    requires 0 < y && Collected(r, y, result) && x == LineStart(r[0..y - 1], y - 1)
    ensures x < y && Collected(r, x, result + [r[x..y]])
  {
    hide Lines, LineStart;
    LastLineOf(r, y, x);
    DropLast(Lines(r), |result|, Lines(r[..x]), r[x..y]);
  }

  lemma DropLast<T>(ls: seq<T>, k: nat, ms: seq<T>, last: T)
    requires k <= |ls| && ms + [last] == ls[..|ls| - k]
    ensures k < |ls| && ms == ls[..|ls| - (k + 1)] && last == ls[|ls| - 1 - k]
  {
  }

  lemma CollectedAll(r: Bytes, result: seq<Bytes>)
    requires Collected(r, 0, result)
    ensures |result| == |Lines(r)|
  {
  }

  /** The same, in terms of positions in the buffer the region is taken from. */
  lemma CollectLine(b: Bytes, c: nat, l: nat, y: nat, x: nat, result: seq<Bytes>)
    requires c <= l <= |b| && 0 < y && Collected(b[c..l], y, result)
    requires x == LineStart(b[c..c + y - 1], y - 1)
    ensures x < y && Collected(b[c..l], x, result + [b[c + x..c + y]])
  {
    SubSlice(b, c, l, 0, y - 1);
    CollectOne(b[c..l], y, x, result);
    SubSlice(b, c, l, x, y);
  }

  lemma CollectAt(b: Bytes, c: nat, l: nat, y: nat, x: int, result: seq<Bytes>)
    requires c < y <= l <= |b| && Collected(b[c..l], y - c, result)
    requires x - c == LineStart(b[c..y - 1], y - 1 - c)
    ensures c <= x < y && Collected(b[c..l], x - c, result + [b[x..y]])
  {
    hide Lines, LineStart, Collected;
    CollectLine(b, c, l, y - c, x - c, result);
  }

  function Min(a: int, b: int): int {
    if a < b then a else b
  }

  /** Whole lines before `lineStart`, nearest first: n of them, or all that the region holds. */
  method GetPreCtx(b: Bytes, n: int, chunkStart: nat, lineStart: int) returns (result: seq<Bytes>)
    requires lineStart <= |b| || |b| < lineStart - chunkStart
    ensures lineStart <= chunkStart || |b| < lineStart ==> result == []
    ensures chunkStart < lineStart <= |b| ==>
              var ls := Lines(b[chunkStart..lineStart]);
              NearestFirst(result, ls) && |result| == if n < 0 then 0 else Min(n, |ls|)
  {
    hide Lines, LineStart;
    result := [];
    if n <= 0 || lineStart <= chunkStart || |b| < lineStart - chunkStart {
      return;
    }
    var ctxStart, left := lineStart, n;
    ghost var r := b[chunkStart..lineStart];
    CollectNone(r);
    while left > 0
      invariant chunkStart <= ctxStart <= lineStart
      invariant Collected(r, ctxStart - chunkStart, result)
      invariant 0 <= left && left + |result| == n
    {
      if ctxStart <= chunkStart || |b| < ctxStart - chunkStart {
        CollectedAll(r, result);
        break;
      }
      var i := LastIndex(b[chunkStart..ctxStart - 1]);
      var newCtxStart := i + 1 + chunkStart;
      var newb := b[newCtxStart..ctxStart];
      CollectAt(b, chunkStart, lineStart, ctxStart, newCtxStart, result);
      if |newb| > 0 {
        result := result + [newb];
      }
      ctxStart := newCtxStart;
      left := left - 1;
    }
  }

  function Reversed(ls: seq<Bytes>): seq<Bytes> {
    if ls == [] then [] else Reversed(ls[1..]) + [ls[0]]
  }

  lemma {:induction false} ReversedTail(result: seq<Bytes>, ls: seq<Bytes>)
    requires NearestFirst(result, ls)
    ensures Reversed(result) == ls[|ls| - |result|..]
    decreases |result|
  {
    if result != [] {
      var init := ls[..|ls| - 1];
      assert result[0] == ls[|ls| - 1];
      assert forall i :: 0 <= i < |result[1..]| ==> result[1..][i] == result[i + 1] == ls[|ls| - 1 - (i + 1)];
      ReversedTail(result[1..], init);
      assert init[|ls| - |result|..] + [ls[|ls| - 1]] == ls[|ls| - |result|..];
    }
  }

  lemma FlattenNone()
    ensures Flatten([]) == []
  {
  }

  lemma FlattenPush(ls: seq<Bytes>, last: Bytes)
    ensures Flatten(ls + [last]) == Flatten(ls) + last
  {
    assert (ls + [last])[..|ls|] == ls;
  }

  lemma {:induction false} FlattenConcat(a: seq<Bytes>, b: seq<Bytes>)
    ensures Flatten(a + b) == Flatten(a) + Flatten(b)
    decreases |b|
  {
    hide Flatten;
    if b == [] {
      assert a + b == a && Flatten([]) == [] by { FlattenNone(); }
    } else {
      var t, last := b[..|b| - 1], b[|b| - 1];
      FlattenConcat(a, t);
      FlattenPush(a + t, last);
      FlattenPush(t, last);
      assert b == t + [last] && a + b == a + t + [last];
      assert Flatten(a) + Flatten(t) + last == Flatten(a) + (Flatten(t) + last);
    }
  }

  /** In reading order, the collected context is the end of the region: nothing left out, nothing between. */
  lemma ContextIsSuffix(region: Bytes, result: seq<Bytes>)
    requires NearestFirst(result, Lines(region))
    ensures var text := Flatten(Reversed(result));
      |text| <= |region| && text == region[|region| - |text|..]
  {
    hide Lines;
    var ls := Lines(region);
    var k := |ls| - |result|;
    ReversedTail(result, ls);
    assert ls == ls[..k] + ls[k..];
    FlattenConcat(ls[..k], ls[k..]);
    LinesRoundTrip(region);
  }

  // ----- trailing context

  /** The first `n` bytes, one by one. */
  function Pieces(rest: Bytes, n: int): seq<Bytes> {
    seq(Min(if n < 0 then 0 else n, |rest|), i requires 0 <= i < |rest| => [rest[i]])
  }

  /** As called after a match, `chunkStart` is at the newline that ends the matching line. Every step
      looks for a newline from there, so every piece is one byte long. */
  method GetPostCtx(b: Bytes, n: int, chunkStart: nat, end: nat) returns (result: seq<Bytes>)
    requires end <= |b|
    ensures n <= 0 || end <= chunkStart ==> result == []
    ensures chunkStart < end && b[chunkStart] == NL ==> result == Pieces(b[chunkStart + 1..end], n)
  {
    result := [];
    if n == 0 {
      return;
    }
    var ctxStart, left := chunkStart, n;
    while left >= 0
      invariant left == if n < 0 then n else n - |result|
      invariant -1 <= left || n < 0
      invariant end <= chunkStart || n < 0 ==> result == [] && ctxStart == chunkStart
      invariant chunkStart <= ctxStart && (chunkStart < end ==> ctxStart <= end)
      invariant chunkStart < end && b[chunkStart] == NL ==> ctxStart == chunkStart + |result|
      invariant chunkStart < end && b[chunkStart] == NL ==>
                  forall i :: 0 <= i < |result| ==> result[i] == [b[chunkStart + i]]
    {
      if ctxStart >= end {
        break;
      }
      var i := IndexByte(b[chunkStart..end]);
      assert b[chunkStart] == NL ==> i == 0 by {
        if b[chunkStart] == NL { FirstByte(b[chunkStart..end], i); }
      }
      var newCtxStart := i + 1 + ctxStart;
      if newCtxStart > end {
        newCtxStart := end;
      }
      result := result + [b[ctxStart..newCtxStart]];
      ctxStart := newCtxStart;
      left := left - 1;
    }
    if |result| > 0 {
      result := result[1..];
    }
  }

  lemma FirstByte(b: Bytes, i: int)
    requires b != [] && b[0] == NL && -1 <= i < |b|
    requires i < 0 ==> NewlineCount(b) == 0
    requires forall j :: 0 <= j < i ==> b[j] != NL
    ensures i == 0
  {
  }

  // ----- the scan of one fill

  ghost predicate Includes(m: map<nat, Bytes>, ls: seq<Bytes>, keys: set<nat>) {
    forall n :: n in keys ==> n in m && 1 <= n <= |ls| && m[n] == ls[n - 1]
  }

  /** What the scan has recorded once the first `k` lines, and the trailing context of the first `kt`, are entered. */
  ghost predicate RecordedTo(test: LineTest, file: Bytes, capacity: nat, pre: bool, post: bool,
                             kt: nat, k: nat, nmatches: nat, matches: map<nat, Bytes>) {
    && k <= |Lines(file)|
    && nmatches == |HitsUpTo(test, file, k)|
    && Includes(matches, Lines(file), HitsUpTo(test, file, k))
    && (!post ==> MapsLines(matches, Lines(file), KeysUpTo(test, file, capacity, pre, k)))
    && (post ==> Trailed(test, file, capacity, pre, kt, k, matches))
  }

  ghost predicate Recorded(test: LineTest, file: Bytes, capacity: nat, pre: bool, post: bool,
                           k: nat, nmatches: nat, matches: map<nat, Bytes>) {
    RecordedTo(test, file, capacity, pre, post, k, k, nmatches, matches)
  }

  /** Stores leading context under the line numbers before `lineno`. */
  method RecordPre(matches: map<nat, Bytes>, ctx: seq<Bytes>, lineno: nat) returns (m: map<nat, Bytes>)
    requires |ctx| < lineno
    ensures forall n :: n in m <==> n in matches || lineno - |ctx| <= n < lineno
    ensures forall n :: n in m ==> m[n] == if lineno - |ctx| <= n < lineno then ctx[lineno - 1 - n] else matches[n]
  {
    m := matches;
    for i := 0 to |ctx|
      invariant forall n :: n in m <==> n in matches || lineno - i <= n < lineno
      invariant forall n :: n in m ==> m[n] == if lineno - i <= n < lineno then ctx[lineno - 1 - n] else matches[n]
    {
      m := m[lineno - 1 - i := ctx[i]];
    }
  }

  /** Stores trailing context under the line numbers after `lineno`. */
  method RecordPost(matches: map<nat, Bytes>, ctx: seq<Bytes>, lineno: nat) returns (m: map<nat, Bytes>)
    ensures forall n :: n in m <==> n in matches || lineno < n <= lineno + |ctx|
    ensures forall n :: n in m ==> m[n] == if lineno < n <= lineno + |ctx| then ctx[n - lineno - 1] else matches[n]
  {
    m := matches;
    for i := 0 to |ctx|
      invariant forall n :: n in m <==> n in matches || lineno < n <= lineno + i
      invariant forall n :: n in m ==> m[n] == if lineno < n <= lineno + i then ctx[n - lineno - 1] else matches[n]
    {
      m := m[lineno + 1 + i := ctx[i]];
    }
  }

  /** `m` is `matches` with the text of line `l` and the entries `ctx` just before it. */
  ghost predicate Entered(ls: seq<Bytes>, l: nat, matches: map<nat, Bytes>, ctx: seq<Bytes>, m: map<nat, Bytes>)
    requires 1 <= l <= |ls|
  {
    && (forall n :: n in m <==> n in matches || l - |ctx| <= n <= l)
    && (forall n :: n in m ==> m[n] == if n == l then ls[l - 1]
                                       else if l - |ctx| <= n < l then ctx[l - 1 - n] else matches[n])
  }

  /** `ctx` is the leading context of line `l` among the lines after line `k`. */
  ghost predicate ContextOf(ls: seq<Bytes>, pre: bool, k: nat, l: nat, ctx: seq<Bytes>)
    requires k < l <= |ls|
  {
    && |ctx| == (if pre then Min(3, l - 1 - k) else 0)
    && forall i :: 0 <= i < |ctx| ==> ctx[i] == ls[l - 2 - i]
  }

  lemma EnteredKeys(ls: seq<Bytes>, pre: bool, k: nat, l: nat, keys: set<nat>, keys2: set<nat>,
                    matches: map<nat, Bytes>, ctx: seq<Bytes>, m: map<nat, Bytes>)
    requires k < l <= |ls| && ContextOf(ls, pre, k, l, ctx)
    requires Entered(ls, l, matches, ctx, m) && MapsLines(matches, ls, keys)
    requires forall n: nat :: n in keys2 <==> n in keys || n == l || (pre && IsPreceding(k, l, n))
    ensures MapsLines(m, ls, keys2)
  {
  }

  /** The same as `EnteredKeys` when bytes trail. */
  lemma EnteredTrailed(test: LineTest, file: Bytes, capacity: nat, pre: bool, k: nat, l: nat,
                       matches: map<nat, Bytes>, ctx: seq<Bytes>, m: map<nat, Bytes>)
    requires Trailed(test, file, capacity, pre, k, k, matches) && k < l <= |Lines(file)|
    requires ContextOf(Lines(file), pre, k, l, ctx) && Entered(Lines(file), l, matches, ctx, m)
    requires forall n: nat :: n in KeysUpTo(test, file, capacity, pre, l) <==>
               n in KeysUpTo(test, file, capacity, pre, k) || n == l || (pre && IsPreceding(k, l, n))
    ensures Trailed(test, file, capacity, pre, k, l, m)
  {
    hide Lines, Trailed;
    forall n | n in m
      ensures m[n] == if l - |ctx| <= n <= l then Lines(file)[n - 1] else matches[n]
    {
      if l - |ctx| <= n < l {
        assert ctx[l - 1 - n] == Lines(file)[l - 2 - (l - 1 - n)];
      }
    }
    KeysBelow(test, file, capacity, pre, k);
    TrailedEnter(test, file, capacity, pre, k, l, l - |ctx|, matches, m);
  }

  lemma KeysBelow(test: LineTest, file: Bytes, capacity: nat, pre: bool, k: nat)
    ensures forall n :: n in KeysUpTo(test, file, capacity, pre, k) ==> n <= k
  {
  }

  /** The first `k` lines are recorded, the next match is line `l`: entering it records the first `l` lines. */
  lemma RecordStep(test: LineTest, file: Bytes, capacity: nat, pre: bool, post: bool, k: nat, l: nat,
                   nmatches: nat, matches: map<nat, Bytes>, ctx: seq<Bytes>, m: map<nat, Bytes>)
    requires Recorded(test, file, capacity, pre, post, k, nmatches, matches)
    requires k < l <= |Lines(file)| && Misses(test, file, k, l) && Hit(test, file, l)
    requires forall n: nat :: k < n < l ==> !CutBetween(file, capacity, n, l)
    requires ContextOf(Lines(file), pre, k, l, ctx) && Entered(Lines(file), l, matches, ctx, m)
    ensures RecordedTo(test, file, capacity, pre, post, k, l, nmatches + 1, m)
  {
    hide Trailed, Lines, ContextOf, Hit;
    HitsStep(test, file, k, l);
    ContextBound(Lines(file), pre, k, l, ctx);
    EnteredHits(Lines(file), k, l, HitsUpTo(test, file, k), matches, ctx, m);
    KeysStep(test, file, capacity, pre, k, l);
    if post {
      EnteredTrailed(test, file, capacity, pre, k, l, matches, ctx, m);
    } else {
      EnteredKeys(Lines(file), pre, k, l, KeysUpTo(test, file, capacity, pre, k),
                  KeysUpTo(test, file, capacity, pre, l), matches, ctx, m);
    }
  }

  lemma ContextBound(ls: seq<Bytes>, pre: bool, k: nat, l: nat, ctx: seq<Bytes>)
    requires k < l <= |ls| && ContextOf(ls, pre, k, l, ctx)
    ensures |ctx| < l - k
  {
  }

  lemma EnteredHits(ls: seq<Bytes>, k: nat, l: nat, hits: set<nat>,
                    matches: map<nat, Bytes>, ctx: seq<Bytes>, m: map<nat, Bytes>)
    requires k < l <= |ls| && |ctx| < l - k && Entered(ls, l, matches, ctx, m)
    requires Includes(matches, ls, hits) && forall n :: n in hits ==> n <= k
    ensures Includes(m, ls, hits + {l})
  {
  }

  lemma SliceMiss(test: LineTest, file: Bytes, c: nat, f: nat, endText: bool, m: int, p: nat)
    requires Boundary(file, c) && c <= p <= f <= |file| && (endText ==> f == |file|)
    requires FirstMatch(test, file[c..f], c == 0, endText, m) && (0 <= m ==> p < c + m)
    requires if p < f then file[p] == NL else endText
    ensures !HitAt(test, file, true, p)
  {
    var b := file[c..f];
    assert p < f ==> b[p - c] == file[p];
    assert Candidate(b, endText, p - c);
    SliceHit(test, file, c, f, p - c);
  }

  lemma SliceMisses(test: LineTest, file: Bytes, c: nat, f: nat, endText: bool, m: int)
    requires Boundary(file, c) && c <= f <= |file| && m <= f - c && (endText ==> f == |file|)
    requires FirstMatch(test, file[c..f], c == 0, endText, m)
    ensures forall p :: c <= p < f && (0 <= m ==> p < c + m) && file[p] == NL ==> !HitAt(test, file, true, p)
    ensures endText && m < 0 ==> !HitAt(test, file, true, |file|)
  {
    forall p | c <= p < f && (0 <= m ==> p < c + m) && file[p] == NL
      ensures !HitAt(test, file, true, p)
    {
      SliceMiss(test, file, c, f, endText, m, p);
    }
    if endText && m < 0 {
      SliceMiss(test, file, c, f, endText, m, f);
    }
  }

  /** No match in the rest of a fill. */
  lemma NoMatchInFile(test: LineTest, file: Bytes, c: nat, f: nat, endText: bool, m: int)
    requires Boundary(file, c) && c <= f <= |file|
    requires if endText then f == |file| else Boundary(file, f)
    requires m < 0 && FirstMatch(test, file[c..f], c == 0, endText, m)
    ensures LineNo(file, c) <= LineNo(file, f) <= |Lines(file)|
    ensures endText ==> LineNo(file, f) == |Lines(file)|
    ensures Misses(test, file, LineNo(file, c), LineNo(file, f) + 1)
  {
    SliceMisses(test, file, c, f, endText, m);
    if endText {
      MissesToEnd(test, file, c);
    } else {
      MissesBetween(test, file, c, f);
      LineNoBound(file, f);
    }
  }

  /** Where a match in the rest of a fill leads: the line `[s, end)` of the file, or the empty piece at its end. */
  lemma MatchPlace(test: LineTest, file: Bytes, c: nat, f: nat, endText: bool, m: int, s: nat, end: nat)
    requires Boundary(file, c) && c < f <= |file|
    requires if endText then f == |file| else Boundary(file, f)
    requires 0 <= m && FirstMatch(test, file[c..f], c == 0, endText, m)
    requires c + m <= f && s == LineStart(file, c + m) && end == Min(c + m + 1, f)
    ensures c <= s <= end && c < end
    ensures Boundary(file, end) || (endText && end == f)
    ensures s == end ==> endText && end == f
    ensures c + m < |file| ==> file[c + m] == NL && end == c + m + 1
    ensures c + m == |file| ==> end == c + m
  {
  }

  /** A match in the rest of a fill: no line before it matches, and it is the next line that does. */
  lemma MatchInFile(test: LineTest, file: Bytes, c: nat, f: nat, endText: bool, m: int, s: nat, end: nat)
    requires Boundary(file, c) && c < f <= |file|
    requires if endText then f == |file| else Boundary(file, f)
    requires 0 <= m && FirstMatch(test, file[c..f], c == 0, endText, m)
    requires c + m <= f && s == LineStart(file, c + m) && end == Min(c + m + 1, f)
    ensures c <= s <= end && LineNo(file, c) <= LineNo(file, s) <= |Lines(file)|
    ensures Misses(test, file, LineNo(file, c), LineNo(file, s) + 1)
    ensures s < end ==>
              && LineNo(file, end) == LineNo(file, s) + 1 <= |Lines(file)| && Hit(test, file, LineNo(file, end))
              && Lines(file)[LineNo(file, s)] == file[s..end]
  {
    MatchPlace(test, file, c, f, endText, m, s, end);
    SliceMisses(test, file, c, f, endText, m);
    MissesBetween(test, file, c, s);
    LineNoBound(file, s);
    if s < end {
      MatchedLine(test, file, c, f, endText, m, s, end);
    }
  }

  lemma MatchedAt(test: LineTest, file: Bytes, c: nat, f: nat, endText: bool, m: int)
    requires Boundary(file, c) && c <= f <= |file| && (endText ==> f == |file|)
    requires 0 <= m && FirstMatch(test, file[c..f], c == 0, endText, m)
    ensures c + m <= f && HitAt(test, file, true, c + m)
  {
    SliceHit(test, file, c, f, m);
  }

  lemma MatchedLine(test: LineTest, file: Bytes, c: nat, f: nat, endText: bool, m: int, s: nat, end: nat)
    requires Boundary(file, c) && c < f <= |file|
    requires if endText then f == |file| else Boundary(file, f)
    requires 0 <= m && FirstMatch(test, file[c..f], c == 0, endText, m)
    requires c + m <= f && s == LineStart(file, c + m) < end == Min(c + m + 1, f)
    ensures LineNo(file, end) == LineNo(file, s) + 1 <= |Lines(file)| && Hit(test, file, LineNo(file, end))
    ensures Lines(file)[LineNo(file, s)] == file[s..end]
  {
    MatchPlace(test, file, c, f, endText, m, s, end);
    MatchedAt(test, file, c, f, endText, m);
    HitNumber(test, file, s, c + m, end);
  }

  /** The buffer holds the start of the i-th fill, which begins at `base`; the part to be scanned ends at `end`. */
  ghost predicate Filled(file: Bytes, capacity: nat, i: nat, base: nat, b: Bytes, end: nat, endText: bool) {
    && base == FillStart(file, capacity, i)
    && end <= |b| && base + |b| <= |file| && b == file[base..base + |b|]
    && FillEnds(file, capacity, i, base + end)
    && (endText <==> |file| < base + capacity)
    && if endText then base + end == |file| else Boundary(file, base + end)
  }

  /** The region between two positions of a fill holds the file's lines between them. */
  lemma RegionLines(file: Bytes, c: nat, s: nat)
    requires Boundary(file, c) && c <= s && Boundary(file, s)
    ensures LineNo(file, c) <= LineNo(file, s) <= |Lines(file)|
    ensures Lines(file[c..s]) == Lines(file)[LineNo(file, c)..LineNo(file, s)]
  {
    assert file[..|file|] == file;
    LinesCut(file, c, s);
    LinesCut(file, s, |file|);
  }

  /** Leading context collected from a region is the context of the line after the region. */
  lemma RegionContext(ls: seq<Bytes>, k: nat, l: nat, region: seq<Bytes>, ctx: seq<Bytes>)
    requires k < l <= |ls| && region == ls[k..l - 1]
    requires NearestFirst(ctx, region) && |ctx| == Min(3, |region|)
    ensures ContextOf(ls, true, k, l, ctx)
  {
  }

  /** Collects the leading context of a match at `lineStart`, if it is asked for. */
  method LeadingContext(b: Bytes, npre: int, chunkStart: nat, lineStart: nat,
                        ghost ls: seq<Bytes>, ghost k: nat, ghost l: nat) returns (ctx: seq<Bytes>)
    requires chunkStart <= lineStart <= |b| && k < l <= |ls|
    requires Lines(b[chunkStart..lineStart]) == ls[k..l - 1]
    ensures ContextOf(ls, npre > 0, k, l, ctx)
  {
    ctx := [];
    if npre > 0 {
      ctx := GetPreCtx(b, 3, chunkStart, lineStart);
      ghost var region := b[chunkStart..lineStart];
      if chunkStart == lineStart {
        assert Lines(region) == [];
      }
      RegionContext(ls, k, l, Lines(region), ctx);
    }
  }

  /** Entering the bytes that trail the match of line `l`, which ends at `e`. */
  lemma RecordedPost(test: LineTest, file: Bytes, capacity: nat, pre: bool, k: nat, nmatches: nat,
                     i: nat, e: nat, f: nat, count: nat, matches: map<nat, Bytes>, m: map<nat, Bytes>)
    requires e <= f <= |file| && (Boundary(file, e) || e == |file|) && InFill(file, capacity, i, e, f)
    requires var l := LineNo(file, e);
             && k < l && Misses(test, file, k, l) && Hit(test, file, l) && count == Min(3, f - e)
             && RecordedTo(test, file, capacity, pre, true, k, l, nmatches, matches)
             && (forall n :: n in m <==> n in matches || l < n <= l + count)
             && (forall n :: n in m ==> m[n] == if l < n <= l + count then [file[e + n - l - 1]] else matches[n])
    ensures Recorded(test, file, capacity, pre, true, LineNo(file, e), nmatches, m)
  {
    hide Lines, Hit, InFill, Trailed, KeysUpTo, Misses;
    KeysBelow(test, file, capacity, pre, LineNo(file, e));
    TrailedBytes(test, file, capacity, pre, k, i, e, f, count, matches, m);
  }

  /** Enters a match, numbered `l`, and its leading context if asked for. */
  method EnterMatch(b: Bytes, chunkStart: nat, lineStart: nat, lineEnd: nat,
                    npre: int, ghost post: bool, l: nat, ghost nmatches: nat, matches: map<nat, Bytes>,
                    ghost test: LineTest, ghost file: Bytes, ghost capacity: nat, ghost k: nat)
    returns (entered: map<nat, Bytes>)
    requires chunkStart <= lineStart < lineEnd <= |b|
    requires Recorded(test, file, capacity, npre > 0, post, k, nmatches, matches)
    requires k < l <= |Lines(file)| && Misses(test, file, k, l) && Hit(test, file, l)
    requires forall n: nat :: k < n < l ==> !CutBetween(file, capacity, n, l)
    requires b[lineStart..lineEnd] == Lines(file)[l - 1]
    requires Lines(b[chunkStart..lineStart]) == Lines(file)[k..l - 1]
    ensures RecordedTo(test, file, capacity, npre > 0, post, k, l, nmatches + 1, entered)
  {
    hide Lines, Recorded, RecordedTo, Hit, Misses, CutBetween, ContextOf;
    var withLine := matches[l := b[lineStart..lineEnd]];
    var ctx := LeadingContext(b, npre, chunkStart, lineStart, Lines(file), k, l);
    ContextBound(Lines(file), npre > 0, k, l, ctx);
    entered := RecordPre(withLine, ctx, l);
    RecordStep(test, file, capacity, npre > 0, post, k, l, nmatches, matches, ctx, entered);
  }

  /** `m` is `matches` with the `k` bytes after position `m1` under the numbers after `l`, one each. */
  ghost predicate BytesEntered(b: Bytes, m1: nat, k: nat, l: nat, matches: map<nat, Bytes>, m: map<nat, Bytes>)
    requires m1 + k < |b|
  {
    && (forall n :: n in m <==> n in matches || l < n <= l + k)
    && (forall n :: n in m ==> m[n] == if l < n <= l + k then [b[m1 + n - l]] else matches[n])
  }

  lemma PostEntered(b: Bytes, m1: nat, end: nat, l: nat, ctx: seq<Bytes>, matches: map<nat, Bytes>, m: map<nat, Bytes>)
    requires m1 < end <= |b| && ctx == Pieces(b[m1 + 1..end], 3)
    requires forall n :: n in m <==> n in matches || l < n <= l + |ctx|
    requires forall n :: n in m ==> m[n] == if l < n <= l + |ctx| then ctx[n - l - 1] else matches[n]
    ensures |ctx| == Min(3, end - m1 - 1) && BytesEntered(b, m1, |ctx|, l, matches, m)
  {
    forall n | n in m && l < n <= l + |ctx| ensures m[n] == [b[m1 + n - l]] {
      assert b[m1 + 1..end][n - l - 1] == b[m1 + n - l];
    }
  }

  /** Enters the trailing context of the match of line `l`, if asked for. The line ends at `e`, its fill at `f`. */
  method EnterTrailing(b: Bytes, m1: nat, end: nat, npost: int, l: nat, ghost nmatches: nat, matches: map<nat, Bytes>,
                       ghost test: LineTest, ghost file: Bytes, ghost capacity: nat, ghost pre: bool,
                       ghost k: nat, ghost i: nat, ghost e: nat, ghost f: nat)
    returns (entered: map<nat, Bytes>)
    requires end <= |b| && e <= f <= |file| && (Boundary(file, e) || e == |file|) && InFill(file, capacity, i, e, f)
    requires l == LineNo(file, e) && k < l && Misses(test, file, k, l) && Hit(test, file, l)
    requires RecordedTo(test, file, capacity, pre, npost > 0, k, l, nmatches, matches)
    requires if m1 < end then b[m1] == NL && b[m1 + 1..end] == file[e..f] else e == f
    ensures Recorded(test, file, capacity, pre, npost > 0, l, nmatches, entered)
    ensures npost <= 0 || end <= m1 ==> entered == matches
    ensures npost > 0 && m1 < end ==> BytesEntered(b, m1, Min(3, end - m1 - 1), l, matches, entered)
  {
    hide InFill, Hit, Misses, Lines, Trailed, HitsUpTo, KeysUpTo, BytesEntered, Pieces;
    entered := matches;
    if npost > 0 {
      var postctx := GetPostCtx(b, 3, m1, end);
      entered := RecordPost(matches, postctx, l);
      if m1 < end {
        PostEntered(b, m1, end, l, postctx, matches, entered);
        BytesOfFile(b, m1, end, file, e, f, l, matches, entered);
      }
      RecordedPost(test, file, capacity, pre, k, nmatches, i, e, f, Min(3, f - e), matches, entered);
    }
  }

  /** A byte after the match, as a byte of the file. */
  lemma ByteOfFile(b: Bytes, m1: nat, end: nat, file: Bytes, e: nat, f: nat, j: nat)
    requires end <= |b| && e <= f <= |file| && m1 < end && b[m1 + 1..end] == file[e..f] && j < f - e
    ensures m1 + 1 + j < |b| && b[m1 + 1 + j] == file[e + j]
  {
    assert b[m1 + 1..end][j] == file[e..f][j];
  }

  /** The bytes entered are the bytes of the file after the line. */
  lemma BytesOfFile(b: Bytes, m1: nat, end: nat, file: Bytes, e: nat, f: nat, l: nat,
                    matches: map<nat, Bytes>, m: map<nat, Bytes>)
    requires end <= |b| && e <= f <= |file| && m1 < end && b[m1 + 1..end] == file[e..f]
    requires BytesEntered(b, m1, Min(3, end - m1 - 1), l, matches, m)
    ensures f - e == end - m1 - 1
    ensures forall n :: n in m ==>
              m[n] == if l < n <= l + Min(3, f - e) then [file[e + n - l - 1]] else matches[n]
  {
    assert |b[m1 + 1..end]| == |file[e..f]|;
    forall n | n in m
      ensures m[n] == if l < n <= l + Min(3, f - e) then [file[e + n - l - 1]] else matches[n]
    {
      if l < n <= l + Min(3, f - e) {
        ByteOfFile(b, m1, end, file, e, f, n - l - 1);
      }
    }
  }

  /** A region without a match, up to a cut or to the last line, records nothing. */
  lemma RecordQuiet(test: LineTest, file: Bytes, capacity: nat, pre: bool, post: bool, k: nat, l: nat,
                    nmatches: nat, matches: map<nat, Bytes>)
    requires Recorded(test, file, capacity, pre, post, k, nmatches, matches)
    requires k <= l <= |Lines(file)| && Misses(test, file, k, l + 1)
    requires l == |Lines(file)| || exists j: nat :: LineNo(file, FillStart(file, capacity, j)) == l
    ensures Recorded(test, file, capacity, pre, post, l, nmatches, matches)
  {
    hide Lines, Hit, Trailed;
    HitsQuiet(test, file, k, l);
    KeysQuiet(test, file, capacity, pre, k, l);
    if post {
      TrailedQuiet(test, file, capacity, pre, k, l, matches);
    }
  }

  /** A slice of the filled buffer is a slice of the file. */
  lemma FilledSlice(file: Bytes, capacity: nat, i: nat, base: nat, b: Bytes, end: nat, endText: bool, x: nat, y: nat)
    requires Filled(file, capacity, i, base, b, end, endText) && x <= y <= |b|
    ensures base + y <= |file| && b[x..y] == file[base + x..base + y]
  {
    SubSlice(file, base, base + |b|, x, y);
  }

  /** The line numbers of a region of a fill are not separated by a cut. */
  lemma RegionUncut(file: Bytes, capacity: nat, i: nat, c: nat, e: nat, f: nat)
    requires FillEnds(file, capacity, i, f) && Boundary(file, c)
    requires FillStart(file, capacity, i) <= c <= e <= f <= |file| && (Boundary(file, e) || e == f)
    ensures forall n: nat :: LineNo(file, c) < n < LineNo(file, e) ==> !CutBetween(file, capacity, n, LineNo(file, e))
  {
    LinesCut(file, FillStart(file, capacity, i), c);
    if e < f {
      LinesCut(file, e, f);
    }
    forall n: nat | LineNo(file, c) < n < LineNo(file, e)
      ensures !CutBetween(file, capacity, n, LineNo(file, e))
    {
      NoCutInside(file, capacity, i, f, n, LineNo(file, e));
    }
  }

  /** The line `[s, e)` is the first of the region `[c, f)` to match (or, if empty, the piece after the last
      newline). */
  ghost predicate NextMatch(test: LineTest, file: Bytes, capacity: nat, c: nat, s: nat, e: nat, f: nat, endText: bool) {
    && c <= s <= e <= f <= |file| && c < e && Boundary(file, s) && LineNo(file, c) <= LineNo(file, s) <= |Lines(file)|
    && Misses(test, file, LineNo(file, c), LineNo(file, s) + 1)
    && Lines(file[c..s]) == Lines(file)[LineNo(file, c)..LineNo(file, s)]
    && ((endText && e == f) || Boundary(file, e))
    && (if s == e then endText && e == f == |file|
        else && LineNo(file, e) == LineNo(file, s) + 1 <= |Lines(file)| && Hit(test, file, LineNo(file, e))
             && Lines(file)[LineNo(file, s)] == file[s..e])
  }

  lemma NextMatchFound(test: LineTest, file: Bytes, capacity: nat, c: nat, s: nat, e: nat, f: nat, endText: bool,
                       m: int)
    requires Boundary(file, c) && c < f <= |file|
    requires if endText then f == |file| else Boundary(file, f)
    requires 0 <= m && FirstMatch(test, file[c..f], c == 0, endText, m)
    requires c + m <= f && s == LineStart(file, c + m) && e == Min(c + m + 1, f)
    ensures NextMatch(test, file, capacity, c, s, e, f, endText)
  {
    MatchPlace(test, file, c, f, endText, m, s, e);
    MatchInFile(test, file, c, f, endText, m, s, e);
    RegionLines(file, c, s);
  }

  lemma LocatedStart(file: Bytes, capacity: nat, i: nat, base: nat, b: Bytes, end: nat, endText: bool,
                     chunkStart: nat, m1: nat, lineStart: nat)
    requires Filled(file, capacity, i, base, b, end, endText) && Boundary(file, base + chunkStart)
    requires chunkStart <= m1 <= end && lineStart == chunkStart + LineStart(b[chunkStart..m1], m1 - chunkStart)
    ensures base + lineStart == LineStart(file, base + m1)
  {
    hide LineStart, Boundary;
    FilledSlice(file, capacity, i, base, b, end, endText, chunkStart, m1);
    LineStartShift(file, base + chunkStart, base + m1, m1 - chunkStart);
  }

  /** The located line is the next matching line of the file. */
  lemma LocatedMatch(test: LineTest, file: Bytes, capacity: nat, i: nat, base: nat, b: Bytes, end: nat, endText: bool,
                     chunkStart: nat, m: int, lineStart: nat, lineEnd: nat)
    requires Filled(file, capacity, i, base, b, end, endText) && Boundary(file, base + chunkStart)
    requires 0 <= m && chunkStart + m <= end && chunkStart < end
    requires FirstMatch(test, b[chunkStart..end], base + chunkStart == 0, endText, m)
    requires lineStart == chunkStart + LineStart(b[chunkStart..chunkStart + m], m)
    requires lineEnd == Min(chunkStart + m + 1, end)
    ensures NextMatch(test, file, capacity, base + chunkStart, base + lineStart, base + lineEnd, base + end, endText)
  {
    hide NextMatch, Lines, FirstMatch, LineStart, FillEnds, FillStart, Hit, HitAt, Misses, NextCut;
    LocatedStart(file, capacity, i, base, b, end, endText, chunkStart, chunkStart + m, lineStart);
    FilledSlice(file, capacity, i, base, b, end, endText, chunkStart, end);
    NextMatchFound(test, file, capacity, base + chunkStart, base + lineStart, base + lineEnd, base + end, endText, m);
  }

  /** Enters the located line and its context, unless it is the empty piece at the end of the text. */
  method EnterLocated(b: Bytes, chunkStart: nat, lineStart: nat, lineEnd: nat, m1: nat, end: nat,
                      npre: int, npost: int, lineno: nat, nmatches0: nat, matches0: map<nat, Bytes>,
                      ghost test: LineTest, ghost file: Bytes, ghost capacity: nat, ghost i: nat,
                      ghost c: nat, ghost s: nat, ghost e: nat, ghost f: nat, ghost endText: bool)
    returns (nmatches: nat, matches: map<nat, Bytes>)
    requires chunkStart <= lineStart <= lineEnd <= end <= |b|
    requires NextMatch(test, file, capacity, c, s, e, f, endText) && lineno == LineNo(file, s) + 1
    requires lineStart == lineEnd <==> s == e
    requires FillEnds(file, capacity, i, f) && Boundary(file, c) && FillStart(file, capacity, i) <= c
    requires b[chunkStart..lineStart] == file[c..s] && b[lineStart..lineEnd] == file[s..e]
    requires if m1 < end then b[m1] == NL && lineEnd == m1 + 1 && b[lineEnd..end] == file[e..f] else e == f
    requires endText ==> f == |file|
    requires Recorded(test, file, capacity, npre > 0, npost > 0, LineNo(file, c), nmatches0, matches0)
    ensures Recorded(test, file, capacity, npre > 0, npost > 0, LineNo(file, e), nmatches, matches)
  {
    hide Recorded, RecordedTo, FillStart, FillEnds, CutBetween, NextCut, Hit;
    nmatches, matches := nmatches0, matches0;
    if lineStart != lineEnd {
      RegionUncut(file, capacity, i, c, e, f);
      matches := EnterMatch(b, chunkStart, lineStart, lineEnd, npre, npost > 0, lineno, nmatches, matches,
                            test, file, capacity, LineNo(file, c));
      nmatches := nmatches + 1;
      matches := EnterTrailing(b, m1, end, npost, lineno, nmatches, matches, test, file, capacity, npre > 0,
                               LineNo(file, c), i, e, f);
    } else {
      assert file[..e] == file;
      RecordQuiet(test, file, capacity, npre > 0, npost > 0, LineNo(file, c), LineNo(file, e), nmatches, matches);
    }
  }

  /** Where the matching line starts and ends in the buffer, and how many newlines precede it. */
  method LocateMatch(b: Bytes, chunkStart: nat, end: nat, m: nat) returns (lineStart: nat, lineEnd: nat, nls: nat)
    requires chunkStart + m <= end <= |b| && chunkStart < end
    ensures lineStart == chunkStart + LineStart(b[chunkStart..chunkStart + m], m)
    ensures lineEnd == Min(chunkStart + m + 1, end)
    ensures chunkStart <= lineStart <= lineEnd && nls == NewlineCount(b[chunkStart..lineStart])
  {
    var m1 := chunkStart + m;
    var i := LastIndex(b[chunkStart..m1]);
    lineStart := i + 1 + chunkStart;
    lineEnd := m1 + 1;
    if lineEnd > end {
      lineEnd := end;
    }
    nls := CountNL(b[chunkStart..lineStart]);
  }

  /** A match before the end of the slice is at a newline. */
  lemma MatchedByte(test: LineTest, b: Bytes, chunkStart: nat, end: nat, beginText: bool, endText: bool, m: nat)
    requires chunkStart + m <= end <= |b| && FirstMatch(test, b[chunkStart..end], beginText, endText, m)
    ensures chunkStart + m < end ==> b[chunkStart + m] == NL
  {
    assert chunkStart + m < end ==> b[chunkStart..end][m] == b[chunkStart + m];
  }

  /** Locates the match at `m`, numbers it and enters it. */
  method ScanMatch(b: Bytes, chunkStart: nat, end: nat, m: nat, npre: int, npost: int,
                   lineno0: nat, nmatches0: nat, matches0: map<nat, Bytes>,
                   ghost test: LineTest, ghost file: Bytes, ghost capacity: nat, ghost i: nat, ghost base: nat,
                   ghost endText: bool)
    returns (lineno: nat, nmatches: nat, matches: map<nat, Bytes>, lineEnd: nat)
    requires Filled(file, capacity, i, base, b, end, endText) && chunkStart < end && chunkStart + m <= end
    requires Boundary(file, base + chunkStart) && lineno0 == LineNo(file, base + chunkStart) + 1
    requires FirstMatch(test, b[chunkStart..end], base + chunkStart == 0, endText, m)
    requires Recorded(test, file, capacity, npre > 0, npost > 0, LineNo(file, base + chunkStart), nmatches0, matches0)
    ensures chunkStart < lineEnd <= end
    ensures (endText && lineEnd == end) ||
            (Boundary(file, base + lineEnd) && lineno == LineNo(file, base + lineEnd) + 1)
    ensures Recorded(test, file, capacity, npre > 0, npost > 0, LineNo(file, base + lineEnd), nmatches, matches)
  {
    hide Recorded, Lines, LineStart, FirstMatch, FillStart, FillEnds, Misses, Hit, NextCut, NewlineCount;
    var lineStart, nls;
    lineStart, lineEnd, nls := LocateMatch(b, chunkStart, end, m);
    LocatedMatch(test, file, capacity, i, base, b, end, endText, chunkStart, m, lineStart, lineEnd);
    ghost var c, s, e, f := base + chunkStart, base + lineStart, base + lineEnd, base + end;
    FilledSlice(file, capacity, i, base, b, end, endText, chunkStart, lineStart);
    FilledSlice(file, capacity, i, base, b, end, endText, lineStart, lineEnd);
    FilledSlice(file, capacity, i, base, b, end, endText, lineEnd, end);
    MatchedByte(test, b, chunkStart, end, base + chunkStart == 0, endText, m);
    LinesBetween(file, c, s);
    lineno := lineno0 + nls;
    nmatches, matches := EnterLocated(b, chunkStart, lineStart, lineEnd, chunkStart + m, end, npre, npost, lineno,
                                      nmatches0, matches0, test, file, capacity, i, c, s, e, f, endText);
    lineno := lineno + 1;
  }

  /** The scan of one filled buffer: finds match after match, numbers and records them. */
  method ScanFill(test: LineTest, b: Bytes, end: nat, begin: bool, endText: bool, npre: int, npost: int,
                  lineno0: nat, nmatches0: nat, matches0: map<nat, Bytes>,
                  ghost file: Bytes, ghost capacity: nat, ghost i: nat, ghost base: nat)
    returns (lineno: nat, nmatches: nat, matches: map<nat, Bytes>, chunkStart: nat, beginText: bool)
    requires Filled(file, capacity, i, base, b, end, endText)
    requires (begin <==> base == 0) && lineno0 == LineNo(file, base) + 1
    requires Recorded(test, file, capacity, npre > 0, npost > 0, LineNo(file, base), nmatches0, matches0)
    ensures chunkStart <= end && (beginText <==> begin && end == 0)
    ensures !endText ==> Boundary(file, base + chunkStart) && lineno == LineNo(file, base + chunkStart) + 1
    ensures Recorded(test, file, capacity, npre > 0, npost > 0, LineNo(file, base + end), nmatches, matches)
  {
    hide Recorded, FirstMatch, Lines, FillStart, FillEnds, NextCut;
    lineno, nmatches, matches, chunkStart := lineno0, nmatches0, matches0, 0;
    beginText := begin;
    while chunkStart < end
      invariant chunkStart <= end
      invariant (endText && chunkStart == end) ||
                (Boundary(file, base + chunkStart) && lineno == LineNo(file, base + chunkStart) + 1)
      invariant beginText <==> begin && chunkStart == 0
      invariant Recorded(test, file, capacity, npre > 0, npost > 0,
                         LineNo(file, base + chunkStart), nmatches, matches)
    {
      var m := Match(test, b[chunkStart..end], beginText, endText);
      beginText := false;
      if m < 0 {
        QuietRest(test, file, capacity, i, base, b, end, endText, chunkStart, m, npre > 0, npost > 0,
                  nmatches, matches);
        return;
      }
      var lineEnd;
      lineno, nmatches, matches, lineEnd :=
        ScanMatch(b, chunkStart, end, m, npre, npost, lineno, nmatches, matches,
                  test, file, capacity, i, base, endText);
      chunkStart := lineEnd;
    }
  }

  /** No match in the rest of the fill: what is recorded is recorded for the whole fill. */
  lemma QuietRest(test: LineTest, file: Bytes, capacity: nat, i: nat, base: nat, b: Bytes, end: nat, endText: bool,
                  chunkStart: nat, m: int, pre: bool, post: bool, nmatches: nat, matches: map<nat, Bytes>)
    requires Filled(file, capacity, i, base, b, end, endText) && Boundary(file, base + chunkStart) && chunkStart <= end
    requires m < 0 && FirstMatch(test, b[chunkStart..end], base + chunkStart == 0, endText, m)
    requires Recorded(test, file, capacity, pre, post, LineNo(file, base + chunkStart), nmatches, matches)
    ensures Recorded(test, file, capacity, pre, post, LineNo(file, base + end), nmatches, matches)
  {
    hide Lines, LineStart, FirstMatch, Recorded, Misses, HitsUpTo, KeysUpTo;
    var c, f := base + chunkStart, base + end;
    FilledSlice(file, capacity, i, base, b, end, endText, chunkStart, end);
    NoMatchInFile(test, file, c, f, endText, m);
    assert !endText ==> f == FillStart(file, capacity, i + 1);
    assert LineNo(file, f) == |Lines(file)| || LineNo(file, FillStart(file, capacity, i + 1)) == LineNo(file, f);
    RecordQuiet(test, file, capacity, pre, post, LineNo(file, c), LineNo(file, f), nmatches, matches);
  }

  // ----- the whole file

  ghost predicate HasNewline(file: Bytes, q: nat, capacity: nat)
    requires q + capacity <= |file|
  {
    exists j :: q <= j < q + capacity && file[j] == NL
  }

  /** Wherever a full buffer could lie in the file, it holds a newline. */
  ghost predicate NewlineInEveryFill(file: Bytes, capacity: nat) {
    forall q: nat | q + capacity <= |file| :: HasNewline(file, q, capacity)
  }

  /** A full buffer is cut after its last newline: the next fill starts there. */
  lemma FullFill(file: Bytes, capacity: nat, i: nat, base: nat, b: Bytes, end: nat)
    requires base == FillStart(file, capacity, i) && base + capacity <= |file|
    requires b == file[base..base + capacity] && end == LineStart(b, |b|)
    ensures Filled(file, capacity, i, base, b, end, false)
    ensures base + end == FillStart(file, capacity, i + 1)
  {
    hide LineStart, Lines;
    LineStartShift(file, base, base + capacity, capacity);
    assert b == file[base..base + capacity] && |b| == capacity;
  }

  /** Where every full buffer holds a newline, a full buffer is cut further on. */
  lemma CutFurther(file: Bytes, capacity: nat, base: nat)
    requires base + capacity <= |file| && NewlineInEveryFill(file, capacity)
    ensures base < LineStart(file, base + capacity)
  {
    hide LineStart;
    assert HasNewline(file, base, capacity);
  }

  lemma NextFillFurther(file: Bytes, capacity: nat, i: nat)
    requires FillStart(file, capacity, i) + capacity <= |file| && NewlineInEveryFill(file, capacity)
    ensures FillStart(file, capacity, i) < FillStart(file, capacity, i + 1)
  {
    hide LineStart;
    CutFurther(file, capacity, FillStart(file, capacity, i));
  }

  lemma LastFillOf(file: Bytes, capacity: nat, i: nat, base: nat, b: Bytes)
    requires base == FillStart(file, capacity, i) && |file| < base + capacity && base <= |file|
    requires b == file[base..|file|]
    ensures Filled(file, capacity, i, base, b, |b|, true)
  {
  }

  /** Shifts `a[from..len]` to the start of the buffer. */
  method CopyDown(a: array<byte>, from: nat, len: nat) returns (n: nat)
    requires from <= len <= a.Length
    modifies a
    ensures n == len - from && a[..n] == old(a[..len])[from..len]
  {
    n := 0;
    while from + n < len
      invariant from + n <= len
      invariant forall j :: 0 <= j < n ==> a[j] == old(a[from + j])
      invariant forall j :: from + n <= j < len ==> a[j] == old(a[j])
    {
      a[n] := a[from + n];
      n := n + 1;
    }
  }

  /** Between two fills: `held`, kept in the buffer, and the unread bytes are the unconsumed rest of the file. */
  ghost predicate BetweenFills(file: Bytes, capacity: nat, i: nat, base: nat, held: Bytes, pos: nat,
                               lineno: nat, beginText: bool) {
    && base == FillStart(file, capacity, i) && pos == base + |held| <= |file|
    && held == file[base..pos]
    && lineno == LineNo(file, base) + 1 && (beginText <==> base == 0)
  }

  class Grepper {
    const capacity: nat
    var buf: array?<byte>
    var regexp: LineTest
    var ctxPre: int
    var ctxPost: int
    var ctxBoth: int

    constructor (capacity: nat, regexp: LineTest, ctxPre: int, ctxPost: int, ctxBoth: int)
      ensures this.capacity == capacity && this.regexp == regexp && buf == null
      ensures this.ctxPre == ctxPre && this.ctxPost == ctxPost && this.ctxBoth == ctxBoth
    {
      this.capacity, this.regexp, buf := capacity, regexp, null;
      this.ctxPre, this.ctxPost, this.ctxBoth := ctxPre, ctxPost, ctxBoth;
    }

    /** Fills the buffer behind the `len0` bytes it holds; says which part of it is to be scanned. */
    method Fill(a: array<byte>, r: Source, len0: nat, ghost i: nat, ghost base: nat,
                ghost lineno: nat, ghost beginText: bool)
      returns (len: nat, end: nat, status: ReadStatus)
      requires len0 <= a.Length == capacity && r.pos <= |r.data|
      requires BetweenFills(r.data, capacity, i, base, a[..len0], r.pos, lineno, beginText)
      modifies a, r
      ensures end <= len <= a.Length && r.pos == base + len <= |r.data|
      ensures Filled(r.data, capacity, i, base, a[..len], end, status != NoError)
      ensures status == NoError ==> base + end == FillStart(r.data, capacity, i + 1)
      ensures status != NoError ==> r.pos == |r.data| && end == len && (status == Broken <==> r.fails)
    {
      hide FillStart, FillEnds, LineNo, LineStart, Filled;
      var n;
      n, status := r.ReadFull(a, len0);
      len := len0 + n;
      FilledBytes(a[..], r.data, len0, n, base, old(r.pos));
      end := len;
      if status == NoError {
        var last := LastIndex(a[..len]);
        end := last + 1;
        FullFill(r.data, capacity, i, base, a[..len], end);
      } else {
        LastFillOf(r.data, capacity, i, base, a[..len]);
      }
    }

    lemma FilledBytes(a: Bytes, file: Bytes, len: nat, n: nat, base: nat, pos: nat)
      requires len + n <= |a| && pos == base + len && pos + n <= |file|
      requires a[..len] == file[base..pos] && a[len..len + n] == file[pos..pos + n]
      ensures a[..len + n] == file[base..pos + n]
    {
    }

    /** One round of the outer loop: fill, scan, count the rest, shift. It leads from one fill to the next while
        full buffers can be read, and is the last round otherwise. */
    method Round(a: array<byte>, r: Source, len0: nat, npre: int, npost: int,
                 lineno0: nat, nmatches0: nat, matches0: map<nat, Bytes>, begin: bool, ghost i: nat, ghost base: nat)
      returns (len: nat, lineno: nat, nmatches: nat, matches: map<nat, Bytes>, beginText: bool, status: ReadStatus)
      requires len0 <= a.Length == capacity && r.pos <= |r.data|
      requires BetweenFills(r.data, capacity, i, base, a[..len0], r.pos, lineno0, begin)
      requires Recorded(regexp, r.data, capacity, npre > 0, npost > 0, LineNo(r.data, base), nmatches0, matches0)
      modifies a, r
      ensures len <= a.Length && r.pos <= |r.data|
      ensures status == NoError <==> base + capacity <= |r.data|
      ensures var next := FillStart(r.data, capacity, i + 1);
              status == NoError ==>
                && BetweenFills(r.data, capacity, i + 1, next, a[..len], r.pos, lineno, beginText)
                && Recorded(regexp, r.data, capacity, npre > 0, npost > 0, LineNo(r.data, next), nmatches, matches)
      ensures status != NoError ==>
                && len == 0 && r.pos == |r.data| && (status == Broken <==> r.fails)
                && Recorded(regexp, r.data, capacity, npre > 0, npost > 0, |Lines(r.data)|, nmatches, matches)
    {
      hide Recorded, FillStart, FillEnds, LineNo, LineStart, Lines, Boundary;
      var end;
      len, end, status := Fill(a, r, len0, i, base, lineno0, begin);
      ghost var b := a[..len];
      var chunkStart;
      lineno, nmatches, matches, chunkStart, beginText :=
        ScanFill(regexp, a[..len], end, begin, status != NoError, npre, npost, lineno0, nmatches0, matches0,
                 r.data, capacity, i, base);
      if status == NoError {
        var nls := CountNL(a[..len][chunkStart..end]);
        lineno := lineno + nls;
        RestOfFill(r.data, capacity, i, base, b, end, chunkStart);
      } else {
        LineNoEnd(r.data);
      }
      var n := CopyDown(a, end, len);
      len := n;
    }

    /** Counting the newlines left in the fill brings the line number to the next fill; the tail is kept. */
    lemma RestOfFill(file: Bytes, capacity: nat, i: nat, base: nat, b: Bytes, end: nat, chunkStart: nat)
      requires Filled(file, capacity, i, base, b, end, false) && chunkStart <= end
      requires Boundary(file, base + chunkStart)
      ensures LineNo(file, base + end) == LineNo(file, base + chunkStart) + NewlineCount(b[chunkStart..end])
      ensures b[end..|b|] == file[base + end..base + |b|]
    {
      FilledSlice(file, capacity, i, base, b, end, false, chunkStart, end);
      FilledSlice(file, capacity, i, base, b, end, false, end, |b|);
      LinesBetween(file, base + chunkStart, base + end);
    }

    /** Scans a stream: the matching lines by number, and their count, however the buffer cuts the stream; with
        leading and trailing context, if asked for. */
    method Reader(r: Source) returns (nmatches: nat, matches: map<nat, Bytes>, failed: bool)
      requires r.pos == 0 && NewlineInEveryFill(r.data, capacity)
      requires buf != null ==> buf.Length == capacity
      modifies this`buf, buf, r
      ensures buf != null && buf.Length == capacity && (buf == old(buf) || fresh(buf))
      ensures nmatches == |HitLines(regexp, r.data)|
      ensures Includes(matches, Lines(r.data), HitLines(regexp, r.data))
      ensures ctxBoth <= 0 && ctxPost <= 0 ==>
                MapsLines(matches, Lines(r.data), ReportedLines(regexp, r.data, capacity, ctxPre > 0))
      ensures ctxBoth > 0 || ctxPost > 0 ==>
                var n := |Lines(r.data)|;
                && Trailed(regexp, r.data, capacity, ctxPre > 0 || ctxBoth > 0, n, n, matches)
                && Includes(matches, Lines(r.data),
                            ReportedLines(regexp, r.data, capacity, ctxPre > 0 || ctxBoth > 0))
      ensures failed == r.fails && r.pos == |r.data|
    {
      hide Lines, FillStart, FillEnds, LineNo, LineStart, NewlineInEveryFill, HitsUpTo, KeysUpTo, Hit, Trailed;
      if buf == null {
        buf := new byte[capacity];
      }
      var npre := if ctxPre > ctxBoth then ctxPre else ctxBoth;
      var npost := if ctxPost > ctxBoth then ctxPost else ctxBoth;
      var len, lineno, beginText := 0, 1, true;
      nmatches, matches := 0, map[];
      ghost var base, i := 0, 0;
      Start(regexp, r.data, capacity, npre > 0, npost > 0);
      assert buf[..0] == r.data[0..0];
      while true
        invariant buf != null && buf.Length == capacity && (buf == old(buf) || fresh(buf))
        invariant 0 <= len <= capacity && r.pos <= |r.data|
        invariant BetweenFills(r.data, capacity, i, base, buf[..len], r.pos, lineno, beginText)
        invariant Recorded(regexp, r.data, capacity, npre > 0, npost > 0, LineNo(r.data, base), nmatches, matches)
        decreases |r.data| - base
      {
        var status;
        len, lineno, nmatches, matches, beginText, status :=
          Round(buf, r, len, npre, npost, lineno, nmatches, matches, beginText, i, base);
        if len == 0 && status != NoError {
          TrailedIncludes(regexp, r.data, capacity, npre > 0, npost > 0, nmatches, matches);
          failed := status == Broken;
          break;
        }
        NextFillFurther(r.data, capacity, i);
        base, i := FillStart(r.data, capacity, i + 1), i + 1;
      }
    }
  }

  /** With trailing context too, every line to be reported is there with its text. */
  lemma TrailedIncludes(test: LineTest, file: Bytes, capacity: nat, pre: bool, post: bool, nmatches: nat,
                        matches: map<nat, Bytes>)
    requires Recorded(test, file, capacity, pre, post, |Lines(file)|, nmatches, matches)
    ensures post ==> Includes(matches, Lines(file), ReportedLines(test, file, capacity, pre))
  {
    hide Lines, HitsUpTo, TrailedBy, LastTrail, IsTrailByte, Hit, IsContext;
  }

  lemma Start(test: LineTest, file: Bytes, capacity: nat, pre: bool, post: bool)
    ensures FillStart(file, capacity, 0) == 0 && LineNo(file, 0) == 0
    ensures Recorded(test, file, capacity, pre, post, 0, 0, map[])
  {
  }
}
