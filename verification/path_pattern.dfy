/**
 The backtracking glob of internal/router/router.go. Its meaning is given by alignments: a way to cut the value into
 consecutive chunks, one for each pattern segment.
 */
module PathPattern {
  import opened GoStrings
  import opened Sequences

  type Segs = seq<string>

  // ---- Meaning -----------------------------------------------------------------------------

  /** What one pattern segment may stand for: "**" for any run of segments, "*" for any one, a literal for itself. */
  predicate Covers(p: string, chunk: Segs) {
    p == "**" || (|chunk| == 1 && (p == "*" || p == chunk[0]))
  }

  ghost predicate Alignment(p: Segs, v: Segs, chunks: seq<Segs>) {
    && |chunks| == |p|
    && Flatten(chunks) == v
    && forall k :: 0 <= k < |p| ==> Covers(p[k], chunks[k])
  }

  ghost predicate Aligns(p: Segs, v: Segs) {
    exists chunks :: Alignment(p, v, chunks)
  }

  ghost predicate PathMatches(pattern: string, value: string) {
    Aligns(Split(pattern), Split(value))
  }

  // ---- One step of the matcher -------------------------------------------------------------

  predicate OneSegment(p: string, v: Segs) {
    v != [] && (p == "*" || p == v[0])
  }

  lemma AlignsNothing(v: Segs)
    ensures Aligns([], v) <==> v == []
  {
    assert v == [] ==> Alignment([], v, []);
  }

  lemma AlignsOneSegment(p: Segs, v: Segs)
    requires p != [] && p[0] != "**"
    ensures Aligns(p, v) <==> OneSegment(p[0], v) && Aligns(p[1..], v[1..])
  {
    if chunks :| Alignment(p, v, chunks) {
      assert chunks[0] == [v[0]];
      assert Alignment(p[1..], v[1..], chunks[1..]);
    }
    if OneSegment(p[0], v) && Aligns(p[1..], v[1..]) {
      var rest :| Alignment(p[1..], v[1..], rest);
      assert Alignment(p, v, [[v[0]]] + rest);
    }
  }

  lemma AlignsAnySegments(p: Segs, v: Segs)
    requires p != [] && p[0] == "**"
    ensures Aligns(p, v) <==> exists i :: 0 <= i <= |v| && Aligns(p[1..], v[i..])
  {
    if chunks :| Alignment(p, v, chunks) {
      assert Alignment(p[1..], v[|chunks[0]|..], chunks[1..]);
    }
    if i :| 0 <= i <= |v| && Aligns(p[1..], v[i..]) {
      var rest :| Alignment(p[1..], v[i..], rest);
      assert Alignment(p, v, [v[..i]] + rest);
    }
  }

  // ---- The matcher -------------------------------------------------------------------------

  /** How often the matcher is entered, counting the outer call, when a "**" stops at the first suffix that matches. */
  ghost function Invocations(p: Segs, v: Segs): nat
    decreases |p|, 0
  {
    if p == [] then 1
    else if p[0] == "**" then 1 + SuffixInvocations(p[1..], v, 0)
    else if OneSegment(p[0], v) then Invocations(p[1..], v[1..])
    else 1
  }

  ghost function SuffixInvocations(p: Segs, v: Segs, i: nat): nat
    requires i <= |v| + 1
    decreases |p|, |v| + 2 - i
  {
    if i > |v| then 0
    else Invocations(p, v[i..]) + if Aligns(p, v[i..]) then 0 else SuffixInvocations(p, v, i + 1)
  }

  /** matchSegs: decides exactly whether the value aligns with the pattern. */
  method MatchSegs(pattern: Segs, value: Segs) returns (ok: bool, ghost calls: nat)
    ensures ok <==> Aligns(pattern, value)
    ensures calls == Invocations(pattern, value)
    decreases |pattern|
  {
    var pSegs, vSegs := pattern, value;
    calls := 1;
    while |pSegs| > 0
      invariant |pSegs| <= |pattern|
      invariant Aligns(pattern, value) <==> Aligns(pSegs, vSegs)
      invariant calls == 1 && Invocations(pattern, value) == Invocations(pSegs, vSegs)
    {
      var p := pSegs[0];
      ghost var pBefore, vBefore := pSegs, vSegs;
      pSegs := pSegs[1..];
      if p == "**" {
        AlignsAnySegments(pBefore, vSegs);
        var i := 0;
        while i <= |vSegs|
          invariant 0 <= i <= |vSegs| + 1
          invariant forall j :: 0 <= j < i ==> !Aligns(pSegs, vSegs[j..])
          invariant calls + SuffixInvocations(pSegs, vSegs, i) == Invocations(pattern, value)
        {
          var matched, c := MatchSegs(pSegs, vSegs[i..]);
          calls := calls + c;
          if matched {
            return true, calls;
          }
          i := i + 1;
        }
        return false, calls;
      }
      AlignsOneSegment(pBefore, vSegs);
      if |vSegs| == 0 {
        return false, calls;
      }
      var v := vSegs[0];
      vSegs := vSegs[1..];
      if p != "*" && p != v {
        return false, calls;
      }
    }
    AlignsNothing(vSegs);
    ok := |vSegs| == 0;
  }

  /** matchPathPattern. */
  method MatchPathPattern(pattern: string, value: string) returns (ok: bool)
    ensures ok <==> PathMatches(pattern, value)
  {
    ghost var calls;
    ok, calls := MatchSegs(Split(pattern), Split(value));
  }

  // ---- Cost --------------------------------------------------------------------------------

  function Stars(p: Segs): nat {
    if p == [] then 0 else (if p[0] == "**" then 1 else 0) + Stars(p[1..])
  }

  function Pow(base: nat, exponent: nat): nat {
    if exponent == 0 then 1 else base * Pow(base, exponent - 1)
  }

  lemma MulMonotone(a: nat, b: nat, x: nat, y: nat)
    requires a <= b && x <= y
    ensures a * x <= b * y
  {
    assert b * y == a * x + a * (y - x) + (b - a) * y;
  }

  lemma {:induction false} PowMonotone(a: nat, b: nat, e: nat)
    requires 1 <= a <= b
    ensures 1 <= Pow(a, e) <= Pow(b, e)
  {
    if e > 0 {
      PowMonotone(a, b, e - 1);
      MulMonotone(1, a, 1, Pow(a, e - 1));
      MulMonotone(a, b, Pow(a, e - 1), Pow(b, e - 1));
    }
  }

  lemma OneFactorMore(n: nat, unit: nat)
    ensures n * unit + unit == (n + 1) * unit
  {
  }

  /** A pattern with k "**" segments costs at most (n + 2)^k calls on a value of n segments. */
  lemma {:induction false} CostBound(p: Segs, v: Segs)
    ensures Invocations(p, v) <= Pow(|v| + 2, Stars(p))
    decreases |p|, 0
  {
    if p == [] {
    } else if p[0] == "**" {
      SuffixCostBound(p[1..], v, 0);
      PowMonotone(1, |v| + 2, Stars(p[1..]));
      OneFactorMore(|v| + 1, Pow(|v| + 2, Stars(p[1..])));
      assert Stars(p) == Stars(p[1..]) + 1;
    } else if OneSegment(p[0], v) {
      CostBound(p[1..], v[1..]);
      PowMonotone(|v[1..]| + 2, |v| + 2, Stars(p));
    } else {
      PowMonotone(1, |v| + 2, Stars(p));
    }
  }

  lemma {:induction false} SuffixCostBound(p: Segs, v: Segs, i: nat)
    requires i <= |v| + 1
    ensures SuffixInvocations(p, v, i) <= (|v| + 1 - i) * Pow(|v| + 2, Stars(p))
    decreases |p|, |v| + 2 - i
  {
    if i <= |v| {
      CostBound(p, v[i..]);
      PowMonotone(|v[i..]| + 2, |v| + 2, Stars(p));
      SuffixCostBound(p, v, i + 1);
      OneFactorMore(|v| - i, Pow(|v| + 2, Stars(p)));
    }
  }

  /** With one "**" before a literal that never occurs, the bound is met exactly. */
  lemma CostBoundIsAttained(x: string, v: Segs)
    requires x != "*" && x != "**" && x !in v
    ensures Invocations(["**", x], v) == |v| + 2 == Pow(|v| + 2, Stars(["**", x]))
  {
    SuffixCostExactly(x, v, 0);
    var p := ["**", x];
    assert p[1..] == [x] && [x][1..] == [];
    assert Stars(p) == 1 by {
      assert Stars([x]) == Stars([x][1..]) == 0;
    }
    assert Pow(|v| + 2, 1) == (|v| + 2) * Pow(|v| + 2, 0);
  }

  lemma {:induction false} SuffixCostExactly(x: string, v: Segs, i: nat)
    requires x != "*" && x != "**" && x !in v && i <= |v| + 1
    ensures SuffixInvocations([x], v, i) == |v| + 1 - i
    decreases |v| + 1 - i
  {
    if i <= |v| {
      AlignsOneSegment([x], v[i..]);
      assert !OneSegment(x, v[i..]);
      SuffixCostExactly(x, v, i + 1);
    }
  }

  /** The binomial coefficient. */
  function Choose(n: nat, k: nat): nat {
    if k == 0 then 1 else if n == 0 then 0 else Choose(n - 1, k - 1) + Choose(n - 1, k)
  }

  lemma {:induction false} ChooseAll(n: nat, k: nat)
    requires n <= k
    ensures Choose(n, k) == if n == k then 1 else 0
  {
    if n > 0 {
      ChooseAll(n - 1, k - 1);
      ChooseAll(n - 1, k);
    }
  }

  lemma ChooseGrows(n: nat, k: nat)
    ensures 1 <= Choose(n + k, k) && Choose(n + k, k) <= Choose(n + k + 1, k)
  {
    if k == 0 {
    } else if n == 0 {
      ChooseAll(k, k);
    } else {
      ChooseGrows(n - 1, k);
    }
  }

  /**
   The exact worst case: a pattern with k "**" segments costs at most as many calls on a value of n segments as there
   are ways to choose k out of n + k + 1.
   */
  lemma {:induction false} WorstCase(p: Segs, v: Segs)
    ensures Invocations(p, v) <= Choose(|v| + Stars(p) + 1, Stars(p))
    decreases |p|, 0
  {
    if p == [] {
    } else if p[0] == "**" {
      SuffixWorstCase(p[1..], v, 0);
      assert Stars(p) == Stars(p[1..]) + 1;
    } else if OneSegment(p[0], v) {
      WorstCase(p[1..], v[1..]);
      ChooseGrows(|v|, Stars(p));
    } else {
      ChooseGrows(|v| + 1, Stars(p));
    }
  }

  lemma {:induction false} SuffixWorstCase(p: Segs, v: Segs, i: nat)
    requires i <= |v| + 1
    ensures SuffixInvocations(p, v, i) + 1 <= Choose(|v| + 1 - i + Stars(p) + 1, Stars(p) + 1)
    decreases |p|, |v| + 2 - i
  {
    if i <= |v| {
      WorstCase(p, v[i..]);
      SuffixWorstCase(p, v, i + 1);
    } else {
      ChooseAll(Stars(p) + 1, Stars(p) + 1);
    }
  }

  function StarsThen(k: nat, x: string): Segs {
    if k == 0 then [x] else ["**"] + StarsThen(k - 1, x)
  }

  lemma {:induction false} AbsentNeverAligns(k: nat, x: string, v: Segs)
    requires x != "*" && x != "**" && x !in v
    ensures !Aligns(StarsThen(k, x), v) && Stars(StarsThen(k, x)) == k
  {
    var p := StarsThen(k, x);
    if k == 0 {
      AlignsOneSegment(p, v);
      assert Stars(p[1..]) == 0;
    } else {
      assert p[1..] == StarsThen(k - 1, x);
      AlignsAnySegments(p, v);
      forall i | 0 <= i <= |v| ensures !Aligns(p[1..], v[i..]) {
        AbsentNeverAligns(k - 1, x, v[i..]);
      }
      AbsentNeverAligns(k - 1, x, v);
    }
  }

  /** It is met, for every k, by k "**" segments before a literal that never occurs. */
  lemma {:induction false} WorstCaseIsAttained(k: nat, x: string, v: Segs)
    requires x != "*" && x != "**" && x !in v
    ensures Invocations(StarsThen(k, x), v) == Choose(|v| + k + 1, k)
    decreases k, 0
  {
    var p := StarsThen(k, x);
    if k == 0 {
      AlignsOneSegment(p, v);
      assert !OneSegment(x, v);
    } else {
      assert p[1..] == StarsThen(k - 1, x);
      SuffixesAttained(k - 1, x, v, 0);
    }
  }

  lemma {:induction false} SuffixesAttained(k: nat, x: string, v: Segs, i: nat)
    requires x != "*" && x != "**" && x !in v && i <= |v| + 1
    ensures SuffixInvocations(StarsThen(k, x), v, i) + 1 == Choose(|v| + 1 - i + k + 1, k + 1)
    decreases k, |v| + 2 - i
  {
    if i <= |v| {
      AbsentNeverAligns(k, x, v[i..]);
      WorstCaseIsAttained(k, x, v[i..]);
      SuffixesAttained(k, x, v, i + 1);
    } else {
      ChooseAll(k + 1, k + 1);
    }
  }

  // ---- Algebra -----------------------------------------------------------------------------

  /** A concatenated pattern matches exactly the values that split into a match of each half. */
  lemma ConcatenationSplits(p: Segs, q: Segs, v: Segs)
    ensures Aligns(p + q, v) <==> exists i :: 0 <= i <= |v| && Aligns(p, v[..i]) && Aligns(q, v[i..])
  {
    if chunks :| Alignment(p + q, v, chunks) {
      var a, b := chunks[..|p|], chunks[|p|..];
      assert chunks == a + b;
      FlattenConcat(a, b);
      var i := |Flatten(a)|;
      assert Alignment(p, v[..i], a);
      forall k | 0 <= k < |q| ensures Covers(q[k], b[k]) {
        assert (p + q)[|p| + k] == q[k] && chunks[|p| + k] == b[k];
      }
      assert Alignment(q, v[i..], b);
    }
    if i :| 0 <= i <= |v| && Aligns(p, v[..i]) && Aligns(q, v[i..]) {
      var a :| Alignment(p, v[..i], a);
      var b :| Alignment(q, v[i..], b);
      FlattenConcat(a, b);
      assert Alignment(p + q, v, a + b);
    }
  }

  lemma AnySegmentsAlwaysAlign(v: Segs)
    ensures Aligns(["**"], v) && Aligns(["**", "**"], v)
  {
    assert Flatten([v]) == v + Flatten([v][1..]);
    assert Alignment(["**"], v, [v]);
    assert [v, []][1..] == [[]];
    assert Flatten([v, []]) == v + Flatten([[]]);
    assert Alignment(["**", "**"], v, [v, []]);
  }

  /** What each kind of segment matches on its own; with ConcatenationSplits this determines every pattern. */
  lemma SegmentMatches(p: string, v: Segs)
    ensures Aligns([p], v) <==> p == "**" || (p == "*" && |v| == 1) || v == [p]
    ensures Aligns([], v) <==> v == []
  {
    AlignsNothing(v);
    if p == "**" {
      AnySegmentsAlwaysAlign(v);
    } else {
      AlignsOneSegment([p], v);
      assert [p][1..] == [];
      if v != [] {
        AlignsNothing(v[1..]);
        assert v == [v[0]] + v[1..];
      }
    }
  }

  /** Adjacent "**" segments are worth no more than one. */
  lemma AdjacentStarsCollapse(p: Segs, q: Segs, v: Segs)
    ensures Aligns(p + ["**", "**"] + q, v) <==> Aligns(p + ["**"] + q, v)
  {
    forall w, stars | stars == ["**"] || stars == ["**", "**"]
      ensures Aligns(p + stars, w) <==> exists i :: 0 <= i <= |w| && Aligns(p, w[..i])
    {
      ConcatenationSplits(p, stars, w);
      forall i | 0 <= i <= |w| ensures Aligns(stars, w[i..]) {
        AnySegmentsAlwaysAlign(w[i..]);
      }
    }
    ConcatenationSplits(p + ["**", "**"], q, v);
    ConcatenationSplits(p + ["**"], q, v);
  }

  function Reverse<T>(s: seq<T>): (r: seq<T>)
    ensures |r| == |s|
    ensures forall k :: 0 <= k < |s| ==> r[k] == s[|s| - 1 - k]
  {
    seq(|s|, k requires 0 <= k < |s| => s[|s| - 1 - k])
  }

  function ReverseEach(chunks: seq<Segs>): (r: seq<Segs>)
    ensures |r| == |chunks|
    ensures forall k :: 0 <= k < |r| ==> r[k] == Reverse(chunks[k])
  {
    seq(|chunks|, k requires 0 <= k < |chunks| => Reverse(chunks[k]))
  }

  lemma {:induction false} FlattenReversed(chunks: seq<Segs>)
    ensures Flatten(Reverse(ReverseEach(chunks))) == Reverse(Flatten(chunks))
  {
    if chunks != [] {
      var first, rest := chunks[0], chunks[1..];
      FlattenReversed(rest);
      calc {
        Flatten(Reverse(ReverseEach(chunks)));
        { assert Reverse(ReverseEach(chunks)) == Reverse(ReverseEach(rest)) + [Reverse(first)]; }
        Flatten(Reverse(ReverseEach(rest)) + [Reverse(first)]);
        { FlattenSnoc(Reverse(ReverseEach(rest)), Reverse(first)); }
        Reverse(Flatten(rest)) + Reverse(first);
        Reverse(first + Flatten(rest));
      }
    }
  }

  lemma ReversedAligns(p: Segs, v: Segs)
    requires Aligns(p, v)
    ensures Aligns(Reverse(p), Reverse(v))
  {
    var chunks :| Alignment(p, v, chunks);
    FlattenReversed(chunks);
    assert Alignment(Reverse(p), Reverse(v), Reverse(ReverseEach(chunks)));
  }

  /** Matching does not depend on the direction in which pattern and value are read. */
  lemma ReversalPreservesMatching(p: Segs, v: Segs)
    ensures Aligns(Reverse(p), Reverse(v)) <==> Aligns(p, v)
  {
    if Aligns(p, v) {
      ReversedAligns(p, v);
    }
    if Aligns(Reverse(p), Reverse(v)) {
      ReversedAligns(Reverse(p), Reverse(v));
      assert Reverse(Reverse(p)) == p && Reverse(Reverse(v)) == v;
    }
  }

  // ---- Agreement with the exact operator ---------------------------------------------------

  predicate Literal(p: Segs) {
    forall k :: 0 <= k < |p| ==> p[k] != "*" && p[k] != "**"
  }

  lemma {:induction false} LiteralMatchesItself(p: Segs, v: Segs)
    requires Literal(p)
    ensures Aligns(p, v) <==> p == v
  {
    if p == [] {
      AlignsNothing(v);
    } else {
      AlignsOneSegment(p, v);
      if v != [] {
        LiteralMatchesItself(p[1..], v[1..]);
        assert p == [p[0]] + p[1..] && v == [v[0]] + v[1..];
      }
    }
  }

  lemma {:induction false} AlignsSegmentwise(p: Segs, v: Segs)
    requires |p| == |v|
    requires forall k :: 0 <= k < |p| ==> Covers(p[k], [v[k]])
    ensures Aligns(p, v)
  {
    if p == [] {
      AlignsNothing(v);
    } else {
      AlignsSegmentwise(p[1..], v[1..]);
      if p[0] == "**" {
        AlignsAnySegments(p, v);
      } else {
        AlignsOneSegment(p, v);
      }
    }
  }

  /** The path operator and the default exact operator select the same values exactly for wildcard-free patterns. */
  lemma PathOperatorIsExactIffLiteral(pattern: string)
    ensures (forall value :: PathMatches(pattern, value) <==> pattern == value) <==> Literal(Split(pattern))
  {
    var p := Split(pattern);
    if Literal(p) {
      forall value ensures PathMatches(pattern, value) <==> pattern == value {
        LiteralMatchesItself(p, Split(value));
        JoinSplit(pattern);
        JoinSplit(value);
      }
    } else {
      var k :| 0 <= k < |p| && (p[k] == "*" || p[k] == "**");
      var v := p[k := "x"];
      JoinSplit(pattern);
      SplitJoin(v);
      AlignsSegmentwise(p, v);
      assert PathMatches(pattern, Join(v)) && v[k] != p[k];
    }
  }
}
