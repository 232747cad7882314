/** What `split_composition` guarantees about the components it returns. */
module DecomposeLemmas {
  import opened Decompose

  /** The match offsets of the scan `split_composition` runs. */
  function Matches(s: Bytes): seq<nat>
    requires |s| >= |SignatureDelimiter|
  {
    MatchesBelow(s, LoopEnd(|s|))
  }

  /** The bytes of all components, in order. */
  function Concat(parts: seq<Bytes>): Bytes {
    if parts == [] then [] else Concat(parts[..|parts| - 1]) + parts[|parts| - 1]
  }

  /** The scan records exactly the offsets below the bound where the header starts. */
  lemma {:induction false} MatchesAreHeaders(s: Bytes, bound: nat)
    ensures forall m: nat :: m in MatchesBelow(s, bound) <==> m < bound && SignatureAt(s, m)
  {
    if bound > 0 {
      MatchesAreHeaders(s, bound - 1);
    }
  }

  /** A composition shorter than the header makes the unsigned subtraction
      of the loop bound underflow, and the function panics. */
  lemma ShortInputPanics(s: Bytes)
    requires |s| < |SignatureDelimiter|
    ensures Split(s) == None
  {
  }

  /** The scan stops before offset len - 20, so a header that ends exactly at
      the end of the composition is never found. */
  lemma HeaderAtEndIsMissed(s: Bytes)
    requires |s| >= |SignatureDelimiter|
    ensures |s| - |SignatureDelimiter| !in Matches(s)
  {
    MatchesAreHeaders(s, LoopEnd(|s|));
  }

  /** Where no header starts below the bound, the scan records nothing. */
  lemma {:induction false} NoHeaderNoMatch(s: Bytes, bound: nat)
    requires forall m: nat :: m < bound ==> !SignatureAt(s, m)
    ensures MatchesBelow(s, bound) == []
  {
    if bound > 0 {
      NoHeaderNoMatch(s, bound - 1);
    }
  }

  /** A composition whose only header ends at its last byte is returned
      whole, as if it had none. */
  lemma OnlyHeaderAtEndIsMissed(s: Bytes)
    requires |s| >= |SignatureDelimiter|
    requires forall m: nat :: SignatureAt(s, m) ==> m == |s| - |SignatureDelimiter|
    ensures Split(s) == Some([s])
  {
    NoHeaderNoMatch(s, LoopEnd(|s|));
    NoMatchIffWhole(s);
  }

  /** The composition made of the header alone is returned whole. */
  lemma LoneHeaderIsMissed()
    ensures SignatureAt(SignatureDelimiter, 0)
    ensures Split(SignatureDelimiter) == Some([SignatureDelimiter])
  {
    var s := SignatureDelimiter;
    assert s[0..|s|] == s;
    OnlyHeaderAtEndIsMissed(s);
  }

  /** Without a match the result is the composition alone, and only then. */
  lemma NoMatchIffWhole(s: Bytes)
    requires |s| >= |SignatureDelimiter|
    ensures Split(s) == Some([s]) <==> Matches(s) == []
  {
    var ms := Matches(s);
    var parts := Split(s).value;
    if ms == [] {
      assert Layout(|s|, ms) == [Range(0, |s|)];
      assert s[0..|s|] == s;
      assert parts == [s];
    } else {
      assert |parts| == |Layout(|s|, ms)| >= 2;
    }
  }

  /** With a match, the first component is the whole composition and at
      least one component follows it. */
  lemma RootIsWholeComposition(s: Bytes)
    requires |s| >= |SignatureDelimiter|
    requires Matches(s) != []
    ensures |Split(s).value| >= 2
    ensures Split(s).value[0] == s
  {
    assert Layout(|s|, Matches(s))[0] == Range(0, |s|);
    assert s[0..|s|] == s;
  }

  /** The number of components: one per match plus the root, except that a
      first match at offset 0 followed by others contributes no range of its
      own. */
  lemma ComponentCount(s: Bytes)
    requires |s| >= |SignatureDelimiter|
    requires Matches(s) != []
    ensures var ms := Matches(s);
            |Split(s).value| == if ms[0] == 0 && |ms| >= 2 then |ms| else |ms| + 1
  {
    assert |Split(s).value| == |Layout(|s|, Matches(s))|;
  }

  /** A single signed component starting at `m`: the root and the bytes from
      `m` to the end; for `m == 0` both are the whole composition. */
  lemma SingleMatch(s: Bytes, m: nat)
    requires |s| >= |SignatureDelimiter|
    requires Matches(s) == [m]
    ensures m < |s|
    ensures Split(s) == Some([s, s[m..]])
  {
    var parts := Split(s).value;
    assert m == Matches(s)[0];
    assert Layout(|s|, [m])[1] == Child(|s|, [m], 0);
    assert s[0..|s|] == s && s[m..|s|] == s[m..];
    assert parts == [s, s[m..]];
  }

  /** The children start at a match, follow each other without gap or
      overlap, and the last one ends at the end of the composition. */
  lemma ChildRangesContiguous(len: nat, ms: seq<nat>)
    requires ms != [] && Increasing(ms)
    requires forall j :: 0 <= j < |ms| ==> ms[j] < len
    ensures var cs := Children(len, ms);
            cs != [] && InBounds(len, cs) &&
            cs[0].start == ms[Skipped(ms)] &&
            cs[|cs| - 1] == Range(Bookmark(ms), len) &&
            (forall j :: 0 <= j < |cs| ==> cs[j].start in ms && cs[j].start < cs[j].end) &&
            (forall j :: 0 <= j < |cs| - 1 ==> cs[j].end == cs[j + 1].start)
  {
    var cs := Children(len, ms);
    var sk := Skipped(ms);
    forall j | 0 <= j < |cs|
      ensures cs[j].start in ms && cs[j].start < cs[j].end <= len
    {
      assert cs[j] == Child(len, ms, sk + j);
      if sk + j + 1 < |ms| { assert ms[sk + j] < ms[sk + j + 1]; }
    }
    assert cs[0] == Child(len, ms, sk);
    assert cs[|cs| - 1] == Child(len, ms, |ms| - 1);
    forall j | 0 <= j < |cs| - 1
      ensures cs[j].end == cs[j + 1].start
    {
      assert cs[j] == Child(len, ms, sk + j);
      assert cs[j + 1] == Child(len, ms, sk + j + 1);
    }
  }

  /** Concatenating the bytes of contiguous ranges gives the bytes from the
      first start to the last end. */
  lemma {:induction false} ConcatContiguous(s: Bytes, rs: seq<Range>)
    requires rs != [] && InBounds(|s|, rs)
    requires forall j :: 0 <= j < |rs| - 1 ==> rs[j].end == rs[j + 1].start
    ensures rs[0].start <= rs[|rs| - 1].end
    ensures Concat(Cut(s, rs)) == s[rs[0].start..rs[|rs| - 1].end]
  {
    var n := |rs|;
    if n == 1 {
      assert Cut(s, rs) == [s[rs[0].start..rs[0].end]];
      assert Cut(s, rs)[..0] == [];
    } else {
      var front := rs[..n - 1];
      assert InBounds(|s|, front);
      ConcatContiguous(s, front);
      assert Cut(s, rs)[..n - 1] == Cut(s, front);
      var a, b, c := rs[0].start, rs[n - 2].end, rs[n - 1].end;
      assert s[a..b] + s[b..c] == s[a..c];
    }
  }

  /** Dropping the first range drops its bytes. */
  lemma CutDropFirst(s: Bytes, rs: seq<Range>)
    requires rs != [] && InBounds(|s|, rs)
    ensures InBounds(|s|, rs[1..])
    ensures Cut(s, rs)[1..] == Cut(s, rs[1..])
  {
    assert Cut(s, rs)[1..] == Cut(s, rs[1..]);
  }

  /** The bytes of the children, put back together, run from the first
      child's match to the end of the composition. */
  lemma ChildrenCutConcat(s: Bytes, ms: seq<nat>)
    requires ms != [] && Increasing(ms)
    requires forall j :: 0 <= j < |ms| ==> ms[j] < |s|
    ensures InBounds(|s|, Children(|s|, ms))
    ensures Concat(Cut(s, Children(|s|, ms))) == s[ms[Skipped(ms)]..]
  {
    var cs := Children(|s|, ms);
    ChildRangesContiguous(|s|, ms);
    ConcatContiguous(s, cs);
    assert s[ms[Skipped(ms)]..] == s[cs[0].start..cs[|cs| - 1].end];
  }

  /** The components after the root, put back together, are the composition
      from the first of them onwards. */
  lemma ChildrenFormSuffix(s: Bytes)
    requires |s| >= |SignatureDelimiter|
    requires Matches(s) != []
    ensures var ms := Matches(s);
            Concat(Split(s).value[1..]) == s[ms[Skipped(ms)]..]
  {
    var ms := Matches(s);
    var rs := Layout(|s|, ms);
    LayoutInBounds(|s|, ms);
    CutDropFirst(s, rs);
    assert rs[1..] == Children(|s|, ms);
    ChildrenCutConcat(s, ms);
  }

  /** No byte of the header equal to its first byte is followed by its second
      byte, so two headers never overlap. */
  lemma DelimiterShiftsDiffer(d: nat)
    requires 1 <= d < |SignatureDelimiter|
    ensures SignatureDelimiter[d] != SignatureDelimiter[0]
            || (d + 1 < |SignatureDelimiter| && SignatureDelimiter[d + 1] != SignatureDelimiter[1])
  {
    assert d == 1 || d == 2 || d == 3 || d == 4 || d == 5 || d == 6 || d == 7 || d == 8
        || d == 9 || d == 10 || d == 11 || d == 12 || d == 13 || d == 14 || d == 15
        || d == 16 || d == 17 || d == 18 || d == 19;
  }

  /** A header at `i` leaves no room for another one starting `d` bytes later. */
  lemma HeaderExcludesShift(s: Bytes, i: nat, d: nat)
    requires SignatureAt(s, i)
    requires 1 <= d < |SignatureDelimiter|
    ensures !SignatureAt(s, i + d)
  {
    DelimiterShiftsDiffer(d);
    var n := |SignatureDelimiter|;
    assert s[i + d] == SignatureDelimiter[d] by {
      assert s[i..i + n][d] == s[i + d];
    }
    if d + 1 < n {
      assert s[i + d + 1] == SignatureDelimiter[d + 1] by {
        assert s[i..i + n][d + 1] == s[i + d + 1];
      }
    }
    if i + d + n <= |s| {
      assert s[i + d..i + d + n][0] == s[i + d];
      assert s[i + d..i + d + n][1] == s[i + d + 1];
    }
  }

  /** Two headers lie at least the header's length apart. */
  lemma HeadersDoNotOverlap(s: Bytes, i: nat, j: nat)
    requires SignatureAt(s, i) && SignatureAt(s, j) && i < j
    ensures i + |SignatureDelimiter| <= j
  {
    forall k: nat | i < k < i + |SignatureDelimiter|
      ensures !SignatureAt(s, k)
    {
      HeaderExcludesShift(s, i, k - i);
    }
  }

  /** The range from the `x`-th of matches that are all headers starts with
      the header and is at least as long. */
  lemma ChildStartsWithHeader(s: Bytes, ms: seq<nat>, x: nat)
    requires Increasing(ms)
    requires forall j :: 0 <= j < |ms| ==> SignatureAt(s, ms[j])
    requires x < |ms|
    ensures var r := Child(|s|, ms, x);
            r.start <= r.end <= |s| &&
            |s[r.start..r.end]| >= |SignatureDelimiter| &&
            s[r.start..r.end][..|SignatureDelimiter|] == SignatureDelimiter
  {
    var r := Child(|s|, ms, x);
    assert SignatureAt(s, ms[x]);
    if x + 1 < |ms| {
      assert SignatureAt(s, ms[x + 1]);
      HeadersDoNotOverlap(s, ms[x], ms[x + 1]);
    }
    assert s[r.start..r.end][..|SignatureDelimiter|] == s[r.start..r.start + |SignatureDelimiter|];
  }

  /** When every match is a header, every child begins with the header. */
  lemma ChildrenCutStartWithHeader(s: Bytes, ms: seq<nat>)
    requires ms != [] && Increasing(ms)
    requires forall j :: 0 <= j < |ms| ==> SignatureAt(s, ms[j])
    ensures InBounds(|s|, Children(|s|, ms))
    ensures var cs := Cut(s, Children(|s|, ms));
            forall j :: 0 <= j < |cs| ==>
              |cs[j]| >= |SignatureDelimiter| && cs[j][..|SignatureDelimiter|] == SignatureDelimiter
  {
    var rs := Children(|s|, ms);
    var sk := Skipped(ms);
    forall j | 0 <= j < |rs|
      ensures rs[j].start <= rs[j].end <= |s|
      ensures |s[rs[j].start..rs[j].end]| >= |SignatureDelimiter|
      ensures s[rs[j].start..rs[j].end][..|SignatureDelimiter|] == SignatureDelimiter
    {
      assert rs[j] == Child(|s|, ms, sk + j);
      ChildStartsWithHeader(s, ms, sk + j);
    }
  }

  /** Every component after the root begins with the signed-component header. */
  lemma ChildrenStartWithHeader(s: Bytes)
    requires |s| >= |SignatureDelimiter|
    requires Matches(s) != []
    ensures var parts := Split(s).value;
            forall j :: 1 <= j < |parts| ==>
              |parts[j]| >= |SignatureDelimiter| && parts[j][..|SignatureDelimiter|] == SignatureDelimiter
  {
    var ms := Matches(s);
    var rs := Layout(|s|, ms);
    MatchesAreHeaders(s, LoopEnd(|s|));
    forall j | 0 <= j < |ms|
      ensures SignatureAt(s, ms[j])
    {
      assert ms[j] in ms;
    }
    LayoutInBounds(|s|, ms);
    CutDropFirst(s, rs);
    assert rs[1..] == Children(|s|, ms);
    ChildrenCutStartWithHeader(s, ms);
  }

  /** The bookmark ends below the end of the composition, so the final push
      always happens: the last component runs from the last match (or from
      offset 0 without a match) to the end. */
  lemma LastComponentReachesEnd(s: Bytes)
    requires |s| >= |SignatureDelimiter|
    ensures var parts := Split(s).value;
            Bookmark(Matches(s)) < |s| && parts != [] &&
            parts[|parts| - 1] == s[Bookmark(Matches(s))..]
  {
    var ms := Matches(s);
    var rs := Layout(|s|, ms);
    if ms != [] {
      assert rs[|rs| - 1] == Child(|s|, ms, |ms| - 1);
    }
    assert s[Bookmark(ms)..] == s[Bookmark(ms)..|s|];
  }
}
