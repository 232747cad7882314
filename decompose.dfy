/** The composition splitter of wasmshield: it cuts a composed WebAssembly
    binary into the signed components it is made of, by scanning for the
    header that every signed component starts with. */
module Decompose {

  type Bytes = seq<bv8>

  /** `None` stands for a run of the Rust code that panics. */
  datatype Option<+T> = None | Some(value: T)

  /** The WebAssembly magic number `\0asm` (WebAssembly Core Specification,
      section 5.5.16, "Modules"). */
  const SectionDelimiter: Bytes := [0x00, 0x61, 0x73, 0x6d]

  /** The header of a signed component: the magic number, the component-model
      version and layer bytes 0d 00 01 00, and the header of a custom section
      (id 0, section 5.5.3 of the WebAssembly Core Specification) of declared
      size 0x75 whose 9-byte name is "signature". */
  const SignatureDelimiter: Bytes := [
    0x00, 0x61, 0x73, 0x6d, 0x0d, 0x00, 0x01, 0x00,
    0x00, 0x75, 0x09, 0x73, 0x69, 0x67, 0x6e, 0x61,
    0x74, 0x75, 0x72, 0x65]

  /** The signed-component header starts at offset `i` of `s`. */
  predicate SignatureAt(s: Bytes, i: nat) {
    i + |SignatureDelimiter| <= |s| && s[i..i + |SignatureDelimiter|] == SignatureDelimiter
  }

  predicate Increasing(ms: seq<nat>) {
    forall i, j :: 0 <= i < j < |ms| ==> ms[i] < ms[j]
  }

  /** The offsets below `bound` at which the header starts, in the order a
      left-to-right scan meets them. */
  function MatchesBelow(s: Bytes, bound: nat): (ms: seq<nat>)
    ensures Increasing(ms)
    ensures forall j :: 0 <= j < |ms| ==> ms[j] < bound && ms[j] + |SignatureDelimiter| <= |s|
    decreases bound
  {
    if bound == 0 then []
    else
      MatchesBelow(s, bound - 1) + (if SignatureAt(s, bound - 1) then [bound - 1] else [])
  }

  /** The end of the loop range, `len - 20`, where the subtraction does not
      underflow. */
  function LoopEnd(len: nat): nat
    requires len >= |SignatureDelimiter|
  {
    len - |SignatureDelimiter|
  }

  /** The loop bound `len - 20` computed with saturation instead of the
      unsigned subtraction of the Rust code. */
  function SaturatingBound(len: nat): nat {
    if len < |SignatureDelimiter| then 0 else LoopEnd(len)
  }

  /** A component, as the byte range [start, end) of the composition. */
  datatype Range = Range(start: nat, end: nat)

  /** Where the scan's bookmark stands after meeting the matches `ms`. */
  function Bookmark(ms: seq<nat>): nat {
    if ms == [] then 0 else ms[|ms| - 1]
  }

  /** 1 when the first match is at offset 0 and a second one follows: the
      range [0, m2) is then not a component of its own. */
  function Skipped(ms: seq<nat>): nat {
    if |ms| >= 2 && ms[0] == 0 then 1 else 0
  }

  /** The ranges of the components after the root when the matches are
      `ms`: one from each match to the next match or to the end of the
      composition, the first one left out as `Skipped` says. */
  function Children(len: nat, ms: seq<nat>): seq<Range>
    requires ms != []
  {
    var sk := Skipped(ms);
    seq(|ms| - sk, j requires 0 <= j < |ms| - sk => Child(len, ms, sk + j))
  }

  /** The ranges of the split of a composition of length `len` whose matches
      are `ms`: the whole composition first, then the children. */
  function Layout(len: nat, ms: seq<nat>): seq<Range> {
    if ms == [] then
      (if 0 < len then [Range(0, len)] else [])
    else
      [Range(0, len)] + Children(len, ms)
  }

  predicate InBounds(len: nat, rs: seq<Range>) {
    forall j :: 0 <= j < |rs| ==> rs[j].start <= rs[j].end <= len
  }

  /** The bytes of each range. */
  function Cut(s: Bytes, rs: seq<Range>): seq<Bytes>
    requires InBounds(|s|, rs)
  {
    seq(|rs|, j requires 0 <= j < |rs| => s[rs[j].start..rs[j].end])
  }

  lemma LayoutInBounds(len: nat, ms: seq<nat>)
    requires Increasing(ms)
    requires forall j :: 0 <= j < |ms| ==> ms[j] < len
    ensures InBounds(len, Layout(len, ms))
  {
    var rs := Layout(len, ms);
    forall j | 1 <= j < |rs|
      ensures rs[j].start <= rs[j].end <= len
    {
      var x := Skipped(ms) + j - 1;
      assert rs[j] == Child(len, ms, x);
      if x + 1 < |ms| { assert ms[x] < ms[x + 1]; }
    }
  }

  /** What a scan of the offsets below `bound` returns. */
  function SplitParts(s: Bytes, bound: nat): (parts: seq<Bytes>)
  {
    var ms := MatchesBelow(s, bound);
    LayoutInBounds(|s|, ms);
    Cut(s, Layout(|s|, ms))
  }

  /** What `split_composition` returns; `None` when the loop bound underflows. */
  function Split(s: Bytes): Option<seq<Bytes>> {
    if |s| < |SignatureDelimiter| then None
    else Some(SplitParts(s, LoopEnd(|s|)))
  }

  /** The two nested byte comparisons of the loop amount to one test for
      the signed-component header, since the magic number is its prefix. */
  lemma NestedTestIsSignatureTest(s: Bytes, i: nat)
    requires i + |SignatureDelimiter| <= |s|
    ensures (s[i..i + |SectionDelimiter|] == SectionDelimiter
             && s[i..i + |SignatureDelimiter|] == SignatureDelimiter)
            <==> SignatureAt(s, i)
  {
    if s[i..i + |SignatureDelimiter|] == SignatureDelimiter {
      assert s[i..i + |SectionDelimiter|] == SignatureDelimiter[..|SectionDelimiter|];
    }
  }

  /** The range from the `j`-th match to the next match or to the end. */
  function Child(len: nat, ms: seq<nat>, j: nat): Range
    requires j < |ms|
  {
    Range(ms[j], if j + 1 < |ms| then ms[j + 1] else len)
  }

  /** The first match pushes the whole composition. */
  lemma LayoutFirstMatch(len: nat, i: nat)
    ensures Layout(len, [i]) == [Range(0, len), Range(i, len)]
  {
    assert Layout(len, [i])[1] == Child(len, [i], 0);
  }

  /** A second match after one at offset 0 pushes nothing: [0, i) is dropped. */
  lemma LayoutAfterMatchAtZero(len: nat, i: nat, pushed: seq<Range>)
    requires 0 < i
    requires pushed + [Range(0, len)] == Layout(len, [0])
    ensures pushed + [Range(i, len)] == Layout(len, [0, i])
  {
    assert Layout(len, [0])[1] == Child(len, [0], 0);
    assert Layout(len, [0, i])[1] == Child(len, [0, i], 1);
    assert Layout(len, [0]) == [Range(0, len), Range(0, len)];
    assert Layout(len, [0, i]) == [Range(0, len), Range(i, len)];
    assert pushed == [Range(0, len)] by {
      assert |pushed| == 1;
      assert pushed[0] == (pushed + [Range(0, len)])[0];
    }
  }

  /** Any other match `i` pushes the range from the bookmark to `i`. */
  lemma LayoutNextMatch(len: nat, ms: seq<nat>, i: nat, pushed: seq<Range>)
    requires ms != [] && Bookmark(ms) != 0
    requires Increasing(ms)
    requires forall j :: 0 <= j < |ms| ==> ms[j] < i
    requires pushed + [Range(Bookmark(ms), len)] == Layout(len, ms)
    ensures pushed + [Range(Bookmark(ms), i)] + [Range(i, len)] == Layout(len, ms + [i])
  {
    var ms' := ms + [i];
    var k := |ms|;
    var sk := Skipped(ms);
    assert Skipped(ms') == sk by {
      if k == 1 { assert ms[0] == Bookmark(ms); }
    }
    var was := Layout(len, ms);
    var now := Layout(len, ms');
    assert pushed == was[..|was| - 1];
    var want := pushed + [Range(Bookmark(ms), i)] + [Range(i, len)];
    assert |now| == |want|;
    forall j | 0 <= j < |now|
      ensures now[j] == want[j]
    {
      if j == 0 {
      } else if j < |now| - 2 {
        assert now[j] == Child(len, ms', sk + j - 1);
        assert was[j] == Child(len, ms, sk + j - 1);
        assert ms'[sk + j - 1] == ms[sk + j - 1] && ms'[sk + j] == ms[sk + j];
      } else if j == |now| - 2 {
        assert now[j] == Child(len, ms', k - 1);
      } else {
        assert now[j] == Child(len, ms', k);
      }
    }
  }

  /** Cutting one more range adds its bytes at the end. */
  lemma CutAppend(s: Bytes, rs: seq<Range>, r: Range)
    requires InBounds(|s|, rs)
    requires r.start <= r.end <= |s|
    ensures InBounds(|s|, rs + [r])
    ensures Cut(s, rs + [r]) == Cut(s, rs) + [s[r.start..r.end]]
  {
    assert Cut(s, rs + [r]) == Cut(s, rs) + [s[r.start..r.end]];
  }

  /** The state of the loop after meeting the matches `ms` in a composition
      of length `len`: `counter` and `bookmark` are the number and the last
      of them, and the ranges pushed so far, followed by [bookmark, len), are
      the layout of those matches. */
  ghost predicate Reached(len: nat, ms: seq<nat>, counter: nat, bookmark: nat, pushed: seq<Range>) {
    counter == |ms| && bookmark == Bookmark(ms) && InBounds(len, pushed) &&
    (ms == [] ==> pushed == []) &&
    (ms != [] ==> pushed + [Range(bookmark, len)] == Layout(len, ms))
  }

  /** The state of the scan after the offsets below `i`. */
  ghost predicate Scanned(s: Bytes, i: nat, counter: nat, bookmark: nat, pushed: seq<Range>) {
    Reached(|s|, MatchesBelow(s, i), counter, bookmark, pushed)
  }

  /** One more offset scanned adds it to the matches exactly when the header
      starts there. */
  lemma MatchesStep(s: Bytes, i: nat)
    ensures MatchesBelow(s, i + 1) == MatchesBelow(s, i) + (if SignatureAt(s, i) then [i] else [])
  {
  }

  /** The first match `i`: the whole composition is pushed and the bookmark
      moves to `i`. */
  lemma ReachedFirst(len: nat, i: nat, bookmark: nat, pushed: seq<Range>)
    requires Reached(len, [], 0, bookmark, pushed)
    requires i < len
    ensures Reached(len, [i], 1, i, pushed + [Range(0, len)])
  {
    assert pushed == [];
    LayoutFirstMatch(len, i);
    assert pushed + [Range(0, len)] == [Range(0, len)];
  }

  /** A later match `i` with a bookmark other than 0: [bookmark, i) is
      pushed. */
  lemma ReachedNext(len: nat, ms: seq<nat>, i: nat, counter: nat, bookmark: nat, pushed: seq<Range>)
    requires Reached(len, ms, counter, bookmark, pushed)
    requires Increasing(ms) && forall j :: 0 <= j < |ms| ==> ms[j] < i
    requires counter != 0 && bookmark != 0 && i < len
    ensures bookmark < i
    ensures Reached(len, ms + [i], counter + 1, i, pushed + [Range(bookmark, i)])
  {
    assert bookmark == ms[|ms| - 1];
    LayoutNextMatch(len, ms, i, pushed);
    var pushed' := pushed + [Range(bookmark, i)];
    assert InBounds(len, pushed') by {
      forall j | 0 <= j < |pushed'|
        ensures pushed'[j].start <= pushed'[j].end <= len
      {
        if j < |pushed| { assert pushed'[j] == pushed[j]; }
      }
    }
  }

  /** A match `i` after the only match so far, at offset 0: nothing is
      pushed. */
  lemma ReachedAfterZero(len: nat, ms: seq<nat>, i: nat, counter: nat, pushed: seq<Range>)
    requires Reached(len, ms, counter, 0, pushed)
    requires Increasing(ms) && forall j :: 0 <= j < |ms| ==> ms[j] < i
    requires counter != 0 && 0 < i < len
    ensures Reached(len, ms + [i], counter + 1, i, pushed)
  {
    assert ms[|ms| - 1] == 0;
    assert |ms| == 1;
    assert ms == [0];
    assert ms + [i] == [0, i];
    LayoutAfterMatchAtZero(len, i, pushed);
  }

  /** An offset without the header changes nothing. */
  lemma ScanMiss(s: Bytes, i: nat, counter: nat, bookmark: nat, pushed: seq<Range>)
    requires Scanned(s, i, counter, bookmark, pushed)
    requires !SignatureAt(s, i)
    ensures Scanned(s, i + 1, counter, bookmark, pushed)
  {
    MatchesStep(s, i);
    assert MatchesBelow(s, i + 1) == MatchesBelow(s, i);
  }

  /** The first match pushes the whole composition. */
  lemma ScanFirstMatch(s: Bytes, i: nat, bookmark: nat, pushed: seq<Range>)
    requires Scanned(s, i, 0, bookmark, pushed)
    requires SignatureAt(s, i)
    ensures Scanned(s, i + 1, 1, i, pushed + [Range(0, |s|)])
  {
    var ms := MatchesBelow(s, i);
    assert ms == [];
    MatchesStep(s, i);
    assert MatchesBelow(s, i + 1) == [i];
    ReachedFirst(|s|, i, bookmark, pushed);
  }

  /** A later match pushes [bookmark, i) when the bookmark is not 0. */
  lemma ScanNextMatch(s: Bytes, i: nat, counter: nat, bookmark: nat, pushed: seq<Range>)
    requires Scanned(s, i, counter, bookmark, pushed)
    requires SignatureAt(s, i)
    requires counter != 0 && bookmark != 0
    ensures bookmark < i
    ensures Scanned(s, i + 1, counter + 1, i, pushed + [Range(bookmark, i)])
  {
    var ms := MatchesBelow(s, i);
    MatchesStep(s, i);
    assert MatchesBelow(s, i + 1) == ms + [i];
    ReachedNext(|s|, ms, i, counter, bookmark, pushed);
  }

  /** A match after the one at offset 0 pushes nothing. */
  lemma ScanMatchAfterZero(s: Bytes, i: nat, counter: nat, pushed: seq<Range>)
    requires Scanned(s, i, counter, 0, pushed)
    requires SignatureAt(s, i)
    requires counter != 0
    ensures Scanned(s, i + 1, counter + 1, i, pushed)
  {
    var ms := MatchesBelow(s, i);
    MatchesStep(s, i);
    assert MatchesBelow(s, i + 1) == ms + [i];
    assert 0 < i by {
      assert ms[0] < i;
    }
    ReachedAfterZero(|s|, ms, i, counter, pushed);
  }

  /** `components` holds the bytes of the ranges `pushed`, one for one. */
  ghost predicate Holds(s: Bytes, components: seq<Bytes>, pushed: seq<Range>) {
    InBounds(|s|, pushed) && |components| == |pushed| &&
    forall j :: 0 <= j < |pushed| ==> components[j] == s[pushed[j].start..pushed[j].end]
  }

  /** `Holds` is `components == Cut(s, pushed)`, stated index by index. */
  lemma HoldsCut(s: Bytes, components: seq<Bytes>, pushed: seq<Range>)
    requires Holds(s, components, pushed)
    ensures components == Cut(s, pushed)
  {
  }

  /** After the scan, the final push of [bookmark, len) completes the split. */
  lemma ScanDone(s: Bytes, bound: nat, counter: nat, bookmark: nat, components: seq<Bytes>,
                 pushed: seq<Range>)
    requires Scanned(s, bound, counter, bookmark, pushed)
    requires Holds(s, components, pushed)
    ensures bookmark < |s| <==> |s| > 0
    ensures bookmark <= |s|
    ensures SplitParts(s, bound) ==
            if bookmark < |s| then components + [s[bookmark..]] else components
  {
    var ms := MatchesBelow(s, bound);
    if ms != [] {
      assert ms[|ms| - 1] < |s|;
    } else if |s| > 0 {
      assert Layout(|s|, ms) == [] + [Range(0, |s|)];
    }
    HoldsCut(s, components, pushed);
    if bookmark < |s| {
      CutAppend(s, pushed, Range(bookmark, |s|));
      assert s[bookmark..] == s[bookmark..|s|];
    }
  }

  /** The two nested byte comparisons of the loop body. */
  method HeaderTest(s: Bytes, i: nat) returns (hit: bool)
    requires i + |SignatureDelimiter| <= |s|
    ensures hit == SignatureAt(s, i)
  {
    NestedTestIsSignatureTest(s, i);
    hit := s[i..i + |SectionDelimiter|] == SectionDelimiter
           && s[i..i + |SignatureDelimiter|] == SignatureDelimiter;
  }

  /** One iteration of the scanning loop of `split_composition`, at offset `i`. */
  method ScanStep(composition: Bytes, i: nat, counter: nat, bookmark: nat, components: seq<Bytes>,
                  ghost pushed: seq<Range>)
    returns (counter': nat, bookmark': nat, components': seq<Bytes>, ghost pushed': seq<Range>)
    requires i + |SignatureDelimiter| <= |composition|
    requires Scanned(composition, i, counter, bookmark, pushed)
    requires Holds(composition, components, pushed)
    ensures Scanned(composition, i + 1, counter', bookmark', pushed')
    ensures Holds(composition, components', pushed')
    ensures counter' == |MatchesBelow(composition, i + 1)|
    ensures bookmark' == Bookmark(MatchesBelow(composition, i + 1))
    ensures |components| <= |components'| <= |components| + 1
    ensures components'[..|components|] == components
  {
    counter', bookmark', components', pushed' := counter, bookmark, components, pushed;
    var hit := HeaderTest(composition, i);
    if hit {
      if counter == 0 {
        // The first match: the whole composition is kept as the root.
        ScanFirstMatch(composition, i, bookmark, pushed);
        assert composition[0..|composition|] == composition;
        components' := components + [composition];
        pushed' := pushed + [Range(0, |composition|)];
      } else if bookmark != 0 {
        ScanNextMatch(composition, i, counter, bookmark, pushed);
        components' := components + [composition[bookmark..i]];
        pushed' := pushed + [Range(bookmark, i)];
      } else {
        ScanMatchAfterZero(composition, i, counter, pushed);
      }
      bookmark' := i;
      counter' := counter + 1;
    } else {
      ScanMiss(composition, i, counter, bookmark, pushed);
    }
  }

  /** The scanning loop of `split_composition` over the offsets below
      `bound`, followed by the push of the last component. */
  method SplitBelow(composition: Bytes, bound: nat) returns (components: seq<Bytes>)
    requires bound == 0 || bound + |SignatureDelimiter| <= |composition|
    ensures components == SplitParts(composition, bound)
  {
    components := [];
    var bookmark: nat := 0;
    var counter: nat := 0;
    ghost var pushed: seq<Range> := [];
    var i: nat := 0;
    while i < bound
      invariant i <= bound
      invariant Scanned(composition, i, counter, bookmark, pushed)
      invariant Holds(composition, components, pushed)
    {
      counter, bookmark, components, pushed := ScanStep(composition, i, counter, bookmark, components, pushed);
      i := i + 1;
    }
    ScanDone(composition, bound, counter, bookmark, components, pushed);
    if bookmark < |composition| {
      components := components + [composition[bookmark..]];
    }
  }

  /** `split_composition`: the loop bound `len - 20` is an unsigned
      subtraction, which panics on a composition shorter than the header. */
  method SplitComposition(composition: Bytes) returns (result: Option<seq<Bytes>>)
    ensures result == Split(composition)
  {
    if |composition| < |SignatureDelimiter| {
      return None;
    }
    var components := SplitBelow(composition, LoopEnd(|composition|));
    return Some(components);
  }

  /** `split_composition` with a saturating loop bound: a composition too
      short to hold the header has no match and is returned whole. */
  method SplitCompositionSaturating(composition: Bytes) returns (components: seq<Bytes>)
    ensures |composition| < |SignatureDelimiter| ==>
              components == if composition == [] then [] else [composition]
    ensures |composition| >= |SignatureDelimiter| ==> Split(composition) == Some(components)
  {
    var bound := SaturatingBound(|composition|);
    components := SplitBelow(composition, bound);
    if |composition| < |SignatureDelimiter| && composition != [] {
      assert MatchesBelow(composition, 0) == [];
      assert Layout(|composition|, []) == [Range(0, |composition|)];
      assert composition[0..|composition|] == composition;
    }
  }

  /** The public entry point `decompose`, which only delegates. */
  method Decompose(fileContents: Bytes) returns (result: Option<seq<Bytes>>)
    ensures result == Split(fileContents)
  {
    result := SplitComposition(fileContents);
  }
}
