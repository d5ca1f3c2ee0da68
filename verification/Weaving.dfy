/** Texts put together from gaps and the pieces that fill the places between them. */
module Weaving {

  /** gap 0, fill 0, gap 1, fill 1, ..., fill i-1. */
  function Interleave(gaps: seq<string>, fills: seq<string>, i: nat): string
    requires i <= |gaps| && i <= |fills|
  {
    if i == 0 then "" else Interleave(gaps, fills, i - 1) + gaps[i - 1] + fills[i - 1]
  }

  function Weave(gaps: seq<string>, fills: seq<string>): string
    requires |gaps| == |fills| + 1
  {
    Interleave(gaps, fills, |fills|) + gaps[|fills|]
  }

  lemma InterleaveNext(gaps: seq<string>, fills: seq<string>, i: nat)
    requires 0 < i <= |gaps| && i <= |fills|
    ensures Interleave(gaps, fills, i) == Interleave(gaps, fills, i - 1) + (gaps[i - 1] + fills[i - 1])
  {
  }

  /** One more gap and fill that continue a prefix of `s`. */
  lemma InterleaveExtends(gaps: seq<string>, fills: seq<string>, i: nat, s: string, from: nat, to: nat, end: nat)
    requires 0 < i <= |gaps| && i <= |fills| && from <= to <= end <= |s|
    requires Interleave(gaps, fills, i - 1) == s[..from] && gaps[i - 1] == s[from..to] && fills[i - 1] == s[to..end]
    ensures Interleave(gaps, fills, i) == s[..end]
  {
    assert s[..end] == s[..from] + s[from..to] + s[to..end];
  }

  function Copies(x: string, n: nat): (r: seq<string>)
    ensures |r| == n && forall i :: 0 <= i < n ==> r[i] == x
  {
    seq(n, i => x)
  }

  lemma {:induction false} InterleaveCons(g: string, f: string, gaps: seq<string>, fills: seq<string>, i: nat)
    requires i <= |gaps| && i <= |fills|
    ensures Interleave([g] + gaps, [f] + fills, i + 1) == g + f + Interleave(gaps, fills, i)
  {
    var gs, fs := [g] + gaps, [f] + fills;
    assert Interleave(gs, fs, i + 1) == Interleave(gs, fs, i) + gs[i] + fs[i];
    if i == 0 {
      assert Interleave(gs, fs, 0) == "" && Interleave(gaps, fills, 0) == "";
    } else {
      InterleaveCons(g, f, gaps, fills, i - 1);
      var before := Interleave(gaps, fills, i - 1);
      assert gs[i] == gaps[i - 1] && fs[i] == fills[i - 1];
      assert (g + f + before) + gaps[i - 1] + fills[i - 1] == g + f + (before + gaps[i - 1] + fills[i - 1]);
    }
  }

  lemma WeaveCons(g: string, f: string, gaps: seq<string>, fills: seq<string>)
    requires |gaps| == |fills| + 1
    ensures Weave([g] + gaps, [f] + fills) == g + f + Weave(gaps, fills)
  {
    var n := |fills|;
    InterleaveCons(g, f, gaps, fills, n);
    assert ([g] + gaps)[n + 1] == gaps[n];
  }

  lemma {:induction false} InterleaveHead(c: char, gaps: seq<string>, fills: seq<string>, i: nat)
    requires 0 < i <= |gaps| && i <= |fills|
    ensures Interleave(gaps[0 := [c] + gaps[0]], fills, i) == [c] + Interleave(gaps, fills, i)
  {
    var longer := gaps[0 := [c] + gaps[0]];
    if i == 1 {
      assert Interleave(longer, fills, 0) == Interleave(gaps, fills, 0) == "";
    } else {
      InterleaveHead(c, gaps, fills, i - 1);
    }
  }

  lemma WeaveHead(c: char, gaps: seq<string>, fills: seq<string>)
    requires |gaps| == |fills| + 1
    ensures Weave(gaps[0 := [c] + gaps[0]], fills) == [c] + Weave(gaps, fills)
  {
    if fills != [] {
      InterleaveHead(c, gaps, fills, |fills|);
    }
  }
}
