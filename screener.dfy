/**
 * `validate_code_safety`: an advisory screen of generated program text
 * against a fixed deny-list of substrings. It never blocks execution; it
 * only produces warnings.
 */
module Screener {
  import opened Text

  /** The deny-list, in the order it is checked. */
  const DangerousPatterns: seq<string> := [
    "os.system", "subprocess.call", "eval(", "exec(", "__import__",
    "open(", "shutil.rmtree", "rm -", "del ", "import os"
  ]

  const WarningPrefix: string := "Potential security concern: "

  /** The warning raised for one matched pattern. */
  function Warning(pattern: string): string {
    WarningPrefix + pattern
  }

  /** The warnings for the patterns of `ps` that occur in `code`, one per
      matching pattern, in the order of `ps`. */
  function Matches(ps: seq<string>, code: string): (r: seq<string>)
    ensures |r| <= |ps|
  {
    if ps == [] then []
    else
      var last := ps[|ps| - 1];
      Matches(ps[..|ps| - 1], code) + (if Contains(code, last) then [Warning(last)] else [])
  }

  /** The screen itself: walks the deny-list in order and appends a warning
      for every pattern that occurs in `code`. */
  method ValidateCodeSafety(code: string) returns (warnings: seq<string>)
    ensures warnings == Matches(DangerousPatterns, code)
    ensures |warnings| <= |DangerousPatterns|
  {
    warnings := [];
    for i := 0 to |DangerousPatterns|
      invariant warnings == Matches(DangerousPatterns[..i], code)
    {
      var pattern := DangerousPatterns[i];
      assert DangerousPatterns[..i + 1][..i] == DangerousPatterns[..i];
      if Contains(code, pattern) {
        warnings := warnings + [Warning(pattern)];
      }
    }
    assert DangerousPatterns[..|DangerousPatterns|] == DangerousPatterns;
  }

  /** The indices of the patterns of `ps` that occur in `code`, increasing. */
  function MatchedIndices(ps: seq<string>, code: string): (idx: seq<nat>)
    ensures forall k :: 0 <= k < |idx| ==> idx[k] < |ps|
  {
    if ps == [] then []
    else
      var n := |ps| - 1;
      MatchedIndices(ps[..n], code) + (if Contains(code, ps[n]) then [n] else [])
  }

  /** The indices are strictly increasing, and the k-th warning names the
      pattern at the k-th index: one warning per matching pattern, in
      deny-list order. */
  lemma {:induction false} MatchesAtIndices(ps: seq<string>, code: string)
    ensures |MatchedIndices(ps, code)| == |Matches(ps, code)|
    ensures forall k :: 0 <= k < |MatchedIndices(ps, code)| ==>
              Matches(ps, code)[k] == Warning(ps[MatchedIndices(ps, code)[k]])
    ensures forall k, l :: 0 <= k < l < |MatchedIndices(ps, code)| ==>
              MatchedIndices(ps, code)[k] < MatchedIndices(ps, code)[l]
    decreases |ps|
  {
    if ps != [] {
      var n := |ps| - 1;
      var init := ps[..n];
      MatchesAtIndices(init, code);
      var prev := MatchedIndices(init, code);
      var before := Matches(init, code);
      var found := Contains(code, ps[n]);
      var idx := prev + (if found then [n] else []);
      var w := before + (if found then [Warning(ps[n])] else []);
      assert MatchedIndices(ps, code) == idx && Matches(ps, code) == w;
      forall k | 0 <= k < |idx| ensures w[k] == Warning(ps[idx[k]]) {
        if k < |prev| {
          assert idx[k] == prev[k] && w[k] == before[k] && init[prev[k]] == ps[prev[k]];
        }
      }
    }
  }

  /** The indices are exactly those of the patterns that occur in `code`. */
  lemma {:induction false} MatchedIndicesIff(ps: seq<string>, code: string)
    ensures forall i :: 0 <= i < |ps| ==> (Contains(code, ps[i]) <==> i in MatchedIndices(ps, code))
    decreases |ps|
  {
    if ps != [] {
      var n := |ps| - 1;
      var init := ps[..n];
      MatchedIndicesIff(init, code);
      var prev := MatchedIndices(init, code);
      assert n !in prev by {
        forall k | 0 <= k < |prev| ensures prev[k] != n {
        }
      }
      forall i | 0 <= i < n ensures Contains(code, ps[i]) <==> i in prev {
        assert init[i] == ps[i];
      }
    }
  }

  /** No warning exactly when no pattern occurs in `code`. */
  lemma {:induction false} MatchesEmptyIff(ps: seq<string>, code: string)
    ensures Matches(ps, code) == [] <==> forall p :: p in ps ==> !Contains(code, p)
    decreases |ps|
  {
    if ps != [] {
      var init := ps[..|ps| - 1];
      MatchesEmptyIff(init, code);
      assert ps == init + [ps[|ps| - 1]];
    }
  }

  /** A deny-listed pattern is warned about exactly when it occurs in `code`. */
  lemma WarnedIff(code: string, pattern: string)
    requires pattern in DangerousPatterns
    ensures Warning(pattern) in Matches(DangerousPatterns, code) <==> Contains(code, pattern)
  {
    MatchesAtIndices(DangerousPatterns, code);
    MatchedIndicesIff(DangerousPatterns, code);
    var idx := MatchedIndices(DangerousPatterns, code);
    var w := Matches(DangerousPatterns, code);
    var i :| 0 <= i < |DangerousPatterns| && DangerousPatterns[i] == pattern;
    if Warning(pattern) in w {
      var k :| 0 <= k < |w| && w[k] == Warning(pattern);
      var q := DangerousPatterns[idx[k]];
      assert WarningPrefix + q == WarningPrefix + pattern;
      assert q == (WarningPrefix + q)[|WarningPrefix|..];
      assert q == pattern;
    }
    if Contains(code, pattern) {
      assert i in idx;
      var k :| 0 <= k < |idx| && idx[k] == i;
      assert w[k] == Warning(pattern);
    }
  }

  /** The screen never returns more than ten warnings, returns none for text
      free of every pattern, and every warning it returns carries the
      warning prefix. */
  lemma ScreenBounds(code: string)
    ensures |Matches(DangerousPatterns, code)| <= 10
    ensures (forall p :: p in DangerousPatterns ==> !Contains(code, p)) ==> Matches(DangerousPatterns, code) == []
    ensures forall w :: w in Matches(DangerousPatterns, code) ==>
              |WarningPrefix| <= |w| && w[..|WarningPrefix|] == WarningPrefix
  {
    MatchesEmptyIff(DangerousPatterns, code);
    MatchesAtIndices(DangerousPatterns, code);
  }
}
