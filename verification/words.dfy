/** Loading the word list: every line is stripped of surrounding whitespace and
    kept only when something is left. */
module Words {

  /** Whitespace as Python 2.7's `unicode.strip()` sees it (its Unicode 5.2
      database: bidirectional types WS, B and S, and category Zs). */
  predicate IsSpace(c: char)
  {
    || ('\U{0009}' <= c <= '\U{000D}')
    || ('\U{001C}' <= c <= '\U{0020}')
    || c == '\U{0085}' || c == '\U{00A0}' || c == '\U{1680}' || c == '\U{180E}'
    || ('\U{2000}' <= c <= '\U{200A}')
    || c == '\U{2028}' || c == '\U{2029}' || c == '\U{202F}' || c == '\U{205F}'
    || c == '\U{3000}'
  }

  predicate AllSpace(s: string)
  {
    forall i :: 0 <= i < |s| ==> IsSpace(s[i])
  }

  /** `s` with its leading whitespace removed: a suffix of `s` that is all
      that follows a run of whitespace, and starts with a non-space. */
  function StripLeading(s: string): (r: string)
    ensures |r| <= |s| && r == s[|s| - |r|..]
    ensures AllSpace(s[..|s| - |r|])
    ensures r == [] || !IsSpace(r[0])
  {
    if s != [] && IsSpace(s[0]) then
      var r := StripLeading(s[1..]);
      assert AllSpace(s[..|s| - |r|]) by {
        var dropped := s[..|s| - |r|];
        forall i | 0 <= i < |dropped| ensures IsSpace(dropped[i]) {
          if i > 0 {
            assert dropped[i] == s[1..][..|s| - 1 - |r|][i - 1];
          }
        }
      }
      r
    else s
  }

  /** `s` with its trailing whitespace removed: a prefix of `s` followed only
      by whitespace, and ending in a non-space. */
  function StripTrailing(s: string): (r: string)
    ensures |r| <= |s| && r == s[..|r|]
    ensures AllSpace(s[|r|..])
    ensures r == [] || !IsSpace(r[|r| - 1])
  {
    if s != [] && IsSpace(s[|s| - 1]) then
      var r := StripTrailing(s[..|s| - 1]);
      assert AllSpace(s[|r|..]) by {
        var dropped := s[|r|..];
        forall i | 0 <= i < |dropped| ensures IsSpace(dropped[i]) {
          if i < |dropped| - 1 {
            assert dropped[i] == s[..|s| - 1][|r|..][i];
          }
        }
      }
      r
    else s
  }

  /** `s.strip()`: the slice `s[lo..lo + |r|]` left after removing whitespace
      on both ends. It is empty exactly when `s` is all whitespace. */
  function Strip(s: string): (r: string)
    ensures exists lo :: IsStripSlice(s, lo, r)
    ensures r == [] <==> AllSpace(s)
    ensures r != [] ==> !IsSpace(r[0]) && !IsSpace(r[|r| - 1])
  {
    var left := StripLeading(s);
    var r := StripTrailing(left);
    StripSlice(s, left, r);
    r
  }

  /** The facts `Strip` needs about its two halves, taken as plain
      premises so that the recursive definitions stay folded. */
  lemma StripSlice(s: string, left: string, r: string)
    requires |left| <= |s| && left == s[|s| - |left|..] && AllSpace(s[..|s| - |left|])
    requires |r| <= |left| && r == left[..|r|] && AllSpace(left[|r|..])
    requires r == [] || !IsSpace(r[0])
    ensures IsStripSlice(s, |s| - |left|, r)
    ensures r == [] <==> AllSpace(s)
  {
    var lo := |s| - |left|;
    assert s[lo..lo + |r|] == r by {
      forall i | 0 <= i < |r| ensures s[lo..lo + |r|][i] == r[i] {
        assert r[i] == left[i] == s[lo + i];
      }
    }
    assert AllSpace(s[lo + |r|..]) by {
      var after := s[lo + |r|..];
      forall i | 0 <= i < |after| ensures IsSpace(after[i]) {
        assert after[i] == left[|r|..][i];
      }
    }
    if r == [] {
      forall i | 0 <= i < |s| ensures IsSpace(s[i]) {
        if i < lo {
          assert s[i] == s[..lo][i];
        } else {
          assert s[i] == left[i - lo];
        }
      }
    } else {
      assert s[lo] == r[0];
    }
  }

  /** `r` is `s[lo..lo + |r|]` and everything of `s` around it is whitespace. */
  ghost predicate IsStripSlice(s: string, lo: int, r: string)
  {
    && 0 <= lo && lo + |r| <= |s|
    && r == s[lo..lo + |r|]
    && AllSpace(s[..lo])
    && AllSpace(s[lo + |r|..])
  }

  /** Stripping twice changes nothing more. */
  lemma StripIdempotent(s: string)
    ensures Strip(Strip(s)) == Strip(s)
  {
    var r := Strip(s);
    if r != [] {
      assert StripLeading(r) == r;
      assert StripTrailing(r) == r;
    }
  }

  /** Every line stripped, one-to-one. */
  function StripAll(lines: seq<string>): (stripped: seq<string>)
    ensures |stripped| == |lines|
    ensures forall i :: 0 <= i < |lines| ==> stripped[i] == Strip(lines[i])
    ensures forall i :: 0 <= i < |lines| ==> (stripped[i] == [] <==> AllSpace(lines[i]))
    ensures forall i :: 0 <= i < |lines| ==> Strip(stripped[i]) == stripped[i]
  {
    var stripped := seq(|lines|, i requires 0 <= i < |lines| => Strip(lines[i]));
    StrippedLines(lines, stripped);
    stripped
  }

  lemma StrippedLines(lines: seq<string>, stripped: seq<string>)
    requires |stripped| == |lines|
    requires forall i :: 0 <= i < |lines| ==> stripped[i] == Strip(lines[i])
    ensures forall i :: 0 <= i < |lines| ==> (stripped[i] == [] <==> AllSpace(lines[i]))
    ensures forall i :: 0 <= i < |lines| ==> Strip(stripped[i]) == stripped[i]
  {
    forall i | 0 <= i < |lines|
      ensures (stripped[i] == [] <==> AllSpace(lines[i])) && Strip(stripped[i]) == stripped[i]
    {
      StripIdempotent(lines[i]);
    }
  }

  /** The non-empty strings of `xs`, in order (`if line: yield line`). */
  function KeepNonEmpty(xs: seq<string>): (kept: seq<string>)
    ensures |kept| <= |xs|
    ensures forall k :: 0 <= k < |kept| ==> kept[k] != []
    ensures forall w :: w in kept <==> w != [] && w in xs
  {
    if xs == [] then []
    else
      assert forall w :: w in xs <==> w == xs[0] || w in xs[1..];
      (if xs[0] != [] then [xs[0]] else []) + KeepNonEmpty(xs[1..])
  }

  /** `load_words` over the lines of the word file: the stripped form of
      every non-blank line, in file order, and nothing else. `idx` in the
      second ensures names the line each word comes from. */
  function LoadWords(lines: seq<string>): (words: seq<string>)
    ensures forall k :: 0 <= k < |words| ==> words[k] != []
    ensures exists idx :: SelectsNonEmpty(StripAll(lines), words, idx)
  {
    var stripped := StripAll(lines);
    KeepNonEmptySelects(stripped);
    KeepNonEmpty(stripped)
  }

  /** `idx` lists, in increasing order, the positions in `xs` of the strings
      in `kept`, and misses no non-empty string of `xs`. */
  ghost predicate SelectsNonEmpty(xs: seq<string>, kept: seq<string>, idx: seq<int>)
  {
    && |idx| == |kept|
    && (forall k :: 0 <= k < |idx| ==> 0 <= idx[k] < |xs| && kept[k] == xs[idx[k]])
    && (forall k, l :: 0 <= k < l < |idx| ==> idx[k] < idx[l])
    && (forall i :: 0 <= i < |xs| && xs[i] != [] ==> i in idx)
  }

  /** The filter keeps exactly the non-empty strings, in their order: some
      increasing list of positions picks out what it keeps and misses no
      non-empty string. */
  lemma {:induction false} KeepNonEmptySelects(xs: seq<string>)
    ensures exists idx :: SelectsNonEmpty(xs, KeepNonEmpty(xs), idx)
  {
    if xs == [] {
      assert KeepNonEmpty(xs) == [];
      assert SelectsNonEmpty(xs, [], []);
    } else {
      var tail := xs[1..];
      KeepNonEmptySelects(tail);
      var rest := KeepNonEmpty(tail);
      var idx' :| SelectsNonEmpty(tail, rest, idx');
      var shifted := seq(|idx'|, k requires 0 <= k < |idx'| => idx'[k] + 1);
      ShiftSelects(xs, rest, idx', shifted);
      if xs[0] != [] {
        assert KeepNonEmpty(xs) == [xs[0]] + rest;
        ConsSelects(xs, rest, shifted);
        assert SelectsNonEmpty(xs, KeepNonEmpty(xs), [0] + shifted);
      } else {
        assert KeepNonEmpty(xs) == rest;
        assert SelectsNonEmpty(xs, KeepNonEmpty(xs), shifted);
      }
    }
  }

  /** Positions selected in `xs[1..]` move up by one in `xs`. */
  lemma ShiftSelects(xs: seq<string>, rest: seq<string>, idx': seq<int>, shifted: seq<int>)
    requires xs != [] && SelectsNonEmpty(xs[1..], rest, idx')
    requires |shifted| == |idx'| && forall k :: 0 <= k < |idx'| ==> shifted[k] == idx'[k] + 1
    ensures xs[0] == [] ==> SelectsNonEmpty(xs, rest, shifted)
    ensures forall k :: 0 <= k < |shifted| ==> 1 <= shifted[k] < |xs| && rest[k] == xs[shifted[k]]
    ensures forall k, l :: 0 <= k < l < |shifted| ==> shifted[k] < shifted[l]
    ensures forall i :: 1 <= i < |xs| && xs[i] != [] ==> i in shifted
  {
    var tail := xs[1..];
    forall k | 0 <= k < |shifted|
      ensures 1 <= shifted[k] < |xs| && rest[k] == xs[shifted[k]]
    {
      assert rest[k] == tail[idx'[k]];
    }
    forall i | 1 <= i < |xs| && xs[i] != []
      ensures i in shifted
    {
      assert tail[i - 1] == xs[i];
      var k :| 0 <= k < |idx'| && idx'[k] == i - 1;
      assert shifted[k] == i;
    }
    if xs[0] == [] {
      forall i | 0 <= i < |xs| && xs[i] != []
        ensures i in shifted
      {
        assert i != 0;
      }
    }
  }

  /** A kept first string goes in front, at position 0. */
  lemma ConsSelects(xs: seq<string>, rest: seq<string>, shifted: seq<int>)
    requires xs != [] && xs[0] != []
    requires |shifted| == |rest|
    requires forall k :: 0 <= k < |shifted| ==> 1 <= shifted[k] < |xs| && rest[k] == xs[shifted[k]]
    requires forall k, l :: 0 <= k < l < |shifted| ==> shifted[k] < shifted[l]
    requires forall i :: 1 <= i < |xs| && xs[i] != [] ==> i in shifted
    ensures SelectsNonEmpty(xs, [xs[0]] + rest, [0] + shifted)
  {
    var idx := [0] + shifted;
    var kept := [xs[0]] + rest;
    forall k | 0 <= k < |idx| ensures 0 <= idx[k] < |xs| && kept[k] == xs[idx[k]] {
      if k > 0 {
        assert idx[k] == shifted[k - 1] && kept[k] == rest[k - 1];
      }
    }
    forall k, l | 0 <= k < l < |idx| ensures idx[k] < idx[l] {
      assert idx[l] == shifted[l - 1];
      if k > 0 {
        assert idx[k] == shifted[k - 1];
      }
    }
    forall i | 0 <= i < |xs| && xs[i] != [] ensures i in idx {
      if i > 0 {
        assert i in shifted;
      }
    }
  }

  /** `frozenset(load_words(...))`: the distinct words of the list. A string
      is in it exactly when it is the non-empty stripped form of some line. */
  function WordSet(lines: seq<string>): (ws: set<string>)
    ensures forall w :: w in ws <==> w != [] && w in StripAll(lines)
  {
    var words := LoadWords(lines);
    set w | w in words
  }
}
