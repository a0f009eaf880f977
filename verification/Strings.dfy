/** The string operations the Python sources use, on ASCII text. */
module Strings {
  /** What str.strip and the regular-expression class \s take for blank. */
  predicate IsSpace(c: char) {
    c == ' ' || '\t' <= c <= '\r' || '\U{1c}' <= c <= '\U{1f}'
  }

  /** The ten blanks of ASCII: tab to carriage return, the four separators, and the space. */
  lemma BlanksExactly(c: char)
    ensures IsSpace(c) <==> c as int in {9, 10, 11, 12, 13, 28, 29, 30, 31, 32}
  {
  }

  predicate Blank(s: string) {
    forall k :: 0 <= k < |s| ==> IsSpace(s[k])
  }

  /** The first position from `i` on that is not blank. */
  function SkipSpace(s: string, i: nat): (r: nat)
    requires i <= |s|
    ensures i <= r <= |s|
    decreases |s| - i
  {
    if i < |s| && IsSpace(s[i]) then SkipSpace(s, i + 1) else i
  }

  lemma {:induction false} SkipSpaceStops(s: string, i: nat)
    requires i <= |s|
    ensures var r := SkipSpace(s, i);
            (r < |s| ==> !IsSpace(s[r])) && forall k :: i <= k < r ==> IsSpace(s[k])
    decreases |s| - i
  {
    if i < |s| && IsSpace(s[i]) {
      SkipSpaceStops(s, i + 1);
    }
  }

  /** The end of `s[..n]` without its trailing blanks. */
  function DropSpace(s: string, n: nat): (r: nat)
    requires n <= |s|
    ensures r <= n
  {
    if n > 0 && IsSpace(s[n - 1]) then DropSpace(s, n - 1) else n
  }

  lemma {:induction false} DropSpaceStops(s: string, n: nat)
    requires n <= |s|
    ensures var r := DropSpace(s, n);
            (r > 0 ==> !IsSpace(s[r - 1])) && forall k :: r <= k < n ==> IsSpace(s[k])
  {
    if n > 0 && IsSpace(s[n - 1]) {
      DropSpaceStops(s, n - 1);
    }
  }

  function TrimLeft(s: string): string {
    s[SkipSpace(s, 0)..]
  }

  function TrimRight(s: string): string {
    s[..DropSpace(s, |s|)]
  }

  function Strip(s: string): string {
    var i, e := SkipSpace(s, 0), DropSpace(s, |s|);
    if e <= i then "" else s[i..e]
  }

  function Lower(s: string): (t: string)
    ensures |t| == |s|
  {
    seq(|s|, k requires 0 <= k < |s| => if 'A' <= s[k] <= 'Z' then (s[k] as int + 32) as char else s[k])
  }

  predicate StartsWith(s: string, p: string) {
    p <= s
  }

  predicate EndsWith(s: string, p: string) {
    |p| <= |s| && s[|s| - |p|..] == p
  }

  predicate Contains(s: string, p: string) {
    exists k :: 0 <= k <= |s| - |p| && s[k..][..|p|] == p
  }

  lemma SkipSpaceIs(s: string, r: nat)
    requires r <= |s| && (r < |s| ==> !IsSpace(s[r])) && forall k :: 0 <= k < r ==> IsSpace(s[k])
    ensures SkipSpace(s, 0) == r
  {
    SkipSpaceStops(s, 0);
    var k := SkipSpace(s, 0);
    assert k < |s| ==> !IsSpace(s[k]);
    assert r < |s| ==> !IsSpace(s[r]);
  }

  lemma DropSpaceIs(s: string, r: nat)
    requires r <= |s| && (r > 0 ==> !IsSpace(s[r - 1])) && forall k :: r <= k < |s| ==> IsSpace(s[k])
    ensures DropSpace(s, |s|) == r
  {
    DropSpaceStops(s, |s|);
    var k := DropSpace(s, |s|);
    assert k > 0 ==> !IsSpace(s[k - 1]);
    assert r > 0 ==> !IsSpace(s[r - 1]);
  }

  /** Blanks around a string do not change what is left of it. */
  lemma StripIs(s: string, i: nat, e: nat)
    requires i < e <= |s| && !IsSpace(s[i]) && !IsSpace(s[e - 1])
    requires (forall k :: 0 <= k < i ==> IsSpace(s[k])) && (forall k :: e <= k < |s| ==> IsSpace(s[k]))
    ensures Strip(s) == s[i..e]
  {
    SkipSpaceIs(s, i);
    DropSpaceIs(s, e);
  }

  lemma StripBlank(s: string)
    requires Blank(s)
    ensures Strip(s) == ""
  {
    SkipSpaceIs(s, |s|);
  }

  lemma StripPadded(s: string, before: nat, after: nat)
    requires before <= after <= |s|
    requires (forall k :: 0 <= k < before ==> IsSpace(s[k])) && (forall k :: after <= k < |s| ==> IsSpace(s[k]))
    ensures Strip(s) == Strip(s[before..after])
  {
    var t := s[before..after];
    var i, e := SkipSpace(t, 0), DropSpace(t, |t|);
    SkipSpaceStops(t, 0);
    DropSpaceStops(t, |t|);
    if i == |t| {
      forall k | 0 <= k < |s| ensures IsSpace(s[k]) {
        assert before <= k < after ==> s[k] == t[k - before];
      }
      StripBlank(s);
    } else {
      StripAround(s, before, t, i, e);
    }
  }

  lemma StripAround(s: string, before: nat, t: string, i: nat, e: nat)
    requires before + |t| <= |s| && s[before..before + |t|] == t
    requires i < e <= |t| && !IsSpace(t[i]) && !IsSpace(t[e - 1])
    requires (forall k :: 0 <= k < i ==> IsSpace(t[k])) && (forall k :: e <= k < |t| ==> IsSpace(t[k]))
    requires (forall k :: 0 <= k < before ==> IsSpace(s[k])) && (forall k :: before + |t| <= k < |s| ==> IsSpace(s[k]))
    ensures Strip(s) == t[i..e] == Strip(t)
  {
    StripIs(t, i, e);
    forall k | 0 <= k < before + i ensures IsSpace(s[k]) {
      assert k >= before ==> s[k] == t[k - before];
    }
    forall k | before + e <= k < |s| ensures IsSpace(s[k]) {
      assert k < before + |t| ==> s[k] == t[k - before];
    }
    assert s[before + i] == t[i] && s[before + e - 1] == t[e - 1];
    StripIs(s, before + i, before + e);
    SliceInside(s, before, t, i, e);
  }

  lemma SliceInside(s: string, before: nat, t: string, i: nat, e: nat)
    requires before + |t| <= |s| && s[before..before + |t|] == t && i <= e <= |t|
    ensures s[before + i..before + e] == t[i..e]
  {
    var u, v := s[before + i..before + e], t[i..e];
    forall k | 0 <= k < |v| ensures u[k] == v[k] {
      assert t[i + k] == s[before + (i + k)];
    }
  }

  /** What Strip leaves: the text without its blank ends, and nothing else gone. */
  lemma StripExactly(s: string)
    ensures exists i, e :: 0 <= i <= e <= |s| && Strip(s) == s[i..e] && Blank(s[..i]) && Blank(s[e..])
    ensures Strip(s) != "" ==> !IsSpace(Strip(s)[0]) && !IsSpace(Strip(s)[|Strip(s)| - 1])
  {
    var i, e := SkipSpace(s, 0), DropSpace(s, |s|);
    SkipSpaceStops(s, 0);
    DropSpaceStops(s, |s|);
    if e <= i {
      forall k | 0 <= k < |s| ensures IsSpace(s[k]) {
      }
      assert Strip(s) == s[|s|..|s|] && Blank(s[..|s|]) && Blank(s[|s|..]);
    } else {
      assert Strip(s) == s[i..e] && Blank(s[..i]) && Blank(s[e..]);
    }
  }

  lemma ContainsExactly(s: string, p: string)
    ensures Contains(s, p) <==> exists a, b :: s == a + p + b
  {
    if k :| 0 <= k <= |s| - |p| && s[k..][..|p|] == p {
      assert s == s[..k] + s[k..][..|p|] + s[k..][|p|..];
    }
    if a, b :| s == a + p + b {
      assert s[|a|..] == p + b && (p + b)[..|p|] == p;
    }
  }

  lemma EndsWithExactly(s: string, p: string)
    ensures EndsWith(s, p) <==> exists a :: s == a + p
  {
    if EndsWith(s, p) {
      assert s == s[..|s| - |p|] + p;
    }
    if a :| s == a + p {
      assert s[|s| - |p|..] == p;
    }
  }

  /** `s` spells the lower-case word `w` in any mixture of cases. */
  predicate Spells(s: string, w: string) {
    |s| == |w| && forall k :: 0 <= k < |s| ==> s[k] == w[k] || s[k] as int + 32 == w[k] as int
  }

  lemma LowerSpells(s: string, w: string)
    requires forall k :: 0 <= k < |w| ==> 'a' <= w[k] <= 'z'
    ensures Lower(s) == w <==> Spells(s, w)
  {
    if Lower(s) == w {
      forall k | 0 <= k < |s| ensures s[k] == w[k] || s[k] as int + 32 == w[k] as int {
        assert Lower(s)[k] == w[k];
      }
    }
    if Spells(s, w) {
      forall k | 0 <= k < |s| ensures Lower(s)[k] == w[k] {
      }
    }
  }
}
