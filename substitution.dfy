/** Placeholder substitution: every `{{KEY}}` becomes the response stored
    under `key`, one key at a time in insertion order. */
module Substitution {
  import opened Strings
  import opened ResponseSet

  /** The marker a response key fills: the key in upper case between double
      braces. */
  function Placeholder(key: string): (p: string)
    ensures |p| == |key| + 4
    ensures p[0] == '{' && p[1] == '{'
  {
    "{{" + Upper(key) + "}}"
  }

  /** `s.replace(pat, v)`, from index `i` on, scanning left to right: where
      `pat` starts, it is replaced by `v` and the scan resumes after it;
      elsewhere the character is copied. Occurrences therefore never overlap,
      the leftmost one wins, and `v` itself is never searched. */
  function ReplaceFrom(s: string, pat: string, v: string, i: nat): string
    requires |pat| > 0 && i <= |s|
    decreases |s| - i
  {
    if i == |s| then ""
    else if PrefixAt(pat, s, i) then v + ReplaceFrom(s, pat, v, i + |pat|)
    else [s[i]] + ReplaceFrom(s, pat, v, i + 1)
  }

  function ReplaceAll(s: string, pat: string, v: string): string
    requires |pat| > 0
  {
    ReplaceFrom(s, pat, v, 0)
  }

  /** `s.count(pat)` from index `i` on: the number of non-overlapping
      occurrences, counted by the same left-to-right scan. */
  function CountFrom(s: string, pat: string, i: nat): nat
    requires |pat| > 0 && i <= |s|
    decreases |s| - i
  {
    if i == |s| then 0
    else if PrefixAt(pat, s, i) then 1 + CountFrom(s, pat, i + |pat|)
    else CountFrom(s, pat, i + 1)
  }

  lemma Distribute(c: nat, d: int)
    ensures (1 + c) * d == d + c * d
  {
  }

  /** Each counted occurrence trades `|pat|` characters for `|v|`; nothing
      else changes length. */
  lemma {:induction false} ReplaceAllLength(s: string, pat: string, v: string, i: nat)
    requires |pat| > 0 && i <= |s|
    ensures |ReplaceFrom(s, pat, v, i)| == |s| - i + CountFrom(s, pat, i) * (|v| - |pat|)
    decreases |s| - i
  {
    if i == |s| {
    } else if PrefixAt(pat, s, i) {
      ReplaceAllLength(s, pat, v, i + |pat|);
      Distribute(CountFrom(s, pat, i + |pat|), |v| - |pat|);
    } else {
      ReplaceAllLength(s, pat, v, i + 1);
    }
  }

  /** Replacing a pattern by itself changes nothing. */
  lemma {:induction false} ReplaceWithSelf(s: string, pat: string, i: nat)
    requires |pat| > 0 && i <= |s|
    ensures ReplaceFrom(s, pat, pat, i) == s[i..]
    decreases |s| - i
  {
    if i == |s| {
    } else if PrefixAt(pat, s, i) {
      ReplaceWithSelf(s, pat, i + |pat|);
      assert s[i..] == s[i..i + |pat|] + s[i + |pat|..];
    } else {
      ReplaceWithSelf(s, pat, i + 1);
      assert s[i..] == [s[i]] + s[i + 1..];
    }
  }

  /** Positions holding no occurrence are copied as they are. */
  lemma {:induction false} ReplaceFromSkip(s: string, pat: string, v: string, i: nat, k: nat)
    requires |pat| > 0 && i <= k <= |s|
    requires forall j :: i <= j < k ==> !PrefixAt(pat, s, j)
    ensures ReplaceFrom(s, pat, v, i) == s[i..k] + ReplaceFrom(s, pat, v, k)
    decreases k - i
  {
    if i < k {
      ReplaceFromSkip(s, pat, v, i + 1, k);
      ReplaceFromCopy(s, pat, v, i);
      ConsSlice(s, i, k, ReplaceFrom(s, pat, v, k));
    }
  }

  /** A position holding no occurrence is copied. */
  lemma ReplaceFromCopy(s: string, pat: string, v: string, i: nat)
    requires |pat| > 0 && i < |s| && !PrefixAt(pat, s, i)
    ensures ReplaceFrom(s, pat, v, i) == [s[i]] + ReplaceFrom(s, pat, v, i + 1)
  {
  }

  /** With no occurrence left, the rest of the text is copied unchanged. */
  lemma ReplaceFromNoOccurrence(s: string, pat: string, v: string, i: nat)
    requires |pat| > 0 && i <= |s|
    requires forall j :: i <= j < |s| ==> !PrefixAt(pat, s, j)
    ensures ReplaceFrom(s, pat, v, i) == s[i..]
  {
    ReplaceFromSkip(s, pat, v, i, |s|);
  }

  /** The scan agrees with the search-based reading of `str.replace`: copy
      up to the leftmost occurrence, put `v` in its place and go on after
      it; with no occurrence, copy the rest. */
  lemma ReplaceFromLeftmost(s: string, pat: string, v: string, i: nat)
    requires |pat| > 0 && i <= |s|
    ensures FindFrom(s, pat, i).None? ==> ReplaceFrom(s, pat, v, i) == s[i..]
    ensures FindFrom(s, pat, i).Some? ==>
      var j := FindFrom(s, pat, i).value;
      j + |pat| <= |s| &&
      ReplaceFrom(s, pat, v, i) == s[i..j] + v + ReplaceFrom(s, pat, v, j + |pat|)
  {
    match FindFrom(s, pat, i)
    case None =>
      ReplaceFromNoOccurrence(s, pat, v, i);
    case Some(j) =>
      ReplaceFromSkip(s, pat, v, i, j);
      ReplaceFromAt(s, pat, v, j);
  }

  /** An occurrence where the scan stands is replaced, and the scan resumes
      after it. */
  lemma ReplaceFromAt(s: string, pat: string, v: string, i: nat)
    requires |pat| > 0 && PrefixAt(pat, s, i)
    ensures ReplaceFrom(s, pat, v, i) == v + ReplaceFrom(s, pat, v, i + |pat|)
  {
  }

  /** A stretch of text without `{` holds the start of no placeholder. */
  lemma NoPlaceholderWithoutBrace(s: string, key: string, i: nat, k: nat)
    requires i <= k <= |s|
    requires forall j :: i <= j < k ==> s[j] != '{'
    ensures forall j :: i <= j < k ==> !PrefixAt(Placeholder(key), s, j)
  {
    forall j | i <= j < k
      ensures !PrefixAt(Placeholder(key), s, j)
    {
      PrefixAtChar(Placeholder(key), s, j, 0);
    }
  }

  /** The `for` loop of the template processor as a fold: the responses are
      applied in insertion order, each to the text the earlier ones left. */
  function SubstituteAll(t: string, rs: Responses): string
    decreases |rs|
  {
    if rs == [] then t
    else
      var (key, value) := rs[|rs| - 1];
      ReplaceAll(SubstituteAll(t, rs[..|rs| - 1]), Placeholder(key), value)
  }

  /** A text without any `{{` holds no placeholder, so its replacement step
      leaves it unchanged. */
  lemma ReplaceWithoutBraces(t: string, key: string, v: string)
    requires forall j :: 0 <= j < |t| ==> !PrefixAt("{{", t, j)
    ensures ReplaceAll(t, Placeholder(key), v) == t
  {
    forall j | 0 <= j < |t|
      ensures !PrefixAt(Placeholder(key), t, j)
    {
      PrefixAtConcat("{{", Upper(key) + "}}", t, j);
      assert Placeholder(key) == "{{" + (Upper(key) + "}}");
    }
    ReplaceFromNoOccurrence(t, Placeholder(key), v, 0);
  }

  /** A template without any `{{` is left unchanged by substitution,
      whatever the responses. */
  lemma {:induction false} SubstituteWithoutBraces(t: string, rs: Responses)
    requires forall j :: 0 <= j < |t| ==> !PrefixAt("{{", t, j)
    ensures SubstituteAll(t, rs) == t
    decreases |rs|
  {
    if rs != [] {
      SubstituteWithoutBraces(t, rs[..|rs| - 1]);
      ReplaceWithoutBraces(t, rs[|rs| - 1].0, rs[|rs| - 1].1);
    }
  }

  /** A template in which no response's placeholder occurs is left
      unchanged by substitution, whatever other `{{` it holds. */
  lemma {:induction false} SubstituteWithoutPlaceholders(t: string, rs: Responses)
    requires forall k, j :: 0 <= k < |rs| && 0 <= j < |t| ==> !PrefixAt(Placeholder(rs[k].0), t, j)
    ensures SubstituteAll(t, rs) == t
    decreases |rs|
  {
    if rs != [] {
      var n := |rs| - 1;
      assert forall k :: 0 <= k < n ==> rs[..n][k] == rs[k];
      SubstituteWithoutPlaceholders(t, rs[..n]);
      ReplaceFromNoOccurrence(t, Placeholder(rs[n].0), rs[n].1, 0);
    }
  }

  /** Replacing a whole text that is exactly the pattern. */
  lemma ReplaceWhole(pat: string, v: string)
    requires |pat| > 0
    ensures ReplaceAll(pat, pat, v) == v
  {
    assert PrefixAt(pat, pat, 0);
    ReplaceFromAt(pat, pat, v, 0);
  }

  /** The order of insertion is observable: when the value of key `a` spells
      the placeholder of key `b`, that placeholder is filled only if `b` comes
      after `a`. */
  lemma SubstitutionOrderMatters(a: string, b: string, x: string)
    requires forall j :: 0 <= j < |Placeholder(a)| ==> !PrefixAt(Placeholder(b), Placeholder(a), j)
    ensures SubstituteAll(Placeholder(a), [(a, Placeholder(b)), (b, x)]) == x
    ensures SubstituteAll(Placeholder(a), [(b, x), (a, Placeholder(b))]) == Placeholder(b)
  {
    var pa, pb := Placeholder(a), Placeholder(b);
    ReplaceWhole(pa, pb);
    ReplaceWhole(pb, x);
    ReplaceFromNoOccurrence(pa, pb, x, 0);
    var rs1: Responses := [(a, pb), (b, x)];
    var rs2: Responses := [(b, x), (a, pb)];
    assert rs1[..1] == [(a, pb)] && rs1[..1][..0] == [];
    assert rs2[..1] == [(b, x)] && rs2[..1][..0] == [];
    assert SubstituteAll(pa, rs1[..1]) == ReplaceAll(pa, pa, pb) == pb;
    assert SubstituteAll(pa, rs1) == ReplaceAll(pb, pb, x) == x;
    assert SubstituteAll(pa, rs2[..1]) == ReplaceAll(pa, pb, x) == pa;
    assert SubstituteAll(pa, rs2) == ReplaceAll(pa, pa, pb) == pb;
  }

  /** A template made of plain text and one placeholder, with one response:
      the placeholder becomes the value and the text is kept, as in
      `Formatter: {{CODE_FORMATTER}}` becoming `Formatter: black`. */
  lemma SinglePlaceholder(text: string, key: string, value: string)
    requires '{' !in text
    ensures SubstituteAll(text + Placeholder(key), [(key, value)]) == text + value
  {
    var t := text + Placeholder(key);
    var ph := Placeholder(key);
    assert t[|text|..] == ph;
    var rs: Responses := [(key, value)];
    assert rs[..0] == [];
    NoPlaceholderWithoutBrace(t, key, 0, |text|);
    ReplaceFromSkip(t, ph, value, 0, |text|);
    ReplaceFromAt(t, ph, value, |text|);
    assert t[0..|text|] == text;
  }
}
