/** Conditional blocks `{{#if_COND}}CONTENT{{/if_COND}}`: the pattern, the
    left-to-right pass that rewrites every match, and the loop that repeats
    passes until no block is left. */
module Conditionals {
  import opened Strings
  import opened ResponseSet
  import opened Conditions

  const OpenPrefix: string := "{{#if_"
  const ClosePrefix: string := "{{/if_"
  const MarkerEnd: string := "}}"

  /** The marker that closes a block opened with condition `c`. */
  function CloseMarker(c: string): (m: string)
    ensures |m| == |c| + 8
  {
    ClosePrefix + c + MarkerEnd
  }

  /** The block pattern matches at `p` with condition `c` and content `x`,
      read piece by piece: `{{#if_`, then `c` (non-empty, without `}`), then
      `}}`, then `x` (any characters, line breaks included), then
      `{{/if_`, the same `c` again, and `}}`. */
  predicate IsBlockAt(s: string, p: nat, c: string, x: string)
  {
    |c| > 0 && '}' !in c &&
    PrefixAt(OpenPrefix, s, p) &&
    PrefixAt(c, s, p + 6) &&
    PrefixAt(MarkerEnd, s, p + 6 + |c|) &&
    PrefixAt(x, s, p + 8 + |c|) &&
    PrefixAt(CloseMarker(c), s, p + 8 + |c| + |x|)
  }

  /** The text of a block with condition `c` and content `x`. */
  function BlockText(c: string, x: string): (s: string)
    ensures |s| == BlockLength(c, x)
  {
    OpenPrefix + c + MarkerEnd + x + CloseMarker(c)
  }

  /** The text of a block, with a condition the pattern accepts, is read back
      by the pattern with that condition and content. */
  lemma BlockTextIsBlock(c: string, x: string)
    requires |c| > 0 && '}' !in c
    ensures IsBlockAt(BlockText(c, x), 0, c, x)
  {
    var s := BlockText(c, x);
    assert PrefixAt(s, s, 0);
    PrefixAtConcat(OpenPrefix + c + MarkerEnd + x, CloseMarker(c), s, 0);
    PrefixAtConcat(OpenPrefix + c + MarkerEnd, x, s, 0);
    PrefixAtConcat(OpenPrefix + c, MarkerEnd, s, 0);
    PrefixAtConcat(OpenPrefix, c, s, 0);
  }

  /** A block stays a block when text is put around it. */
  lemma BlockAtShift(a: string, b: string, d: string, c: string, x: string)
    requires IsBlockAt(b, 0, c, x)
    ensures IsBlockAt(a + b + d, |a|, c, x)
  {
    PrefixAtShift(OpenPrefix, a, b, d, 0);
    PrefixAtShift(c, a, b, d, 6);
    PrefixAtShift(MarkerEnd, a, b, d, 6 + |c|);
    PrefixAtShift(x, a, b, d, 8 + |c|);
    PrefixAtShift(CloseMarker(c), a, b, d, 8 + |c| + |x|);
  }

  lemma PrefixAtShift(pat: string, a: string, b: string, d: string, i: nat)
    requires PrefixAt(pat, b, i)
    ensures PrefixAt(pat, a + b + d, |a| + i)
  {
    assert (a + b + d)[|a| + i..|a| + i + |pat|] == b[i..i + |pat|];
  }

  /** The pattern matches somewhere in `s`, as `re.search` reports. */
  ghost predicate HasBlock(s: string)
  {
    exists p: nat, c: string, x: string :: IsBlockAt(s, p, c, x)
  }

  /** One match: its condition, its content and the index just past its
      close marker. */
  datatype Block = Block(cond: string, content: string, end: nat)

  /** The end of the run of non-`}` characters that starts at `i`. */
  function RunEnd(s: string, i: nat): (e: nat)
    requires i <= |s|
    ensures i <= e <= |s|
    ensures forall j :: i <= j < e ==> s[j] != '}'
    ensures e < |s| ==> s[e] == '}'
    decreases |s| - i
  {
    if i == |s| || s[i] == '}' then i else RunEnd(s, i + 1)
  }

  /** The match the pattern makes at `p`, if any. The condition can only be
      the whole run of non-`}` characters after `{{#if_`, since a shorter one
      would be followed by a character other than `}`; the content is lazy,
      so it ends at the first close marker carrying that condition. */
  function MatchAt(s: string, p: nat): (m: Option<Block>)
    requires p <= |s|
    ensures m.Some? ==> m.value.end <= |s|
    ensures m.Some? ==> m.value.end - p == |m.value.content| + 2 * |m.value.cond| + 16
  {
    if !PrefixAt(OpenPrefix, s, p) then None
    else
      var ce := RunEnd(s, p + 6);
      if ce == p + 6 || !PrefixAt(MarkerEnd, s, ce) then None
      else
        var c := s[p + 6..ce];
        match FindFrom(s, CloseMarker(c), ce + 2)
        case None => None
        case Some(q) => Some(Block(c, s[ce + 2..q], q + |CloseMarker(c)|))
  }

  lemma RunEndAt(s: string, i: nat, e: nat)
    requires i <= e < |s| && s[e] == '}'
    requires forall j :: i <= j < e ==> s[j] != '}'
    ensures RunEnd(s, i) == e
    decreases e - i
  {
    if i < e {
      RunEndAt(s, i + 1, e);
    }
  }

  /** The pieces of a match found at `p`, as `MatchAt` reads them: the
      open prefix, the condition and the `}}` after it ... */
  lemma MatchAtOpen(s: string, p: nat)
    requires p <= |s| && MatchAt(s, p).Some?
    ensures var c := MatchAt(s, p).value.cond;
      p + 8 + |c| <= |s| && |c| > 0 && PrefixAt(OpenPrefix, s, p) &&
      RunEnd(s, p + 6) == p + 6 + |c| && c == s[p + 6..p + 6 + |c|] &&
      PrefixAt(MarkerEnd, s, p + 6 + |c|)
  {
  }

  /** ... then the content, up to the first close marker. */
  lemma MatchAtClose(s: string, p: nat)
    requires p <= |s| && MatchAt(s, p).Some?
    ensures var b := MatchAt(s, p).value;
      var cs := p + 8 + |b.cond|;
      cs + |b.content| <= |s| &&
      FindFrom(s, CloseMarker(b.cond), cs) == Some(cs + |b.content|) &&
      b.content == s[cs..cs + |b.content|]
  {
    MatchAtOpen(s, p);
    var c := MatchAt(s, p).value.cond;
    var f := FindFrom(s, CloseMarker(c), p + 8 + |c|);
    assert f.Some? && MatchAt(s, p).value.content == s[p + 8 + |c|..f.value];
  }

  /** A match found at `p` is an instance of the pattern. */
  lemma MatchAtSound(s: string, p: nat)
    requires p <= |s| && MatchAt(s, p).Some?
    ensures IsBlockAt(s, p, MatchAt(s, p).value.cond, MatchAt(s, p).value.content)
  {
    MatchAtOpen(s, p);
    MatchAtClose(s, p);
    var b := MatchAt(s, p).value;
    forall j | 0 <= j < |b.cond|
      ensures b.cond[j] != '}'
    {
      assert b.cond[j] == s[p + 6 + j];
    }
  }

  /** ... and its content is the shortest that closes it: the content is
      lazy. */
  lemma MatchAtShortest(s: string, p: nat, x: string)
    requires p <= |s| && MatchAt(s, p).Some?
    requires |x| < |MatchAt(s, p).value.content|
    ensures !IsBlockAt(s, p, MatchAt(s, p).value.cond, x)
  {
    MatchAtClose(s, p);
    var b := MatchAt(s, p).value;
    assert !PrefixAt(CloseMarker(b.cond), s, p + 8 + |b.cond| + |x|);
  }

  /** Wherever the pattern can match, `MatchAt` finds a match, with the same
      condition and a content no longer than any other. */
  lemma MatchAtComplete(s: string, p: nat, c: string, x: string)
    requires IsBlockAt(s, p, c, x)
    ensures p < |s| && MatchAt(s, p).Some?
    ensures MatchAt(s, p).value.cond == c
    ensures |MatchAt(s, p).value.content| <= |x|
  {
    var ce := p + 6 + |c|;
    assert s[ce] == MarkerEnd[0];
    forall j | p + 6 <= j < ce
      ensures s[j] != '}'
    {
      assert s[j] == s[p + 6..ce][j - p - 6] == c[j - p - 6];
    }
    RunEndAt(s, p + 6, ce);
    assert PrefixAt(CloseMarker(c), s, ce + 2 + |x|);
  }

  /** The first index from `p` on where the pattern matches, as
      `re.search` looks for it. */
  function Search(s: string, p: nat): (r: Option<nat>)
    requires p <= |s|
    ensures r.Some? ==> p <= r.value < |s| && MatchAt(s, r.value).Some?
    ensures r.Some? ==> forall q :: p <= q < r.value ==> MatchAt(s, q).None?
    ensures r.None? ==> forall q :: p <= q < |s| ==> MatchAt(s, q).None?
    decreases |s| - p
  {
    if p == |s| then None
    else if MatchAt(s, p).None? then Search(s, p + 1)
    else Some(p)
  }

  /** Searching from the start succeeds exactly when the pattern matches
      somewhere. */
  lemma SearchIffHasBlock(s: string)
    ensures Search(s, 0).Some? <==> HasBlock(s)
  {
    if Search(s, 0).Some? {
      MatchAtSound(s, Search(s, 0).value);
    } else if HasBlock(s) {
      var p: nat, c: string, x: string :| IsBlockAt(s, p, c, x);
      MatchAtComplete(s, p, c, x);
    }
  }

  /** What `replace_conditional` puts in place of a match. */
  function Replacement(b: Block, rs: Responses): string
  {
    if ShouldInclude(b.cond, rs) then b.content else ""
  }

  /** One `re.sub` pass from index `p` on: at each index a match is replaced
      and the pass resumes after it, otherwise the character is copied. The
      result is never longer than the text, and shorter when a match exists. */
  function Scan(s: string, p: nat, rs: Responses): (r: string)
    requires p <= |s|
    ensures |r| <= |s| - p
    ensures Search(s, p).Some? ==> |r| < |s| - p
    decreases |s| - p
  {
    if p == |s| then ""
    else
      match MatchAt(s, p)
      case Some(b) => Replacement(b, rs) + Scan(s, b.end, rs)
      case None => [s[p]] + Scan(s, p + 1, rs)
  }

  function Pass(s: string, rs: Responses): string
  {
    Scan(s, 0, rs)
  }

  lemma ScanCopy(s: string, p: nat, rs: Responses)
    requires p < |s| && MatchAt(s, p).None?
    ensures Scan(s, p, rs) == [s[p]] + Scan(s, p + 1, rs)
  {
  }

  /** A match is replaced by what `replace_conditional` returns for it, and
      the pass resumes after the match. */
  lemma ScanAtMatch(s: string, p: nat, rs: Responses)
    requires p <= |s| && MatchAt(s, p).Some?
    ensures Scan(s, p, rs) == Replacement(MatchAt(s, p).value, rs) + Scan(s, MatchAt(s, p).value.end, rs)
  {
  }

  /** Indices where the pattern does not match are copied as they are. */
  lemma {:induction false} ScanSkip(s: string, p: nat, k: nat, rs: Responses)
    requires p <= k <= |s|
    requires forall q :: p <= q < k ==> MatchAt(s, q).None?
    ensures Scan(s, p, rs) == s[p..k] + Scan(s, k, rs)
    decreases k - p
  {
    if p < k {
      ScanSkip(s, p + 1, k, rs);
      ScanCopy(s, p, rs);
      ConsSlice(s, p, k, Scan(s, k, rs));
    }
  }

  /** One pass, seen from index `p`: the text up to the leftmost match is
      copied, the match becomes its content when the condition holds and
      the empty string otherwise, and the pass goes on after the match;
      with no match left, the rest is copied unchanged. */
  lemma ScanLeftmost(s: string, p: nat, rs: Responses)
    requires p <= |s|
    ensures Search(s, p).None? ==> Scan(s, p, rs) == s[p..]
    ensures Search(s, p).Some? ==>
      var q := Search(s, p).value;
      var b := MatchAt(s, q).value;
      Scan(s, p, rs) == s[p..q] + (if ShouldInclude(b.cond, rs) then b.content else "") + Scan(s, b.end, rs)
  {
    match Search(s, p)
    case None =>
      ScanSkip(s, p, |s|, rs);
    case Some(q) =>
      var b := MatchAt(s, q).value;
      ScanSkip(s, p, q, rs);
      ScanAtMatch(s, q, rs);
      AppendAssoc(s[p..q], Replacement(b, rs), Scan(s, b.end, rs), Scan(s, q, rs));
  }

  lemma AppendAssoc(a: string, b: string, c: string, r: string)
    requires r == b + c
    ensures a + r == a + b + c
  {
  }

  /** The length of a block with condition `c` and content `x`. */
  function BlockLength(c: string, x: string): nat
  {
    |x| + 2 * |c| + 16
  }

  /** A block whose content holds no close marker for its condition is
      matched whole. */
  lemma MatchAtBlock(s: string, p: nat, c: string, x: string)
    requires IsBlockAt(s, p, c, x)
    requires forall q :: p + 8 + |c| <= q < p + 8 + |c| + |x| ==> !PrefixAt(CloseMarker(c), s, q)
    ensures p < |s| && MatchAt(s, p) == Some(Block(c, x, p + BlockLength(c, x)))
  {
    MatchAtComplete(s, p, c, x);
    MatchAtClose(s, p);
    var b := MatchAt(s, p).value;
    assert PrefixAt(CloseMarker(c), s, p + 8 + |c| + |b.content|);
    assert |b.content| == |x|;
    assert b.content == s[p + 8 + |c|..p + 8 + |c| + |x|] == x;
  }

  /** A text that is one whole block, with no close marker for its
      condition before the final one: the pass yields the content, inner
      blocks untouched, when the condition holds, and nothing otherwise. */
  lemma PassWholeBlock(s: string, c: string, x: string, rs: Responses)
    requires IsBlockAt(s, 0, c, x) && |s| == BlockLength(c, x)
    requires forall q :: 8 + |c| <= q < 8 + |c| + |x| ==> !PrefixAt(CloseMarker(c), s, q)
    ensures Pass(s, rs) == (if ShouldInclude(c, rs) then x else "")
  {
    MatchAtBlock(s, 0, c, x);
    ScanAtMatch(s, 0, rs);
  }

  /** Two matches side by side that end the text are both replaced in the
      same pass. */
  lemma ScanTwoMatches(s: string, p: nat, b1: Block, b2: Block, rs: Responses)
    requires p <= |s| && MatchAt(s, p) == Some(b1)
    requires b1.end <= |s| && MatchAt(s, b1.end) == Some(b2) && b2.end == |s|
    ensures Scan(s, p, rs) == Replacement(b1, rs) + Replacement(b2, rs)
  {
    ScanAtMatch(s, b1.end, rs);
    ScanAtMatch(s, p, rs);
  }

  /** Sibling blocks offering two options of one category, such as
      `package_manager_uv` followed by `package_manager_pip`: when the
      response selects the first option, in any letter case, only the first
      content remains. */
  lemma ResolveFirstOfTwoOptions(s: string, category: string, o1: string, o2: string,
                                 x1: string, x2: string, e: nat, rs: Responses)
    requires '_' !in o1 && '_' !in o2
    requires e <= |s|
    requires MatchAt(s, 0) == Some(Block(category + "_" + o1, x1, e))
    requires MatchAt(s, e) == Some(Block(category + "_" + o2, x2, |s|))
    requires Lower(Get(rs, category)) == Lower(o1) && Lower(o1) != Lower(o2)
    requires forall q :: 0 <= q < |x1| ==> !PrefixAt(OpenPrefix, x1, q)
    ensures ResolveConditionals(s, rs) == x1
  {
    var b1, b2 := Block(category + "_" + o1, x1, e), Block(category + "_" + o2, x2, |s|);
    ScanTwoMatches(s, 0, b1, b2, rs);
    OptionReplacement(category, o1, x1, e, rs);
    OptionReplacement(category, o2, x2, |s|, rs);
    assert Pass(s, rs) == x1;
    assert Search(s, 0).Some?;
    NoOpenUnchanged(x1, rs);
  }

  /** A block whose condition is a category and an option keeps its content
      exactly when the response for the category is that option. */
  lemma OptionReplacement(category: string, o: string, x: string, e: nat, rs: Responses)
    requires '_' !in o
    ensures Replacement(Block(category + "_" + o, x, e), rs) ==
      (if Lower(Get(rs, category)) == Lower(o) then x else "")
  {
    ShouldIncludeLastSegment(category, o, rs);
  }

  /** Nested blocks resolve from the outside in: a kept outer block leaves
      its content, inner blocks included, to the later passes, and a dropped
      outer block removes its inner blocks with it. */
  lemma ResolveWholeBlock(s: string, c: string, x: string, rs: Responses)
    requires IsBlockAt(s, 0, c, x) && |s| == BlockLength(c, x)
    requires forall q :: 8 + |c| <= q < 8 + |c| + |x| ==> !PrefixAt(CloseMarker(c), s, q)
    ensures ResolveConditionals(s, rs) == (if ShouldInclude(c, rs) then ResolveConditionals(x, rs) else "")
  {
    PassWholeBlock(s, c, x, rs);
    MatchAtComplete(s, 0, c, x);
    assert Search(s, 0).Some?;
    assert Search("", 0).None?;
  }

  /** An open marker whose close marker never follows is never matched with
      that condition. */
  lemma UnclosedNotMatched(s: string, p: nat, c: string)
    requires p <= |s|
    requires forall q :: p <= q <= |s| ==> !PrefixAt(CloseMarker(c), s, q)
    ensures MatchAt(s, p).Some? ==> MatchAt(s, p).value.cond != c
  {
    if MatchAt(s, p).Some? {
      MatchAtSound(s, p);
      var b := MatchAt(s, p).value;
      assert PrefixAt(CloseMarker(b.cond), s, p + 8 + |b.cond| + |b.content|);
    }
  }

  /** A match starts with the open marker of its condition. */
  lemma MatchAtOpener(s: string, p: nat)
    requires p <= |s| && MatchAt(s, p).Some?
    ensures PrefixAt(OpenPrefix + MatchAt(s, p).value.cond + MarkerEnd, s, p)
  {
    var c := MatchAt(s, p).value.cond;
    MatchAtOpen(s, p);
    PrefixAtConcat(OpenPrefix, c, s, p);
    PrefixAtConcat(OpenPrefix + c, MarkerEnd, s, p);
  }

  /** A text in which no open marker's condition is ever closed after it
      holds no match, and the loop returns it unchanged. */
  lemma UnclosedOpenersUnchanged(s: string, rs: Responses)
    requires forall p, c :: 0 <= p < |s| && PrefixAt(OpenPrefix + c + MarkerEnd, s, p) ==>
      forall q :: p <= q <= |s| ==> !PrefixAt(CloseMarker(c), s, q)
    ensures ResolveConditionals(s, rs) == s
  {
    forall p | 0 <= p < |s|
      ensures MatchAt(s, p).None?
    {
      if MatchAt(s, p).Some? {
        MatchAtOpener(s, p);
        UnclosedNotMatched(s, p, MatchAt(s, p).value.cond);
      }
    }
    assert Search(s, 0).None?;
  }

  /** The text of the example below, read as one block holding an open
      marker. */
  lemma NestedUnclosedText()
    ensures "{{#if_a_b}}{{#if_c_d}}{{/if_a_b}}" == BlockText("a_b", OpenPrefix + "c_d" + MarkerEnd)
  {
  }

  /** In that text `c_d` is never closed, and `a_b` is not closed inside
      the block's content. */
  lemma NestedUnclosedMarkers()
    ensures var s := "{{#if_a_b}}{{#if_c_d}}{{/if_a_b}}";
      (forall q :: 0 <= q <= |s| ==> !PrefixAt(CloseMarker("c_d"), s, q)) &&
      (forall q :: 11 <= q < 22 ==> !PrefixAt(CloseMarker("a_b"), s, q))
  {
    var s := "{{#if_a_b}}{{#if_c_d}}{{/if_a_b}}";
    forall q | 0 <= q <= |s|
      ensures !PrefixAt(CloseMarker("c_d"), s, q)
    {
      PrefixAtChar(CloseMarker("c_d"), s, q, 2);
      PrefixAtChar(CloseMarker("c_d"), s, q, 6);
    }
    forall q | 11 <= q < 22
      ensures !PrefixAt(CloseMarker("a_b"), s, q)
    {
      PrefixAtChar(CloseMarker("a_b"), s, q, 2);
    }
  }

  /** An open marker that is never closed is still removed when it sits
      inside a block that is dropped: with no response for `a`, the block
      `a_b` goes, and the unclosed `{{#if_c_d}}` inside it goes too. */
  lemma UnclosedInsideDroppedBlock(rs: Responses)
    requires !HasKey(rs, "a")
    ensures var s := "{{#if_a_b}}{{#if_c_d}}{{/if_a_b}}";
      PrefixAt(OpenPrefix + "c_d" + MarkerEnd, s, 11) &&
      (forall q :: 0 <= q <= |s| ==> !PrefixAt(CloseMarker("c_d"), s, q)) &&
      ResolveConditionals(s, rs) == ""
  {
    var s := "{{#if_a_b}}{{#if_c_d}}{{/if_a_b}}";
    var x := OpenPrefix + "c_d" + MarkerEnd;
    NestedUnclosedText();
    NestedUnclosedMarkers();
    BlockTextIsBlock("a_b", x);
    MissingCategory("a", "b", rs);
    assert "a_b" == "a" + "_" + "b";
    ResolveWholeBlock(s, "a_b", x, rs);
  }

  /** While some match remains, the loop makes one more pass. */
  lemma ResolveAfterMatch(s: string, p: nat, rs: Responses)
    requires p <= |s| && MatchAt(s, p).Some?
    ensures ResolveConditionals(s, rs) == ResolveConditionals(Pass(s, rs), rs)
  {
    assert Search(s, 0).Some?;
  }

  /** The text of the example below: an open marker `c_d`, the start of
      its close marker, an empty block `a_b`, and the rest of the close
      marker. */
  lemma FormedCloseText()
    ensures "{{#if_c_d}}{{/if_c{{#if_a_b}}{{/if_a_b}}_d}}" ==
      "{{#if_c_d}}{{/if_c" + BlockText("a_b", "") + "_d}}"
  {
  }

  /** In that text the close marker of `c_d` occurs nowhere. */
  lemma FormedCloseNoClose()
    ensures var s := "{{#if_c_d}}{{/if_c{{#if_a_b}}{{/if_a_b}}_d}}";
      forall q :: 0 <= q <= |s| ==> !PrefixAt(CloseMarker("c_d"), s, q)
  {
    var s := "{{#if_c_d}}{{/if_c{{#if_a_b}}{{/if_a_b}}_d}}";
    forall q | 0 <= q <= |s|
      ensures !PrefixAt(CloseMarker("c_d"), s, q)
    {
      PrefixAtChar(CloseMarker("c_d"), s, q, 2);
      PrefixAtChar(CloseMarker("c_d"), s, q, 6);
      PrefixAtChar(CloseMarker("c_d"), s, q, 7);
    }
  }

  /** Open markers start only at 0 and 18; the one at 0 has condition `c_d`. */
  lemma FormedCloseOpeners()
    ensures var s := "{{#if_c_d}}{{/if_c{{#if_a_b}}{{/if_a_b}}_d}}";
      (forall q :: 0 < q < 18 || 40 <= q < |s| ==> !PrefixAt(OpenPrefix, s, q)) &&
      s[9] == '}' && (forall j :: 6 <= j < 9 ==> s[j] != '}') && s[6..9] == "c_d"
  {
    var s := "{{#if_c_d}}{{/if_c{{#if_a_b}}{{/if_a_b}}_d}}";
    forall q | 0 < q < 18 || 40 <= q < |s|
      ensures !PrefixAt(OpenPrefix, s, q)
    {
      PrefixAtChar(OpenPrefix, s, q, 2);
    }
    assert s[6] == 'c' && s[7] == '_' && s[8] == 'd' && s[9] == '}';
    assert s[6..9] == [s[6], s[7], s[8]];
  }

  /** The text outside the block `a_b` is the block `c_d`. */
  lemma FormedCloseSides()
    ensures var s := "{{#if_c_d}}{{/if_c{{#if_a_b}}{{/if_a_b}}_d}}";
      s[0..18] + s[40..|s|] == BlockText("c_d", "")
  {
    var s := "{{#if_c_d}}{{/if_c{{#if_a_b}}{{/if_a_b}}_d}}";
    assert s[0..18] == "{{#if_c_d}}{{/if_c";
    assert s[40..|s|] == "_d}}";
  }

  /** No match starts outside the block `a_b`. */
  lemma FormedCloseNoMatch()
    ensures var s := "{{#if_c_d}}{{/if_c{{#if_a_b}}{{/if_a_b}}_d}}";
      forall q :: 0 <= q < 18 || 40 <= q < |s| ==> MatchAt(s, q).None?
  {
    var s := "{{#if_c_d}}{{/if_c{{#if_a_b}}{{/if_a_b}}_d}}";
    FormedCloseNoClose();
    FormedCloseOpeners();
    forall q | 0 <= q < 18 || 40 <= q < |s|
      ensures MatchAt(s, q).None?
    {
      if MatchAt(s, q).Some? {
        MatchAtOpen(s, q);
        if q == 0 {
          RunEndAt(s, 6, 9);
          UnclosedNotMatched(s, 0, "c_d");
        }
      }
    }
  }

  /** With no response for `a`, one pass over that text drops the block
      `a_b`, and its two sides join into the block `c_d`. */
  lemma FormedClosePass(rs: Responses)
    requires !HasKey(rs, "a")
    ensures var s := "{{#if_c_d}}{{/if_c{{#if_a_b}}{{/if_a_b}}_d}}";
      MatchAt(s, 0).None? && Pass(s, rs) == BlockText("c_d", "") &&
      ResolveConditionals(s, rs) == ResolveConditionals(BlockText("c_d", ""), rs)
  {
    var s := "{{#if_c_d}}{{/if_c{{#if_a_b}}{{/if_a_b}}_d}}";
    FormedCloseText();
    FormedCloseNoMatch();
    FormedCloseSides();
    BlockTextIsBlock("a_b", "");
    BlockAtShift("{{#if_c_d}}{{/if_c", BlockText("a_b", ""), "_d}}", "a_b", "");
    MatchAtBlock(s, 18, "a_b", "");
    MissingCategory("a", "b", rs);
    assert "a_b" == "a" + "_" + "b";
    ScanSkip(s, 40, |s|, rs);
    assert Scan(s, 40, rs) == s[40..|s|];
    ScanAtMatch(s, 18, rs);
    assert Scan(s, 18, rs) == s[40..|s|];
    ScanSkip(s, 0, 18, rs);
    ResolveAfterMatch(s, 18, rs);
  }

  /** With no response for `c`, the block `c_d` resolves to nothing. */
  lemma FormedCloseDropped(rs: Responses)
    requires !HasKey(rs, "c")
    ensures ResolveConditionals(BlockText("c_d", ""), rs) == ""
  {
    BlockTextIsBlock("c_d", "");
    MissingCategory("c", "d", rs);
    assert "c_d" == "c" + "_" + "d";
    ResolveWholeBlock(BlockText("c_d", ""), "c_d", "", rs);
  }

  /** A close marker that occurs nowhere in the text can still be formed
      by a pass: dropping the block `a_b` joins `{{/if_c` and `_d}}`, and
      the opener at 0, which no block surrounds and which is never closed in
      the text, is removed by the next pass. */
  lemma ClosedByDroppedBlock(rs: Responses)
    requires !HasKey(rs, "a") && !HasKey(rs, "c")
    ensures var s := "{{#if_c_d}}{{/if_c{{#if_a_b}}{{/if_a_b}}_d}}";
      (forall q :: 0 <= q <= |s| ==> !PrefixAt(CloseMarker("c_d"), s, q)) &&
      MatchAt(s, 0).None? && ResolveConditionals(s, rs) == ""
  {
    FormedCloseNoClose();
    FormedClosePass(rs);
    FormedCloseDropped(rs);
  }

  /** The `while` loop of `process_conditionals` as a function: passes are
      repeated while the pattern matches. The result holds no block. */
  function ResolveConditionals(s: string, rs: Responses): (r: string)
    ensures !HasBlock(r)
    decreases |s|
  {
    if Search(s, 0).Some? then ResolveConditionals(Pass(s, rs), rs)
    else SearchIffHasBlock(s); s
  }

  /** `process_conditionals`: rewrite the template with whole passes until
      the pattern no longer matches. */
  method ProcessConditionals(template: string, rs: Responses) returns (r: string)
    ensures r == ResolveConditionals(template, rs)
    ensures !HasBlock(r)
  {
    r := template;
    while Search(r, 0).Some?
      invariant ResolveConditionals(r, rs) == ResolveConditionals(template, rs)
      decreases |r|
    {
      r := Pass(r, rs);
    }
  }

  /** Without any block the loop makes no pass. */
  lemma ResolveNoBlock(s: string, rs: Responses)
    requires !HasBlock(s)
    ensures ResolveConditionals(s, rs) == s
  {
    SearchIffHasBlock(s);
  }

  /** Resolving twice is resolving once. */
  lemma ResolveIdempotent(s: string, rs: Responses)
    ensures ResolveConditionals(ResolveConditionals(s, rs), rs) == ResolveConditionals(s, rs)
  {
    ResolveNoBlock(ResolveConditionals(s, rs), rs);
  }

  /** Text without any open marker is left as it is, stray close markers
      included. */
  lemma NoOpenUnchanged(s: string, rs: Responses)
    requires forall q :: 0 <= q < |s| ==> !PrefixAt(OpenPrefix, s, q)
    ensures ResolveConditionals(s, rs) == s
  {
    assert forall q :: 0 <= q < |s| ==> MatchAt(s, q).None?;
  }
}
