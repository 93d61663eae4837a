/** The inclusion rule for a conditional block (`should_include_block`). */
module Conditions {
  import opened Strings
  import opened ResponseSet

  /** The condition is split on `_`; the last part is the option and the
      others, joined again with `_`, are the category. The block is kept when
      the response for the category equals the option, ignoring ASCII case. A
      condition that splits into fewer than two parts keeps nothing. */
  function ShouldInclude(cond: string, rs: Responses): bool
  {
    var parts := SplitOn(cond, '_');
    if |parts| >= 2 then
      var category := JoinWith(parts[..|parts| - 1], '_');
      var option := parts[|parts| - 1];
      Lower(Get(rs, category)) == Lower(option)
    else
      false
  }

  /** A condition without an underscore, the empty one included, never keeps
      its block. */
  lemma {:induction false} NoUnderscoreExcluded(cond: string, rs: Responses)
    requires '_' !in cond
    ensures !ShouldInclude(cond, rs)
  {
    SplitHasTwoParts(cond, '_');
  }

  /** With an underscore, the condition splits at its last underscore: what
      precedes it is the category, what follows it the option. */
  lemma {:induction false} ShouldIncludeLastSegment(category: string, option: string, rs: Responses)
    requires '_' !in option
    ensures ShouldInclude(category + "_" + option, rs) <==> Lower(Get(rs, category)) == Lower(option)
  {
    var cond := category + "_" + option;
    SplitConcat(category, option, '_');
    SplitNoSep(option, '_');
    JoinSplit(category, '_');
    var parts := SplitOn(cond, '_');
    assert parts == SplitOn(category, '_') + [option];
    assert parts[..|parts| - 1] == SplitOn(category, '_');
  }

  /** The same rule stated on any condition: `k` is the index of its last
      underscore. */
  lemma {:induction false} ShouldIncludeAtLastUnderscore(cond: string, k: nat, rs: Responses)
    requires k < |cond| && cond[k] == '_'
    requires forall j :: k < j < |cond| ==> cond[j] != '_'
    ensures ShouldInclude(cond, rs) <==> Lower(Get(rs, cond[..k])) == Lower(cond[k + 1..])
  {
    assert cond == cond[..k] + "_" + cond[k + 1..];
    ShouldIncludeLastSegment(cond[..k], cond[k + 1..], rs);
  }

  /** A category with no response reads as the empty string, so it matches
      only an empty option (a condition ending in `_`). */
  lemma {:induction false} MissingCategory(category: string, option: string, rs: Responses)
    requires '_' !in option
    requires !HasKey(rs, category)
    ensures ShouldInclude(category + "_" + option, rs) <==> option == ""
  {
    ShouldIncludeLastSegment(category, option, rs);
    assert Lower("") == "";
  }

  /** Options that differ only in ASCII letter case select the same blocks. */
  lemma {:induction false} OptionCaseIgnored(category: string, o1: string, o2: string, rs: Responses)
    requires '_' !in o1 && '_' !in o2
    requires Lower(o1) == Lower(o2)
    ensures ShouldInclude(category + "_" + o1, rs) == ShouldInclude(category + "_" + o2, rs)
  {
    ShouldIncludeLastSegment(category, o1, rs);
    ShouldIncludeLastSegment(category, o2, rs);
  }

  /** A stored value in upper case still selects the lower-case option. */
  lemma UpperCaseResponseMatches()
    ensures ShouldInclude("package_manager_uv", [("package_manager", "UV")])
    ensures !ShouldInclude("package_manager_pip", [("package_manager", "UV")])
  {
    var rs := [("package_manager", "UV")];
    assert Get(rs, "package_manager") == "UV";
    assert "package_manager_uv" == "package_manager" + "_" + "uv";
    assert "package_manager_pip" == "package_manager" + "_" + "pip";
    ShouldIncludeLastSegment("package_manager", "uv", rs);
    ShouldIncludeLastSegment("package_manager", "pip", rs);
    assert Lower("UV") == "uv";
    assert Lower("uv") == "uv";
  }
}
