/** `process_template`: every placeholder substitution first, in insertion
    order, then conditional-block resolution on the substituted text with
    the same responses. */
module Customize {
  import opened Strings
  import opened ResponseSet
  import opened Substitution
  import opened Conditions
  import opened Conditionals

  /** What `process_template` returns for a template and the responses. */
  function Resolve(template: string, rs: Responses): string
  {
    ResolveConditionals(SubstituteAll(template, rs), rs)
  }

  method ProcessTemplate(template: string, responses: Responses) returns (r: string)
    ensures r == Resolve(template, responses)
    ensures !HasBlock(r)
  {
    r := template;
    for i := 0 to |responses|
      invariant r == SubstituteAll(template, responses[..i])
    {
      var (key, value) := responses[i];
      assert responses[..i + 1][..i] == responses[..i];
      r := ReplaceAll(r, Placeholder(key), value);
    }
    assert responses[..|responses|] == responses;
    r := ProcessConditionals(r, responses);
  }

  /** Text without `{{` holds no open marker. */
  lemma NoBracesNoOpen(t: string)
    requires forall j :: 0 <= j < |t| ==> !PrefixAt("{{", t, j)
    ensures forall j :: 0 <= j < |t| ==> !PrefixAt(OpenPrefix, t, j)
  {
    forall j | 0 <= j < |t|
      ensures !PrefixAt(OpenPrefix, t, j)
    {
      PrefixAtConcat("{{", "#if_", t, j);
      assert OpenPrefix == "{{" + "#if_";
    }
  }

  /** A template with no `{{` at all holds neither placeholders nor blocks
      and comes out unchanged. */
  lemma PlainTemplateUnchanged(template: string, rs: Responses)
    requires forall j :: 0 <= j < |template| ==> !PrefixAt("{{", template, j)
    ensures Resolve(template, rs) == template
  {
    SubstituteWithoutBraces(template, rs);
    NoBracesNoOpen(template);
    NoOpenUnchanged(template, rs);
  }

  /** A template holding no response's placeholder and no block comes out
      unchanged, whatever other `{{` it contains. */
  lemma MarkerFreeTemplateUnchanged(template: string, rs: Responses)
    requires forall k, j :: 0 <= k < |rs| && 0 <= j < |template| ==> !PrefixAt(Placeholder(rs[k].0), template, j)
    requires !HasBlock(template)
    ensures Resolve(template, rs) == template
  {
    SubstituteWithoutPlaceholders(template, rs);
    ResolveNoBlock(template, rs);
  }

  /** Substitution runs before resolution: a response value that spells a
      whole conditional block, put in by its placeholder, is resolved like
      a block written in the template. */
  lemma ValueBlockResolved(key: string, v: string, c: string, x: string)
    requires IsBlockAt(v, 0, c, x) && |v| == BlockLength(c, x)
    requires forall q :: 8 + |c| <= q < 8 + |c| + |x| ==> !PrefixAt(CloseMarker(c), v, q)
    ensures Resolve(Placeholder(key), [(key, v)]) ==
      (if ShouldInclude(c, [(key, v)]) then ResolveConditionals(x, [(key, v)]) else "")
  {
    var rs: Responses := [(key, v)];
    assert rs[..0] == [];
    ReplaceWhole(Placeholder(key), v);
    assert SubstituteAll(Placeholder(key), rs) == v;
    ResolveWholeBlock(v, c, x, rs);
  }

  /** No placeholder contains an open marker: the key is upper-cased, so
      the lower-case `f` of `{{#if_` never appears in it. */
  lemma PlaceholderHasNoOpen(key: string)
    ensures forall q :: 0 <= q < |Placeholder(key)| ==> !PrefixAt(OpenPrefix, Placeholder(key), q)
  {
    var ph := Placeholder(key);
    assert ph == "{{" + Upper(key) + "}}";
    forall q | 0 <= q < |ph|
      ensures !PrefixAt(OpenPrefix, ph, q)
    {
      PrefixAtChar(OpenPrefix, ph, q, 4);
      if q + 4 < |ph| {
        if 2 <= q + 4 < |ph| - 2 {
          assert ph[q + 4] == Upper(key)[q + 2] == UpperChar(key[q + 2]);
        }
        assert ph[q + 4] != 'f';
      }
    }
  }

  /** Resolving is not idempotent when a response value spells the
      placeholder of a key substituted before it: the first run leaves that
      placeholder in the output, and a second run fills it. */
  lemma ResolveTwiceDiffers(a: string, b: string, x: string)
    requires forall j :: 0 <= j < |Placeholder(a)| ==> !PrefixAt(Placeholder(b), Placeholder(a), j)
    requires forall j :: 0 <= j < |x| ==> !PrefixAt("{{", x, j)
    ensures var rs: Responses := [(b, x), (a, Placeholder(b))];
      Resolve(Placeholder(a), rs) == Placeholder(b) &&
      Resolve(Resolve(Placeholder(a), rs), rs) == x
  {
    var rs: Responses := [(b, x), (a, Placeholder(b))];
    SubstitutionOrderMatters(a, b, x);
    PlaceholderHasNoOpen(b);
    NoOpenUnchanged(Placeholder(b), rs);
    assert Resolve(Placeholder(a), rs) == Placeholder(b);
    assert rs[..1] == [(b, x)] && rs[..1][..0] == [];
    ReplaceWhole(Placeholder(b), x);
    assert SubstituteAll(Placeholder(b), rs[..1]) == x;
    ReplaceWithoutBraces(x, a, Placeholder(b));
    assert SubstituteAll(Placeholder(b), rs) == x;
    NoBracesNoOpen(x);
    NoOpenUnchanged(x, rs);
  }
}
