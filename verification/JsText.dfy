/** The parts of JavaScript's String.prototype.replace that the scripts use: replacement templates
    (GetSubstitution of ECMA-262, for patterns without groups) and where a literal occurs. */
module JsText {

  /** The characters that make a directive after a dollar sign. */
  predicate IsDirective(c: char) {
    c == '$' || c == '&' || c == '`' || c == '\''
  }

  /** What one directive stands for: a dollar sign, the match, what precedes it, what follows it. */
  function Part(c: char, matched: string, before: string, after: string): string {
    if c == '$' then "$" else if c == '&' then matched else if c == '`' then before else after
  }

  /** The text a replacement template stands for. */
  function Expand(template: string, matched: string, before: string, after: string): string {
    if template == "" then ""
    else if |template| >= 2 && template[0] == '$' && IsDirective(template[1]) then
      Part(template[1], matched, before, after) + Expand(template[2..], matched, before, after)
    else [template[0]] + Expand(template[1..], matched, before, after)
  }

  /** A directive at the start becomes the dollar sign, the match, the text before it or the text after it,
      and the rest of the template is expanded as if it stood alone. */
  lemma DirectivesStandFor(rest: string, matched: string, before: string, after: string)
    ensures Expand("$$" + rest, matched, before, after) == "$" + Expand(rest, matched, before, after)
    ensures Expand("$&" + rest, matched, before, after) == matched + Expand(rest, matched, before, after)
    ensures Expand("$`" + rest, matched, before, after) == before + Expand(rest, matched, before, after)
    ensures Expand("$'" + rest, matched, before, after) == after + Expand(rest, matched, before, after)
  {
    assert ("$$" + rest)[2..] == rest && ("$&" + rest)[2..] == rest && ("$`" + rest)[2..] == rest && ("$'" + rest)[2..] == rest;
  }

  predicate HasDirective(template: string) {
    |template| >= 2 && ((template[0] == '$' && IsDirective(template[1])) || HasDirective(template[1..]))
  }

  /** A `$&` that the expansion reaches. */
  predicate UsesMatch(template: string) {
    if |template| < 2 then false
    else if template[0] == '$' && IsDirective(template[1]) then template[1] == '&' || UsesMatch(template[2..])
    else UsesMatch(template[1..])
  }

  lemma {:induction false} LiteralExpands(template: string, matched: string, before: string, after: string)
    requires !HasDirective(template)
    ensures Expand(template, matched, before, after) == template
  {
    if template != "" {
      LiteralExpands(template[1..], matched, before, after);
      assert template == [template[0]] + template[1..];
    }
  }

  lemma {:induction false} DirectivesShrink(template: string)
    ensures |Expand(template, "", "", "")| <= |template|
    ensures HasDirective(template) ==> |Expand(template, "", "", "")| < |template|
  {
    if template != "" {
      if |template| >= 2 && template[0] == '$' && IsDirective(template[1]) {
        DirectivesShrink(template[2..]);
      } else {
        DirectivesShrink(template[1..]);
      }
    }
  }

  /** A template stands for itself wherever it is used exactly when it holds no directive. */
  lemma LiteralExactly(template: string)
    ensures !HasDirective(template) <==> forall m, b, a :: Expand(template, m, b, a) == template
  {
    if HasDirective(template) {
      DirectivesShrink(template);
      assert Expand(template, "", "", "") != template;
    } else {
      forall m, b, a ensures Expand(template, m, b, a) == template {
        LiteralExpands(template, m, b, a);
      }
    }
  }

  lemma {:induction false} ExpandPrefix(prefix: string, template: string, matched: string, before: string, after: string)
    requires '$' !in prefix
    ensures Expand(prefix + template, matched, before, after) == prefix + Expand(template, matched, before, after)
  {
    if prefix == "" {
      assert prefix + template == template;
    } else {
      assert (prefix + template)[1..] == prefix[1..] + template;
      ExpandPrefix(prefix[1..], template, matched, before, after);
      assert prefix == [prefix[0]] + prefix[1..];
    }
  }

  lemma {:induction false} ExpandSuffix(template: string, suffix: string, matched: string, before: string, after: string)
    requires '$' !in suffix && (suffix != "" ==> !IsDirective(suffix[0]))
    ensures Expand(template + suffix, matched, before, after) == Expand(template, matched, before, after) + suffix
  {
    var whole := template + suffix;
    if template == "" {
      assert whole == suffix + "";
      ExpandPrefix(suffix, "", matched, before, after);
    } else if |template| >= 2 && template[0] == '$' && IsDirective(template[1]) {
      assert whole[2..] == template[2..] + suffix;
      ExpandSuffix(template[2..], suffix, matched, before, after);
      Associates(Part(template[1], matched, before, after), Expand(template[2..], matched, before, after), suffix);
    } else {
      assert whole[1..] == template[1..] + suffix;
      ExpandSuffix(template[1..], suffix, matched, before, after);
      Associates([template[0]], Expand(template[1..], matched, before, after), suffix);
      assert |template| == 1 && template[0] == '$' && |whole| >= 2 ==> !IsDirective(whole[1]);
    }
  }

  lemma Associates(a: string, b: string, c: string)
    ensures a + b + c == a + (b + c)
  {
  }

  lemma {:induction false} UnusedMatch(template: string, m1: string, m2: string, before: string, after: string)
    requires !UsesMatch(template)
    ensures Expand(template, m1, before, after) == Expand(template, m2, before, after)
  {
    if template != "" {
      if |template| >= 2 && template[0] == '$' && IsDirective(template[1]) {
        UnusedMatch(template[2..], m1, m2, before, after);
      } else {
        UnusedMatch(template[1..], m1, m2, before, after);
      }
    }
  }

  /** With a `$&` the expansion holds the match, and grows with it at least as fast. */
  lemma {:induction false} UsedMatchGrows(template: string, m1: string, m2: string, before: string, after: string)
    requires |m1| <= |m2|
    ensures |Expand(template, m1, before, after)| <= |Expand(template, m2, before, after)|
    ensures UsesMatch(template) ==>
              && |Expand(template, m1, before, after)| >= |m1|
              && |Expand(template, m2, before, after)| - |Expand(template, m1, before, after)| >= |m2| - |m1|
  {
    if template != "" {
      if |template| >= 2 && template[0] == '$' && IsDirective(template[1]) {
        UsedMatchGrows(template[2..], m1, m2, before, after);
      } else {
        UsedMatchGrows(template[1..], m1, m2, before, after);
      }
    }
  }

  /** The literal occurs in s at i. */
  predicate OccursAt(s: string, literal: string, i: int) {
    0 <= i <= |s| - |literal| && s[i..i + |literal|] == literal
  }

  /** First and last occurrence, or -1. */
  function FirstAt(s: string, literal: string, from: nat): (i: int)
    requires from <= |s| + 1
    ensures i == -1 || (i >= from && OccursAt(s, literal, i))
    ensures forall k | from <= k && (i == -1 || k < i) :: !OccursAt(s, literal, k)
    decreases |s| + 1 - from
  {
    if from > |s| then -1
    else if OccursAt(s, literal, from) then from
    else FirstAt(s, literal, from + 1)
  }

  function LastAt(s: string, literal: string, upTo: int): (i: int)
    requires -1 <= upTo <= |s|
    ensures i == -1 || (i <= upTo && OccursAt(s, literal, i))
    ensures forall k | i < k <= upTo :: !OccursAt(s, literal, k)
    decreases upTo + 1
  {
    if upTo < 0 then -1
    else if OccursAt(s, literal, upTo) then upTo
    else LastAt(s, literal, upTo - 1)
  }
}
