/** School identifiers: what the application accepts as a UUID (src/lib/ids.ts) and the
    narrower pattern the row security policies accept (drizzle/0007). */
module SchoolIds {

  function LowerChar(c: char): char {
    if 'A' <= c <= 'Z' then (c as int - 'A' as int + 'a' as int) as char else c
  }

  function Lower(s: string): (r: string)
    ensures |r| == |s|
  {
    seq(|s|, i requires 0 <= i < |s| => LowerChar(s[i]))
  }

  predicate IsHex(c: char) {
    '0' <= c <= '9' || 'a' <= LowerChar(c) <= 'f'
  }

  /** The dashes of the 8-4-4-4-12 layout. */
  predicate IsDashPosition(i: int) {
    i == 8 || i == 13 || i == 18 || i == 23
  }

  /** UUID_REGEX: 8-4-4-4-12 hexadecimal digits in either case. */
  predicate IsUuid(s: string) {
    |s| == 36 && forall i | 0 <= i < 36 :: if IsDashPosition(i) then s[i] == '-' else IsHex(s[i])
  }

  /** The pattern of the row security policies: also a version digit 1-5 and a variant digit 8, 9, a or b. */
  predicate IsPolicyUuid(s: string) {
    IsUuid(s) && '1' <= s[14] <= '5' && LowerChar(s[19]) in "89ab"
  }

  /** Lower maps the 26 capital letters, numbers 65 to 90, to the small ones, and keeps every other
      character. */
  lemma LowerLetters(s: string, i: nat)
    requires i < |s|
    ensures Lower(s)[i] as int == s[i] as int + if 65 <= s[i] as int <= 90 then 32 else 0
  {
  }

  /** A character fits one of a layout: a dash, any hexadecimal digit (x), a version (v) or a variant (r). */
  predicate FitsLayout(c: char, layout: char) {
    if layout == 'x' then c in "0123456789abcdefABCDEF"
    else if layout == 'v' then c in "12345"
    else if layout == 'r' then c in "89abAB"
    else c == layout
  }

  /** The two patterns, position by position. */
  lemma UuidLayouts(s: string)
    ensures IsUuid(s) <==>
              |s| == 36 && forall i | 0 <= i < 36 :: FitsLayout(s[i], "xxxxxxxx-xxxx-xxxx-xxxx-xxxxxxxxxxxx"[i])
    ensures IsPolicyUuid(s) <==>
              |s| == 36 && forall i | 0 <= i < 36 :: FitsLayout(s[i], "xxxxxxxx-xxxx-vxxx-rxxx-xxxxxxxxxxxx"[i])
  {
    var plain, policy := "xxxxxxxx-xxxx-xxxx-xxxx-xxxxxxxxxxxx", "xxxxxxxx-xxxx-vxxx-rxxx-xxxxxxxxxxxx";
    if |s| == 36 {
      forall i | 0 <= i < 36
        ensures FitsLayout(s[i], plain[i]) <==> (if IsDashPosition(i) then s[i] == '-' else IsHex(s[i]))
        ensures FitsLayout(s[i], policy[i]) <==>
                  FitsLayout(s[i], plain[i]) && (i == 14 ==> '1' <= s[i] <= '5') && (i == 19 ==> LowerChar(s[i]) in "89ab")
      {
        HexDigits(s[i]);
        LayoutsAt(i);
      }
      assert FitsLayout(s[14], policy[14]) && FitsLayout(s[19], policy[19]) ==> '1' <= s[14] <= '5' && LowerChar(s[19]) in "89ab";
    }
  }

  lemma LayoutsAt(i: nat)
    requires i < 36
    ensures var plain, policy := "xxxxxxxx-xxxx-xxxx-xxxx-xxxxxxxxxxxx", "xxxxxxxx-xxxx-vxxx-rxxx-xxxxxxxxxxxx";
            && plain[i] == (if i == 8 || i == 13 || i == 18 || i == 23 then '-' else 'x')
            && policy[i] == (if i == 14 then 'v' else if i == 19 then 'r' else plain[i])
  {
  }

  lemma HexDigits(c: char)
    ensures IsHex(c) <==> c in "0123456789abcdefABCDEF"
    ensures '1' <= c <= '5' <==> c in "12345"
    ensures LowerChar(c) in "89ab" <==> c in "89abAB"
  {
  }

  /** Lower case is a UUID's canonical form. */
  lemma LowerTwice(s: string)
    ensures Lower(Lower(s)) == Lower(s) && (IsUuid(s) ==> IsUuid(Lower(s)))
  {
  }

  /** The policy's pattern does not look at the case. */
  lemma PolicyUuidInAnyCase(s: string, t: string)
    requires Lower(s) == Lower(t)
    ensures IsPolicyUuid(s) <==> IsPolicyUuid(t)
  {
    SameExceptCase(s, t);
    SameExceptCase(t, s);
  }

  lemma SameExceptCase(s: string, t: string)
    requires Lower(s) == Lower(t)
    ensures IsPolicyUuid(s) ==> IsPolicyUuid(t)
  {
    assert |s| == |t|;
    forall i | 0 <= i < |s|
      ensures LowerChar(s[i]) == LowerChar(t[i])
    {
      assert Lower(s)[i] == LowerChar(s[i]) && Lower(t)[i] == LowerChar(t[i]);
    }
  }
}
