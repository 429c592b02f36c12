/** The product claim guardrail over one file (scripts/verify-product-claims.ts). */
module ClaimScanner {
  import opened Wrappers

  /** A rule: its id and what its regular expression matches. */
  datatype Rule = Rule(id: string, test: string -> bool)

  /** What a line's claims-allow marker exempts, if it has one. */
  type Marker = string -> Option<set<string>>

  /** Line i, counted from zero, breaks rule number `rule`. */
  datatype Violation = Violation(line: int, rule: int)

  function LineAt(lines: seq<string>, i: int): string {
    if 0 <= i < |lines| then lines[i] else ""
  }

  /** A line joined with the next one, so that claims split by a soft wrap match. */
  function Window(lines: seq<string>, i: int): string {
    LineAt(lines, i) + " " + LineAt(lines, i + 1)
  }

  /** The marker on the line itself or, without one, on the line before. */
  function Allowed(lines: seq<string>, marker: Marker, i: int): set<string> {
    match marker(LineAt(lines, i))
    case Some(ids) => ids
    case None => match marker(LineAt(lines, i - 1)) case Some(ids) => ids case None => {}
  }

  /** The two tests of the inner loop. */
  predicate Flagged(lines: seq<string>, marker: Marker, r: Rule, i: int) {
    && r.test(Window(lines, i)) && r.id !in Allowed(lines, marker, i)
    && !(!r.test(LineAt(lines, i)) && r.test(LineAt(lines, i + 1)))
  }

  /** Reading order: by line, then by rule. */
  predicate Before(a: Violation, b: Violation) {
    a.line < b.line || (a.line == b.line && a.rule < b.rule)
  }

  predicate InOrder(vs: seq<Violation>) {
    forall i, j | 0 <= i < j < |vs| :: Before(vs[i], vs[j])
  }

  /** All flagged pairs before a position of the scan, and nothing else. */
  ghost predicate Collected(vs: seq<Violation>, lines: seq<string>, marker: Marker, rules: seq<Rule>, end: Violation) {
    && InOrder(vs)
    && (forall v | v in vs :: Before(v, end))
    && forall i: int, r: int ::
         Violation(i, r) in vs <==> 0 <= i < |lines| && 0 <= r < |rules| && Flagged(lines, marker, rules[r], i)
                                    && Before(Violation(i, r), end)
  }

  /** Every flagged line and rule, once each, in reading order. */
  method Scan(lines: seq<string>, marker: Marker, rules: seq<Rule>) returns (violations: seq<Violation>)
    ensures InOrder(violations)
    ensures forall i: int, r: int ::
              Violation(i, r) in violations <==>
              0 <= i < |lines| && 0 <= r < |rules| && Flagged(lines, marker, rules[r], i)
  {
    violations := [];
    for i := 0 to |lines|
      invariant Collected(violations, lines, marker, rules, Violation(i, 0))
    {
      var line := lines[i];
      var next := if i + 1 < |lines| then lines[i + 1] else "";
      var window := line + " " + next;
      var allowed := AllowedAt(lines, marker, i);
      for r := 0 to |rules|
        invariant Collected(violations, lines, marker, rules, Violation(i, r))
      {
        if !(!rules[r].test(window) || rules[r].id in allowed) && !(!rules[r].test(line) && rules[r].test(next)) {
          violations := Report(violations, lines, marker, rules, i, r);
        }
      }
    }
  }

  /** The line's marker or else that of the line before. */
  method AllowedAt(lines: seq<string>, marker: Marker, i: nat) returns (allowed: set<string>)
    requires i < |lines|
    ensures allowed == Allowed(lines, marker, i)
  {
    var allow := marker(lines[i]);
    if allow.None? {
      allow := marker(if i > 0 then lines[i - 1] else "");
    }
    allowed := if allow.Some? then allow.value else {};
  }

  /** One more violation at the end of the list. */
  method Report(vs: seq<Violation>, lines: seq<string>, marker: Marker, rules: seq<Rule>, i: nat, r: nat)
      returns (out: seq<Violation>)
    requires Collected(vs, lines, marker, rules, Violation(i, r))
    requires i < |lines| && r < |rules| && Flagged(lines, marker, rules[r], i)
    ensures out == vs + [Violation(i, r)]
    ensures Collected(out, lines, marker, rules, Violation(i, r + 1))
  {
    out := vs + [Violation(i, r)];
    assert forall v | v in vs :: v in out;
    assert forall k | 0 <= k < |vs| :: vs[k] in vs && out[k] == vs[k];
  }

  // ---------- What is reported ----------

  /** Which marker counts: the line's own; only without one that of the line before, if there is a line
      before; without either nothing is allowed. */
  lemma MarkerThatCounts(lines: seq<string>, marker: Marker, i: nat)
    requires i < |lines|
    ensures marker(lines[i]).Some? ==> Allowed(lines, marker, i) == marker(lines[i]).value
    ensures marker(lines[i]).None? && i > 0 && marker(lines[i - 1]).Some? ==> Allowed(lines, marker, i) == marker(lines[i - 1]).value
    ensures marker(lines[i]).None? && (if i == 0 then marker("").None? else marker(lines[i - 1]).None?) ==> Allowed(lines, marker, i) == {}
  {
  }

  /** A match inside the line is also one in the window, as for all the rules of the script. */
  ghost predicate MatchesSurviveJoin(r: Rule) {
    forall s, t :: r.test(s) ==> r.test(s + " " + t)
  }

  /** A claim is reported on line i exactly when it is not allowed there and it is on the line, or on
      neither line alone but on the two together. */
  lemma ReportedExactly(lines: seq<string>, marker: Marker, r: Rule, i: int)
    requires MatchesSurviveJoin(r)
    ensures Flagged(lines, marker, r, i) <==>
              && r.id !in Allowed(lines, marker, i)
              && (|| r.test(LineAt(lines, i))
                  || (!r.test(LineAt(lines, i + 1)) && r.test(Window(lines, i))))
  {
  }

  /** A window that matches and whose first line allows nothing is reported at one of its two lines
      exactly when the claim is on the first line, or not wholly on the second, or not allowed there. */
  lemma NoClaimEscapes(lines: seq<string>, marker: Marker, rules: seq<Rule>, violations: seq<Violation>, i: int, k: int)
    requires 0 <= i < |lines| && 0 <= k < |rules| && MatchesSurviveJoin(rules[k]) && !rules[k].test("")
    requires forall j: int, r: int ::
               Violation(j, r) in violations <==>
               0 <= j < |lines| && 0 <= r < |rules| && Flagged(lines, marker, rules[r], j)
    requires rules[k].test(Window(lines, i)) && rules[k].id !in Allowed(lines, marker, i)
    ensures (Violation(i, k) in violations || Violation(i + 1, k) in violations)
            <==> (|| rules[k].test(LineAt(lines, i)) || !rules[k].test(LineAt(lines, i + 1))
                  || rules[k].id !in Allowed(lines, marker, i + 1))
  {
    var r := rules[k];
    if r.test(LineAt(lines, i + 1)) {
      assert i + 1 < |lines|;
      assert r.test(Window(lines, i + 1));
    }
  }

  /** The condition on the second line is needed: a marker there exempts a claim that begins on the line
      before, where nothing is allowed, when the second line holds a whole claim of the rule. */
  lemma NextLineMarkerHidesWindow(lines: seq<string>, marker: Marker, r: Rule, i: int)
    requires r.test(Window(lines, i)) && !r.test(LineAt(lines, i)) && r.test(LineAt(lines, i + 1))
    requires r.id in Allowed(lines, marker, i + 1)
    ensures !Flagged(lines, marker, r, i) && !Flagged(lines, marker, r, i + 1)
  {
  }
}
