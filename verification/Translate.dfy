/** translate (src/i18n/index.ts): dictionary fallback, then one global replacement per parameter. */
module Translate {
  import opened JsText

  type Dictionary = map<string, string>

  /** English is the fallback dictionary of every language and every key. */
  datatype Translations = Translations(en: Dictionary, others: map<string, Dictionary>)

  /** A parameter: the name between the braces and its printed value. */
  datatype Param = Param(name: string, value: string)

  /** A missing or empty entry gives way to the next source, at last to the key itself. */
  function Entry(dict: Dictionary, key: string, otherwise: string): string {
    if key in dict && dict[key] != "" then dict[key] else otherwise
  }

  function BaseText(t: Translations, key: string, lang: string): string {
    var dict := if lang in t.others then t.others[lang] else t.en;
    Entry(dict, key, Entry(t.en, key, key))
  }

  function Hole(name: string): string {
    "{" + name + "}"
  }

  /** text.replace of every occurrence of a literal by a replacement template, left to right; `done` is
      the part of the original already passed. */
  function ReplaceFrom(done: string, text: string, literal: string, template: string): string
    requires literal != ""
    decreases |text|
  {
    if text == "" then ""
    else if literal <= text then
      Expand(template, literal, done, text[|literal|..]) + ReplaceFrom(done + literal, text[|literal|..], literal, template)
    else [text[0]] + ReplaceFrom(done + [text[0]], text[1..], literal, template)
  }

  /** One pass of the loop: the pattern is the escaped hole, for names without regular expression syntax. */
  function ReplaceParam(text: string, p: Param): string {
    ReplaceFrom("", text, Hole(p.name), p.value)
  }

  function ReplaceParams(text: string, params: seq<Param>): string
    decreases |params|
  {
    if params == [] then text else ReplaceParams(ReplaceParam(text, params[0]), params[1..])
  }

  lemma {:induction false} ReplaceParamsAppend(text: string, a: seq<Param>, p: Param)
    ensures ReplaceParams(text, a + [p]) == ReplaceParam(ReplaceParams(text, a), p)
    decreases |a|
  {
    if a == [] {
      assert a + [p] == [p] && [p][1..] == [];
    } else {
      assert (a + [p])[0] == a[0] && (a + [p])[1..] == a[1..] + [p];
      ReplaceParamsAppend(ReplaceParam(text, a[0]), a[1..], p);
    }
  }

  /** Characters that mean something in a regular expression. */
  predicate IsMeta(c: char) {
    || c == '\\' || c == '^' || c == '$' || c == '.' || c == '*' || c == '+' || c == '?'
    || c == '(' || c == ')' || c == '[' || c == ']' || c == '{' || c == '}' || c == '|'
  }

  /** Exactly the fourteen characters with a meaning of their own. */
  lemma MetaCharacters(c: char)
    ensures IsMeta(c) <==> c in "\\^$.*+?()[]{}|"
  {
  }

  predicate PlainName(name: string) {
    forall c | c in name :: !IsMeta(c)
  }

  /** No occurrence of the literal begins inside s, whatever text follows s. */
  predicate Inert(s: string, literal: string) {
    forall k | 0 <= k < |s| :: !(literal <= s[k..]) && !(s[k..] <= literal)
  }

  /** Distinct names without syntax; values inserted as they stand, in which no later parameter's hole can
      begin. */
  predicate PlainParams(params: seq<Param>) {
    && (forall p | p in params :: PlainName(p.name) && !HasDirective(p.value))
    && (forall i, j | 0 <= i < j < |params| ::
          params[i].name != params[j].name && Inert(params[i].value, Hole(params[j].name)))
  }

  lemma PlainTail(params: seq<Param>)
    requires PlainParams(params) && params != []
    ensures PlainParams(params[1..]) && params[0] in params
    ensures forall q | q in params[1..] :: q in params && q.name != params[0].name && Inert(params[0].value, Hole(q.name))
  {
    var rest := params[1..];
    forall i, j | 0 <= i < j < |rest|
      ensures rest[i].name != rest[j].name && Inert(rest[i].value, Hole(rest[j].name))
    {
      assert params[i + 1].name != params[j + 1].name && Inert(params[i + 1].value, Hole(params[j + 1].name));
    }
    forall q | q in rest
      ensures q in params && q.name != params[0].name && Inert(params[0].value, Hole(q.name))
    {
      var j :| 0 <= j < |rest| && rest[j] == q;
      assert params[j + 1] == q;
    }
  }

  /** A value without an opening brace is inert for every hole, closing braces or not. */
  lemma NoOpeningBraceIsInert(s: string, name: string)
    requires '{' !in s
    ensures Inert(s, Hole(name))
  {
    forall k | 0 <= k < |s|
      ensures !(Hole(name) <= s[k..]) && !(s[k..] <= Hole(name))
    {
      assert s[k..][0] in s && Hole(name)[0] == '{';
    }
  }

  // ---------- Templates as trees ----------

  /** A template piece: text, a hole, or an opening brace that nothing closes. */
  datatype Piece = Text(s: string) | Slot(name: string) | Open(rest: string)

  function Print(p: Piece): string {
    match p
    case Text(s) => s
    case Slot(name) => Hole(name)
    case Open(rest) => "{" + rest
  }

  function PrintAll(ps: seq<Piece>): string {
    if ps == [] then "" else Print(ps[0]) + PrintAll(ps[1..])
  }

  predicate NoBraces(s: string) { '{' !in s && '}' !in s }

  /** Text opens no hole, names hold no brace, and an unclosed brace comes last. */
  predicate WellFormed(ps: seq<Piece>) {
    forall i | 0 <= i < |ps| ::
      match ps[i]
      case Text(s) => '{' !in s
      case Slot(name) => NoBraces(name)
      case Open(rest) => NoBraces(rest) && i == |ps| - 1
  }

  /** What one replacement needs of the pieces: text in which its hole cannot begin. */
  predicate FitsHole(ps: seq<Piece>, name: string) {
    forall i | 0 <= i < |ps| ::
      match ps[i]
      case Text(s) => Inert(s, Hole(name))
      case Slot(found) => NoBraces(found)
      case Open(rest) => NoBraces(rest) && i == |ps| - 1
  }

  lemma WellFormedFits(ps: seq<Piece>, name: string)
    requires WellFormed(ps)
    ensures FitsHole(ps, name)
  {
    forall i | 0 <= i < |ps| && ps[i].Text?
      ensures Inert(ps[i].s, Hole(name))
    {
      NoOpeningBraceIsInert(ps[i].s, name);
    }
  }

  /** A hole filled by a piece of text. */
  function Fill(ps: seq<Piece>, p: Param): (r: seq<Piece>)
    ensures |r| == |ps|
  {
    seq(|ps|, i requires 0 <= i < |ps| => if ps[i] == Slot(p.name) then Text(p.value) else ps[i])
  }

  /** The one-pass meaning: every hole takes the value of its own parameter, or stays. */
  function Substitute(ps: seq<Piece>, values: map<string, string>): string {
    if ps == [] then "" else
    (if ps[0].Slot? && ps[0].name in values then values[ps[0].name] else Print(ps[0])) + Substitute(ps[1..], values)
  }

  function ValuesOf(params: seq<Param>): map<string, string> {
    if params == [] then map[] else ValuesOf(params[1..])[params[0].name := params[0].value]
  }

  // ---------- One replacement fills one kind of hole ----------

  /** Replacement by a fixed value. */
  function Swap(text: string, literal: string, value: string): string
    requires literal != ""
    decreases |text|
  {
    if text == "" then ""
    else if literal <= text then value + Swap(text[|literal|..], literal, value)
    else [text[0]] + Swap(text[1..], literal, value)
  }

  lemma {:induction false} ReplaceIsSwap(done: string, text: string, literal: string, value: string)
    requires literal != "" && !HasDirective(value)
    ensures ReplaceFrom(done, text, literal, value) == Swap(text, literal, value)
    decreases |text|
  {
    if text != "" {
      if literal <= text {
        LiteralExpands(value, literal, done, text[|literal|..]);
        ReplaceIsSwap(done + literal, text[|literal|..], literal, value);
      } else {
        ReplaceIsSwap(done + [text[0]], text[1..], literal, value);
      }
    }
  }

  lemma PrefixSplits(s: string, rest: string, literal: string)
    ensures literal <= s + rest ==> literal <= s || s <= literal
  {
    if literal <= s + rest {
      assert forall k | 0 <= k < |literal| :: (s + rest)[k] == literal[k];
    }
  }

  lemma {:induction false} SwapSkips(skipped: string, rest: string, literal: string, value: string)
    requires literal != "" && Inert(skipped, literal)
    ensures Swap(skipped + rest, literal, value) == skipped + Swap(rest, literal, value)
    decreases |skipped|
  {
    if skipped == "" {
      assert skipped + rest == rest;
    } else {
      var text, after := skipped + rest, skipped[1..];
      assert text[1..] == after + rest && text[0] == skipped[0];
      assert skipped[0..] == skipped;
      PrefixSplits(skipped, rest, literal);
      assert Inert(after, literal) by {
        forall k | 0 <= k < |after|
          ensures !(literal <= after[k..]) && !(after[k..] <= literal)
        {
          assert after[k..] == skipped[k + 1..];
        }
      }
      SwapSkips(after, rest, literal, value);
      assert skipped == [skipped[0]] + after;
    }
  }

  /** A brace-free name and then a closing brace, or nothing at all: the hole is there exactly when
      the names agree. */
  lemma HoleAtBrace(name: string, found: string, rest: string)
    requires NoBraces(name) && NoBraces(found) && (rest != "" ==> rest[0] == '}')
    ensures Hole(name) <= "{" + found + rest <==> name == found && rest != ""
  {
    var text, hole := "{" + found + rest, Hole(name);
    assert hole[1 + |name|] == '}';
    assert |name| < |found| ==> text[1 + |name|] == found[|name|] && found[|name|] in found;
    assert |name| > |found| ==> hole[1 + |found|] == name[|found|] && name[|found|] in name;
    assert rest != "" ==> text[1 + |found|] == '}';
    if hole <= text {
      assert text[1 + |name|] == hole[1 + |name|];
      assert |name| == |found|;
      assert name == hole[1..1 + |name|] == text[1..1 + |name|] == found;
    }
    if name == found && rest != "" {
      assert text[..|hole|] == "{" + found + [rest[0]];
    }
  }

  /** What the replacement makes of the first piece. */
  lemma SwapPiece(p: Param, piece: Piece, rest: string)
    requires NoBraces(p.name)
    requires match piece
             case Text(s) => Inert(s, Hole(p.name))
             case Slot(name) => NoBraces(name)
             case Open(s) => NoBraces(s) && rest == ""
    ensures Swap(Print(piece) + rest, Hole(p.name), p.value)
            == (if piece == Slot(p.name) then p.value else Print(piece)) + Swap(rest, Hole(p.name), p.value)
  {
    match piece
    case Text(s) => SwapSkips(s, rest, Hole(p.name), p.value);
    case Slot(name) => SwapSlot(p, name, rest);
    case Open(s) => SwapOpen(p, s);
      assert Print(piece) + rest == Print(piece);
  }

  lemma SwapSlot(p: Param, name: string, rest: string)
    requires NoBraces(p.name) && NoBraces(name)
    ensures Swap(Hole(name) + rest, Hole(p.name), p.value)
            == (if name == p.name then p.value else Hole(name)) + Swap(rest, Hole(p.name), p.value)
  {
    if name == p.name {
      assert (Hole(name) + rest)[|Hole(name)|..] == rest;
    } else {
      SwapOtherSlot(p, name, rest);
    }
  }

  lemma SwapOtherSlot(p: Param, name: string, rest: string)
    requires NoBraces(p.name) && NoBraces(name) && name != p.name
    ensures Swap(Hole(name) + rest, Hole(p.name), p.value) == Hole(name) + Swap(rest, Hole(p.name), p.value)
  {
    var text, closed := Hole(name) + rest, name + "}";
    HoleAtBrace(p.name, name, "}" + rest);
    assert text == "{" + name + ("}" + rest);
    assert text[1..] == closed + rest;
    NoOpeningBraceIsInert(closed, p.name);
    SwapSkips(closed, rest, Hole(p.name), p.value);
    var swapped := Swap(rest, Hole(p.name), p.value);
    assert [text[0]] + (closed + swapped) == Hole(name) + swapped;
  }

  lemma SwapOpen(p: Param, s: string)
    requires NoBraces(p.name) && NoBraces(s)
    ensures Swap("{" + s, Hole(p.name), p.value) == "{" + s
  {
    var text := "{" + s;
    HoleAtBrace(p.name, s, "");
    assert text == "{" + s + "" && text[1..] == s + "" == s;
    NoOpeningBraceIsInert(s, p.name);
    SwapSkips(s, "", Hole(p.name), p.value);
  }

  lemma FillStep(ps: seq<Piece>, p: Param)
    requires ps != []
    ensures PrintAll(Fill(ps, p)) == (if ps[0] == Slot(p.name) then p.value else Print(ps[0])) + PrintAll(Fill(ps[1..], p))
  {
    assert Fill(ps, p)[1..] == Fill(ps[1..], p);
  }

  lemma {:induction false} SwapFills(p: Param, ps: seq<Piece>)
    requires NoBraces(p.name) && FitsHole(ps, p.name)
    ensures Swap(PrintAll(ps), Hole(p.name), p.value) == PrintAll(Fill(ps, p))
    decreases |ps|
  {
    if ps != [] {
      assert |ps| > 1 ==> !ps[0].Open?;
      assert |ps| == 1 ==> ps[1..] == [];
      SwapPiece(p, ps[0], PrintAll(ps[1..]));
      SwapFills(p, ps[1..]);
      FillStep(ps, p);
    }
  }

  /** Replacing a parameter in a printed template prints the template with its holes filled. */
  lemma ReplaceFills(ps: seq<Piece>, p: Param)
    requires PlainName(p.name) && !HasDirective(p.value) && FitsHole(ps, p.name)
    ensures ReplaceParam(PrintAll(ps), p) == PrintAll(Fill(ps, p))
  {
    assert NoBraces(p.name) by { assert IsMeta('{') && IsMeta('}'); }
    ReplaceIsSwap("", PrintAll(ps), Hole(p.name), p.value);
    SwapFills(p, ps);
  }

  /** Filling one parameter first changes nothing for the others. */
  lemma {:induction false} SubstituteFill(ps: seq<Piece>, p: Param, values: map<string, string>)
    requires p.name !in values
    ensures Substitute(Fill(ps, p), values) == Substitute(ps, values[p.name := p.value])
    decreases |ps|
  {
    if ps != [] {
      assert Fill(ps, p)[1..] == Fill(ps[1..], p);
      SubstituteFill(ps[1..], p, values);
    }
  }

  lemma {:induction false} SubstituteNothing(ps: seq<Piece>)
    ensures Substitute(ps, map[]) == PrintAll(ps)
    decreases |ps|
  {
    if ps != [] {
      SubstituteNothing(ps[1..]);
    }
  }

  lemma {:induction false} ValuesNames(params: seq<Param>, name: string)
    ensures name in ValuesOf(params) <==> exists p :: p in params && p.name == name
    decreases |params|
  {
    if params != [] {
      ValuesNames(params[1..], name);
      if p :| p in params && p.name == name {
        assert p == params[0] || p in params[1..];
      }
    }
  }

  lemma FillFits(ps: seq<Piece>, p: Param, name: string)
    requires FitsHole(ps, name) && Inert(p.value, Hole(name))
    ensures FitsHole(Fill(ps, p), name)
  {
  }

  lemma {:induction false} ReplacementsSubstitute(ps: seq<Piece>, params: seq<Param>)
    requires PlainParams(params) && forall p | p in params :: FitsHole(ps, p.name)
    ensures ReplaceParams(PrintAll(ps), params) == Substitute(ps, ValuesOf(params))
    decreases |params|
  {
    if params == [] {
      SubstituteNothing(ps);
    } else {
      var p, rest := params[0], params[1..];
      PlainTail(params);
      ReplaceFills(ps, p);
      forall q | q in rest
        ensures FitsHole(Fill(ps, p), q.name)
      {
        FillFits(ps, p, q.name);
      }
      ReplacementsSubstitute(Fill(ps, p), rest);
      ValuesNames(rest, p.name);
      SubstituteFill(ps, p, ValuesOf(rest));
    }
  }

  /** One replacement after another is the one-pass substitution. */
  lemma SequentialIsSimultaneous(ps: seq<Piece>, params: seq<Param>)
    requires WellFormed(ps) && PlainParams(params)
    ensures ReplaceParams(PrintAll(ps), params) == Substitute(ps, ValuesOf(params))
  {
    forall p | p in params
      ensures FitsHole(ps, p.name)
    {
      WellFormedFits(ps, p.name);
    }
    ReplacementsSubstitute(ps, params);
  }

  // ---------- Every template without nested braces is such a tree ----------

  /** Length of the leading stretch free of both braces. */
  function Stretch(text: string): (n: nat)
    ensures n <= |text| && NoBraces(text[..n])
    ensures n < |text| ==> text[n] == '{' || text[n] == '}'
  {
    if text == "" || text[0] == '{' || text[0] == '}' then 0 else
    var n := Stretch(text[1..]);
    assert text[..n + 1] == [text[0]] + text[1..][..n];
    n + 1
  }

  /** After every opening brace the next brace, if any, closes it. */
  predicate NoNestedBraces(text: string) {
    forall i | 0 <= i < |text| && text[i] == '{' ::
      var rest := text[i + 1..];
      Stretch(rest) < |rest| ==> rest[Stretch(rest)] == '}'
  }

  /** The piece a text starts with. */
  function FirstPiece(text: string): (p: Piece)
    requires text != ""
    ensures Print(p) != "" && Print(p) <= text
  {
    if text[0] != '{' then Text([text[0]]) else
    var rest := text[1..];
    var n := Stretch(rest);
    if n == |rest| then assert text == "{" + rest; Open(rest)
    else if rest[n] == '}' then assert text[..n + 2] == Hole(rest[..n]); Slot(rest[..n])
    else Text("{")
  }

  function Parse(text: string): seq<Piece>
    decreases |text|
  {
    if text == "" then [] else
    var p := FirstPiece(text);
    [p] + Parse(text[|Print(p)|..])
  }

  lemma NoNestedSuffix(text: string, n: nat)
    requires NoNestedBraces(text) && n <= |text|
    ensures NoNestedBraces(text[n..])
  {
    forall i | 0 <= i < |text[n..]| && text[n..][i] == '{'
      ensures var rest := text[n..][i + 1..]; Stretch(rest) < |rest| ==> rest[Stretch(rest)] == '}'
    {
      assert text[n..][i + 1..] == text[n + i + 1..];
    }
  }

  lemma FirstPieceFits(text: string)
    requires NoNestedBraces(text) && text != ""
    ensures match FirstPiece(text)
            case Text(s) => '{' !in s
            case Slot(name) => NoBraces(name)
            case Open(rest) => NoBraces(rest) && text == "{" + rest
  {
    var rest := text[1..];
    assert Stretch(rest) == |rest| ==> rest[..|rest|] == rest;
    assert text == [text[0]] + rest;
  }

  lemma {:induction false} ParsePrints(text: string)
    requires NoNestedBraces(text)
    ensures WellFormed(Parse(text)) && PrintAll(Parse(text)) == text
    decreases |text|
  {
    if text != "" {
      var p := FirstPiece(text);
      var rest := text[|Print(p)|..];
      FirstPieceFits(text);
      NoNestedSuffix(text, |Print(p)|);
      ParsePrints(rest);
      Prepend(p, Parse(rest));
      assert Print(p) + rest == text;
    }
  }

  lemma Prepend(p: Piece, ps: seq<Piece>)
    requires WellFormed(ps)
    requires match p case Text(s) => '{' !in s case Slot(name) => NoBraces(name) case Open(rest) => NoBraces(rest) && ps == []
    ensures WellFormed([p] + ps) && PrintAll([p] + ps) == Print(p) + PrintAll(ps)
  {
    assert ([p] + ps)[1..] == ps;
  }

  // ---------- translate ----------

  /** The call: one replacement per entry, in the order the entries come. */
  method TranslateText(t: Translations, key: string, lang: string, params: seq<Param>) returns (text: string)
    ensures text == ReplaceParams(BaseText(t, key, lang), params)
    ensures NoNestedBraces(BaseText(t, key, lang)) && PlainParams(params) ==>
              text == Substitute(Parse(BaseText(t, key, lang)), ValuesOf(params))
  {
    var dict := if lang in t.others then t.others[lang] else t.en;
    text := key;
    if key in dict && dict[key] != "" {
      text := dict[key];
    } else if key in t.en && t.en[key] != "" {
      text := t.en[key];
    }
    ghost var base := text;
    for i := 0 to |params|
      invariant text == ReplaceParams(base, params[..i])
    {
      text := ReplaceParam(text, params[i]);
      ReplaceParamsAppend(base, params[..i], params[i]);
      assert params[..i + 1] == params[..i] + [params[i]];
    }
    assert params[..|params|] == params;
    if NoNestedBraces(base) && PlainParams(params) {
      ParsePrints(base);
      SequentialIsSimultaneous(Parse(base), params);
    }
  }

  /** Which text is filled: the language's entry if it has one that is not empty, else the English entry if
      it has such a one, else the key; an unknown language is English. */
  lemma BaseTextFallsBack(t: Translations, key: string, lang: string)
    ensures lang in t.others && key in t.others[lang] && t.others[lang][key] != "" ==>
              BaseText(t, key, lang) == t.others[lang][key]
    ensures !(lang in t.others && key in t.others[lang] && t.others[lang][key] != "") && key in t.en && t.en[key] != "" ==>
              BaseText(t, key, lang) == t.en[key]
    ensures !(lang in t.others && key in t.others[lang] && t.others[lang][key] != "") && !(key in t.en && t.en[key] != "") ==>
              BaseText(t, key, lang) == key
  {
  }

  /** The order of the entries does not matter, and holes no entry names stay. */
  lemma OrderIsIrrelevant(text: string, a: seq<Param>, b: seq<Param>)
    requires NoNestedBraces(text) && PlainParams(a) && PlainParams(b) && ValuesOf(a) == ValuesOf(b)
    ensures ReplaceParams(text, a) == ReplaceParams(text, b)
  {
    ParsePrints(text);
    SequentialIsSimultaneous(Parse(text), a);
    SequentialIsSimultaneous(Parse(text), b);
  }

  lemma {:induction false} UnknownHolesStay(ps: seq<Piece>, params: seq<Param>)
    requires WellFormed(ps) && PlainParams(params)
    requires forall p | p in params :: Slot(p.name) !in ps
    ensures ReplaceParams(PrintAll(ps), params) == PrintAll(ps)
    decreases |params|
  {
    if params != [] {
      PlainTail(params);
      WellFormedFits(ps, params[0].name);
      ReplaceFills(ps, params[0]);
      assert Fill(ps, params[0]) == ps;
      UnknownHolesStay(ps, params[1..]);
    }
  }

  /** The condition on values is needed: a value that is itself a hole is filled, or not, by order. */
  lemma HoleInValueDependsOnOrder(a: string, b: string, value: string)
    requires PlainName(a) && PlainName(b) && a != b && !HasDirective(value)
    ensures ReplaceParams(Hole(a), [Param(a, Hole(b)), Param(b, value)]) == value
    ensures ReplaceParams(Hole(a), [Param(b, value), Param(a, Hole(b))]) == Hole(b)
  {
    var p, q := Param(a, Hole(b)), Param(b, value);
    TwoParams(Hole(a), p, q);
    TwoParams(Hole(a), q, p);
    assert NoBraces(a) && NoBraces(b) by { assert IsMeta('{') && IsMeta('}'); }
    NoDirectiveInHole(b);
    ReplaceWhole(a, Hole(b));
    ReplaceWhole(b, value);
    ReplaceIsSwap("", Hole(a), Hole(b), value);
    assert Hole(a) + "" == Hole(a);
    SwapPiece(q, Slot(a), "");
  }

  lemma TwoParams(text: string, p: Param, q: Param)
    ensures ReplaceParams(text, [p, q]) == ReplaceParam(ReplaceParam(text, p), q)
  {
    assert [p, q] == [p] + [q] && [p] == [] + [p];
    ReplaceParamsAppend(text, [p], q);
    ReplaceParamsAppend(text, [], p);
  }

  lemma NoDirectiveInHole(name: string)
    requires PlainName(name)
    ensures !HasDirective(Hole(name))
  {
    assert '$' !in name by { assert IsMeta('$'); }
    NoDollarNoDirective(Hole(name));
  }

  lemma {:induction false} NoDollarNoDirective(s: string)
    requires '$' !in s
    ensures !HasDirective(s)
    decreases |s|
  {
    if |s| >= 2 {
      NoDollarNoDirective(s[1..]);
    }
  }

  lemma ReplaceWhole(name: string, value: string)
    requires NoBraces(name) && !HasDirective(value)
    ensures ReplaceParam(Hole(name), Param(name, value)) == value
  {
    ReplaceIsSwap("", Hole(name), Hole(name), value);
    assert Hole(name) + "" == Hole(name);
    SwapPiece(Param(name, value), Slot(name), "");
  }
}
