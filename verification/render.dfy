/** The substitution at the end of `generate_report`: the template's scalar
    `{{ name }}` tokens are replaced first, each with its value or default,
    then the fragment tokens, in the order the fragments were produced.
    Every replacement rewrites all occurrences, left to right. */
module Render {
  import opened Wrappers
  import opened Text
  import opened ReportData
  import opened ReportMarkup
  import opened Fragments

  /** The placeholder written in the template for `key`. */
  function Token(key: string): string {
    "{{ " + key + " }}"
  }

  /** A character a key may hold: anything but a brace of a placeholder. */
  predicate IsKeyChar(c: char) {
    c != '{' && c != '}'
  }

  /** A key without braces, such as `topic`, `q1_answer` or `Title`. */
  predicate KeyText(key: string) {
    forall i :: 0 <= i < |key| ==> IsKeyChar(key[i])
  }

  /** The scalar keys, in the order they are replaced. */
  const ScalarKeys: seq<string> := [
    "topic", "sub_topic", "date", "problem_quote", "core_takeaway", "user_name", "closing_message"]

  const DefaultTopic := "私董会报告"
  const DefaultUserName := "案主"
  const DefaultClosingMessage := "感谢您的参与"

  /** The scalar values, each field's value or its default; `today` stands
      for the formatted current date. */
  function ScalarValues(data: Report, today: string): (r: seq<(string, string)>)
    ensures |r| == |ScalarKeys|
    ensures forall i :: 0 <= i < |r| ==> r[i].0 == ScalarKeys[i]
  {
    var keys := ScalarKeys;
    [ (keys[0], data.topic.GetOr(DefaultTopic)),
      (keys[1], data.subTopic.GetOr("")),
      (keys[2], data.date.GetOr(today)),
      (keys[3], Overview(data).quote.GetOr("")),
      (keys[4], Plan(data).coreTakeaway.GetOr("")),
      (keys[5], data.userName.GetOr(DefaultUserName)),
      (keys[6], data.closingMessage.GetOr(DefaultClosingMessage)) ]
  }

  /** Each pair's token replaced by its value, one pair after the other. */
  function ApplyAll(s: string, pairs: seq<(string, string)>): (r: string)
    ensures |pairs| == 1 ==> r == ReplaceAll(s, Token(pairs[0].0), pairs[0].1)
    decreases |pairs|
  {
    if pairs == [] then s
    else ApplyAll(ReplaceAll(s, Token(pairs[0].0), pairs[0].1), pairs[1..])
  }

  /** The finished report text. */
  function Rendered(m: Markup, template: string, data: Report, today: string): (r: string)
    requires AdvisorNamesPresent(data)
    ensures (forall i :: 0 <= i < |AllKeys| ==> !Occurs(Token(AllKeys[i]), template)) ==> r == template
  {
    TokenFreeTemplate(m, template, data, today);
    ApplyAll(ApplyAll(template, ScalarValues(data, today)), Snippets(m, data))
  }

  /** Both passes leave a template without any of the sixteen placeholders alone. */
  lemma TokenFreeTemplate(m: Markup, template: string, data: Report, today: string)
    requires AdvisorNamesPresent(data)
    ensures (forall i :: 0 <= i < |AllKeys| ==> !Occurs(Token(AllKeys[i]), template)) ==>
      ApplyAll(ApplyAll(template, ScalarValues(data, today)), Snippets(m, data)) == template
  {
    if forall i :: 0 <= i < |AllKeys| ==> !Occurs(Token(AllKeys[i]), template) {
      assert forall j :: 0 <= j < |ScalarKeys| ==> AllKeys[j] == ScalarKeys[j];
      assert forall j :: 0 <= j < |FragmentKeys| ==> AllKeys[|ScalarKeys| + j] == FragmentKeys[j];
      ScalarFreeUntouched(template, data, today);
      FragmentFreeUntouched(m, template, data);
    }
  }

  lemma ScalarFreeUntouched(template: string, data: Report, today: string)
    requires forall j :: 0 <= j < |ScalarKeys| ==> !Occurs(Token(ScalarKeys[j]), template)
    ensures ApplyAll(template, ScalarValues(data, today)) == template
  {
    ApplyAllUntouched(template, ScalarValues(data, today));
  }

  lemma FragmentFreeUntouched(m: Markup, template: string, data: Report)
    requires AdvisorNamesPresent(data)
    requires forall j :: 0 <= j < |FragmentKeys| ==> !Occurs(Token(FragmentKeys[j]), template)
    ensures ApplyAll(template, Snippets(m, data)) == template
  {
    ApplyAllUntouched(template, Snippets(m, data));
  }


  /** Applying one more pair replaces its token in what the others left. */
  lemma {:induction false} ApplyAllSnoc(s: string, pairs: seq<(string, string)>, p: (string, string))
    ensures ApplyAll(s, pairs + [p]) == ReplaceAll(ApplyAll(s, pairs), Token(p.0), p.1)
    decreases |pairs|
  {
    if pairs == [] {
      assert [] + [p] == [p];
    } else {
      assert (pairs + [p])[1..] == pairs[1..] + [p];
      ApplyAllSnoc(ReplaceAll(s, Token(pairs[0].0), pairs[0].1), pairs[1..], p);
    }
  }

  /** Two lists of pairs applied one after the other. */
  lemma {:induction false} ApplyAllAppend(s: string, a: seq<(string, string)>, b: seq<(string, string)>)
    ensures ApplyAll(s, a + b) == ApplyAll(ApplyAll(s, a), b)
    decreases |a|
  {
    if a == [] {
      assert a + b == b;
    } else {
      assert (a + b)[1..] == a[1..] + b;
      ApplyAllAppend(ReplaceAll(s, Token(a[0].0), a[0].1), a[1..], b);
    }
  }

  /** Text holding none of the tokens passes through unchanged. */
  lemma {:induction false} ApplyAllUntouched(s: string, pairs: seq<(string, string)>)
    requires forall j :: 0 <= j < |pairs| ==> !Occurs(Token(pairs[j].0), s)
    ensures ApplyAll(s, pairs) == s
    decreases |pairs|
  {
    if pairs != [] {
      ReplaceAllAbsent(s, Token(pairs[0].0), pairs[0].1);
      assert forall j :: 0 <= j < |pairs[1..]| ==> pairs[1..][j] == pairs[j + 1];
      ApplyAllUntouched(s, pairs[1..]);
    }
  }

  /** Where each character of a placeholder comes from. */
  lemma TokenChars(u: string)
    ensures |Token(u)| == |u| + 6
    ensures Token(u)[0] == '{' && Token(u)[1] == '{' && Token(u)[2] == ' '
    ensures forall j :: 3 <= j < 3 + |u| ==> Token(u)[j] == u[j - 3]
    ensures Token(u)[|u| + 3] == ' ' && Token(u)[|u| + 4] == '}' && Token(u)[|u| + 5] == '}'
    ensures Token(u)[3..3 + |u|] == u
  {
  }

  /** The placeholder of one key occurs in that of another exactly when the
      keys are equal. */
  lemma TokenOccursOnlyInItself(k: string, u: string)
    requires KeyText(u)
    ensures Occurs(Token(k), Token(u)) <==> k == u
  {
    var tk, tu := Token(k), Token(u);
    TokenChars(k);
    TokenChars(u);
    if Occurs(tk, tu) {
      var i :| 0 <= i <= |tu| - |tk| && OccursAt(tk, tu, i);
      assert forall j :: 3 <= j < 3 + |u| ==> IsKeyChar(tu[j]);
      assert i == 0 by {
        assert tu[i + 1] == tk[1] by {
          assert tu[i..i + |tk|][1] == tk[1];
        }
      }
      assert |k| == |u| by {
        assert tu[|k| + 4] == tk[|k| + 4] by {
          assert tu[..|tk|][|k| + 4] == tk[|k| + 4];
        }
      }
      assert tu[..|tk|] == tk;
      assert k == tk[3..3 + |k|] == tu[3..3 + |u|] == u;
    }
    if k == u {
      assert OccursAt(tk, tu, 0);
    }
  }

  /** All sixteen keys, scalar ones first. */
  const AllKeys: seq<string> := ScalarKeys + FragmentKeys

  /** No key contains a brace. */
  lemma AllKeysText()
    ensures forall i :: 0 <= i < |AllKeys| ==> KeyText(AllKeys[i])
  {
    ScalarKeysText();
    FragmentKeysText();
  }

  lemma ScalarKeysText()
    ensures forall i :: 0 <= i < |ScalarKeys| ==> KeyText(ScalarKeys[i])
  {
  }

  lemma FragmentKeysText()
    ensures forall i :: 0 <= i < |FragmentKeys| ==> KeyText(FragmentKeys[i])
  {
    LeadingFragmentKeysText();
    MiddleFragmentKeysText();
    TrailingFragmentKeysText();
  }

  lemma LeadingFragmentKeysText()
    ensures forall i :: 0 <= i < 3 ==> KeyText(FragmentKeys[i])
  {
  }

  lemma MiddleFragmentKeysText()
    ensures forall i :: 3 <= i < 6 ==> KeyText(FragmentKeys[i])
  {
  }

  lemma TrailingFragmentKeysText()
    ensures forall i :: 6 <= i < 9 ==> KeyText(FragmentKeys[i])
  {
  }

  /** Lines 241-247: the seven scalar replacements, in order. */
  method ReplaceScalars(template: string, data: Report, today: string) returns (content: string)
    ensures content == ApplyAll(template, ScalarValues(data, today))
  {
    content := template;
    content := ReplaceAll(content, Token("topic"), data.topic.GetOr(DefaultTopic));
    content := ReplaceAll(content, Token("sub_topic"), data.subTopic.GetOr(""));
    content := ReplaceAll(content, Token("date"), data.date.GetOr(today));
    content := ReplaceAll(content, Token("problem_quote"), Overview(data).quote.GetOr(""));
    content := ReplaceAll(content, Token("core_takeaway"), Plan(data).coreTakeaway.GetOr(""));
    content := ReplaceAll(content, Token("user_name"), data.userName.GetOr(DefaultUserName));
    content := ReplaceAll(content, Token("closing_message"), data.closingMessage.GetOr(DefaultClosingMessage));
    ScalarPass(template, data, today);
  }

  /** Lines 250-251: one replacement per fragment, in dictionary order. */
  method ReplaceFragments(text: string, snippets: seq<(string, string)>) returns (content: string)
    ensures content == ApplyAll(text, snippets)
  {
    content := text;
    for k := 0 to |snippets|
      invariant content == ApplyAll(text, snippets[..k])
    {
      var (key, html) := snippets[k];
      ApplyAllSnoc(text, snippets[..k], snippets[k]);
      assert snippets[..k + 1] == snippets[..k] + [snippets[k]];
      content := ReplaceAll(content, Token(key), html);
    }
    assert snippets[..|snippets|] == snippets;
  }

  /** The sixteen keys are distinct. */
  lemma AllKeysDistinct()
    ensures forall i, j :: 0 <= i < j < |AllKeys| ==> AllKeys[i] != AllKeys[j]
  {
    var keys := AllKeys;
    forall i, j | 0 <= i < j < |keys| ensures keys[i] != keys[j] {
      assert |keys[i]| != |keys[j]| || keys[i][0] != keys[j][0];
    }
  }

  /** Lines 227 and 238-251: the fragments, then the scalar pass and the
      fragment pass over the template. */
  method GenerateReport(m: Markup, template: string, data: Report, today: string) returns (content: string)
    requires AdvisorNamesPresent(data)
    ensures content == Rendered(m, template, data, today)
  {
    var snippets := GenerateHtmlSnippets(m, data);
    content := ReplaceScalars(template, data, today);
    content := ReplaceFragments(content, snippets);
  }

  /** One step of the substitution, at any position of the list. */
  lemma ApplyAllUnroll(s: string, pairs: seq<(string, string)>, i: nat)
    requires i < |pairs|
    ensures ApplyAll(s, pairs[i..]) == ApplyAll(ReplaceAll(s, Token(pairs[i].0), pairs[i].1), pairs[i + 1..])
  {
    assert pairs[i..][1..] == pairs[i + 1..];
  }

  /** The seven scalar statements are the scalar pass. */
  lemma ScalarPass(template: string, data: Report, today: string)
    ensures ApplyAll(template, ScalarValues(data, today))
         == ReplaceAll(ReplaceAll(ReplaceAll(ReplaceAll(ReplaceAll(ReplaceAll(ReplaceAll(template,
              Token("topic"), data.topic.GetOr(DefaultTopic)),
              Token("sub_topic"), data.subTopic.GetOr("")),
              Token("date"), data.date.GetOr(today)),
              Token("problem_quote"), Overview(data).quote.GetOr("")),
              Token("core_takeaway"), Plan(data).coreTakeaway.GetOr("")),
              Token("user_name"), data.userName.GetOr(DefaultUserName)),
              Token("closing_message"), data.closingMessage.GetOr(DefaultClosingMessage))
  {
    var vs := ScalarValues(data, today);
    var r0 := template;
    var r1 := ReplaceAll(r0, Token("topic"), data.topic.GetOr(DefaultTopic));
    var r2 := ReplaceAll(r1, Token("sub_topic"), data.subTopic.GetOr(""));
    var r3 := ReplaceAll(r2, Token("date"), data.date.GetOr(today));
    var r4 := ReplaceAll(r3, Token("problem_quote"), Overview(data).quote.GetOr(""));
    var r5 := ReplaceAll(r4, Token("core_takeaway"), Plan(data).coreTakeaway.GetOr(""));
    var r6 := ReplaceAll(r5, Token("user_name"), data.userName.GetOr(DefaultUserName));
    var r7 := ReplaceAll(r6, Token("closing_message"), data.closingMessage.GetOr(DefaultClosingMessage));
    assert vs[0..] == vs;
    ApplyAllUnroll(r0, vs, 0);
    ApplyAllUnroll(r1, vs, 1);
    ApplyAllUnroll(r2, vs, 2);
    ApplyAllUnroll(r3, vs, 3);
    ApplyAllUnroll(r4, vs, 4);
    ApplyAllUnroll(r5, vs, 5);
    ApplyAllUnroll(r6, vs, 6);
    assert vs[7..] == [];
  }

  // ---------------------------------------------------------------------------
  // What becomes of a placeholder

  /** A placeholder whose key no pair names passes through unchanged. */
  lemma TokenPassesUntouched(k: string, pairs: seq<(string, string)>)
    requires KeyText(k)
    requires forall i :: 0 <= i < |pairs| ==> pairs[i].0 != k
    ensures ApplyAll(Token(k), pairs) == Token(k)
  {
    forall i | 0 <= i < |pairs| ensures !Occurs(Token(pairs[i].0), Token(k)) {
      TokenOccursOnlyInItself(pairs[i].0, k);
    }
    ApplyAllUntouched(Token(k), pairs);
  }

  /** A placeholder is left alone until the first pair naming its key; that
      pair replaces it by its value, which the later pairs then rewrite. */
  lemma TokenMeetsItsPair(k: string, pairs: seq<(string, string)>, j: nat)
    requires KeyText(k) && j < |pairs| && pairs[j].0 == k
    requires forall i :: 0 <= i < j ==> pairs[i].0 != k
    ensures ApplyAll(Token(k), pairs) == ApplyAll(pairs[j].1, pairs[j + 1..])
  {
    ApplyAllSplit(Token(k), pairs, j);
    TokenPassesPrefix(k, pairs, j);
    ApplyAllUnroll(Token(k), pairs, j);
    ReplaceAllWhole(Token(k), pairs[j].1);
  }

  lemma ApplyAllSplit(s: string, pairs: seq<(string, string)>, j: nat)
    requires j <= |pairs|
    ensures ApplyAll(s, pairs) == ApplyAll(ApplyAll(s, pairs[..j]), pairs[j..])
  {
    assert pairs == pairs[..j] + pairs[j..];
    ApplyAllAppend(s, pairs[..j], pairs[j..]);
  }

  lemma TokenPassesPrefix(k: string, pairs: seq<(string, string)>, j: nat)
    requires KeyText(k) && j <= |pairs|
    requires forall i :: 0 <= i < j ==> pairs[i].0 != k
    ensures ApplyAll(Token(k), pairs[..j]) == Token(k)
  {
    TokenPassesUntouched(k, pairs[..j]);
  }

  /** Scalar keys and fragment keys never coincide. */
  lemma ScalarAndFragmentKeysDiffer(i: nat, j: nat)
    requires i < |ScalarKeys| && j < |FragmentKeys|
    ensures ScalarKeys[i] != FragmentKeys[j]
  {
    AllKeysDistinct();
    assert AllKeys[i] == ScalarKeys[i];
    assert AllKeys[|ScalarKeys| + j] == FragmentKeys[j];
  }

  /** A fragment placeholder in the template survives the scalar pass and
      becomes its fragment, on which only the later fragment replacements act:
      scalar placeholders inside fragment text stay as they are. */
  lemma FragmentTokenRendered(m: Markup, data: Report, today: string, j: nat)
    requires AdvisorNamesPresent(data) && j < |FragmentKeys|
    ensures Rendered(m, Token(FragmentKeys[j]), data, today)
         == ApplyAll(Snippets(m, data)[j].1, Snippets(m, data)[j + 1..])
  {
    var k := FragmentKeys[j];
    var scalars, snippets := ScalarValues(data, today), Snippets(m, data);
    FragmentKeysText();
    forall i | 0 <= i < |scalars| ensures scalars[i].0 != k {
      ScalarAndFragmentKeysDiffer(i, j);
    }
    TokenPassesUntouched(k, scalars);
    forall i | 0 <= i < j ensures snippets[i].0 != k {
      FragmentKeysDistinct(i, j);
    }
    TokenMeetsItsPair(k, snippets, j);
  }

  /** A scalar placeholder in the template becomes its value, which the later
      scalar replacements and then every fragment replacement rewrite. */
  lemma ScalarTokenRendered(m: Markup, data: Report, today: string, i: nat)
    requires AdvisorNamesPresent(data) && i < |ScalarKeys|
    ensures Rendered(m, Token(ScalarKeys[i]), data, today)
         == ApplyAll(ApplyAll(ScalarValues(data, today)[i].1, ScalarValues(data, today)[i + 1..]), Snippets(m, data))
  {
    var scalars := ScalarValues(data, today);
    ScalarKeysText();
    AllKeysDistinct();
    forall h | 0 <= h < i ensures scalars[h].0 != ScalarKeys[i] {
      assert AllKeys[h] == ScalarKeys[h] && AllKeys[i] == ScalarKeys[i];
    }
    TokenMeetsItsPair(ScalarKeys[i], scalars, i);
  }

  /** A placeholder whose brace-free key is none of the sixteen is left in
      the report as it is. */
  lemma UnknownTokenUntouched(m: Markup, data: Report, today: string, u: string)
    requires AdvisorNamesPresent(data) && KeyText(u) && u !in AllKeys
    ensures Rendered(m, Token(u), data, today) == Token(u)
  {
    var scalars, snippets := ScalarValues(data, today), Snippets(m, data);
    assert forall i :: 0 <= i < |ScalarKeys| ==> AllKeys[i] == ScalarKeys[i];
    assert forall j :: 0 <= j < |FragmentKeys| ==> AllKeys[|ScalarKeys| + j] == FragmentKeys[j];
    TokenPassesUntouched(u, scalars);
    TokenPassesUntouched(u, snippets);
  }

  /** Past its first two characters a placeholder holds no opening brace. */
  lemma TokenBraces(u: string)
    requires KeyText(u)
    ensures forall d :: 2 <= d < |Token(u)| ==> Token(u)[d] != '{'
  {
    TokenChars(u);
    assert forall d :: 3 <= d < 3 + |u| ==> IsKeyChar(Token(u)[d]);
  }

  /** A placeholder that starts after another one starts does not start
      inside it. */
  lemma TokenStartsApart(k: string, u: string, s: string, p: int, q: int)
    requires KeyText(u) && OccursAt(Token(u), s, p) && OccursAt(Token(k), s, q) && p < q
    ensures p + |Token(u)| <= q
  {
    var tk, tu := Token(k), Token(u);
    TokenChars(k);
    TokenChars(u);
    TokenBraces(u);
    assert forall d :: 0 <= d < |tu| ==> tu[d] == s[p..p + |tu|][d] == s[p + d];
    assert s[q] == s[q..q + |tk|][0] == '{';
    assert s[q + 1] == s[q..q + |tk|][1] == '{';
  }

  /** Two placeholders that start at the same index have the same key. */
  lemma TokenSameStart(k: string, u: string, s: string, p: int, q: int)
    requires KeyText(k) && KeyText(u) && OccursAt(Token(u), s, p) && OccursAt(Token(k), s, q)
    ensures p == q ==> k == u
  {
    if p == q {
      var tk, tu := Token(k), Token(u);
      if |tk| <= |tu| {
        assert tu[..|tk|] == s[p..p + |tk|];
        assert OccursAt(tk, tu, 0);
        TokenOccursOnlyInItself(k, u);
      } else {
        assert tk[..|tu|] == s[p..p + |tu|];
        assert OccursAt(tu, tk, 0);
        TokenOccursOnlyInItself(u, k);
      }
    }
  }

  /** The placeholders of two different brace-free keys never overlap. */
  lemma TokensApart(k: string, u: string, s: string, p: int, q: int)
    requires KeyText(k) && KeyText(u) && k != u
    requires OccursAt(Token(u), s, p) && OccursAt(Token(k), s, q)
    ensures q + |Token(k)| <= p || p + |Token(u)| <= q
  {
    TokenSameStart(k, u, s, p, q);
    if p < q {
      TokenStartsApart(k, u, s, p, q);
    } else if q < p {
      TokenStartsApart(u, k, s, q, p);
    }
  }

  /** Replacing the placeholder of one key keeps every placeholder of
      another. */
  lemma TokenSurvivesReplace(u: string, s: string, k: string, v: string)
    requires KeyText(u) && KeyText(k) && k != u && Occurs(Token(u), s)
    ensures Occurs(Token(u), ReplaceAll(s, Token(k), v))
  {
    var p :| 0 <= p <= |s| - |Token(u)| && OccursAt(Token(u), s, p);
    forall q | OccursAt(Token(k), s, q)
      ensures q + |Token(k)| <= p || p + |Token(u)| <= q
    {
      TokensApart(k, u, s, p, q);
    }
    ReplaceAllKeeps(s, Token(k), v, Token(u), p);
  }

  /** A placeholder whose key no pair names survives all the pairs. */
  lemma {:induction false} TokenSurvivesPass(u: string, s: string, pairs: seq<(string, string)>)
    requires KeyText(u) && Occurs(Token(u), s)
    requires forall i :: 0 <= i < |pairs| ==> KeyText(pairs[i].0) && pairs[i].0 != u
    ensures Occurs(Token(u), ApplyAll(s, pairs))
    decreases |pairs|
  {
    if pairs != [] {
      TokenSurvivesReplace(u, s, pairs[0].0, pairs[0].1);
      assert forall i :: 0 <= i < |pairs[1..]| ==> pairs[1..][i] == pairs[i + 1];
      TokenSurvivesPass(u, ReplaceAll(s, Token(pairs[0].0), pairs[0].1), pairs[1..]);
    }
  }

  /** A placeholder whose brace-free key is none of the sixteen, anywhere in
      the template, is still in the report. */
  lemma UnknownTokenKept(m: Markup, template: string, data: Report, today: string, u: string)
    requires AdvisorNamesPresent(data) && KeyText(u) && u !in AllKeys && Occurs(Token(u), template)
    ensures Occurs(Token(u), Rendered(m, template, data, today))
  {
    var scalars, snippets := ScalarValues(data, today), Snippets(m, data);
    ScalarKeysText();
    FragmentKeysText();
    assert u !in ScalarKeys && u !in FragmentKeys;
    PairsAvoid(scalars, ScalarKeys, u);
    PairsAvoid(snippets, FragmentKeys, u);
    TokenSurvivesPass(u, template, scalars);
    TokenSurvivesPass(u, ApplyAll(template, scalars), snippets);
  }

  /** Pairs named by brace-free keys other than `u` name neither a brace nor
      `u`. */
  lemma PairsAvoid(pairs: seq<(string, string)>, keys: seq<string>, u: string)
    requires |pairs| == |keys| && u !in keys
    requires forall i :: 0 <= i < |keys| ==> pairs[i].0 == keys[i] && KeyText(keys[i])
    ensures forall i :: 0 <= i < |pairs| ==> KeyText(pairs[i].0) && pairs[i].0 != u
  {
  }

  /** A value that is the placeholder of a key no pair names passes the rest
      of the pairs unchanged, as the placeholder itself passes them all. */
  lemma PlaceholderValuePasses(k: string, pairs: seq<(string, string)>, i: nat, after: seq<(string, string)>)
    requires KeyText(k) && i < |pairs| && pairs[i].1 == Token(k)
    requires forall h :: 0 <= h < |pairs| ==> pairs[h].0 != k
    ensures ApplyAll(ApplyAll(pairs[i].1, pairs[i + 1..]), after) == ApplyAll(ApplyAll(Token(k), pairs), after)
  {
    var rest := pairs[i + 1..];
    forall h | 0 <= h < |rest| ensures rest[h].0 != k {
      assert rest[h] == pairs[i + 1 + h];
    }
    TokenPassesUntouched(k, rest);
    TokenPassesUntouched(k, pairs);
  }

  /** A scalar value that is itself a fragment placeholder is expanded into
      that fragment, exactly as the placeholder would be in the template. */
  lemma FragmentTokenInScalarValue(m: Markup, data: Report, today: string, i: nat, j: nat)
    requires AdvisorNamesPresent(data) && i < |ScalarKeys| && j < |FragmentKeys|
    requires ScalarValues(data, today)[i].1 == Token(FragmentKeys[j])
    ensures Rendered(m, Token(ScalarKeys[i]), data, today)
         == Rendered(m, Token(FragmentKeys[j]), data, today)
  {
    var scalars := ScalarValues(data, today);
    ScalarTokenRendered(m, data, today, i);
    FragmentKeysText();
    forall h | 0 <= h < |scalars| ensures scalars[h].0 != FragmentKeys[j] {
      ScalarAndFragmentKeysDiffer(h, j);
    }
    PlaceholderValuePasses(FragmentKeys[j], scalars, i, Snippets(m, data));
  }

  /** The last fragment is placed verbatim: nothing rewrites its text, not
      even a scalar placeholder that a golden sentence quotes. */
  lemma LastFragmentVerbatim(m: Markup, data: Report, today: string)
    requires AdvisorNamesPresent(data)
    ensures Rendered(m, Token("golden_sentences_html"), data, today)
         == GoldenSentencesFragment(m, data.goldenSentences.GetOr([]))
  {
    FragmentTokenRendered(m, data, today, 8);
    assert Snippets(m, data)[9..] == [];
  }
}
