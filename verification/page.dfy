/**
 * The two computations of the activities page that are not DOM work:
 * `escapeHtml`, which makes participant emails and activity texts safe to
 * splice into HTML, and the "spots left" figure shown on each card.
 *
 * `escapeHtml` is a chain of five global single-character replacements,
 * `&` first. Straight from the chain: it distributes over concatenation,
 * leaves text without special characters alone, and leaves no raw `<`, `>`,
 * `"` or `'`. Using distribution and a check of each single character, the
 * chain equals one per-character map; from that map follow that the output
 * never grows shorter and that every `&` in it begins an entity.
 */
module ActivitiesPage {
  import opened Activities

  /** A script value handed to `escapeHtml`: a string, or anything else. */
  datatype JsValue = JsString(s: string) | NotAString

  /** The five characters `escapeHtml` rewrites. */
  predicate IsSpecial(c: char) {
    c == '&' || c == '<' || c == '>' || c == '"' || c == '\''
  }

  predicate NoSpecials(s: string) {
    forall i :: 0 <= i < |s| ==> !IsSpecial(s[i])
  }

  /** `s.replace(/t/g, rep)`: every occurrence of `t` becomes `rep`. */
  function ReplaceAll(s: string, t: char, rep: string): (r: string)
    ensures t !in s ==> r == s
    ensures t !in rep ==> t !in r
  {
    if s == [] then []
    else (if s[0] == t then rep else [s[0]]) + ReplaceAll(s[1..], t, rep)
  }

  /** The replacement chain of `escapeHtml` on a string argument. */
  function EscapeString(s: string): string {
    ReplaceAll(
      ReplaceAll(
        ReplaceAll(
          ReplaceAll(
            ReplaceAll(s, '&', "&amp;"),
            '<', "&lt;"),
          '>', "&gt;"),
        '"', "&quot;"),
      '\'', "&#039;")
  }

  /**
   * `escapeHtml`: the empty string for anything that is not a string, else
   * the replacement chain, which is the per-character escape.
   */
  function EscapeHtml(v: JsValue): (r: string)
    ensures v.NotAString? ==> r == ""
    ensures v.JsString? ==> r == EscapeEach(v.s)
  {
    match v
    case NotAString => ""
    case JsString(s) => EscapeStringIsPerCharacter(s); EscapeString(s)
  }

  /** The reference definition: what each single character becomes. */
  function EscapeChar(c: char): (r: string)
    ensures !IsSpecial(c) ==> r == [c]
    ensures IsSpecial(c) ==> |r| > 1 && r[0] == '&'
    ensures forall k :: 0 < k < |r| ==> !IsSpecial(r[k])
  {
    if c == '&' then "&amp;"
    else if c == '<' then "&lt;"
    else if c == '>' then "&gt;"
    else if c == '"' then "&quot;"
    else if c == '\'' then "&#039;"
    else [c]
  }

  /** The reference definition: escape character by character. */
  function EscapeEach(s: string): string {
    if s == [] then [] else EscapeChar(s[0]) + EscapeEach(s[1..])
  }

  /** `r` holds `e` starting at index `i`. */
  predicate HasAt(r: string, i: nat, e: string) {
    i + |e| <= |r| && r[i..i + |e|] == e
  }

  /** Index `i` of `r` begins one of the five entities. */
  predicate BeginsEntity(r: string, i: nat) {
    HasAt(r, i, "&amp;") || HasAt(r, i, "&lt;") || HasAt(r, i, "&gt;")
    || HasAt(r, i, "&quot;") || HasAt(r, i, "&#039;")
  }

  /** Every `&` in `r` begins one of the five entities. */
  predicate AmpersandsBeginEntities(r: string) {
    forall i :: 0 <= i < |r| && r[i] == '&' ==> BeginsEntity(r, i)
  }

  // ---------------------------------------------------------------------
  // The chain equals the per-character map

  lemma {:induction false} ReplaceAllAppend(a: string, b: string, t: char, rep: string)
    ensures ReplaceAll(a + b, t, rep) == ReplaceAll(a, t, rep) + ReplaceAll(b, t, rep)
  {
    if a == [] {
      assert a + b == b;
    } else {
      assert (a + b)[0] == a[0];
      assert (a + b)[1..] == a[1..] + b;
      ReplaceAllAppend(a[1..], b, t, rep);
    }
  }

  /** A character in neither the text nor the replacement is not in the result. */
  lemma {:induction false} ReplaceAllKeepsAbsent(s: string, t: char, rep: string, c: char)
    requires c !in s && c !in rep
    ensures c !in ReplaceAll(s, t, rep)
  {
    if s != [] {
      assert c !in s[1..];
      ReplaceAllKeepsAbsent(s[1..], t, rep, c);
    }
  }

  /** One replacement step on text that is one character `c` or lacks the target. */
  lemma ReplaceAllStep(c: char, t: char, rep: string, prev: string)
    requires prev == [c] || t !in prev
    ensures ReplaceAll(prev, t, rep) == if prev == [c] && c == t then rep else prev
  {
    if prev == [c] {
      assert prev[1..] == [];
    }
  }

  /** Escaping distributes over concatenation. */
  lemma EscapeStringAppend(a: string, b: string)
    ensures EscapeString(a + b) == EscapeString(a) + EscapeString(b)
  {
    var a1, b1 := ReplaceAll(a, '&', "&amp;"), ReplaceAll(b, '&', "&amp;");
    ReplaceAllAppend(a, b, '&', "&amp;");
    var a2, b2 := ReplaceAll(a1, '<', "&lt;"), ReplaceAll(b1, '<', "&lt;");
    ReplaceAllAppend(a1, b1, '<', "&lt;");
    var a3, b3 := ReplaceAll(a2, '>', "&gt;"), ReplaceAll(b2, '>', "&gt;");
    ReplaceAllAppend(a2, b2, '>', "&gt;");
    var a4, b4 := ReplaceAll(a3, '"', "&quot;"), ReplaceAll(b3, '"', "&quot;");
    ReplaceAllAppend(a3, b3, '"', "&quot;");
    ReplaceAllAppend(a4, b4, '\'', "&#039;");
  }

  /** The four replacements after the `&` one keep text that has none of their targets. */
  lemma StepsAfterAmpKeep(x: string)
    requires '<' !in x && '>' !in x && '"' !in x && '\'' !in x
    ensures ReplaceAll(ReplaceAll(ReplaceAll(ReplaceAll(x,
      '<', "&lt;"), '>', "&gt;"), '"', "&quot;"), '\'', "&#039;") == x
  {
  }

  /** The three replacements after the `<` one keep text that has none of their targets. */
  lemma StepsAfterLtKeep(x: string)
    requires '>' !in x && '"' !in x && '\'' !in x
    ensures ReplaceAll(ReplaceAll(ReplaceAll(x,
      '>', "&gt;"), '"', "&quot;"), '\'', "&#039;") == x
  {
  }

  /** The two replacements after the `>` one keep text that has none of their targets. */
  lemma StepsAfterGtKeep(x: string)
    requires '"' !in x && '\'' !in x
    ensures ReplaceAll(ReplaceAll(x, '"', "&quot;"), '\'', "&#039;") == x
  {
  }

  /** On one character the chain does what the per-character map says. */
  lemma EscapeStringChar(c: char)
    ensures EscapeString([c]) == EscapeChar(c)
  {
    var s1 := ReplaceAll([c], '&', "&amp;");
    ReplaceAllStep(c, '&', "&amp;", [c]);
    if c == '&' {
      StepsAfterAmpKeep(s1);
      return;
    }
    var s2 := ReplaceAll(s1, '<', "&lt;");
    ReplaceAllStep(c, '<', "&lt;", s1);
    if c == '<' {
      StepsAfterLtKeep(s2);
      return;
    }
    var s3 := ReplaceAll(s2, '>', "&gt;");
    ReplaceAllStep(c, '>', "&gt;", s2);
    if c == '>' {
      StepsAfterGtKeep(s3);
      return;
    }
    var s4 := ReplaceAll(s3, '"', "&quot;");
    ReplaceAllStep(c, '"', "&quot;", s3);
    ReplaceAllStep(c, '\'', "&#039;", s4);
  }

  /** The chain of replacements equals the single per-character map. */
  lemma {:induction false} EscapeStringIsPerCharacter(s: string)
    ensures EscapeString(s) == EscapeEach(s)
  {
    if s != [] {
      assert s == [s[0]] + s[1..];
      EscapeStringAppend([s[0]], s[1..]);
      EscapeStringChar(s[0]);
      EscapeStringIsPerCharacter(s[1..]);
    }
  }

  // ---------------------------------------------------------------------
  // Properties of escapeHtml

  /** Any value that is not a string escapes to the empty string. */
  lemma EscapeNonString(v: JsValue)
    requires !v.JsString?
    ensures EscapeHtml(v) == ""
  {
  }

  /** `escapeHtml(a + b) == escapeHtml(a) + escapeHtml(b)`. */
  lemma EscapeHtmlDistributes(a: string, b: string)
    ensures EscapeHtml(JsString(a + b)) == EscapeHtml(JsString(a)) + EscapeHtml(JsString(b))
  {
    EscapeStringAppend(a, b);
  }

  /** Text with none of the five special characters comes back unchanged. */
  lemma EscapeHtmlKeepsPlainText(s: string)
    requires NoSpecials(s)
    ensures EscapeHtml(JsString(s)) == s
  {
    assert '&' !in s && '<' !in s && '>' !in s && '"' !in s && '\'' !in s;
  }

  /** The output holds no raw `<`, `>`, `"` or `'`. */
  lemma EscapeHtmlNoRawSpecials(s: string)
    ensures var r := EscapeHtml(JsString(s));
      '<' !in r && '>' !in r && '"' !in r && '\'' !in r
  {
    var s1 := ReplaceAll(s, '&', "&amp;");
    var s2 := ReplaceAll(s1, '<', "&lt;");
    var s3 := ReplaceAll(s2, '>', "&gt;");
    ReplaceAllKeepsAbsent(s2, '>', "&gt;", '<');
    var s4 := ReplaceAll(s3, '"', "&quot;");
    ReplaceAllKeepsAbsent(s3, '"', "&quot;", '<');
    ReplaceAllKeepsAbsent(s3, '"', "&quot;", '>');
    ReplaceAllKeepsAbsent(s4, '\'', "&#039;", '<');
    ReplaceAllKeepsAbsent(s4, '\'', "&#039;", '>');
    ReplaceAllKeepsAbsent(s4, '\'', "&#039;", '"');
    assert EscapeHtml(JsString(s)) == ReplaceAll(s4, '\'', "&#039;");
  }

  /** Appending in front shifts where a piece of text is found. */
  lemma HasAtShift(a: string, b: string, j: nat, e: string)
    requires HasAt(b, j, e)
    ensures HasAt(a + b, |a| + j, e)
  {
    assert (a + b)[|a| + j..|a| + j + |e|] == b[j..j + |e|];
  }

  /** An entity found in `b` is still an entity once `a` is put in front. */
  lemma BeginsEntityShift(a: string, b: string, j: nat)
    requires BeginsEntity(b, j)
    ensures BeginsEntity(a + b, |a| + j)
  {
    if HasAt(b, j, "&amp;") { HasAtShift(a, b, j, "&amp;"); }
    else if HasAt(b, j, "&lt;") { HasAtShift(a, b, j, "&lt;"); }
    else if HasAt(b, j, "&gt;") { HasAtShift(a, b, j, "&gt;"); }
    else if HasAt(b, j, "&quot;") { HasAtShift(a, b, j, "&quot;"); }
    else { HasAtShift(a, b, j, "&#039;"); }
  }

  /** An `&` inside the escape of one character begins that character's entity. */
  lemma EscapeCharBeginsEntity(c: char, rest: string, i: nat)
    requires i < |EscapeChar(c)| && EscapeChar(c)[i] == '&'
    ensures BeginsEntity(EscapeChar(c) + rest, i)
  {
    var chunk := EscapeChar(c);
    var r := chunk + rest;
    assert i == 0 && IsSpecial(c);
    assert r[..|chunk|] == chunk;
    assert HasAt(r, 0, chunk);
  }

  lemma {:induction false} EscapeEachAmpersands(s: string)
    ensures AmpersandsBeginEntities(EscapeEach(s))
  {
    if s != [] {
      var chunk, rest := EscapeChar(s[0]), EscapeEach(s[1..]);
      var r := EscapeEach(s);
      assert r == chunk + rest;
      EscapeEachAmpersands(s[1..]);
      forall i | 0 <= i < |r| && r[i] == '&' ensures BeginsEntity(r, i) {
        if i < |chunk| {
          EscapeCharBeginsEntity(s[0], rest, i);
        } else {
          assert rest[i - |chunk|] == '&';
          BeginsEntityShift(chunk, rest, i - |chunk|);
        }
      }
    }
  }

  /** Every `&` in the output begins `&amp;`, `&lt;`, `&gt;`, `&quot;` or `&#039;`. */
  lemma EscapeHtmlAmpersandsBeginEntities(s: string)
    ensures AmpersandsBeginEntities(EscapeHtml(JsString(s)))
  {
    EscapeStringIsPerCharacter(s);
    EscapeEachAmpersands(s);
  }

  lemma {:induction false} EscapeEachLength(s: string)
    ensures |EscapeEach(s)| >= |s|
    ensures |EscapeEach(s)| == |s| <==> NoSpecials(s)
  {
    if s != [] {
      EscapeEachLength(s[1..]);
      assert NoSpecials(s) <==> !IsSpecial(s[0]) && NoSpecials(s[1..]);
    }
  }

  /** The output is never shorter, and is as long exactly when nothing was special. */
  lemma EscapeHtmlLength(s: string)
    ensures |EscapeHtml(JsString(s))| >= |s|
    ensures |EscapeHtml(JsString(s))| == |s| <==> NoSpecials(s)
  {
    EscapeStringIsPerCharacter(s);
    EscapeEachLength(s);
  }

  // ---------------------------------------------------------------------
  // Availability

  /** The card's "spots left": capacity minus the current participant count. */
  function SpotsLeft(a: Activity): (r: int)
    ensures r < 0 <==> |a.participants| > a.maxParticipants
    ensures r == 0 <==> |a.participants| == a.maxParticipants
  {
    a.maxParticipants - |a.participants|
  }

  /**
   * A successful signup takes exactly one spot, and a signup to a full
   * activity still succeeds, leaving a negative figure.
   */
  lemma SpotsLeftAfterSignup(reg: Registry, name: string, email: string)
    requires name in reg && email !in reg[name].participants
    ensures SpotsLeft(Signup(reg, name, email).registry[name]) == SpotsLeft(reg[name]) - 1
    ensures SpotsLeft(reg[name]) <= 0 ==>
      Signup(reg, name, email).response.Ok? && SpotsLeft(Signup(reg, name, email).registry[name]) < 0
  {
    SignupAppends(reg, name, email);
  }

  /** A successful unregister frees exactly one spot. */
  lemma SpotsLeftAfterUnregister(reg: Registry, name: string, email: string)
    requires name in reg && email in reg[name].participants
    ensures SpotsLeft(Unregister(reg, name, email).registry[name]) == SpotsLeft(reg[name]) + 1
  {
  }

  /** Every seeded activity shows a non-negative figure; "Chess Club" shows 10. */
  lemma SeedSpotsLeft()
    ensures forall name :: name in SeedActivities() ==> SpotsLeft(SeedActivities()[name]) >= 0
    ensures "Chess Club" in SeedActivities() && SpotsLeft(SeedActivities()["Chess Club"]) == 10
  {
  }
}
