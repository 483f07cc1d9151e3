/** The campaign's message text: `replaceVariables`, which substitutes
    `{{key}}` tokens one key after the other, and `generateEmailHtml`, which
    wraps the substituted body in the fixed page. */
module Templates {
  import opened Http
  import opened Text
  import opened Numerals

  /** The literal text `new RegExp('{{' + key + '}}', 'g')` matches. */
  function Token(key: string): (t: string)
    ensures |t| == |key| + 4 && t[..2] == "{{"
  {
    "{{" + key + "}}"
  }

  /** `value || 'N/A'`. */
  function Fallback(v: string): (r: string)
    ensures r != ""
    ensures v != "" ==> r == v
  {
    if v == "" then "N/A" else v
  }

  /** The template after replacing the tokens of `data`'s keys, in key order,
      each by its value or `N/A`. */
  function SubstituteAll(template: string, data: seq<(string, string)>): string
    decreases |data|
  {
    if data == [] then template
    else
      var last := data[|data| - 1];
      ReplaceAll(SubstituteAll(template, data[..|data| - 1]), Token(last.0), Fallback(last.1))
  }

  /** `replaceVariables`: one global replace per key, each on the result of
      the one before. */
  method ReplaceVariables(template: string, data: seq<(string, string)>) returns (result: string)
    ensures result == SubstituteAll(template, data)
  {
    result := template;
    for i := 0 to |data|
      invariant result == SubstituteAll(template, data[..i])
    {
      assert data[..i + 1][..i] == data[..i];
      var key := data[i].0;
      result := ReplaceAll(result, Token(key), Fallback(data[i].1));
    }
    assert data[..|data|] == data;
  }

  /** A template holding none of the keys' tokens comes back unchanged: every
      other text, unknown tokens included, is left alone. */
  lemma {:induction false} NoTokenUnchanged(template: string, data: seq<(string, string)>)
    requires forall k :: 0 <= k < |data| ==> !Includes(template, Token(data[k].0))
    ensures SubstituteAll(template, data) == template
    decreases |data|
  {
    if data != [] {
      var init := data[..|data| - 1];
      NoTokenUnchanged(template, init);
      ReplaceAllAbsent(template, Token(data[|data| - 1].0), Fallback(data[|data| - 1].1));
    }
  }

  /** A template without `{{` comes back unchanged. */
  lemma NoBracesUnchanged(template: string, data: seq<(string, string)>)
    requires !Includes(template, "{{")
    ensures SubstituteAll(template, data) == template
  {
    forall k | 0 <= k < |data|
      ensures !Includes(template, Token(data[k].0))
    {
      if Includes(template, Token(data[k].0)) {
        IncludesPrefix(template, Token(data[k].0), 2);
      }
    }
    NoTokenUnchanged(template, data);
  }

  /** A token alone becomes its value, or `N/A` for an empty value. */
  lemma SingleToken(key: string, value: string)
    ensures SubstituteAll(Token(key), [(key, value)]) == Fallback(value)
    ensures value == "" ==> SubstituteAll(Token(key), [(key, value)]) == "N/A"
  {
    var data := [(key, value)];
    assert data[..0] == [];
    ReplaceAllWhole(Token(key), Fallback(value));
  }

  /** A token inside text that holds no other braces becomes its value in
      place, and the text around it is kept. */
  lemma TokenInText(a: string, key: string, b: string, value: string)
    requires '{' !in a && !Includes(b, "{{")
    ensures SubstituteAll(a + Token(key) + b, [(key, value)]) == a + Fallback(value) + b
  {
    var data := [(key, value)];
    assert data[..0] == [];
    ReplaceAllFirst(a, b, Token(key), Fallback(value));
    if Includes(b, Token(key)) {
      IncludesPrefix(b, Token(key), 2);
    }
    ReplaceAllAbsent(b, Token(key), Fallback(value));
  }

  /** `Hello {{name}}!` with `name` set to `Ada` reads `Hello Ada!`. */
  lemma GreetingExample()
    ensures SubstituteAll("Hello {{name}}!", [("name", "Ada")]) == "Hello Ada!"
  {
    assert "Hello {{name}}!" == "Hello " + Token("name") + "!";
    TokenInText("Hello ", "name", "!", "Ada");
  }

  /** Substitution is sequential: a value that is itself a later key's
      token is substituted again. */
  lemma SequentialSubstitution(k1: string, k2: string, v2: string)
    ensures SubstituteAll(Token(k1), [(k1, Token(k2)), (k2, v2)]) == Fallback(v2)
  {
    var data := [(k1, Token(k2)), (k2, v2)];
    assert data[..1] == [(k1, Token(k2))];
    SingleToken(k1, Token(k2));
    ReplaceAllWhole(Token(k2), Fallback(v2));
  }

  /** `${headerTitle}`: an absent title is interpolated as `undefined`. */
  function Interpolate(v: Option<string>): string {
    match v
    case Some(s) => s
    case None => "undefined"
  }

  /** The text of the page before the title; the stylesheet is elided. */
  const PageHead: string :=
    "\n<!DOCTYPE html>\n<html>\n<head>\n  <style></style>\n</head>\n<body>\n  <div class=\"header\">\n    <h1>"

  const AfterTitle: string := "</h1>\n  </div>\n  <div class=\"content\">\n    "

  const AfterBody: string := "\n  </div>\n  <div class=\"footer\">\n    <p>\U{00A9} "

  const PageTail: string := " Admin Portal. All rights reserved.</p>\n  </div>\n</body>\n</html>\n    "

  /** Everything before the body: the head, the header with the title, and
      the opening of the content block. */
  function HeaderPart(headerTitle: Option<string>): string {
    PageHead + Interpolate(headerTitle) + AfterTitle
  }

  /** Everything after the body: the footer with the year. */
  function FooterPart(year: nat): string {
    AfterBody + Decimal(year) + PageTail
  }

  /** `generateEmailHtml` with the footer's year as a parameter: the body
      appears verbatim inside the content block, after the header. */
  function GenerateEmailHtml(headerTitle: Option<string>, body: string, year: nat): (html: string)
    ensures |html| == |HeaderPart(headerTitle)| + |body| + |FooterPart(year)|
    ensures html[..|HeaderPart(headerTitle)|] == HeaderPart(headerTitle)
    ensures html[|HeaderPart(headerTitle)|..|HeaderPart(headerTitle)| + |body|] == body
    ensures html[|HeaderPart(headerTitle)| + |body|..] == FooterPart(year)
  {
    var h := HeaderPart(headerTitle);
    var html := h + body + FooterPart(year);
    assert html[..|h|] == h;
    assert html[|h|..|h| + |body|] == body;
    assert html[|h| + |body|..] == FooterPart(year);
    html
  }

  /** With the title and year fixed, the page determines the body: nothing
      of the body is lost or altered by the wrapping. */
  lemma GenerateEmailHtmlInjective(title: Option<string>, b1: string, b2: string, year: nat)
    requires GenerateEmailHtml(title, b1, year) == GenerateEmailHtml(title, b2, year)
    ensures b1 == b2
  {
  }
}
