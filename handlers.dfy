/**
 * The pure parts of the mail handlers: template variable substitution and
 * the recipient and `List-Unsubscribe` strings of the outgoing message.
 */
module Handlers {
  import opened Wrappers
  import opened Strings
  import Utils

  const CODE_PLACEHOLDER: string := "{{code}}"

  const URL_PLACEHOLDER: string := "{{url}}"

  /** `FRONTEND_VERIFY_EMAIL_URL`, the handlers' default `url`. */
  function VerifyEmailUrl(frontendUrl: string): (url: string)
    ensures |url| == |frontendUrl| + 13
    ensures url[..|frontendUrl|] == frontendUrl && url[|frontendUrl|..] == "/verify-email"
  {
    frontendUrl + "/verify-email"
  }

  // ----------------------------------------------------------- substitution

  /** The template after replacing each variable in turn, in iteration order. */
  function ApplyVariables(body: string, variables: seq<(string, string)>): string
    decreases |variables|
  {
    if variables == [] then body
    else
      var last := variables[|variables| - 1];
      Replace(ApplyVariables(body, variables[..|variables| - 1]), last.0, last.1)
  }

  /** `body_replace`: `variables` lists the dictionary's items in iteration order. */
  method BodyReplace(body: string, variables: seq<(string, string)>) returns (newBody: string)
    ensures newBody == ApplyVariables(body, variables)
    ensures variables == [] ==> newBody == body
  {
    newBody := body;
    var i := 0;
    while i < |variables|
      invariant 0 <= i <= |variables|
      invariant newBody == ApplyVariables(body, variables[..i])
    {
      var (key, value) := variables[i];
      assert variables[..i + 1][..i] == variables[..i];
      newBody := Replace(newBody, key, value);
      i := i + 1;
    }
    assert variables[..|variables|] == variables;
  }

  /** A template in which no key occurs comes back unchanged. */
  lemma {:induction false} ApplyVariablesWithoutKeys(body: string, variables: seq<(string, string)>)
    requires forall i :: 0 <= i < |variables| ==> !Occurs(body, variables[i].0)
    ensures ApplyVariables(body, variables) == body
    decreases |variables|
  {
    if variables != [] {
      var init := variables[..|variables| - 1];
      assert forall i :: 0 <= i < |init| ==> init[i] == variables[i];
      ApplyVariablesWithoutKeys(body, init);
      ReplaceWithoutOccurrence(body, variables[|variables| - 1].0, variables[|variables| - 1].1);
    }
  }

  /** The variables both handlers pass, in this order. */
  function HandlerVariables(code: string, url: string): (vars: seq<(string, string)>)
    ensures |vars| == 2
    ensures vars[0] == (CODE_PLACEHOLDER, code) && vars[1] == (URL_PLACEHOLDER, url)
    ensures vars[0].0 != vars[1].0
  {
    [(CODE_PLACEHOLDER, code), (URL_PLACEHOLDER, url)]
  }

  /**
   * With clean values (see `Clean`), no `{{code}}` and no `{{url}}`
   * survives the handlers' substitution, whatever the template.
   */
  lemma HandlerBodyFullySubstituted(body: string, code: string, url: string)
    requires Clean(code, CODE_PLACEHOLDER) && Clean(url, URL_PLACEHOLDER) && Clean(url, CODE_PLACEHOLDER)
    ensures var r := ApplyVariables(body, HandlerVariables(code, url));
      !Occurs(r, URL_PLACEHOLDER) && !Occurs(r, CODE_PLACEHOLDER)
  {
    var vars := HandlerVariables(code, url);
    assert vars[..1] == [vars[0]] && vars[..1][..0] == [];
    var afterCode := Replace(body, CODE_PLACEHOLDER, code);
    assert ApplyVariables(body, vars[..1]) == afterCode;
    ReplaceLeavesNoOccurrence(body, CODE_PLACEHOLDER, code, CODE_PLACEHOLDER);
    ReplaceLeavesNoOccurrence(afterCode, URL_PLACEHOLDER, url, CODE_PLACEHOLDER);
    ReplaceLeavesNoOccurrence(afterCode, URL_PLACEHOLDER, url, URL_PLACEHOLDER);
  }

  /** A generated code is clean for `{{code}}`: it has no braces and no lowercase letters. */
  lemma GeneratedCodeIsClean(draws: seq<nat>)
    requires Utils.ValidDraws(draws, Utils.DEFAULT_CODE_SIZE, Utils.CODE_CHARS)
    ensures Clean(Utils.GenerateVerificationCode(Utils.DEFAULT_CODE_SIZE, Utils.CODE_CHARS, draws), CODE_PLACEHOLDER)
  {
    var code := Utils.GenerateVerificationCode(Utils.DEFAULT_CODE_SIZE, Utils.CODE_CHARS, draws);
    var k := CODE_PLACEHOLDER;
    Utils.CodeCharsAlphabet('{');
    Utils.CodeCharsAlphabet('}');
    Utils.CodeCharsAlphabet(code[0]);
    forall p: nat ensures !OccursAt(k, code, p) {
      if p + |code| <= |k| {
        assert k[p..p + |code|][0] == k[p];
        assert p == 0 || p == 1 || p == 2;
      }
    }
  }

  /** The default verification URL is clean for both placeholders when the frontend URL has no braces. */
  lemma VerifyEmailUrlIsClean(frontendUrl: string)
    requires '{' !in frontendUrl && '}' !in frontendUrl
    ensures Clean(VerifyEmailUrl(frontendUrl), URL_PLACEHOLDER)
    ensures Clean(VerifyEmailUrl(frontendUrl), CODE_PLACEHOLDER)
  {
    var url := VerifyEmailUrl(frontendUrl);
    assert '{' !in url && '}' !in url;
  }

  /** "{{{{url}}}}" holds no `{{code}}`. */
  lemma NoCodePlaceholderInCounterexample()
    ensures !Occurs("{{{{url}}}}", CODE_PLACEHOLDER)
  {
    var body := "{{{{url}}}}";
    forall p: nat ensures !OccursAt(body, CODE_PLACEHOLDER, p) {
      if p + 8 <= |body| {
        assert body[p..p + 8][2] == body[p + 2];
        assert p == 0 || p == 1 || p == 2 || p == 3;
      }
    }
  }

  /** Replacing `{{url}}` by "url" in "{{{{url}}}}", one step of `Replace` at a time. */
  lemma UrlReplaceSteps()
    ensures Replace("{{{{url}}}}", URL_PLACEHOLDER, "url") == "{{url}}"
  {
    var k := URL_PLACEHOLDER;
    assert Replace("}}", k, "url") == "}}";
    assert "{{url}}}}"[..7] == k && "{{url}}}}"[7..] == "}}";
    assert Replace("{{url}}}}", k, "url") == "url}}";
    assert "{{{url}}}}"[..7][2] != k[2];
    assert "{{{url}}}}"[..7] != k && "{{{url}}}}"[1..] == "{{url}}}}";
    assert Replace("{{{url}}}}", k, "url") == "{url}}";
    assert "{{{{url}}}}"[..7][2] != k[2];
    assert "{{{{url}}}}"[..7] != k && "{{{{url}}}}"[1..] == "{{{url}}}}";
  }

  /**
   * Without the cleanness condition a placeholder can be formed anew:
   * replacing `{{url}}` by "url" in "{{{{url}}}}" yields "{{url}}".
   */
  lemma UrlPlaceholderCanReappear()
    ensures !Occurs("url", URL_PLACEHOLDER)
    ensures Occurs(ApplyVariables("{{{{url}}}}", HandlerVariables("ABC123", "url")), URL_PLACEHOLDER)
  {
    var body := "{{{{url}}}}";
    var vars := HandlerVariables("ABC123", "url");
    assert vars[..1] == [vars[0]] && vars[..1][..0] == [];
    NoCodePlaceholderInCounterexample();
    ReplaceWithoutOccurrence(body, CODE_PLACEHOLDER, "ABC123");
    assert ApplyVariables(body, vars) == Replace(body, URL_PLACEHOLDER, "url");
    UrlReplaceSteps();
    assert OccursAt("{{url}}", URL_PLACEHOLDER, 0);
  }

  // -------------------------------------------------------------- addresses

  /** The recipient: `name <email>` for a non-empty name, else the bare address. */
  function Recipient(email: string, name: Option<string>): (r: string)
    ensures name.Some? && name.value != "" ==>
      && |r| == |name.value| + |email| + 3
      && r[..|name.value|] == name.value && r[|name.value|..|name.value| + 2] == " <"
      && r[|name.value| + 2..|r| - 1] == email && r[|r| - 1] == '>'
    ensures !(name.Some? && name.value != "") ==> r == email
  {
    if name.Some? && name.value != "" then name.value + " <" + email + ">" else email
  }

  /** The handlers pass `name + " " + surname`, never empty, so the address is always bracketed. */
  lemma HandlerRecipientIsBracketed(email: string, name: string, surname: string)
    ensures Recipient(email, Some(name + " " + surname)) == name + " " + surname + " <" + email + ">"
  {
    assert |name + " " + surname| > 0;
  }

  /** The `List-Unsubscribe` header: the frontend URL, then `/unsubscribe/`, then the address. */
  function ListUnsubscribe(frontendUrl: string, email: string): (h: string)
    ensures |h| == |frontendUrl| + 13 + |email|
    ensures h[..|frontendUrl|] == frontendUrl
    ensures h[|frontendUrl|..|frontendUrl| + 13] == "/unsubscribe/"
    ensures h[|frontendUrl| + 13..] == email
  {
    frontendUrl + "/unsubscribe/" + email
  }
}
