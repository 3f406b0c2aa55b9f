/** `buildSearchUrl` (newtab/js/main.js:485-492): the address a free-text search
    navigates to, built from the configured template. */
module SearchUrl {
  import opened Text

  /** The address used when no template is configured. */
  const GoogleSearch: string := "https://www.google.com/search?q="

  /** The template the page starts with (`state.searchEngineTemplate`). */
  const DefaultTemplate: string := "https://www.google.com/search?q=%s"

  /** `encode` stands for `encodeURIComponent`, which is not part of this model. */
  function BuildSearchUrl(template: string, encode: string -> string, q: string): (url: string)
    ensures Trim(template) == "" ==> url == GoogleSearch + encode(q)
    ensures Trim(template) != "" && !Contains(Trim(template), "%s") ==>
      StartsWith(url, Trim(template)) && EndsWith(url, "q=" + encode(q)) &&
      url == Trim(template) + (if '?' in Trim(template) then "&q=" else "?q=") + encode(q)
    ensures Trim(template) != "" && Contains(Trim(template), "%s") ==>
      url == ReplaceAll(Trim(template), "%s", encode(q))
  {
    var tmpl := Trim(template);
    var encoded := encode(q);
    if tmpl == "" then GoogleSearch + encoded
    else if Contains(tmpl, "%s") then ReplaceAll(tmpl, "%s", encoded)
    else QueryAppended(tmpl, encoded)
  }

  /** The template, then `&` if it already has a query string and `?` otherwise,
      then `q=` and the encoded query. */
  function QueryAppended(tmpl: string, encoded: string): (url: string)
    ensures StartsWith(url, tmpl) && EndsWith(url, "q=" + encoded)
  {
    var join := if '?' in tmpl then "&q=" else "?q=";
    var url := tmpl + join + encoded;
    assert url[..|tmpl|] == tmpl;
    assert url[|url| - |encoded| - 2..] == join[1..] + encoded;
    url
  }

  /** The default template leads to the same address as the built-in fallback. */
  lemma DefaultTemplateIsFallback(encode: string -> string, q: string)
    ensures BuildSearchUrl(DefaultTemplate, encode, q) == BuildSearchUrl("", encode, q)
  {
    DefaultTemplateShape();
    PlaceInTemplate(GoogleSearch, "", encode, q);
  }

  lemma DefaultTemplateShape()
    ensures DefaultTemplate == GoogleSearch + "%s" + ""
    ensures Trimmed(GoogleSearch + "%s" + "") && '%' !in GoogleSearch
  {
  }

  /** A trimmed template with one `%s` place: the encoded query takes the place
      and the text around it is kept. */
  lemma PlaceInTemplate(p: string, s: string, encode: string -> string, q: string)
    requires Trimmed(p + "%s" + s) && '%' !in p && !Contains(s, "%s")
    ensures BuildSearchUrl(p + "%s" + s, encode, q) == p + encode(q) + s
  {
    var t := p + "%s" + s;
    TrimOfTrimmed(t);
    assert OccursAt(t, "%s", |p|);
    ReplaceOnePlace(p, s, encode(q));
  }

  lemma ReplaceOnePlace(p: string, s: string, e: string)
    requires '%' !in p && !Contains(s, "%s")
    ensures ReplaceAll(p + "%s" + s, "%s", e) == p + e + s
  {
    var u := "%s" + s;
    assert p + "%s" + s == p + u;
    ReplaceAllAfterPrefix(p, u, "%s", e);
    assert u[..2] == "%s" && u[2..] == s;
    assert ReplaceAll(u, "%s", e) == e + ReplaceAll(s, "%s", e);
    ReplaceAllAbsent(s, "%s", e);
  }

  /** A template naming no `%s` place keeps its text and gets the query appended. */
  lemma TemplateWithoutPlace(template: string, encode: string -> string, q: string)
    requires Trimmed(template) && template != [] && !Contains(template, "%s")
    ensures BuildSearchUrl(template, encode, q) ==
      template + (if '?' in template then "&q=" else "?q=") + encode(q)
  {
    TrimOfTrimmed(template);
  }
}
