/**
 * `_formatString`: look up a message template for the configured language
 * and put the given value in place of its first `{string}`.
 *
 * The source does this with `String.prototype.replace`, which reads `$$`,
 * `$&`, `` $` `` and `$'` in the replacement as patterns (section 22.1.3.19.1
 * of ECMA-262, GetSubstitution). `FormatString` models that; the value the
 * cloud means to show is the data verbatim, which `FormatStringLiteral`
 * states.
 */
module Format {
  import opened Wrappers

  const Placeholder: string := "{string}"

  /** `_i18n`: the message templates for each language. */
  const Translations: map<string, map<string, string>> := map[
    "en" := map[
      "stats_title" := "Information on topic \"{string}\":",
      "total_mentions" := "Total Mentions: {string}",
      "positive_mentions" := "Positive Mentions: <span class=\"mention_positive\">{string}</span>",
      "neutral_mentions" := "Neutral Mentions: <span class=\"mention_neutral\">{string}</span>",
      "negative_mentions" := "Negative Mentions: <span class=\"mention_negative\">{string}</span>"
    ]
  ]

  datatype FormatError =
    | NoLanguage                 // `_i18n[language]` is undefined: reading the id from it is a TypeError
    | NoTranslation(id: string)  // the "Translation for String ID ... not found" error

  predicate OccursAt(s: string, pat: string, i: nat)
  {
    i + |pat| <= |s| && s[i..i + |pat|] == pat
  }

  /** The first occurrence of `pat` in `s` at index `k` or later. */
  function IndexOfFrom(s: string, pat: string, k: nat): (i: int)
    ensures -1 <= i
    ensures i >= 0 ==> k <= i && OccursAt(s, pat, i) && forall j :: k <= j < i ==> !OccursAt(s, pat, j)
    ensures i == -1 ==> forall j :: k <= j ==> !OccursAt(s, pat, j)
    decreases |s| - k
  {
    if k + |pat| > |s| then -1
    else if OccursAt(s, pat, k) then k
    else IndexOfFrom(s, pat, k + 1)
  }

  /** `s.indexOf(pat)`: the first index where `pat` occurs, or -1. */
  function IndexOf(s: string, pat: string): (i: int)
    ensures i >= 0 ==> OccursAt(s, pat, i) && forall j :: 0 <= j < i ==> !OccursAt(s, pat, j)
    ensures i < 0 ==> i == -1 && forall j :: 0 <= j ==> !OccursAt(s, pat, j)
  {
    IndexOfFrom(s, pat, 0)
  }

  /**
   * GetSubstitution for a string pattern: `$$` is a dollar sign, `$&` the
   * matched text, `` $` `` the text before it and `$'` the text after it;
   * with no capture groups every other `$` stands for itself.
   */
  function Expand(t: string, matched: string, before: string, after: string): (r: string)
    ensures '$' !in t ==> r == t
    decreases |t|
  {
    if |t| == 0 then ""
    else if |t| >= 2 && t[0] == '$' && t[1] == '$' then "$" + Expand(t[2..], matched, before, after)
    else if |t| >= 2 && t[0] == '$' && t[1] == '&' then matched + Expand(t[2..], matched, before, after)
    else if |t| >= 2 && t[0] == '$' && t[1] == '`' then before + Expand(t[2..], matched, before, after)
    else if |t| >= 2 && t[0] == '$' && t[1] == '\'' then after + Expand(t[2..], matched, before, after)
    else [t[0]] + Expand(t[1..], matched, before, after)
  }

  /** `s.replace(pat, rep)` with a string pattern: the first occurrence only. */
  function ReplaceFirst(s: string, pat: string, rep: string): (r: string)
    ensures IndexOf(s, pat) < 0 ==> r == s
  {
    var p := IndexOf(s, pat);
    if p < 0 then s
    else s[..p] + Expand(rep, pat, s[..p], s[p + |pat|..]) + s[p + |pat|..]
  }

  /** The first occurrence of `pat` replaced by `rep` character for character. */
  function ReplaceFirstLiteral(s: string, pat: string, rep: string): (r: string)
    ensures IndexOf(s, pat) < 0 ==> r == s
  {
    var p := IndexOf(s, pat);
    if p < 0 then s else s[..p] + rep + s[p + |pat|..]
  }

  /** The two replacements agree on a value without a dollar sign. */
  lemma ReplaceFirstAgrees(s: string, pat: string, rep: string)
    requires '$' !in rep
    ensures ReplaceFirst(s, pat, rep) == ReplaceFirstLiteral(s, pat, rep)
  {
  }

  /** The template for `id`, or why there is none. */
  function Template(language: string, id: string): (r: Result<string, FormatError>)
    ensures r.Ok? ==> language in Translations && id in Translations[language] && r.value == Translations[language][id]
    ensures r.Ok? ==> r.value != ""
    ensures language !in Translations ==> r == Err(NoLanguage)
    ensures language in Translations && (id !in Translations[language] || Translations[language][id] == "") ==>
      r == Err(NoTranslation(id))
  {
    if language !in Translations then Err(NoLanguage)
    else if id !in Translations[language] || Translations[language][id] == "" then Err(NoTranslation(id))
    else Ok(Translations[language][id])
  }

  /** `_formatString(id, data)` as the source writes it, with `replace`. */
  function FormatString(language: string, id: string, data: Option<string>): (r: Result<string, FormatError>)
    ensures Template(language, id).Err? ==> r == Err(Template(language, id).error)
    ensures Template(language, id).Ok? && (data.None? || IndexOf(Template(language, id).value, Placeholder) < 0) ==>
      r == Ok(Template(language, id).value)
  {
    match Template(language, id)
    case Err(e) => Err(e)
    case Ok(template) =>
      if data.Some? && IndexOf(template, Placeholder) > -1
      then Ok(ReplaceFirst(template, Placeholder, data.value))
      else Ok(template)
  }

  /** `_formatString` with the value inserted verbatim. */
  function FormatStringLiteral(language: string, id: string, data: Option<string>): (r: Result<string, FormatError>)
    ensures Template(language, id).Err? ==> r == Err(Template(language, id).error)
    ensures Template(language, id).Ok? && (data.None? || IndexOf(Template(language, id).value, Placeholder) < 0) ==>
      r == Ok(Template(language, id).value)
  {
    match Template(language, id)
    case Err(e) => Err(e)
    case Ok(template) =>
      if data.Some? && IndexOf(template, Placeholder) > -1
      then Ok(ReplaceFirstLiteral(template, Placeholder, data.value))
      else Ok(template)
  }

  /**
   * The verbatim replacement can be undone: putting the pattern back in
   * place of the inserted value gives the original string, and the text
   * around it is untouched.
   */
  lemma ReplaceFirstLiteralUndo(s: string, pat: string, rep: string)
    requires IndexOf(s, pat) >= 0
    ensures var p := IndexOf(s, pat);
      var r := ReplaceFirstLiteral(s, pat, rep);
      && |r| == |s| - |pat| + |rep|
      && r[..p] == s[..p]
      && r[p..p + |rep|] == rep
      && s == r[..p] + pat + r[p + |rep|..]
  {
    var p := IndexOf(s, pat);
    var r := ReplaceFirstLiteral(s, pat, rep);
    assert r[p + |rep|..] == s[p + |pat|..];
    assert s == s[..p] + s[p..p + |pat|] + s[p + |pat|..];
  }

  /** The two formatters agree wherever the value has no dollar sign. */
  lemma FormatAgrees(language: string, id: string, data: Option<string>)
    requires data.Some? ==> '$' !in data.value
    ensures FormatString(language, id, data) == FormatStringLiteral(language, id, data)
  {
    if Template(language, id).Ok? && data.Some? {
      ReplaceFirstAgrees(Template(language, id).value, Placeholder, data.value);
    }
  }

  const StatsTitleBefore: string := "Information on topic \""
  const StatsTitleAfter: string := "\":"

  /** Where the placeholder of the topic title template sits. */
  lemma StatsTitlePlaceholder()
    ensures Template("en", "stats_title").Ok?
    ensures Template("en", "stats_title").value == StatsTitleBefore + Placeholder + StatsTitleAfter
    ensures IndexOf(Template("en", "stats_title").value, Placeholder) == |StatsTitleBefore|
  {
    var t := Template("en", "stats_title").value;
    assert t == StatsTitleBefore + Placeholder + StatsTitleAfter;
    assert OccursAt(t, Placeholder, |StatsTitleBefore|);
    assert '{' !in StatsTitleBefore;
    forall j | 0 <= j < |StatsTitleBefore|
      ensures !OccursAt(t, Placeholder, j)
    {
      assert t[j] == StatsTitleBefore[j] && StatsTitleBefore[j] in StatsTitleBefore;
      assert t[j..j + |Placeholder|][0] == t[j];
    }
  }

  /** The topic title shows every title verbatim. */
  lemma StatsTitleLiteral(title: string)
    ensures FormatStringLiteral("en", "stats_title", Some(title)) == Ok(StatsTitleBefore + title + StatsTitleAfter)
  {
    StatsTitlePlaceholder();
    var t := Template("en", "stats_title").value;
    assert t[..|StatsTitleBefore|] == StatsTitleBefore;
    assert t[|StatsTitleBefore| + |Placeholder|..] == StatsTitleAfter;
  }

  /** As written, the topic title shows the title verbatim only when it has no dollar sign. */
  lemma StatsTitleAsWritten(title: string)
    requires '$' !in title
    ensures FormatString("en", "stats_title", Some(title)) == Ok(StatsTitleBefore + title + StatsTitleAfter)
  {
    FormatAgrees("en", "stats_title", Some(title));
    StatsTitleLiteral(title);
  }

  /** As written, a topic labelled `$&` is shown with the placeholder in its place. */
  lemma StatsTitleDollarAmpersand()
    ensures FormatString("en", "stats_title", Some("$&")) == Ok(StatsTitleBefore + Placeholder + StatsTitleAfter)
    ensures FormatString("en", "stats_title", Some("$&")) != FormatStringLiteral("en", "stats_title", Some("$&"))
  {
    StatsTitlePlaceholder();
    StatsTitleLiteral("$&");
    var t := Template("en", "stats_title").value;
    var p := |StatsTitleBefore|;
    assert t[..p] == StatsTitleBefore;
    assert t[p + |Placeholder|..] == StatsTitleAfter;
    assert "$&"[2..] == "";
    assert Expand("$&", Placeholder, t[..p], t[p + |Placeholder|..]) == Placeholder;
    assert FormatString("en", "stats_title", Some("$&")) ==
      Ok(t[..p] + Expand("$&", Placeholder, t[..p], t[p + |Placeholder|..]) + t[p + |Placeholder|..]);
    assert (StatsTitleBefore + Placeholder + StatsTitleAfter)[p] == '{';
    assert (StatsTitleBefore + "$&" + StatsTitleAfter)[p] == '$';
  }
}
