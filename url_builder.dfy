/**
 * `title_to_url`: a Special:Translate URL for a documentation title, built from the
 * caller's key and the first message group the translation aids report for the
 * title.  The `translationaids` query itself is an input: the list of groups.
 */
module UrlBuilder {
  import opened Wrappers
  import opened LanguageSubstitution

  const WikiScript: string := "https://translatewiki.net/w/i.php"
  const TranslateTitleParam: string := "?title=Special:Translate"
  const ShowMessageParam: string := "&showMessage="
  const TranslateBase: string := WikiScript + TranslateTitleParam + ShowMessageParam
  const GroupParam: string := "&group="
  const LanguagePlaceholderParam: string := "&language=qqq"

  /** `flask.abort(status, description=...)`: the request ends with an HTTP error. */
  datatype Abort = Abort(status: nat, description: string)

  /** The abort raised when the translation aids report no group for a title. */
  function NoGroupsAbort(title: string, key: string): Abort
  {
    Abort(500, "translationaids gave no groups for " + title + " (" + key + ")")
  }

  /**
   * `title_to_url`: with at least one group, the translate URL for the key (inserted
   * verbatim) and the first group, with the `qqq` placeholder as its language;
   * without groups, abort 500 naming the title and the key.
   */
  function TitleToUrl(key: string, title: string, groups: seq<string>): (r: Result<string, Abort>)
    ensures r.Success? <==> groups != []
    ensures r.Failure? ==> r.error.status == 500 && r.error == NoGroupsAbort(title, key)
  {
    if groups != [] then
      Success(TranslateBase + key + GroupParam + groups[0] + LanguagePlaceholderParam)
    else
      Failure(NoGroupsAbort(title, key))
  }

  /**
   * The URL is the fixed Special:Translate prefix, the key, the first group and the
   * placeholder language parameter at the very end; neither the title nor the
   * groups after the first matter.
   */
  lemma TitleToUrlFields(key: string, title: string, groups: seq<string>, title': string, groups': seq<string>)
    requires groups != [] && groups' != [] && groups'[0] == groups[0]
    ensures TitleToUrl(key, title, groups) == TitleToUrl(key, title', groups')
    ensures var url := TitleToUrl(key, title, groups).value;
            && url == "https://translatewiki.net/w/i.php?title=Special:Translate&showMessage=" + key
                      + "&group=" + groups[0] + "&language=qqq"
            && url[|url| - |LanguagePlaceholderParam|..] == LanguagePlaceholderParam
  {
    assert TranslateBase == "https://translatewiki.net/w/i.php?title=Special:Translate&showMessage=";
  }

  lemma NoPlaceholderInTranslateBase()
    ensures !HasPlaceholder(TranslateBase)
  {
    NoQNoPlaceholder(WikiScript);
    NoQNoPlaceholder(TranslateTitleParam);
    NoQNoPlaceholder(ShowMessageParam);
    NoPlaceholderConcat(WikiScript, TranslateTitleParam);
    NoPlaceholderConcat(WikiScript + TranslateTitleParam, ShowMessageParam);
  }

  /** The part of a built URL before its `&language=qqq` holds no placeholder. */
  lemma NoPlaceholderBeforeLanguage(key: string, group: string)
    requires !HasPlaceholder(key) && !HasPlaceholder(group)
    ensures !HasPlaceholder(TranslateBase + key + GroupParam + group)
  {
    NoPlaceholderInTranslateBase();
    NoQNoPlaceholder(GroupParam);
    assert TranslateBase[|TranslateBase| - 1] == '=';
    NoPlaceholderConcat(TranslateBase, key);
    NoPlaceholderConcat(TranslateBase + key, GroupParam);
    NoPlaceholderConcat(TranslateBase + key + GroupParam, group);
  }

  /** A built URL cut at the lead of its language parameter. */
  lemma BuiltUrlLayout(head: string, code: string)
    ensures head + LanguagePlaceholderParam == head + ['&'] + ParamBody + []
    ensures head + ['&'] + ("language=" + code) + [] == head + "&language=" + code
    ensures LanguagePlaceholderParam[0] == '&' && '&' !in ParamBody
    ensures ParamBody[|ParamBody| - 3..] == PathBody
  {
    assert LanguagePlaceholderParam == ['&'] + ParamBody;
    assert "&language=" == ['&'] + "language=";
  }

  /** The first pass rewrites the trailing `&language=qqq` and nothing else. */
  lemma ParamPassOnBuiltUrl(head: string, code: string)
    requires !HasPlaceholder(head)
    ensures SetLanguageParam(head + LanguagePlaceholderParam, code) == head + "&language=" + code
  {
    var repl := "language=" + code;
    BuiltUrlLayout(head, code);
    NoMatchBeforeForeignChar(head, LanguagePlaceholderParam, ParamLeads, ParamBody);
    RewriteAfterPrefix(head, '&', ParamBody, [], ParamLeads, repl);
    var none: string := [];
    assert none[..0] == [] && none[0..] == [];
  }

  /**
   * Localising a built URL changes exactly its placeholder language parameter, as
   * long as neither the key, the group nor the code contains `qqq`.
   */
  lemma LocalizedTranslateUrl(key: string, title: string, groups: seq<string>, code: string)
    requires groups != []
    requires '\\' !in code
    requires !HasPlaceholder(key) && !HasPlaceholder(groups[0]) && !HasPlaceholder(code)
    ensures UrlSetLanguage(TitleToUrl(key, title, groups).value, code) ==
              TranslateBase + key + "&group=" + groups[0] + "&language=" + code
  {
    var head := TranslateBase + key + GroupParam + groups[0];
    NoPlaceholderBeforeLanguage(key, groups[0]);
    ParamPassOnBuiltUrl(head, code);
    NoQNoPlaceholder("&language=");
    NoPlaceholderConcat(head, "&language=");
    NoPlaceholderConcat(head + "&language=", code);
    ReplaceWithoutPlaceholder(head + "&language=" + code, PathLeads, PathBody, code);
  }
}
