# translate-link: a Dafny model of its core

translate-link is a small web tool. Its input is a MediaWiki message key and a
language code. Its output is the translatewiki.net Special:Translate page where that
message can be translated. The tool finds the page in three steps:

- `key_to_titles` searches for documentation pages named `<namespace>:<key>/qqq`.
- `title_to_url` asks translatewiki.net which message group such a page belongs to,
  and builds a translate URL whose language is the placeholder `qqq`.
- `url_set_language` replaces that placeholder with the caller's language code.

The `show` handler lists one such URL for each title found. The `redirect` handler
sends the browser straight to the URL when exactly one title is found. Otherwise it
sends the browser to `show`.

The model is split into four modules:

- `KeyResolver` (`key_resolver.dfy`) filters the search results the way the
  case-insensitive `re.fullmatch` of `[^:]*:<escaped key>/qqq` does. The remote search
  is an input: the titles it returned, in their order. `TitleMatches` reads the
  pattern as "the text after the first colon equals `<key>/qqq`, ignoring case".
  `TitleMatchesIffShape` proves that this reading agrees with the pattern read
  literally.
- `UrlBuilder` (`url_builder.dfy`) builds the Special:Translate URL from the key and
  the first group. The remote `translationaids` call is an input: the list of groups.
  `flask.abort` becomes a `Failure` that carries the status and the description.
- `LanguageSubstitution` (`language.dfy`) models both `re.sub` passes with one scanner,
  `ReplaceAll`. The scanner goes left to right. At each position it either replaces
  a match of `[lead]body(&|#|$)` and resumes after the match, or keeps one character.
  The lead and the delimiter are kept, as `\1` and `\2` keep them. `$` is Python's
  `$`: the end of the string, or the position just before a final newline. The first
  pass uses the leads `?` and `&` and the body `language=qqq`. The second pass uses
  the lead `/` and the body `qqq`.
- `App` (`app.dfy`) covers the `show` and `redirect` handlers. The search results and
  a function from titles to groups are inputs. `Show` is the handler's loop, proved
  against the specification function `LocalizeAll`. `Redirect` returns either a 303
  to `show` or the one localised URL.

The test cases in `test_app.py` are stated as lemmas over every host, key, group and
code that meet the stated conditions. The tests' own values meet those conditions.

Three facts about the code are worth stating, because a reader might expect otherwise:

- Each `re.sub` pass (app.py:117-122) rewrites every non-overlapping match, not
  only the first one. That includes a `language=qqq` parameter inside the fragment.
  `ParamPassRewritesEveryMatch` and `FragmentParameterRewritten` state this.
- `title_to_url` inserts the key exactly as the caller gave it (app.py:108), so a
  wrongly cased key is not corrected.
- There is no fallback when the translation aids report no group: `title_to_url`
  aborts with status 500 (app.py:111-113), and `show` and `redirect` abort with it.

## Model

| member | source | states |
|---|---|---|
| KeyResolver.TitleMatches | app.py:93-96 | The `re.fullmatch` of `[^:]*:` and the escaped `<key>/qqq`, ignoring case: the text after the title's first colon equals the key plus `/qqq` under ASCII case folding, and the title has a colon. Its meaning is proved in `TitleMatchesIffShape`. |
| KeyResolver.FirstColon | app.py:93 | The index is the first `:` of the title, or its length when it has none. No earlier character is a colon, so this is where `[^:]*` must stop. |
| KeyResolver.TitleMatchesIffShape | app.py:93-96 | The full match holds exactly when some colon-free prefix is followed by `:` and then by the key plus `/qqq`, ignoring case. Both directions are proved. |
| KeyResolver.KeptTitleLength | app.py:93-96 | A matching title is its namespace, a colon, and then exactly as many characters as the key plus `/qqq`. |
| KeyResolver.KeyToTitles | app.py:94-96 | Every title returned was a search result and matches the pattern. |
| KeyResolver.KeyToTitlesIsSubsequence | app.py:94-96 | The titles are the search results in their original order, some dropped. |
| KeyResolver.KeyToTitlesCounts | app.py:94-96 | There is no deduplication. A matching title occurs as often as in the search results, and any other title does not occur. |
| KeyResolver.KeyToTitlesMembership | app.py:94-96 | A title is returned exactly when it is a search result and matches. Both directions are proved. |
| KeyResolver.FirstColonAfterNamespace | app.py:93 | In `<namespace>:<rest>` with a colon-free namespace, the first colon ends the namespace and the rest follows it. |
| KeyResolver.CaseVariantKept | test_app.py:25-37 | For a colon-free namespace and a page name equal to the key under ASCII case folding, `<namespace>:<name>/qqq` matches. So `parentheses` finds `MediaWiki:Parentheses/qqq`. |
| KeyResolver.LongerPageNameDropped | app.py:93-96 | For a colon-free namespace and non-empty extra text, `<namespace>:<extra><key>/qqq` does not match. This is a page whose name merely ends in the key, a loose `intitle:` hit. |
| KeyResolver.LooseSearchHitFiltered | app.py:86-96 | For a colon-free namespace and non-empty extra text, the results `[<ns>:<key>/qqq, <ns>:<extra><key>/qqq]` filter to the exact hit alone. |
| UrlBuilder.NoGroupsAbort | app.py:112-113 | The abort for a title without groups: status 500 and the description `translationaids gave no groups for <title> (<key>)`. |
| UrlBuilder.TitleToUrl | app.py:99-113 | A URL is returned exactly when the group list is non-empty. Otherwise the result is an abort with status 500 whose description names the title and the key. |
| UrlBuilder.TitleToUrlFields | app.py:104-110 | The URL is the literal `https://translatewiki.net/w/i.php?title=Special:Translate&showMessage=` prefix, the key verbatim, the first group and `&language=qqq` at the very end. The title and any later groups do not affect it. |
| UrlBuilder.NoPlaceholderBeforeLanguage | app.py:106-109 | Up to the language parameter, a built URL contains no `qqq` unless the key or the group does. |
| UrlBuilder.ParamPassOnBuiltUrl | app.py:117-119 | When the part of a built URL before its trailing `&language=qqq` holds no `qqq`, the first pass rewrites only that trailing parameter. A key such as `x&language=qqq` would add a second match, so the condition is needed. |
| UrlBuilder.LocalizedTranslateUrl | app.py:104-123 | For a non-empty group list, a key, first group and code without `qqq`, and a code without a backslash, localising the built URL gives the same URL with `language=<code>` at the end. |
| LanguageSubstitution.ReplaceAll | app.py:117-122 | One `re.sub` pass. At each position, a match of a lead character, the body and a delimiter (`&`, `#` or `$`) becomes lead + replacement + delimiter, and the scan resumes after the match. Otherwise one character is kept. `$` is the end of the string or the position before a final newline, and `&` or `#` is tried before it. |
| LanguageSubstitution.SetLanguageParam | app.py:117-119 | The first pass: the scan with leads `?` and `&` and body `language=qqq`. Each non-overlapping match, found left to right, becomes `language=<code>`, with the lead and the delimiter kept. A delimiter `&` consumed by one match cannot lead the next, so `?language=qqq&language=qqq` changes only its first parameter. |
| LanguageSubstitution.SetLanguagePath | app.py:120-122 | The second pass: the scan with lead `/` and body `qqq`. Each non-overlapping `/qqq` followed by `&`, `#` or the end, found left to right, becomes `/<code>`, with the delimiter kept. |
| LanguageSubstitution.UrlSetLanguage | app.py:116-123 | `url_set_language`, for a code without a backslash: the second pass applied to the output of the first. |
| LanguageSubstitution.ReplaceSkipsPrefix | app.py:117-122 | When no match starts inside `a` (in `a + b`), the scan copies `a` unchanged and then scans `b`. |
| LanguageSubstitution.ReplaceSkipsTo | app.py:117-122 | When no match starts before position `i`, the first `i` characters are kept verbatim in front of the scan of the rest. |
| LanguageSubstitution.ReplaceSkipsLeadFree | app.py:117-122 | When `a` holds no lead character, the scan of `a + b` is `a` followed by the scan of `b`. |
| LanguageSubstitution.LeadFreeUnchanged | app.py:117-122 | A string without lead characters is not changed. |
| LanguageSubstitution.ReplaceWithoutMatch | app.py:117-122 | A string with no match anywhere is not changed. |
| LanguageSubstitution.ReplaceByBodyIsIdentity | app.py:117-122 | Replacing each matched body by itself gives back the input. |
| LanguageSubstitution.MatchHasPlaceholder | app.py:117-122 | For a body ending in `qqq` (both passes' bodies do), every match has `qqq` just before its delimiter. |
| LanguageSubstitution.ReplaceWithoutPlaceholder | app.py:117-122 | For a body ending in `qqq`, a string without `qqq` is not changed. This holds for either pass. |
| LanguageSubstitution.UrlWithoutPlaceholderUnchanged | app.py:116-123 | For a code without a backslash, a URL that does not contain `qqq` is returned unchanged. |
| LanguageSubstitution.SetLanguageQqqIsIdentity | app.py:116-123 | Setting the language to `qqq` returns any URL unchanged. |
| LanguageSubstitution.RewriteAtStart | app.py:117-122 | For a lead from the pass's set followed by the body and then `&`, `#`, the end or a final newline, the match at the start is replaced. The lead and the delimiter are kept, the scan resumes after the delimiter, and `$` consumes nothing. |
| LanguageSubstitution.RewriteAfterPrefix | app.py:117-122 | When no match starts inside the prefix, and the prefix is followed by a lead, the body and then `&`, `#`, the end or a final newline, that match is replaced. The text before it is untouched, the lead and the delimiter are kept, and the scan resumes after the delimiter. |
| LanguageSubstitution.RewriteDelimitedMatch | app.py:117-122 | When `x` holds no lead character, `x`, a lead, the body, `&` or `#`, and a tail becomes `x`, the lead, the replacement, the delimiter and the scan of the tail. |
| LanguageSubstitution.RewriteFinalMatch | app.py:117-122 | When `x` holds no lead character, `x`, a lead and the body at the very end become `x`, the lead and the replacement. |
| LanguageSubstitution.SetLanguageParamRewritesFirst | app.py:117-119 | When no match starts in the text before it, a `?language=qqq` or `&language=qqq` followed by `&`, `#`, the end or a final newline becomes `language=<code>`. Both delimiters stay, the text before it is untouched, and the pass goes on after the delimiter. |
| LanguageSubstitution.SetLanguagePathRewritesFirst | app.py:120-122 | When no match starts in the text before it, a `/qqq` followed by `&`, `#`, the end or a final newline becomes `/<code>`, keeping the delimiter. The pass goes on after it. |
| LanguageSubstitution.NoPlaceholderInRewrittenPrefix | app.py:117-119 | When neither the host nor the code contains `qqq`, the rewritten prefix `<host>?language=<code>` contains none either. |
| LanguageSubstitution.PathPassKeepsSlashFreeTail | app.py:120-122 | The second pass leaves `x + tail` unchanged when `x` holds no `qqq` and the tail is non-empty, holds no `/` and does not start with `q`. Without the last condition, `a/` followed by `qqq` would be rewritten. |
| LanguageSubstitution.ParamPassOnlyFirst | app.py:117-119 | When the host and `<other>` hold no `?` or `&`, the first pass turns `<host>?language=qqq&<other>=qqq` into `<host>?language=<code>&<other>=qqq`. The first match consumes the `&`. |
| LanguageSubstitution.OnlyFirstParameterRewritten | test_app.py:68-70 | Suppose the host holds no `?`, `&` or `qqq`, `<other>` holds no `?`, `&` or `/`, and the code holds no `qqq` and no backslash. Then the whole substitution turns `<host>?language=qqq&<other>=qqq` into `<host>?language=<code>&<other>=qqq`. Without these conditions other matches can appear: `h?language=qqq&a/qqq#b=qqq` also has its `/qqq` rewritten. |
| LanguageSubstitution.ParamPassKeepsFragmentParameter | app.py:117-119 | When `<other>` holds no `?` or `&`, is non-empty and does not start with `l`, the first pass leaves `&<other>=qqq` unchanged. |
| LanguageSubstitution.ParamPassStopsAtFragment | app.py:117-119 | When the host holds no `?` or `&`, and `<other>` holds neither, is non-empty and does not start with `l`, the first pass turns `<host>?language=qqq#&<other>=qqq` into `<host>?language=<code>#&<other>=qqq`. With `<other>` = `language` the fragment parameter would be rewritten too (see `FragmentParameterRewritten`). |
| LanguageSubstitution.FragmentEndsParameter | test_app.py:71-73 | Suppose the host holds no `?`, `&` or `qqq`, `<other>` holds no `?`, `&` or `/`, is non-empty and does not start with `l`, and the code holds no `qqq` and no backslash. Then the whole substitution turns `<host>?language=qqq#&<other>=qqq` into `<host>?language=<code>#&<other>=qqq`. |
| LanguageSubstitution.ParamPassRewritesFinalParameter | app.py:117-119 | A `&language=qqq` that ends the URL is rewritten when the text before it holds no `?` or `&`. This condition rules out a preceding match that consumes the `&`, as in `?language=qqq&language=qqq`, where the final parameter stays. |
| LanguageSubstitution.ParamPassRewritesEveryMatch | app.py:117-119 | Every match is rewritten, not only the first. In `<host>?language=qqq&<mid>&language=qqq`, where host and mid hold no `?` or `&`, the second `&language=qqq`, whose `&` the first match did not consume, changes too. |
| LanguageSubstitution.FragmentParameterRewritten | app.py:117-119 | Suppose the host holds no `?`, `&` or `qqq`, is non-empty and does not end in `q`, and the code holds no `qqq` and no backslash. Then `<host>#&language=qqq` becomes `<host>#&language=<code>`: a parameter inside the fragment is rewritten like any other. |
| LanguageSubstitution.ParamPassKeepsPathSegment | app.py:117-119 | When neither the prefix nor the parameters hold `qqq`, the first pass leaves `<prefix>/qqq&<params>` unchanged. |
| LanguageSubstitution.PathPassRewritesSegment | app.py:120-122 | When neither the prefix nor the parameters hold `qqq`, the second pass turns `<prefix>/qqq&<params>` into `<prefix>/<code>&<params>`. Parameters with their own `/qqq` would be rewritten too: `t/qqq&x/qqq` gives `t/<code>&x/<code>`. |
| LanguageSubstitution.PathSegmentRewritten | test_app.py:74-76 | When neither the prefix nor the parameters hold `qqq`, and the code holds no backslash, the whole substitution turns `<prefix>/qqq&<params>` into `<prefix>/<code>&<params>`. Parameters holding `qqq` could change as well: `t/qqq&language=qqq` gives `t/en&language=en`. |
| App.LocalizeAll | app.py:57-61 | It succeeds exactly when every title has a group. On success there is one URL per title, in order: that title's translate URL with the language set. On failure, the abort is the one for the first title without groups. |
| App.LocalizeAllFailureExtends | app.py:57-61 | For a code without a backslash, once a prefix of the titles aborts, the whole list aborts with the same error. |
| App.Show | app.py:53-65 | The loop's result is `LocalizeAll` over the titles found for the key. |
| App.Redirect | app.py:68-82 | When the number of titles found is not one, the result is a 303 to `show` with the same key and code. When it is one, the result is a 302 redirect to the URL `show` would list, or that title's abort. |

## Left out

- The Flask application is not modelled: the routes `index`, `index_redirect` and the POST forms, `render_template`, `url_for`, the `deny_frame` header, the configuration file, the secret key and the user agent.
- The `mwapi` sessions and their network calls are not modelled. The search results and the group lists are inputs. The text of the search query (`intitle:"<key>/qqq"` in all namespaces) is not modelled, and neither are network or API errors.
- App.Show: its result is the list of URLs, not the rendered `show.html` page.
- App.Redirect: the 303 answer is `SeeOther(key, code)`, not the URL that `url_for` would build. The HTTP response objects are not modelled.
- The group lookup is a function of the title, so asking twice for one title gives the same groups. The live service might answer differently between calls.
- `flask.abort` becomes a `Failure` value rather than an exception that ends the request.
- KeyResolver.TitleMatches: `re.I` is modelled as case folding of ASCII letters only. Unicode case folding is not modelled.
- LanguageSubstitution.SetLanguageParam: a backslash in the code is inserted literally. `re.sub` would read it in the replacement template as an escape or a group reference (`\1` would give the lead), which the model does not interpret. The lemmas about this pass alone, such as `ParamPassRewritesFinalParameter`, therefore describe Python's result only for codes without a backslash.
- LanguageSubstitution.SetLanguagePath: a backslash in the code is inserted literally, for the same reason as in the first pass. The lemmas about this pass alone, such as `PathPassRewritesSegment`, describe Python's result only for codes without a backslash.
- LanguageSubstitution.UrlSetLanguage: the code must not contain a backslash. `re.sub` would read one in the replacement template as an escape or a group reference, which the model does not interpret.
- App.LocalizeAll: it requires a code without a backslash, for the same reason.
- App.Show: it requires a code without a backslash, for the same reason.
- App.Redirect: it requires a code without a backslash, for the same reason.
- UrlBuilder.LocalizedTranslateUrl: it assumes the key, the group and the code contain no `qqq`. Otherwise those parts of the URL could be rewritten too, for example a key ending in `/qqq`.
- The tests at test_app.py:44-49 expect a wrongly cased key to come back in its canonical case. `title_to_url` inserts the key verbatim, so the model does not state that expectation.
