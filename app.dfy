/**
 * The decisions of the `show` and `redirect` handlers.  The Flask request and
 * response objects are not modelled; the search results and the groups the
 * translation aids report for each title are inputs.
 */
module App {
  import opened Wrappers
  import opened KeyResolver
  import opened LanguageSubstitution
  import opened UrlBuilder

  /** What `redirect` answers when it does not abort. */
  datatype Response =
    | SeeOther(key: string, languageCode: string)  // 303 to the `show` page for the same key and code
    | Found(url: string)                            // `flask.redirect(url)` straight to the translation URL
  {
    /** The HTTP status: 303 is requested explicitly, 302 is `flask.redirect`'s default. */
    function Status(): nat
    {
      if SeeOther? then 303 else 302
    }
  }

  /** `k` is the first title for which the translation aids report no group. */
  predicate FirstWithoutGroups(titles: seq<string>, groupsFor: string -> seq<string>, k: int)
  {
    && 0 <= k < |titles|
    && groupsFor(titles[k]) == []
    && forall j :: 0 <= j < k ==> groupsFor(titles[j]) != []
  }

  /** The first title without groups among all but the last is the first among all. */
  lemma FirstWithoutGroupsExtends(titles: seq<string>, groupsFor: string -> seq<string>, key: string, e: Abort)
    requires titles != []
    requires var init := titles[..|titles| - 1];
             exists k :: FirstWithoutGroups(init, groupsFor, k) && e == NoGroupsAbort(init[k], key)
    ensures exists k :: FirstWithoutGroups(titles, groupsFor, k) && e == NoGroupsAbort(titles[k], key)
  {
    var init := titles[..|titles| - 1];
    var k :| FirstWithoutGroups(init, groupsFor, k) && e == NoGroupsAbort(init[k], key);
    assert init[k] == titles[k];
    assert FirstWithoutGroups(titles, groupsFor, k);
  }

  /**
   * The URLs `show` lists for `titles`, in title order: each title's translate URL
   * with the language substituted.  The first title without groups aborts the
   * whole request.
   */
  function LocalizeAll(key: string, code: string, titles: seq<string>, groupsFor: string -> seq<string>):
    (r: Result<seq<string>, Abort>)
    requires '\\' !in code
    ensures r.Success? <==> forall i :: 0 <= i < |titles| ==> groupsFor(titles[i]) != []
    ensures r.Success? ==>
              && |r.value| == |titles|
              && forall i :: 0 <= i < |titles| ==>
                   r.value[i] == UrlSetLanguage(TitleToUrl(key, titles[i], groupsFor(titles[i])).value, code)
    ensures r.Failure? ==>
              exists k :: FirstWithoutGroups(titles, groupsFor, k) && r.error == NoGroupsAbort(titles[k], key)
    decreases |titles|
  {
    if titles == [] then Success([])
    else
      var init, last := titles[..|titles| - 1], titles[|titles| - 1];
      assert titles == init + [last];
      match LocalizeAll(key, code, init, groupsFor)
      case Failure(e) =>
        FirstWithoutGroupsExtends(titles, groupsFor, key, e);
        Failure(e)
      case Success(urls) =>
        match TitleToUrl(key, last, groupsFor(last))
        case Failure(e) =>
          assert FirstWithoutGroups(titles, groupsFor, |titles| - 1);
          Failure(e)
        case Success(url) =>
          var listed := urls + [UrlSetLanguage(url, code)];
          Success(listed)
  }

  /** Once a prefix of the titles aborts, the whole list aborts the same way. */
  lemma {:induction false} LocalizeAllFailureExtends(key: string, code: string, titles: seq<string>,
                                                     groupsFor: string -> seq<string>, n: nat)
    requires '\\' !in code
    requires n <= |titles|
    requires LocalizeAll(key, code, titles[..n], groupsFor).Failure?
    ensures LocalizeAll(key, code, titles, groupsFor) == LocalizeAll(key, code, titles[..n], groupsFor)
    decreases |titles| - n
  {
    if n < |titles| {
      var init := titles[..|titles| - 1];
      assert init[..n] == titles[..n];
      LocalizeAllFailureExtends(key, code, init, groupsFor, n);
      assert LocalizeAll(key, code, titles, groupsFor) == LocalizeAll(key, code, init, groupsFor);
    } else {
      assert titles[..n] == titles;
    }
  }

  /**
   * `show`: one localised URL per title found for the key, in title order; the
   * first title without groups aborts the request.
   */
  method Show(key: string, languageCode: string, search: seq<string>, groupsFor: string -> seq<string>)
    returns (r: Result<seq<string>, Abort>)
    requires '\\' !in languageCode
    ensures r == LocalizeAll(key, languageCode, KeyToTitles(key, search), groupsFor)
  {
    var titles := KeyToTitles(key, search);
    var urls: seq<string> := [];
    var i := 0;
    while i < |titles|
      invariant 0 <= i <= |titles|
      invariant LocalizeAll(key, languageCode, titles[..i], groupsFor) == Success(urls)
    {
      var title := titles[i];
      assert titles[..i + 1][..i] == titles[..i];
      var built := TitleToUrl(key, title, groupsFor(title));
      if built.Failure? {
        LocalizeAllFailureExtends(key, languageCode, titles, groupsFor, i + 1);
        return Failure(built.error);
      }
      var url := UrlSetLanguage(built.value, languageCode);
      urls := urls + [url];
      i := i + 1;
    }
    assert titles[..i] == titles;
    r := Success(urls);
  }

  /**
   * `redirect`: straight to the translation URL when exactly one title is found
   * (the one URL `show` would list, or its abort); otherwise a 303 to `show`,
   * without asking the translation aids at all.
   */
  method Redirect(key: string, languageCode: string, search: seq<string>, groupsFor: string -> seq<string>)
    returns (r: Result<Response, Abort>)
    requires '\\' !in languageCode
    ensures |KeyToTitles(key, search)| != 1 ==> r == Success(SeeOther(key, languageCode))
    ensures |KeyToTitles(key, search)| == 1 ==>
              var listed := LocalizeAll(key, languageCode, KeyToTitles(key, search), groupsFor);
              && (listed.Success? ==> r == Success(Found(listed.value[0])))
              && (listed.Failure? ==> r == Failure(listed.error))
    ensures r.Success? ==> r.value.Status() == if |KeyToTitles(key, search)| != 1 then 303 else 302
  {
    var titles := KeyToTitles(key, search);
    if |titles| != 1 {
      return Success(SeeOther(key, languageCode));
    }
    var title := titles[0];
    var built := TitleToUrl(key, title, groupsFor(title));
    assert titles[..0] == [];
    if built.Failure? {
      return Failure(built.error);
    }
    var url := UrlSetLanguage(built.value, languageCode);
    r := Success(Found(url));
  }
}
