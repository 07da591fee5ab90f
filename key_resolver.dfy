/**
 * `key_to_titles`: the search results for `intitle:"<key>/qqq"` are filtered down to
 * the titles that fully match `[^:]*:` followed by the escaped text `<key>/qqq`,
 * ignoring case.  The remote search itself is an input: the sequence of titles it
 * returned, in its order.
 */
module KeyResolver {

  const DocumentationSuffix: string := "/qqq"

  /** Case folding of `re.I`, restricted to ASCII letters. */
  function FoldCase(c: char): char
  {
    if 'A' <= c <= 'Z' then (c as int + 32) as char else c
  }

  /** Two strings are equal ignoring the case of ASCII letters. */
  predicate EqualsIgnoringCase(a: string, b: string)
  {
    |a| == |b| && forall i :: 0 <= i < |a| ==> FoldCase(a[i]) == FoldCase(b[i])
  }

  /** Index of the first `:` in `s`, or `|s|` when there is none. */
  function FirstColon(s: string): (n: nat)
    ensures n <= |s|
    ensures n < |s| ==> s[n] == ':'
    ensures forall i :: 0 <= i < n ==> s[i] != ':'
  {
    if s == [] then 0
    else if s[0] == ':' then 0
    else 1 + FirstColon(s[1..])
  }

  /**
   * `re.fullmatch('[^:]*:' + re.escape(key + '/qqq'), title, re.I)`.  The class
   * `[^:]*` cannot pass a colon, so the `:` of the pattern is the first colon of the
   * title, and what follows it must be the key and the suffix.
   */
  predicate TitleMatches(key: string, title: string)
  {
    var c := FirstColon(title);
    c < |title| && EqualsIgnoringCase(title[c + 1..], key + DocumentationSuffix)
  }

  /** The pattern read literally: some colon-free prefix, a colon, then key and suffix. */
  ghost predicate HasNamespacedShape(key: string, title: string)
  {
    exists n ::
      && 0 <= n < |title|
      && (forall i :: 0 <= i < n ==> title[i] != ':')
      && title[n] == ':'
      && EqualsIgnoringCase(title[n + 1..], key + DocumentationSuffix)
  }

  /** `key_to_titles`, the list comprehension over the search results. */
  function KeyToTitles(key: string, search: seq<string>): (titles: seq<string>)
    ensures forall t :: t in titles ==> t in search && TitleMatches(key, t)
  {
    if search == [] then []
    else if TitleMatches(key, search[0]) then [search[0]] + KeyToTitles(key, search[1..])
    else KeyToTitles(key, search[1..])
  }

  /** `r` is `s` with some elements dropped, the others kept in order. */
  predicate IsSubsequence(r: seq<string>, s: seq<string>)
  {
    if r == [] then true
    else if s == [] then false
    else if r[0] == s[0] then IsSubsequence(r[1..], s[1..])
    else IsSubsequence(r, s[1..])
  }

  // ---------------------------------------------------------------------------

  /** The first-colon reading agrees with the pattern, in both directions. */
  lemma TitleMatchesIffShape(key: string, title: string)
    ensures TitleMatches(key, title) <==> HasNamespacedShape(key, title)
  {
    var c := FirstColon(title);
    if TitleMatches(key, title) {
      // the first colon is the witness
      assert && 0 <= c < |title|
             && (forall i :: 0 <= i < c ==> title[i] != ':')
             && title[c] == ':'
             && EqualsIgnoringCase(title[c + 1..], key + DocumentationSuffix);
    }
    if HasNamespacedShape(key, title) {
      var n :| && 0 <= n < |title|
               && (forall i :: 0 <= i < n ==> title[i] != ':')
               && title[n] == ':'
               && EqualsIgnoringCase(title[n + 1..], key + DocumentationSuffix);
      // `n` is a colon, so the first colon comes no later; and that one is `n`
      assert c <= n;
      assert title[c] == ':';
      assert c == n;
    }
  }

  /** A kept title is a namespace, a colon, the key and `/qqq`: its length is fixed. */
  lemma KeptTitleLength(key: string, title: string)
    requires TitleMatches(key, title)
    ensures |title| == FirstColon(title) + 1 + |key| + |DocumentationSuffix|
    ensures title[FirstColon(title)] == ':'
  {
  }

  /** The titles are the search results in their order, some dropped. */
  lemma {:induction false} KeyToTitlesIsSubsequence(key: string, search: seq<string>)
    ensures IsSubsequence(KeyToTitles(key, search), search)
  {
    if search != [] {
      KeyToTitlesIsSubsequence(key, search[1..]);
      var rest := KeyToTitles(key, search[1..]);
      if !TitleMatches(key, search[0]) {
        SubsequenceOfTail(rest, search);
      }
    }
  }

  /** A subsequence of the tail is a subsequence of the whole. */
  lemma {:induction false} SubsequenceOfTail(r: seq<string>, s: seq<string>)
    requires s != [] && IsSubsequence(r, s[1..])
    ensures IsSubsequence(r, s)
    decreases |s|, |r|
  {
    if r != [] && r[0] == s[0] {
      // r[1..] is a subsequence of s[1..] because r is
      SubsequenceDropHead(r, s[1..]);
    }
  }

  /** Dropping the head of a subsequence keeps it a subsequence. */
  lemma {:induction false} SubsequenceDropHead(r: seq<string>, s: seq<string>)
    requires r != [] && IsSubsequence(r, s)
    ensures IsSubsequence(r[1..], s)
    decreases |s|, |r|
  {
    if s != [] {
      if r[0] == s[0] {
        SubsequenceOfTail(r[1..], s);
      } else {
        SubsequenceDropHead(r, s[1..]);
        SubsequenceOfTail(r[1..], s);
      }
    }
  }

  /**
   * No deduplication: every matching title occurs as often as in the search results,
   * every other title not at all.
   */
  lemma {:induction false} KeyToTitlesCounts(key: string, search: seq<string>, t: string)
    ensures multiset(KeyToTitles(key, search))[t] ==
              if TitleMatches(key, t) then multiset(search)[t] else 0
  {
    if search != [] {
      KeyToTitlesCounts(key, search[1..], t);
      assert search == [search[0]] + search[1..];
    }
  }

  /** A title is kept exactly when it is among the results and matches. */
  lemma KeyToTitlesMembership(key: string, search: seq<string>, t: string)
    ensures t in KeyToTitles(key, search) <==> t in search && TitleMatches(key, t)
  {
    KeyToTitlesCounts(key, search, t);
  }

  /** In `<namespace>:<rest>` with a colon-free namespace, the first colon ends the namespace. */
  lemma FirstColonAfterNamespace(ns: string, rest: string)
    requires ':' !in ns
    ensures FirstColon(ns + ":" + rest) == |ns|
    ensures (ns + ":" + rest)[|ns| + 1..] == rest
  {
    var s := ns + ":" + rest;
    var c := FirstColon(s);
    assert s[|ns|] == ':';
  }

  /** A documentation title whose key differs from the caller's only in case is kept. */
  lemma CaseVariantKept(ns: string, variant: string, key: string)
    requires ':' !in ns
    requires EqualsIgnoringCase(variant, key)
    ensures TitleMatches(key, ns + ":" + variant + DocumentationSuffix)
  {
    FirstColonAfterNamespace(ns, variant + DocumentationSuffix);
    assert ns + ":" + variant + DocumentationSuffix == ns + ":" + (variant + DocumentationSuffix);
    var a, b := variant + DocumentationSuffix, key + DocumentationSuffix;
    forall i | 0 <= i < |a|
      ensures FoldCase(a[i]) == FoldCase(b[i])
    {
      if i >= |variant| {
        assert a[i] == b[i];
      }
    }
  }

  /** A title whose page name only contains the key (a loose search hit) is dropped. */
  lemma LongerPageNameDropped(ns: string, extra: string, key: string)
    requires ':' !in ns && extra != []
    ensures !TitleMatches(key, ns + ":" + extra + key + DocumentationSuffix)
  {
    FirstColonAfterNamespace(ns, extra + key + DocumentationSuffix);
    assert ns + ":" + extra + key + DocumentationSuffix == ns + ":" + (extra + key + DocumentationSuffix);
  }

  /** Of an exact hit and a loose hit, only the exact one is returned. */
  lemma LooseSearchHitFiltered(ns: string, extra: string, key: string)
    requires ':' !in ns && extra != []
    ensures var exact := ns + ":" + key + DocumentationSuffix;
            var loose := ns + ":" + extra + key + DocumentationSuffix;
            KeyToTitles(key, [exact, loose]) == [exact]
  {
    var exact := ns + ":" + key + DocumentationSuffix;
    var loose := ns + ":" + extra + key + DocumentationSuffix;
    CaseVariantKept(ns, key, key);
    LongerPageNameDropped(ns, extra, key);
    assert [loose][1..] == [];
    assert KeyToTitles(key, [loose]) == [];
    assert [exact, loose][1..] == [loose];
    assert KeyToTitles(key, [exact, loose]) == [exact] + KeyToTitles(key, [loose]);
  }
}
