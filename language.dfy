/**
 * The language substitution of `url_set_language`: two `re.sub` passes over a URL,
 * each replacing every non-overlapping match of its pattern, scanning left to right.
 *
 * Both patterns have the same shape: one "lead" character taken from a set (and kept),
 * a literal body ending in the placeholder `qqq`, and a delimiter group `(&|#|$)`
 * that is kept as well.  `ReplaceAll` is that scan, written once; the two passes are
 * its two instances.
 */
module LanguageSubstitution {

  /** `$` (no MULTILINE): the end of the string, or just before a final newline. */
  predicate EndAnchorAt(s: string, j: int)
  {
    j == |s| || (0 <= j == |s| - 1 && s[j] == '\n')
  }

  /** The group `(&|#|$)` matches at position `j`. */
  predicate DelimiterAt(s: string, j: nat)
    requires j <= |s|
  {
    (j < |s| && (s[j] == '&' || s[j] == '#')) || EndAnchorAt(s, j)
  }

  /** How many characters the group consumes: `&` and `#` are tried before `$`. */
  function DelimiterLength(s: string, j: nat): (n: nat)
    requires j <= |s| && DelimiterAt(s, j)
    ensures j + n <= |s|
  {
    if j < |s| && (s[j] == '&' || s[j] == '#') then 1 else 0
  }

  /** The pattern `[leads]body(&|#|$)` matches starting at position `i`. */
  predicate MatchAt(s: string, i: nat, leads: set<char>, body: string)
  {
    && i + 1 + |body| <= |s|
    && s[i] in leads
    && s[i + 1..i + 1 + |body|] == body
    && DelimiterAt(s, i + 1 + |body|)
  }

  /** The position just after a match that starts at `i`. */
  function MatchEnd(s: string, i: nat, leads: set<char>, body: string): (e: nat)
    requires MatchAt(s, i, leads, body)
    ensures i + 1 + |body| <= e <= |s|
  {
    i + 1 + |body| + DelimiterLength(s, i + 1 + |body|)
  }

  /**
   * `re.sub` of `([leads])body(&|#|$)` by `\1 repl \2`: at each position, a match is
   * replaced and the scan resumes after it; otherwise one character is kept.
   */
  function ReplaceAll(s: string, leads: set<char>, body: string, repl: string): string
    decreases |s|
  {
    if s == [] then []
    else if MatchAt(s, 0, leads, body) then
      var e := MatchEnd(s, 0, leads, body);
      [s[0]] + repl + s[1 + |body|..e] + ReplaceAll(s[e..], leads, body, repl)
    else
      [s[0]] + ReplaceAll(s[1..], leads, body, repl)
  }

  const ParamLeads: set<char> := {'?', '&'}
  const ParamBody: string := "language=qqq"
  const PathLeads: set<char> := {'/'}
  const PathBody: string := "qqq"

  /** First pass: `([?&])language=qqq(&|#|$)` becomes `\1language=<code>\2`. */
  function SetLanguageParam(url: string, code: string): string
  {
    ReplaceAll(url, ParamLeads, ParamBody, "language=" + code)
  }

  /** Second pass: `/qqq(&|#|$)` becomes `/<code>\1`. */
  function SetLanguagePath(url: string, code: string): string
  {
    ReplaceAll(url, PathLeads, PathBody, code)
  }

  /**
   * `url_set_language`: the second pass runs on the output of the first.  The
   * replacement templates are built from `code`; a backslash in it would be read
   * as a template escape, which this model excludes.
   */
  function UrlSetLanguage(url: string, code: string): string
    requires '\\' !in code
  {
    SetLanguagePath(SetLanguageParam(url, code), code)
  }

  // ---------------------------------------------------------------------------
  // The placeholder

  predicate PlaceholderAt(s: string, i: int)
  {
    0 <= i && i + 3 <= |s| && s[i] == 'q' && s[i + 1] == 'q' && s[i + 2] == 'q'
  }

  /** `s` contains `qqq` somewhere. */
  predicate HasPlaceholder(s: string)
  {
    exists i :: 0 <= i < |s| && PlaceholderAt(s, i)
  }

  // ---------------------------------------------------------------------------
  // Lemmas about the scan

  /** Matching inside a suffix is matching in the whole string, shifted. */
  lemma MatchShift(s: string, k: nat, i: nat, leads: set<char>, body: string)
    requires k <= |s|
    ensures MatchAt(s[k..], i, leads, body) <==> MatchAt(s, k + i, leads, body)
    ensures MatchAt(s, k + i, leads, body) ==>
              MatchEnd(s[k..], i, leads, body) + k == MatchEnd(s, k + i, leads, body)
  {
    var t := s[k..];
    var j := i + 1 + |body|;
    if j <= |t| {
      assert t[i + 1..j] == s[k + i + 1..k + j];
      assert DelimiterAt(t, j) <==> DelimiterAt(s, k + j);
    }
  }

  /**
   * Where no match starts inside `a`, the scan copies `a` verbatim and goes on
   * with `b`: nothing outside the matched sites changes.
   */
  lemma {:induction false} ReplaceSkipsPrefix(a: string, b: string, leads: set<char>, body: string, repl: string)
    requires forall i :: 0 <= i < |a| ==> !MatchAt(a + b, i, leads, body)
    ensures ReplaceAll(a + b, leads, body, repl) == a + ReplaceAll(b, leads, body, repl)
  {
    if a != [] {
      var s := a + b;
      assert !MatchAt(s, 0, leads, body);
      assert s[1..] == a[1..] + b;
      forall i | 0 <= i < |a| - 1
        ensures !MatchAt(a[1..] + b, i, leads, body)
      {
        MatchShift(s, 1, i, leads, body);
      }
      ReplaceSkipsPrefix(a[1..], b, leads, body, repl);
      assert a == [a[0]] + a[1..];
    } else {
      assert a + b == b;
    }
  }

  /** The same, for a split of `s` at `i`. */
  lemma ReplaceSkipsTo(s: string, i: nat, leads: set<char>, body: string, repl: string)
    requires i <= |s|
    requires forall j :: 0 <= j < i ==> !MatchAt(s, j, leads, body)
    ensures ReplaceAll(s, leads, body, repl) == s[..i] + ReplaceAll(s[i..], leads, body, repl)
  {
    assert s[..i] + s[i..] == s;
    ReplaceSkipsPrefix(s[..i], s[i..], leads, body, repl);
  }

  /** `s` holds no lead character. */
  predicate LeadFree(s: string, leads: set<char>)
  {
    forall i :: 0 <= i < |s| ==> s[i] !in leads
  }

  lemma LeadFreeConcat(a: string, b: string, leads: set<char>)
    requires LeadFree(a, leads) && LeadFree(b, leads)
    ensures LeadFree(a + b, leads)
  {
    forall i | 0 <= i < |a + b|
      ensures (a + b)[i] !in leads
    {
      if i < |a| {
        assert (a + b)[i] == a[i];
      } else {
        assert (a + b)[i] == b[i - |a|];
      }
    }
  }

  /** A prefix that holds no lead character is copied verbatim. */
  lemma ReplaceSkipsLeadFree(a: string, b: string, leads: set<char>, body: string, repl: string)
    requires LeadFree(a, leads)
    ensures ReplaceAll(a + b, leads, body, repl) == a + ReplaceAll(b, leads, body, repl)
  {
    forall i | 0 <= i < |a|
      ensures !MatchAt(a + b, i, leads, body)
    {
      assert (a + b)[i] == a[i];
    }
    ReplaceSkipsPrefix(a, b, leads, body, repl);
  }

  /** A string holding no lead character is returned unchanged. */
  lemma LeadFreeUnchanged(s: string, leads: set<char>, body: string, repl: string)
    requires LeadFree(s, leads)
    ensures ReplaceAll(s, leads, body, repl) == s
  {
    assert s + [] == s;
    ReplaceSkipsLeadFree(s, [], leads, body, repl);
  }

  /** A lead character not followed by the body's first character starts no match. */
  lemma NoMatchWhenBodyHeadDiffers(s: string, i: nat, leads: set<char>, body: string)
    requires i + 1 < |s| && body != [] && s[i + 1] != body[0]
    ensures !MatchAt(s, i, leads, body)
  {
    if i + 1 + |body| <= |s| {
      assert s[i + 1..i + 1 + |body|][0] == s[i + 1];
    }
  }

  /** A string with no match anywhere is returned unchanged. */
  lemma ReplaceWithoutMatch(s: string, leads: set<char>, body: string, repl: string)
    requires forall i :: 0 <= i < |s| ==> !MatchAt(s, i, leads, body)
    ensures ReplaceAll(s, leads, body, repl) == s
  {
    assert s + [] == s;
    ReplaceSkipsPrefix(s, [], leads, body, repl);
  }

  /** A string that starts with a match: one step of the scan. */
  lemma ReplaceAtStart(b: string, leads: set<char>, body: string, repl: string)
    requires MatchAt(b, 0, leads, body)
    ensures var e := MatchEnd(b, 0, leads, body);
            ReplaceAll(b, leads, body, repl) == [b[0]] + repl + b[1 + |body|..e] + ReplaceAll(b[e..], leads, body, repl)
  {
  }

  lemma AppendAssoc(a: string, b: string, c: string)
    ensures a + b + c == a + (b + c)
  {
  }

  lemma AppendRegroup(a: string, x: string, r: string, m: string, t: string)
    ensures a + (x + r + m + t) == a + x + r + m + t
  {
  }

  lemma SplitAround(s: string, k: nat, e: nat)
    requires 1 <= k <= e <= |s|
    ensures s == [s[0]] + s[1..k] + s[k..e] + s[e..]
  {
    assert s[..k] == [s[0]] + s[1..k];
    assert s[..e] == s[..k] + s[k..e];
    assert s == s[..e] + s[e..];
  }

  /** Replacing every body by itself gives back the input. */
  lemma {:induction false} ReplaceByBodyIsIdentity(s: string, leads: set<char>, body: string)
    ensures ReplaceAll(s, leads, body, body) == s
    decreases |s|
  {
    if s != [] {
      if MatchAt(s, 0, leads, body) {
        var e := MatchEnd(s, 0, leads, body);
        var k := 1 + |body|;
        assert ReplaceAll(s, leads, body, body) == [s[0]] + body + s[k..e] + ReplaceAll(s[e..], leads, body, body);
        ReplaceByBodyIsIdentity(s[e..], leads, body);
        assert s[1..k] == body;
        SplitAround(s, k, e);
      } else {
        ReplaceByBodyIsIdentity(s[1..], leads, body);
        assert s == [s[0]] + s[1..];
      }
    }
  }

  /** A match of a body ending in `qqq` has the placeholder just before its delimiter. */
  lemma MatchHasPlaceholder(s: string, i: nat, leads: set<char>, body: string)
    requires |body| >= 3 && body[|body| - 3..] == PathBody
    requires MatchAt(s, i, leads, body)
    ensures PlaceholderAt(s, i + 1 + |body| - 3)
  {
    var p := i + 1 + |body| - 3;
    assert s[i + 1..i + 1 + |body|][|body| - 3] == s[p];
    assert s[i + 1..i + 1 + |body|][|body| - 2] == s[p + 1];
    assert s[i + 1..i + 1 + |body|][|body| - 1] == s[p + 2];
    assert body[|body| - 3..][0] == body[|body| - 3];
  }

  /** Without the placeholder a pass whose body ends in `qqq` changes nothing. */
  lemma ReplaceWithoutPlaceholder(s: string, leads: set<char>, body: string, repl: string)
    requires |body| >= 3 && body[|body| - 3..] == PathBody
    requires !HasPlaceholder(s)
    ensures ReplaceAll(s, leads, body, repl) == s
  {
    forall i | 0 <= i < |s|
      ensures !MatchAt(s, i, leads, body)
    {
      if MatchAt(s, i, leads, body) {
        MatchHasPlaceholder(s, i, leads, body);
      }
    }
    ReplaceWithoutMatch(s, leads, body, repl);
  }

  /** Joining two placeholder-free strings creates no placeholder when the seam holds a non-`q`. */
  lemma NoPlaceholderConcat(x: string, y: string)
    requires !HasPlaceholder(x) && !HasPlaceholder(y)
    requires (x != [] && x[|x| - 1] != 'q') || (y != [] && y[0] != 'q')
    ensures !HasPlaceholder(x + y)
  {
    var s := x + y;
    forall p | 0 <= p < |s|
      ensures !PlaceholderAt(s, p)
    {
      if PlaceholderAt(s, p) {
        if p + 3 <= |x| {
          assert PlaceholderAt(x, p);
        } else if p >= |x| {
          assert PlaceholderAt(y, p - |x|);
        }
      }
    }
  }

  /** A string without the letter `q` has no placeholder. */
  lemma NoQNoPlaceholder(s: string)
    requires 'q' !in s
    ensures !HasPlaceholder(s)
  {
  }

  /**
   * With a body ending in `qqq`, no match starts inside a placeholder-free `x` when
   * the character after it cannot occur in the body.
   */
  lemma NoMatchBeforeForeignChar(x: string, y: string, leads: set<char>, body: string)
    requires |body| >= 3 && body[|body| - 3..] == PathBody
    requires !HasPlaceholder(x)
    requires y != [] && y[0] !in body
    ensures forall i :: 0 <= i < |x| ==> !MatchAt(x + y, i, leads, body)
  {
    var s := x + y;
    forall i | 0 <= i < |x|
      ensures !MatchAt(s, i, leads, body)
    {
      var e0 := i + 1 + |body|;
      if e0 <= |x| {
        if MatchAt(s, i, leads, body) {
          MatchHasPlaceholder(s, i, leads, body);
          assert PlaceholderAt(x, e0 - 3);
        }
      } else if e0 <= |s| {
        // the character after `x` would have to be the body's character at `k`
        var k := |x| - i - 1;
        assert s[i + 1..e0][k] == y[0];
        assert body[k] in body;
      }
    }
  }

  /** Such an `x` is therefore copied verbatim. */
  lemma ReplaceSkipsBeforeForeignChar(x: string, y: string, leads: set<char>, body: string, repl: string)
    requires |body| >= 3 && body[|body| - 3..] == PathBody
    requires !HasPlaceholder(x)
    requires y != [] && y[0] !in body
    ensures ReplaceAll(x + y, leads, body, repl) == x + ReplaceAll(y, leads, body, repl)
  {
    NoMatchBeforeForeignChar(x, y, leads, body);
    ReplaceSkipsPrefix(x, y, leads, body, repl);
  }

  // ---------------------------------------------------------------------------
  // Properties of url_set_language

  /** A URL that does not contain `qqq` is returned unchanged. */
  lemma UrlWithoutPlaceholderUnchanged(url: string, code: string)
    requires '\\' !in code
    requires !HasPlaceholder(url)
    ensures UrlSetLanguage(url, code) == url
  {
    assert ParamBody[|ParamBody| - 3..] == PathBody;
    ReplaceWithoutPlaceholder(url, ParamLeads, ParamBody, "language=" + code);
    ReplaceWithoutPlaceholder(url, PathLeads, PathBody, code);
  }

  /** Substituting the placeholder code itself gives back the URL. */
  lemma SetLanguageQqqIsIdentity(url: string)
    ensures UrlSetLanguage(url, "qqq") == url
  {
    assert "language=" + "qqq" == ParamBody;
    ReplaceByBodyIsIdentity(url, ParamLeads, ParamBody);
    ReplaceByBodyIsIdentity(url, PathLeads, PathBody);
  }

  /**
   * A string that starts with a match: a lead, the body, then `&`, `#`, a final
   * newline or nothing.  The lead and the delimiter, `d` characters long, are kept.
   */
  lemma RewriteAtStart(lead: char, body: string, rest: string, leads: set<char>, repl: string)
    requires lead in leads
    requires rest == [] || rest[0] == '&' || rest[0] == '#' || (|rest| == 1 && rest[0] == '\n')
    ensures var d := if rest != [] && rest[0] != '\n' then 1 else 0;
            ReplaceAll([lead] + body + rest, leads, body, repl) ==
              [lead] + repl + rest[..d] + ReplaceAll(rest[d..], leads, body, repl)
  {
    var t := [lead] + body + rest;
    StartLayout(lead, body, rest, leads);
    ReplaceAtStart(t, leads, body, repl);
  }

  /** The match at the start of `[lead] + body + rest`, and the pieces around it. */
  lemma StartLayout(lead: char, body: string, rest: string, leads: set<char>)
    requires lead in leads
    requires rest == [] || rest[0] == '&' || rest[0] == '#' || (|rest| == 1 && rest[0] == '\n')
    ensures var t, j := [lead] + body + rest, 1 + |body|;
            var d := if rest != [] && rest[0] != '\n' then 1 else 0;
            && MatchAt(t, 0, leads, body)
            && MatchEnd(t, 0, leads, body) == j + d
            && t[j..j + d] == rest[..d]
            && t[j + d..] == rest[d..]
  {
    var t, j := [lead] + body + rest, 1 + |body|;
    assert t[1..j] == body;
    assert t[j..] == rest;
  }

  /**
   * A match after a prefix in which none starts: the prefix and the lead are kept,
   * the body becomes `repl`, the delimiter is kept, and the scan goes on after it.
   */
  lemma RewriteAfterPrefix(prefix: string, lead: char, body: string, rest: string, leads: set<char>, repl: string)
    requires lead in leads
    requires rest == [] || rest[0] == '&' || rest[0] == '#' || (|rest| == 1 && rest[0] == '\n')
    requires forall j :: 0 <= j < |prefix| ==> !MatchAt(prefix + [lead] + body + rest, j, leads, body)
    ensures var d := if rest != [] && rest[0] != '\n' then 1 else 0;
            ReplaceAll(prefix + [lead] + body + rest, leads, body, repl) ==
              prefix + [lead] + repl + rest[..d] + ReplaceAll(rest[d..], leads, body, repl)
  {
    var s, i := prefix + [lead] + body + rest, |prefix|;
    var d := if rest != [] && rest[0] != '\n' then 1 else 0;
    ReplaceSkipsTo(s, i, leads, body, repl);
    PrefixLayout(prefix, lead, body, rest);
    RewriteAtStart(lead, body, rest, leads, repl);
    AppendRegroup(prefix, [lead], repl, rest[..d], ReplaceAll(rest[d..], leads, body, repl));
  }

  /** `prefix + [lead] + body + rest` cut after the prefix. */
  lemma PrefixLayout(prefix: string, lead: char, body: string, rest: string)
    ensures var s := prefix + [lead] + body + rest;
            s[..|prefix|] == prefix && s[|prefix|..] == [lead] + body + rest
  {
  }

  /**
   * The first `language=qqq` parameter, preceded by `?` or `&` and followed by `&`,
   * `#` or the end, becomes `language=<code>`; both delimiters stay and the text
   * before it is untouched.
   */
  lemma SetLanguageParamRewritesFirst(prefix: string, lead: char, rest: string, code: string)
    requires lead in ParamLeads
    requires rest == [] || rest[0] == '&' || rest[0] == '#' || (|rest| == 1 && rest[0] == '\n')
    requires forall j :: 0 <= j < |prefix| ==> !MatchAt(prefix + [lead] + ParamBody + rest, j, ParamLeads, ParamBody)
    ensures var d := if rest != [] && rest[0] != '\n' then 1 else 0;
            SetLanguageParam(prefix + [lead] + ParamBody + rest, code) ==
              prefix + [lead] + "language=" + code + rest[..d] + SetLanguageParam(rest[d..], code)
  {
    RewriteAfterPrefix(prefix, lead, ParamBody, rest, ParamLeads, "language=" + code);
    assert prefix + [lead] + ("language=" + code) == prefix + [lead] + "language=" + code;
  }

  /**
   * A `/qqq` followed by `&`, `#` or the end, with no earlier match, becomes
   * `/<code>`; the delimiter stays.
   */
  lemma SetLanguagePathRewritesFirst(prefix: string, rest: string, code: string)
    requires rest == [] || rest[0] == '&' || rest[0] == '#' || (|rest| == 1 && rest[0] == '\n')
    requires forall j :: 0 <= j < |prefix| ==> !MatchAt(prefix + "/" + PathBody + rest, j, PathLeads, PathBody)
    ensures var d := if rest != [] && rest[0] != '\n' then 1 else 0;
            SetLanguagePath(prefix + "/" + PathBody + rest, code) ==
              prefix + "/" + code + rest[..d] + SetLanguagePath(rest[d..], code)
  {
    assert prefix + "/" == prefix + ['/'];
    RewriteAfterPrefix(prefix, '/', PathBody, rest, PathLeads, code);
  }

  /** A host, then `?language=` and a code: no placeholder if neither part has one. */
  lemma NoPlaceholderInRewrittenPrefix(host: string, code: string)
    requires !HasPlaceholder(host) && !HasPlaceholder(code)
    ensures !HasPlaceholder(host + "?language=" + code)
  {
    NoQNoPlaceholder("?language=");
    NoPlaceholderConcat(host, "?language=");
    NoPlaceholderConcat(host + "?language=", code);
  }

  /** The second pass leaves a placeholder-free text followed by a `/`-free tail alone. */
  lemma PathPassKeepsSlashFreeTail(x: string, tail: string, code: string)
    requires !HasPlaceholder(x)
    requires tail != [] && tail[0] != 'q' && LeadFree(tail, PathLeads)
    ensures SetLanguagePath(x + tail, code) == x + tail
  {
    ReplaceSkipsBeforeForeignChar(x, tail, PathLeads, PathBody, code);
    LeadFreeUnchanged(tail, PathLeads, PathBody, code);
  }

  /**
   * A lead-free text, then one match ended by `&` or `#`: the match is rewritten and
   * the scan goes on after the delimiter.
   */
  lemma RewriteDelimitedMatch(x: string, lead: char, body: string, delim: char, tail: string,
                              leads: set<char>, repl: string)
    requires LeadFree(x, leads) && lead in leads
    requires delim == '&' || delim == '#'
    ensures ReplaceAll(x + [lead] + body + ([delim] + tail), leads, body, repl) ==
              x + [lead] + repl + ([delim] + ReplaceAll(tail, leads, body, repl))
  {
    var rest := [delim] + tail;
    var s := x + [lead] + body + rest;
    forall k | 0 <= k < |x|
      ensures !MatchAt(s, k, leads, body)
    {
      assert s[k] == x[k];
    }
    RewriteAfterPrefix(x, lead, body, rest, leads, repl);
    assert rest[0] == delim;
    assert rest[..1] == [delim] && rest[1..] == tail;
    AppendAssoc(x + [lead] + repl, [delim], ReplaceAll(tail, leads, body, repl));
  }

  /** A lead-free text, then one match that ends the string: the match is rewritten. */
  lemma RewriteFinalMatch(x: string, lead: char, body: string, leads: set<char>, repl: string)
    requires LeadFree(x, leads) && lead in leads
    ensures ReplaceAll(x + [lead] + body, leads, body, repl) == x + [lead] + repl
  {
    var s := x + [lead] + body + [];
    forall k | 0 <= k < |x|
      ensures !MatchAt(s, k, leads, body)
    {
      assert s[k] == x[k];
    }
    RewriteAfterPrefix(x, lead, body, [], leads, repl);
    assert s == x + [lead] + body;
    assert x + [lead] + repl + [] + [] == x + [lead] + repl;
  }

  /** The URL of `ParamPassOnlyFirst`, cut at its match. */
  lemma OnlyFirstLayout(host: string, other: string, code: string)
    ensures host + "?language=qqq&" + other + "=qqq" == host + ['?'] + ParamBody + ("&" + (other + "=qqq"))
    ensures host + ['?'] + ("language=" + code) + ("&" + (other + "=qqq")) ==
              host + "?language=" + code + "&" + other + "=qqq"
  {
    assert "?language=qqq&" == ['?'] + ParamBody + "&";
    assert "?language=" == ['?'] + "language=";
  }

  /** The first pass rewrites the leading `?language=qqq` and nothing after its `&`. */
  lemma ParamPassOnlyFirst(host: string, other: string, code: string)
    requires LeadFree(host, ParamLeads) && LeadFree(other, ParamLeads)
    ensures SetLanguageParam(host + "?language=qqq&" + other + "=qqq", code) ==
              host + "?language=" + code + "&" + other + "=qqq"
  {
    var repl := "language=" + code;
    var tail := other + "=qqq";
    assert LeadFree("=qqq", ParamLeads);
    LeadFreeConcat(other, "=qqq", ParamLeads);
    LeadFreeUnchanged(tail, ParamLeads, ParamBody, repl);
    RewriteDelimitedMatch(host, '?', ParamBody, '&', tail, ParamLeads, repl);
    OnlyFirstLayout(host, other, code);
  }

  /**
   * In `<host>?language=qqq&<other>=qqq`, only the first parameter is rewritten.
   * The first match consumes the `&`, and `<other>=qqq` holds no lead of either
   * pass (`other_language=qqq` has a `_` before `language`, not a `?` or `&`).
   */
  lemma OnlyFirstParameterRewritten(host: string, other: string, code: string)
    requires '\\' !in code && !HasPlaceholder(code)
    requires LeadFree(host, ParamLeads) && !HasPlaceholder(host)
    requires LeadFree(other, ParamLeads) && LeadFree(other, PathLeads)
    ensures UrlSetLanguage(host + "?language=qqq&" + other + "=qqq", code) ==
              host + "?language=" + code + "&" + other + "=qqq"
  {
    ParamPassOnlyFirst(host, other, code);
    NoPlaceholderInRewrittenPrefix(host, code);
    var tail := "&" + other + "=qqq";
    assert LeadFree("&", PathLeads) && LeadFree("=qqq", PathLeads);
    LeadFreeConcat("&", other, PathLeads);
    LeadFreeConcat("&" + other, "=qqq", PathLeads);
    PathPassKeepsSlashFreeTail(host + "?language=" + code, tail, code);
    assert host + "?language=" + code + "&" + other + "=qqq" == host + "?language=" + code + tail;
  }

  /** A fragment parameter whose name does not start like `language` is left alone. */
  lemma ParamPassKeepsFragmentParameter(other: string, repl: string)
    requires LeadFree(other, ParamLeads) && other != [] && other[0] != 'l'
    ensures ReplaceAll("&" + other + "=qqq", ParamLeads, ParamBody, repl) == "&" + other + "=qqq"
  {
    var param := "&" + other + "=qqq";
    assert param[1..] == other + "=qqq";
    assert LeadFree("=qqq", ParamLeads);
    LeadFreeConcat(other, "=qqq", ParamLeads);
    NoMatchWhenBodyHeadDiffers(param, 0, ParamLeads, ParamBody);
    LeadFreeUnchanged(param[1..], ParamLeads, ParamBody, repl);
    assert param == [param[0]] + param[1..];
  }

  /** The URL of `ParamPassStopsAtFragment`, cut at its match. */
  lemma StopsAtFragmentLayout(host: string, other: string, code: string)
    ensures host + "?language=qqq#&" + other + "=qqq" == host + ['?'] + ParamBody + ("#" + ("&" + other + "=qqq"))
    ensures host + ['?'] + ("language=" + code) + ("#" + ("&" + other + "=qqq")) ==
              host + "?language=" + code + "#&" + other + "=qqq"
  {
    assert "?language=qqq#&" == ['?'] + ParamBody + "#&";
    assert "?language=" == ['?'] + "language=";
  }

  /** The first pass ends the parameter at `#` and rewrites nothing in the fragment. */
  lemma ParamPassStopsAtFragment(host: string, other: string, code: string)
    requires LeadFree(host, ParamLeads)
    requires LeadFree(other, ParamLeads) && other != [] && other[0] != 'l'
    ensures SetLanguageParam(host + "?language=qqq#&" + other + "=qqq", code) ==
              host + "?language=" + code + "#&" + other + "=qqq"
  {
    var repl := "language=" + code;
    var param := "&" + other + "=qqq";
    ParamPassKeepsFragmentParameter(other, repl);
    RewriteDelimitedMatch(host, '?', ParamBody, '#', param, ParamLeads, repl);
    StopsAtFragmentLayout(host, other, code);
  }

  /**
   * A `#` ends the parameter just as `&` does, and the scan then goes on through the
   * fragment: `&other_language=qqq` there stays as it is, because its name does not
   * start like `language`.
   */
  lemma FragmentEndsParameter(host: string, other: string, code: string)
    requires '\\' !in code && !HasPlaceholder(code)
    requires LeadFree(host, ParamLeads) && !HasPlaceholder(host)
    requires LeadFree(other, ParamLeads) && LeadFree(other, PathLeads)
    requires other != [] && other[0] != 'l'
    ensures UrlSetLanguage(host + "?language=qqq#&" + other + "=qqq", code) ==
              host + "?language=" + code + "#&" + other + "=qqq"
  {
    ParamPassStopsAtFragment(host, other, code);
    NoPlaceholderInRewrittenPrefix(host, code);
    var rest := "#&" + other + "=qqq";
    assert LeadFree("#&", PathLeads) && LeadFree("=qqq", PathLeads);
    LeadFreeConcat("#&", other, PathLeads);
    LeadFreeConcat("#&" + other, "=qqq", PathLeads);
    PathPassKeepsSlashFreeTail(host + "?language=" + code, rest, code);
    assert host + "?language=" + code + rest == host + "?language=" + code + "#&" + other + "=qqq";
  }

  /** A final `&language=qqq` parameter, cut at its lead. */
  lemma FinalParameterLayout(x: string, code: string)
    ensures x + "&language=qqq" == x + ['&'] + ParamBody
    ensures x + ['&'] + ("language=" + code) == x + "&language=" + code
  {
    assert "&language=qqq" == ['&'] + ParamBody;
    assert "&language=" == ['&'] + "language=";
  }

  /** The first pass rewrites a `language=qqq` parameter that ends the URL. */
  lemma ParamPassRewritesFinalParameter(x: string, code: string)
    requires LeadFree(x, ParamLeads)
    ensures SetLanguageParam(x + "&language=qqq", code) == x + "&language=" + code
  {
    var repl := "language=" + code;
    FinalParameterLayout(x, code);
    RewriteFinalMatch(x, '&', ParamBody, ParamLeads, repl);
  }

  /** The URL of `ParamPassRewritesEveryMatch`, cut at its first match. */
  lemma EveryMatchLayout(host: string, mid: string, code: string)
    ensures host + "?language=qqq&" + mid + "&language=qqq" ==
              host + ['?'] + ParamBody + ("&" + (mid + "&language=qqq"))
    ensures host + ['?'] + ("language=" + code) + ("&" + (mid + "&language=" + code)) ==
              host + "?language=" + code + "&" + mid + "&language=" + code
  {
    assert "?language=qqq&" == ['?'] + ParamBody + "&";
    assert "?language=" == ['?'] + "language=";
  }

  /**
   * The first pass rewrites every match, not only the first: a second
   * `&language=qqq` parameter whose `&` the first match did not consume is
   * rewritten as well.
   */
  lemma ParamPassRewritesEveryMatch(host: string, mid: string, code: string)
    requires LeadFree(host, ParamLeads) && LeadFree(mid, ParamLeads)
    ensures SetLanguageParam(host + "?language=qqq&" + mid + "&language=qqq", code) ==
              host + "?language=" + code + "&" + mid + "&language=" + code
  {
    var repl := "language=" + code;
    EveryMatchLayout(host, mid, code);
    RewriteDelimitedMatch(host, '?', ParamBody, '&', mid + "&language=qqq", ParamLeads, repl);
    ParamPassRewritesFinalParameter(mid, code);
  }

  /**
   * The rewrite is textual: a `language=qqq` parameter inside the fragment is
   * rewritten like any other.
   */
  lemma FragmentParameterRewritten(host: string, code: string)
    requires '\\' !in code && !HasPlaceholder(code)
    requires LeadFree(host, ParamLeads) && !HasPlaceholder(host) && host != [] && host[|host| - 1] != 'q'
    ensures UrlSetLanguage(host + "#&language=qqq", code) == host + "#&language=" + code
  {
    assert LeadFree("#", ParamLeads);
    LeadFreeConcat(host, "#", ParamLeads);
    ParamPassRewritesFinalParameter(host + "#", code);
    assert host + "#" + "&language=qqq" == host + "#&language=qqq";
    assert host + "#" + "&language=" + code == host + "#&language=" + code;
    NoQNoPlaceholder("#&language=");
    NoPlaceholderConcat(host, "#&language=");
    NoPlaceholderConcat(host + "#&language=", code);
    ReplaceWithoutPlaceholder(host + "#&language=" + code, PathLeads, PathBody, code);
  }

  /** The URL of `ParamPassKeepsPathSegment`, cut at its segment. */
  lemma PathSegmentLayout(prefix: string, params: string)
    requires !HasPlaceholder(params)
    ensures prefix + "/qqq&" + params == prefix + ("/qqq" + ("&" + params))
    ensures ("/qqq" + ("&" + params))[0] == '/' && '/' !in ParamBody
    ensures LeadFree("/qqq", ParamLeads)
    ensures !HasPlaceholder("&" + params)
  {
    NoQNoPlaceholder("&");
    NoPlaceholderConcat("&", params);
  }

  /** The first pass leaves a `/qqq` segment alone: its placeholder follows `/`. */
  lemma ParamPassKeepsPathSegment(prefix: string, params: string, code: string)
    requires !HasPlaceholder(prefix) && !HasPlaceholder(params)
    ensures SetLanguageParam(prefix + "/qqq&" + params, code) == prefix + "/qqq&" + params
  {
    var repl := "language=" + code;
    var tail := "&" + params;
    PathSegmentLayout(prefix, params);
    ReplaceSkipsBeforeForeignChar(prefix, "/qqq" + tail, ParamLeads, ParamBody, repl);
    ReplaceSkipsLeadFree("/qqq", tail, ParamLeads, ParamBody, repl);
    ReplaceWithoutPlaceholder(tail, ParamLeads, ParamBody, repl);
  }

  /** The second pass's view of the same URL: the segment is `/` and the body. */
  lemma RewrittenSegmentLayout(prefix: string, params: string, code: string)
    ensures "/qqq" + ("&" + params) == [] + ['/'] + PathBody + ("&" + params)
    ensures '/' !in PathBody
    ensures prefix + ([] + ['/'] + code + ("&" + params)) == prefix + "/" + code + "&" + params
  {
  }

  /** The second pass rewrites a `/qqq` segment followed by `&` to `/<code>`. */
  lemma PathPassRewritesSegment(prefix: string, params: string, code: string)
    requires !HasPlaceholder(prefix) && !HasPlaceholder(params)
    ensures SetLanguagePath(prefix + "/qqq&" + params, code) == prefix + "/" + code + "&" + params
  {
    var tail := "&" + params;
    PathSegmentLayout(prefix, params);
    RewrittenSegmentLayout(prefix, params, code);
    ReplaceSkipsBeforeForeignChar(prefix, "/qqq" + tail, PathLeads, PathBody, code);
    ReplaceWithoutPlaceholder(params, PathLeads, PathBody, code);
    RewriteDelimitedMatch([], '/', PathBody, '&', params, PathLeads, code);
  }

  /**
   * A `/qqq` path segment followed by `&` becomes `/<code>`, the `&` and what
   * follows it unchanged.
   */
  lemma PathSegmentRewritten(prefix: string, params: string, code: string)
    requires '\\' !in code
    requires !HasPlaceholder(prefix) && !HasPlaceholder(params)
    ensures UrlSetLanguage(prefix + "/qqq&" + params, code) == prefix + "/" + code + "&" + params
  {
    ParamPassKeepsPathSegment(prefix, params, code);
    PathPassRewritesSegment(prefix, params, code);
  }
}
