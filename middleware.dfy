/** The request middleware: locale handling for every path outside `/api`,
    and the session-protection call for every path that is not on the list
    of public route patterns. */
module Middleware {

  /** The route-pattern grammar: `:locale` stands for one non-empty path
      segment (no '/'), `(.*)` for any remainder, possibly empty, and every
      other character for itself. */
  const LocaleParam: string := ":locale"
  const AnySuffix: string := "(.*)"

  /** The text of s up to (not including) its first '/'. */
  function LeadingSegment(s: string): (r: string)
    ensures r <= s && '/' !in r
    ensures |r| < |s| ==> s[|r|] == '/'
  {
    if s == [] || s[0] == '/' then [] else [s[0]] + LeadingSegment(s[1..])
  }

  /** Whether a path matches a route pattern. */
  function Match(pattern: string, path: string): bool
    decreases |pattern|
  {
    if pattern == [] then path == []
    else if LocaleParam <= pattern then
      var seg := LeadingSegment(path);
      seg != [] && Match(pattern[|LocaleParam|..], path[|seg|..])
    else if AnySuffix <= pattern then
      exists k :: 0 <= k <= |path| && Match(pattern[|AnySuffix|..], path[k..])
    else
      path != [] && path[0] == pattern[0] && Match(pattern[1..], path[1..])
  }

  /** The public routes: no session is required on a path matching any of them. */
  const PublicPatterns: seq<string> := [
    "/:locale/map(.*)",
    "/:locale/events(.*)",
    "/:locale/campus-guide(.*)",
    "/:locale/social(.*)",
    "/:locale/log-in(.*)",
    "/:locale/sign-up(.*)",
    "/:locale/forgot-password(.*)",
    "/:locale/reset-password(.*)",
    "/:locale/verify-email(.*)",
    "/api/(.*)",
    "/:locale",
    "/"
  ]

  /** Whether some pattern of the list matches the path (first match wins). */
  function AnyMatches(patterns: seq<string>, path: string): bool
  {
    patterns != [] && (Match(patterns[0], path) || AnyMatches(patterns[1..], path))
  }

  predicate IsPublicRoute(path: string)
  {
    AnyMatches(PublicPatterns, path)
  }

  /** `pathname.startsWith('/api')`: a plain prefix test, not a segment test. */
  predicate IsApiRoute(path: string)
  {
    "/api" <= path
  }

  /** The calls the handler makes, in order. */
  datatype Effect = RunLocale | Protect

  /** What the handler returns: the locale middleware's response, or nothing
      (the request passes through). */
  datatype Response = LocaleResponse | PassThrough

  datatype Outcome = Outcome(effects: seq<Effect>, response: Response)

  /** The middleware callback. */
  function Handle(path: string): (o: Outcome)
    ensures RunLocale in o.effects <==> !IsApiRoute(path)
    ensures Protect in o.effects <==> !IsPublicRoute(path)
    ensures o.response == LocaleResponse <==> !IsApiRoute(path)
    ensures RunLocale in o.effects ==> o.effects[0] == RunLocale
    ensures |o.effects| <= 2 && (|o.effects| == 2 ==> o.effects[0] != o.effects[1])
  {
    var protect := if IsPublicRoute(path) then [] else [Protect];
    if !IsApiRoute(path) then Outcome([RunLocale] + protect, LocaleResponse)
    else Outcome(protect, PassThrough)
  }

  datatype AccessDecision = AccessDecision(applyLocale: bool, requiresAuth: bool)

  /** The two decisions the handler takes for a path. */
  function Evaluate(path: string): (d: AccessDecision)
    ensures d.applyLocale <==> !IsApiRoute(path)
    ensures d.requiresAuth <==> !IsPublicRoute(path)
  {
    var o := Handle(path);
    AccessDecision(RunLocale in o.effects, Protect in o.effects)
  }

  /** The sections under a locale that need no session. */
  const PublicSections: seq<string> := [
    "map", "events", "campus-guide", "social", "log-in", "sign-up",
    "forgot-password", "reset-password", "verify-email"
  ]

  /** The path after its first segment, when the path starts with '/'. */
  function AfterFirstSegment(path: string): string
    requires path != [] && path[0] == '/'
  {
    path[1 + |LeadingSegment(path[1..])|..]
  }

  /** The public routes described segment by segment, independently of the
      pattern text: the root; everything under `/api/`; and a non-empty first
      segment (the locale) followed by nothing, or by '/' and text that starts
      with one of the public section names. */
  predicate PublicByRule(path: string)
  {
    path == "/" ||
    "/api/" <= path ||
    (path != [] && path[0] == '/' && LeadingSegment(path[1..]) != [] &&
      (AfterFirstSegment(path) == [] ||
       exists i :: 0 <= i < |PublicSections| && "/" + PublicSections[i] <= AfterFirstSegment(path)))
  }

  /** Characters with no meaning in a pattern. */
  predicate Plain(lit: string)
  {
    ':' !in lit && '(' !in lit
  }

  /** A plain literal matches exactly its own text. */
  lemma {:induction false} MatchPlain(lit: string, rest: string, path: string)
    requires Plain(lit)
    ensures Match(lit + rest, path) <==> lit <= path && Match(rest, path[|lit|..])
    decreases |lit|
  {
    if lit == [] {
      assert lit + rest == rest;
    } else {
      var p := lit + rest;
      assert p[0] == lit[0] && p[1..] == lit[1..] + rest;
      assert !(LocaleParam <= p) by { assert LocaleParam[0] == ':'; }
      assert !(AnySuffix <= p) by { assert AnySuffix[0] == '('; }
      if path != [] {
        MatchPlain(lit[1..], rest, path[1..]);
        assert lit <= path <==> lit[0] == path[0] && lit[1..] <= path[1..];
        if lit[1..] <= path[1..] {
          assert path[1..][|lit| - 1..] == path[|lit|..];
        }
      }
    }
  }

  /** `:locale` takes the path's leading segment, which must be non-empty. */
  lemma MatchLocale(rest: string, path: string)
    ensures Match(LocaleParam + rest, path) <==>
      LeadingSegment(path) != [] && Match(rest, path[|LeadingSegment(path)|..])
  {
    assert (LocaleParam + rest)[|LocaleParam|..] == rest;
  }

  /** A trailing `(.*)` matches any remainder. */
  lemma MatchAnySuffix(path: string)
    ensures Match(AnySuffix, path)
  {
    assert AnySuffix[|AnySuffix|..] == [];
    assert !(LocaleParam <= AnySuffix);
    assert Match(AnySuffix[|AnySuffix|..], path[|path|..]);
  }

  /** `/:locale/<section>(.*)` matches a path exactly when its first segment is
      non-empty and the rest starts with '/' and the section name. */
  lemma MatchSectionPattern(section: string, path: string)
    requires Plain(section)
    ensures Match(SectionPattern(section), path) <==>
      path != [] && path[0] == '/' && LeadingSegment(path[1..]) != [] &&
      "/" + section <= AfterFirstSegment(path)
  {
    assert Plain("/");
    assert Plain("/" + section);
    var tail := "/" + section + AnySuffix;
    assert SectionPattern(section) == "/" + (LocaleParam + tail);
    MatchPlain("/", LocaleParam + tail, path);
    if "/" <= path {
      var p1 := path[1..];
      MatchLocale(tail, p1);
      var seg := LeadingSegment(p1);
      if seg != [] {
        assert p1[|seg|..] == AfterFirstSegment(path);
        MatchPlain("/" + section, AnySuffix, p1[|seg|..]);
        if "/" + section <= p1[|seg|..] {
          MatchAnySuffix(p1[|seg|..][|"/" + section|..]);
        }
      }
    }
  }

  /** `/:locale` matches a path made of '/' and one non-empty segment. */
  lemma MatchLocaleOnly(path: string)
    ensures Match("/" + LocaleParam, path) <==>
      path != [] && path[0] == '/' && LeadingSegment(path[1..]) != [] && AfterFirstSegment(path) == []
  {
    assert Plain("/");
    assert "/" + LocaleParam == "/" + (LocaleParam + []);
    MatchPlain("/", LocaleParam + [], path);
    if "/" <= path {
      MatchLocale([], path[1..]);
    }
  }

  /** `/api/(.*)` matches exactly the paths starting with `/api/`. */
  lemma MatchApiPattern(path: string)
    ensures Match("/api/" + AnySuffix, path) <==> "/api/" <= path
  {
    assert Plain("/api/");
    MatchPlain("/api/", AnySuffix, path);
    if "/api/" <= path {
      MatchAnySuffix(path[5..]);
    }
  }

  /** `/` matches only the root path. */
  lemma MatchRoot(path: string)
    ensures Match("/", path) <==> path == "/"
  {
    assert Plain("/");
    assert "/" == "/" + [];
    MatchPlain("/", [], path);
  }

  /** "Some pattern matches" does not depend on where in the list it stands. */
  lemma {:induction false} AnyMatchesExists(patterns: seq<string>, path: string)
    ensures AnyMatches(patterns, path) <==> exists p :: p in patterns && Match(p, path)
  {
    if patterns != [] {
      AnyMatchesExists(patterns[1..], path);
      if AnyMatches(patterns, path) {
        if Match(patterns[0], path) {
          assert patterns[0] in patterns;
        } else {
          var p :| p in patterns[1..] && Match(p, path);
          assert p in patterns;
        }
      }
      if exists p :: p in patterns && Match(p, path) {
        var p :| p in patterns && Match(p, path);
        if p != patterns[0] {
          assert p in patterns[1..];
        }
      }
    }
  }

  /** Reordering or repeating the public patterns does not change which paths are public. */
  lemma PatternOrderIrrelevant(patterns: seq<string>, path: string)
    requires forall p :: p in patterns <==> p in PublicPatterns
    ensures AnyMatches(patterns, path) == IsPublicRoute(path)
  {
    AnyMatchesExists(patterns, path);
    AnyMatchesExists(PublicPatterns, path);
  }

  /** A locale-prefixed section pattern, `/:locale/<section>(.*)`. */
  function SectionPattern(section: string): string
  {
    "/" + LocaleParam + "/" + section + AnySuffix
  }

  /** The pattern list read segment by segment: entry i < 9 is the section
      pattern of the i-th public section. */
  lemma PublicPatternsShape(i: nat)
    requires i < 9
    ensures PublicPatterns[i] == SectionPattern(PublicSections[i])
  {
    if i == 0 {
      SectionPatternAt0();
    } else if i == 1 {
      SectionPatternAt1();
    } else if i == 2 {
      SectionPatternAt2();
    } else if i == 3 {
      SectionPatternAt3();
    } else if i == 4 {
      SectionPatternAt4();
    } else if i == 5 {
      SectionPatternAt5();
    } else if i == 6 {
      SectionPatternAt6();
    } else if i == 7 {
      SectionPatternAt7();
    } else {
      SectionPatternAt8();
    }
  }

  /** Each of the first nine patterns spelled out, one entry at a time. */
  lemma SectionPatternAt0()
    ensures PublicPatterns[0] == SectionPattern(PublicSections[0])
  {
    SectionPatternText("map", PublicPatterns[0]);
  }

  lemma SectionPatternAt1()
    ensures PublicPatterns[1] == SectionPattern(PublicSections[1])
  {
    SectionPatternText("events", PublicPatterns[1]);
  }

  lemma SectionPatternAt2()
    ensures PublicPatterns[2] == SectionPattern(PublicSections[2])
  {
    SectionPatternText("campus-guide", PublicPatterns[2]);
  }

  lemma SectionPatternAt3()
    ensures PublicPatterns[3] == SectionPattern(PublicSections[3])
  {
    SectionPatternText("social", PublicPatterns[3]);
  }

  lemma SectionPatternAt4()
    ensures PublicPatterns[4] == SectionPattern(PublicSections[4])
  {
    SectionPatternText("log-in", PublicPatterns[4]);
  }

  lemma SectionPatternAt5()
    ensures PublicPatterns[5] == SectionPattern(PublicSections[5])
  {
    SectionPatternText("sign-up", PublicPatterns[5]);
  }

  lemma SectionPatternAt6()
    ensures PublicPatterns[6] == SectionPattern(PublicSections[6])
  {
    SectionPatternText("forgot-password", PublicPatterns[6]);
  }

  lemma SectionPatternAt7()
    ensures PublicPatterns[7] == SectionPattern(PublicSections[7])
  {
    SectionPatternText("reset-password", PublicPatterns[7]);
  }

  lemma SectionPatternAt8()
    ensures PublicPatterns[8] == SectionPattern(PublicSections[8])
  {
    SectionPatternText("verify-email", PublicPatterns[8]);
  }

  /** No public section name holds a character with meaning in a pattern. */
  lemma PublicSectionsPlain(i: nat)
    requires i < 9
    ensures Plain(PublicSections[i])
  {
  }

  /** The first letters of the public section names. */
  lemma PublicSectionInitial(i: nat)
    requires i < 9
    ensures PublicSections[i] != [] && PublicSections[i][0] in "mecslfrv"
  {
  }

  /** The text of a section pattern, checked character by character. */
  lemma SectionPatternText(section: string, text: string)
    requires text == "/:locale/" + section + "(.*)"
    ensures text == SectionPattern(section)
  {
  }

  /** The last three patterns of the list, in the matcher's own terms. */
  lemma TrailingPatterns()
    ensures PublicPatterns[9] == "/api/" + AnySuffix
    ensures PublicPatterns[10] == "/" + LocaleParam
    ensures PublicPatterns[11] == "/"
  {
  }

  /** Every path some public pattern matches is public by the segment rules. */
  lemma PublicRouteSound(path: string)
    requires IsPublicRoute(path)
    ensures PublicByRule(path)
  {
    AnyMatchesExists(PublicPatterns, path);
    var p :| p in PublicPatterns && Match(p, path);
    var i :| 0 <= i < |PublicPatterns| && PublicPatterns[i] == p;
    if i < 9 {
      PublicPatternsShape(i);
      PublicSectionsPlain(i);
      MatchSectionPattern(PublicSections[i], path);
    } else {
      TrailingPatterns();
      MatchApiPattern(path);
      MatchLocaleOnly(path);
      MatchRoot(path);
    }
  }

  /** Every path public by the segment rules is matched by some public pattern. */
  lemma PublicRouteComplete(path: string)
    requires PublicByRule(path)
    ensures IsPublicRoute(path)
  {
    AnyMatchesExists(PublicPatterns, path);
    TrailingPatterns();
    if path == "/" {
      MatchRoot(path);
      assert PublicPatterns[11] in PublicPatterns;
    } else if "/api/" <= path {
      MatchApiPattern(path);
      assert PublicPatterns[9] in PublicPatterns;
    } else if AfterFirstSegment(path) == [] {
      MatchLocaleOnly(path);
      assert PublicPatterns[10] in PublicPatterns;
    } else {
      var i :| 0 <= i < |PublicSections| && "/" + PublicSections[i] <= AfterFirstSegment(path);
      PublicPatternsShape(i);
      PublicSectionsPlain(i);
      MatchSectionPattern(PublicSections[i], path);
      assert PublicPatterns[i] in PublicPatterns;
    }
  }

  /** The pattern list accepts exactly the paths the segment rules describe. */
  lemma PublicRouteCharacterization(path: string)
    ensures IsPublicRoute(path) <==> PublicByRule(path)
  {
    if IsPublicRoute(path) {
      PublicRouteSound(path);
    }
    if PublicByRule(path) {
      PublicRouteComplete(path);
    }
  }

  /** The leading segment of a segment followed by '/' (or by nothing) is that segment. */
  lemma {:induction false} LeadingSegmentOf(seg: string, rest: string)
    requires '/' !in seg && (rest == [] || rest[0] == '/')
    ensures LeadingSegment(seg + rest) == seg
    decreases |seg|
  {
    if seg == [] {
      assert seg + rest == rest;
    } else {
      assert (seg + rest)[1..] == seg[1..] + rest;
      LeadingSegmentOf(seg[1..], rest);
    }
  }

  /** Everything under `/api/` is public and an API route: the handler neither
      runs locale handling nor protects, and passes the request through. */
  lemma ApiPathsPassThrough(path: string)
    requires "/api/" <= path
    ensures Handle(path) == Outcome([], PassThrough)
  {
    PublicRouteCharacterization(path);
    assert "/api" <= path;
  }

  /** A path `/<locale>/<rest>` whose first segment is not `api` is public
      exactly when a public section name starts the rest. */
  lemma LocalePathPublic(locale: string, rest: string)
    requires locale != [] && '/' !in locale && locale != "api"
    ensures IsPublicRoute("/" + locale + "/" + rest) <==>
      exists i :: 0 <= i < |PublicSections| && PublicSections[i] <= rest
  {
    var path := "/" + locale + "/" + rest;
    assert path[1..] == locale + ("/" + rest);
    LeadingSegmentOf(locale, "/" + rest);
    assert AfterFirstSegment(path) == "/" + rest;
    assert path[1 + |locale|] == '/';
    assert |locale| >= 4 ==> path[4] == locale[3];
    assert |locale| == 3 ==> path[1..4] == locale;
    assert !("/api/" <= path);
    forall i | 0 <= i < |PublicSections|
      ensures "/" + PublicSections[i] <= "/" + rest <==> PublicSections[i] <= rest
    {
      var w := PublicSections[i];
      if "/" + w <= "/" + rest {
        assert w == ("/" + w)[1..] && rest == ("/" + rest)[1..];
      }
    }
    PublicRouteCharacterization(path);
  }

  /** A path `/<locale>/<rest>` outside the API prefix: the locale middleware
      runs and its response is returned; protection is called exactly when no
      public section name starts the rest. */
  lemma LocalePathHandling(locale: string, rest: string)
    requires locale != [] && '/' !in locale && !("api" <= locale)
    ensures var public := exists i :: 0 <= i < |PublicSections| && PublicSections[i] <= rest;
      Handle("/" + locale + "/" + rest) ==
        Outcome([RunLocale] + (if public then [] else [Protect]), LocaleResponse)
  {
    LocalePathPublic(locale, rest);
    LocalePathNotApi(locale, rest);
  }

  /** A first segment that does not start with `api` keeps the path out of
      the API prefix. */
  lemma LocalePathNotApi(locale: string, rest: string)
    requires locale != [] && '/' !in locale && !("api" <= locale)
    ensures !IsApiRoute("/" + locale + "/" + rest)
  {
    var path := "/" + locale + "/" + rest;
    assert path[1..] == locale + ("/" + rest);
    assert path[1 + |locale|] == '/';
    assert |locale| >= 3 ==> path[1..4] == locale[..3] && ("api" <= locale <==> locale[..3] == "api");
  }


  /** Under a locale, a rest that starts with a public section name is public. */
  lemma ListedSectionPublic(locale: string, section: string, rest: string)
    requires locale != [] && '/' !in locale && locale != "api"
    requires section in PublicSections && section <= rest
    ensures IsPublicRoute("/" + locale + "/" + rest)
  {
    LocalePathPublic(locale, rest);
    var i :| 0 <= i < |PublicSections| && PublicSections[i] == section;
  }

  /** Under a locale, a rest that starts with a letter no public section name
      starts with is never public. */
  lemma UnlistedSectionProtected(locale: string, rest: string)
    requires locale != [] && '/' !in locale && locale != "api"
    requires rest != [] && rest[0] !in "mecslfrv"
    ensures !IsPublicRoute("/" + locale + "/" + rest)
  {
    LocalePathPublic(locale, rest);
    forall i | 0 <= i < |PublicSections| ensures !(PublicSections[i] <= rest) {
      PublicSectionInitial(i);
    }
  }

  /** `/<locale>` alone is public; outside the API prefix the locale middleware runs. */
  lemma LocaleRootPublic(locale: string)
    requires locale != [] && '/' !in locale
    ensures IsPublicRoute("/" + locale)
    ensures Evaluate("/" + locale).applyLocale <==> !("api" <= locale)
  {
    var path := "/" + locale;
    assert path[1..] == locale + [];
    LeadingSegmentOf(locale, []);
    PublicRouteCharacterization(path);
    assert "/api" <= path <==> "api" <= locale by {
      if "api" <= locale { assert path[..4] == "/" + locale[..3]; }
      if "/api" <= path { assert locale[..3] == path[1..4]; }
    }
  }

  /** The prefix test is not a segment test: `/apiary` skips locale handling,
      and is public only through the `/:locale` pattern. */
  lemma ApiaryIsApiRoute()
    ensures Evaluate("/apiary") == AccessDecision(false, false)
  {
    LocaleRootPublic("apiary");
    assert "/apiary" == "/" + "apiary";
  }

  /** Below a first segment that merely starts with `api` (`/apiary/admin`,
      say) the API branch is taken: locale handling is skipped, and
      protection is called exactly when no public section name starts the
      rest. */
  lemma ApiPrefixedSegmentProtected(tail: string, rest: string)
    requires tail != [] && '/' !in tail
    ensures var public := exists i :: 0 <= i < |PublicSections| && PublicSections[i] <= rest;
      Evaluate("/api" + tail + "/" + rest) == AccessDecision(false, !public)
  {
    var locale := "api" + tail;
    assert |locale| > 3;
    LocalePathPublic(locale, rest);
    var path := "/" + locale + "/" + rest;
    assert path == "/api" + tail + "/" + rest;
    assert path[..4] == "/api";
  }

  lemma ExampleApiEvents()
    ensures Evaluate("/api/events") == AccessDecision(false, false)
  {
    ApiPathsPassThrough("/api/events");
  }

  /** `/<locale>/events/<id>` under a locale that does not start with `api`
      (so not caught by the API prefix): locale handling runs, no protection. */
  lemma LocaleEventsPage(locale: string, id: string)
    requires locale != [] && '/' !in locale && !("api" <= locale)
    ensures Evaluate("/" + locale + "/" + ("events/" + id)) == AccessDecision(true, false)
  {
    assert PublicSections[1] == "events";
    assert PublicSections[1] <= "events/" + id;
    LocalePathHandling(locale, "events/" + id);
  }

  /** `/<locale>/dashboard` under such a locale: locale handling runs, and
      protection is called. */
  lemma LocaleDashboardPage(locale: string)
    requires locale != [] && '/' !in locale && !("api" <= locale)
    ensures Evaluate("/" + locale + "/dashboard") == AccessDecision(true, true)
  {
    forall i | 0 <= i < |PublicSections| ensures !(PublicSections[i] <= "dashboard") {
      PublicSectionInitial(i);
    }
    LocalePathHandling(locale, "dashboard");
    assert "/" + locale + "/dashboard" == "/" + locale + "/" + "dashboard";
  }

  lemma ExampleRoot()
    ensures Evaluate("/") == AccessDecision(true, false)
  {
    PublicRouteCharacterization("/");
  }
}
