/** The syntactic YouTube link check: `YOUTUBE_REGEX` matched with
    `re.match` (anchored at the start only) and `_validate_url`. */
module UrlValidation {
  import opened Text

  /** The reason `_validate_url` gives for a rejected link. */
  const InvalidUrlMessage := "Некорректная ссылка YouTube"

  /** Number of characters in a video identifier (`{11}`). */
  const VideoIdLength := 11

  /** The alternatives of the three groups of the pattern, in pattern order:
      `(https?://)?`, `(www\.)?` and `(youtube\.com/(watch\?v=|shorts/)|youtu\.be/)`. */
  const Schemes: seq<string> := ["", "http://", "https://"]
  const Subdomains: seq<string> := ["", "www."]
  const Routes: seq<string> := ["youtube.com/watch?v=", "youtube.com/shorts/", "youtu.be/"]

  /** One character of the class `[a-zA-Z0-9_-]`. */
  predicate IsIdChar(c: char) {
    ('a' <= c <= 'z') || ('A' <= c <= 'Z') || ('0' <= c <= '9') || c == '_' || c == '-'
  }

  /** `s` begins with eleven identifier characters; what follows is ignored. */
  predicate StartsWithVideoId(s: string) {
    |s| >= VideoIdLength && forall i | 0 <= i < VideoIdLength :: IsIdChar(s[i])
  }

  predicate HasPrefix(s: string, p: string) {
    |p| <= |s| && s[..|p|] == p
  }

  /** The pattern matches `url` at position 0 taking the given alternatives. */
  ghost predicate MatchesWith(url: string, scheme: string, subdomain: string, route: string) {
    var lead := scheme + subdomain + route;
    HasPrefix(url, lead) && StartsWithVideoId(url[|lead|..])
  }

  /** Reference semantics of `YOUTUBE_REGEX.match(url)`: some choice of an
      alternative for each group matches. */
  ghost predicate RegexMatches(url: string) {
    exists i, j, k | 0 <= i < |Schemes| && 0 <= j < |Subdomains| && 0 <= k < |Routes| ::
      MatchesWith(url, Schemes[i], Subdomains[j], Routes[k])
  }

  /** Drops `http://` or `https://` when present. */
  function StripScheme(s: string): string {
    if HasPrefix(s, "https://") then s[8..]
    else if HasPrefix(s, "http://") then s[7..]
    else s
  }

  /** Drops `www.` when present. */
  function StripSubdomain(s: string): string {
    if HasPrefix(s, "www.") then s[4..] else s
  }

  /** Drops one of the three routes, or fails. */
  function StripRoute(s: string): Option<string> {
    if HasPrefix(s, "youtube.com/watch?v=") then Some(s[20..])
    else if HasPrefix(s, "youtube.com/shorts/") then Some(s[19..])
    else if HasPrefix(s, "youtu.be/") then Some(s[9..])
    else None
  }

  /** The regex evaluated deterministically: the optional groups are distinct
      literals, so no backtracking is ever needed. */
  predicate MatchesYouTube(url: string) {
    var rest := StripRoute(StripSubdomain(StripScheme(url)));
    rest.Some? && StartsWithVideoId(rest.value)
  }

  lemma PrefixSplit(s: string, p: string, t: string)
    requires s == p + t
    ensures HasPrefix(s, p) && s[|p|..] == t
  {
    assert s[..|p|] == p;
  }

  /** A string that starts with 'w' or 'y' has no scheme to drop. */
  lemma StripSchemeOf(i: nat, rest: string)
    requires i < |Schemes| && |rest| > 0 && (rest[0] == 'w' || rest[0] == 'y')
    ensures StripScheme(Schemes[i] + rest) == rest
  {
    var url := Schemes[i] + rest;
    assert |url| >= 8 ==> url[..8][0] == url[0] && url[..8][4] == url[4];
    assert |url| >= 7 ==> url[..7][0] == url[0];
    if i == 0 {
      assert url == rest;
    } else if i == 1 {
      PrefixSplit(url, "http://", rest);
      assert url[4] == ':';
    } else {
      PrefixSplit(url, "https://", rest);
    }
  }

  /** A string that starts with 'y' has no `www.` to drop. */
  lemma StripSubdomainOf(j: nat, rest: string)
    requires j < |Subdomains| && |rest| > 0 && rest[0] == 'y'
    ensures StripSubdomain(Subdomains[j] + rest) == rest
  {
    var s := Subdomains[j] + rest;
    assert |s| >= 4 ==> s[..4][0] == s[0];
    if j == 0 {
      assert s == rest;
    } else {
      PrefixSplit(s, "www.", rest);
    }
  }

  /** The three routes are told apart by their first differing character. */
  lemma StripRouteOf(k: nat, tail: string)
    requires k < |Routes|
    ensures StripRoute(Routes[k] + tail) == Some(tail)
  {
    var s := Routes[k] + tail;
    PrefixSplit(s, Routes[k], tail);
    assert |s| >= 20 ==> s[..20][12] == s[12] && s[..20][5] == s[5];
    assert |s| >= 19 ==> s[..19][5] == s[5];
    if k == 1 {
      assert s[12] == 's';
    } else if k == 2 {
      assert s[5] == '.';
    }
  }

  /** Each combination of alternatives is recognised by the deterministic
      stripping, which leaves exactly what follows the route. */
  lemma StripAlternatives(i: nat, j: nat, k: nat, tail: string)
    requires i < |Schemes| && j < |Subdomains| && k < |Routes|
    ensures StripRoute(StripSubdomain(StripScheme(Schemes[i] + Subdomains[j] + Routes[k] + tail))) == Some(tail)
  {
    var afterSub := Routes[k] + tail;
    var afterScheme := Subdomains[j] + afterSub;
    assert Schemes[i] + Subdomains[j] + Routes[k] + tail == Schemes[i] + afterScheme;
    assert afterSub[0] == Routes[k][0] == 'y';
    assert afterScheme[0] == 'w' || afterScheme[0] == 'y';
    StripSchemeOf(i, afterScheme);
    StripSubdomainOf(j, afterSub);
    StripRouteOf(k, tail);
  }

  /** Which scheme alternative `StripScheme` removed. */
  lemma SchemeTaken(url: string) returns (i: nat)
    ensures i < |Schemes| && url == Schemes[i] + StripScheme(url)
  {
    if HasPrefix(url, "https://") {
      i := 2;
      assert url == url[..8] + url[8..];
    } else if HasPrefix(url, "http://") {
      i := 1;
      assert url == url[..7] + url[7..];
    } else {
      i := 0;
    }
  }

  /** Which subdomain alternative `StripSubdomain` removed. */
  lemma SubdomainTaken(s: string) returns (j: nat)
    ensures j < |Subdomains| && s == Subdomains[j] + StripSubdomain(s)
  {
    if HasPrefix(s, "www.") {
      j := 1;
      assert s == s[..4] + s[4..];
    } else {
      j := 0;
    }
  }

  /** Which route `StripRoute` removed, when it succeeded. */
  lemma RouteTaken(s: string) returns (k: nat)
    requires StripRoute(s).Some?
    ensures k < |Routes| && s == Routes[k] + StripRoute(s).value
  {
    if HasPrefix(s, "youtube.com/watch?v=") {
      k := 0;
      assert s == s[..20] + s[20..];
    } else if HasPrefix(s, "youtube.com/shorts/") {
      k := 1;
      assert s == s[..19] + s[19..];
    } else {
      k := 2;
      assert s == s[..9] + s[9..];
    }
  }

  /** A concatenation of alternatives followed by an identifier matches. */
  lemma RegexWitness(url: string, i: nat, j: nat, k: nat, rest: string)
    requires i < |Schemes| && j < |Subdomains| && k < |Routes|
    requires url == Schemes[i] + Subdomains[j] + Routes[k] + rest && StartsWithVideoId(rest)
    ensures RegexMatches(url)
  {
    var lead := Schemes[i] + Subdomains[j] + Routes[k];
    assert url == lead + rest;
    PrefixSplit(url, lead, rest);
    assert MatchesWith(url, Schemes[i], Subdomains[j], Routes[k]);
  }

  /** The same, with the link given group by group. */
  lemma ChainWitness(url: string, i: nat, s1: string, j: nat, s2: string, k: nat, rest: string)
    requires i < |Schemes| && j < |Subdomains| && k < |Routes|
    requires url == Schemes[i] + s1 && s1 == Subdomains[j] + s2 && s2 == Routes[k] + rest
    requires StartsWithVideoId(rest)
    ensures RegexMatches(url)
  {
    assert url == Schemes[i] + Subdomains[j] + Routes[k] + rest;
    RegexWitness(url, i, j, k, rest);
  }

  /** Every string the deterministic check accepts matches the regex. */
  lemma MatchesImpliesRegex(url: string)
    requires MatchesYouTube(url)
    ensures RegexMatches(url)
  {
    var s1 := StripScheme(url);
    var i := SchemeTaken(url);
    var s2 := StripSubdomain(s1);
    var j := SubdomainTaken(s1);
    var rest := StripRoute(s2).value;
    var k := RouteTaken(s2);
    ChainWitness(url, i, s1, j, s2, k, rest);
  }

  /** Every string the regex matches is accepted by the deterministic check. */
  lemma RegexImpliesMatches(url: string)
    requires RegexMatches(url)
    ensures MatchesYouTube(url)
  {
    var i, j, k :| 0 <= i < |Schemes| && 0 <= j < |Subdomains| && 0 <= k < |Routes|
      && MatchesWith(url, Schemes[i], Subdomains[j], Routes[k]);
    var lead := Schemes[i] + Subdomains[j] + Routes[k];
    var tail := url[|lead|..];
    assert url == lead + tail;
    StripAlternatives(i, j, k, tail);
  }

  /** The deterministic check and the regex accept exactly the same strings. */
  lemma MatchesIffRegex(url: string)
    ensures MatchesYouTube(url) <==> RegexMatches(url)
  {
    if MatchesYouTube(url) { MatchesImpliesRegex(url); }
    if RegexMatches(url) { RegexImpliesMatches(url); }
  }

  /** `_validate_url`: `None` for blank input and for accepted links, the
      fixed reason otherwise. The regex runs on the unstripped string. */
  function ValidateUrl(url: string): (r: Option<string>)
    ensures r.Some? <==> !IsBlank(url) && !RegexMatches(url)
    ensures r.Some? ==> r.value == InvalidUrlMessage
  {
    MatchesIffRegex(url);
    if IsBlank(url) then None
    else if !MatchesYouTube(url) then Some(InvalidUrlMessage)
    else None
  }

  /** Anything after the eleven identifier characters is ignored. */
  lemma {:induction false} TrailingTextIgnored(url: string, extra: string)
    requires RegexMatches(url)
    ensures RegexMatches(url + extra)
    ensures ValidateUrl(url + extra) == None
  {
    var i, j, k :| 0 <= i < |Schemes| && 0 <= j < |Subdomains| && 0 <= k < |Routes|
      && MatchesWith(url, Schemes[i], Subdomains[j], Routes[k]);
    var lead := Schemes[i] + Subdomains[j] + Routes[k];
    var u := url + extra;
    assert u[..|lead|] == url[..|lead|];
    assert u[|lead|..] == url[|lead|..] + extra;
    assert MatchesWith(u, Schemes[i], Subdomains[j], Routes[k]);
  }

  /** Every alternative of the pattern starts with 'h', 'w' or 'y'. */
  lemma LeadStart(i: nat, j: nat, k: nat)
    requires i < |Schemes| && j < |Subdomains| && k < |Routes|
    ensures var lead := Schemes[i] + Subdomains[j] + Routes[k];
      |lead| > 0 && (lead[0] == 'h' || lead[0] == 'w' || lead[0] == 'y')
  {
  }

  /** The pattern's first character is 'h', 'w' or 'y', so input with a
      leading whitespace character is rejected unless it is blank. */
  lemma LeadingWhitespaceRejected(url: string)
    requires |url| > 0 && IsSpace(url[0]) && !IsBlank(url)
    ensures ValidateUrl(url) == Some(InvalidUrlMessage)
  {
    if RegexMatches(url) {
      var i, j, k :| 0 <= i < |Schemes| && 0 <= j < |Subdomains| && 0 <= k < |Routes|
        && MatchesWith(url, Schemes[i], Subdomains[j], Routes[k]);
      var lead := Schemes[i] + Subdomains[j] + Routes[k];
      LeadStart(i, j, k);
      assert false;
    }
  }

  /** A non-blank string whose first character cannot start the pattern is
      rejected. */
  lemma LeadingCharRejected(url: string)
    requires |url| > 0 && url[0] != 'h' && url[0] != 'w' && url[0] != 'y' && !IsSpace(url[0])
    ensures ValidateUrl(url) == Some(InvalidUrlMessage)
  {
    NotBlank(url);
    if RegexMatches(url) {
      var i, j, k :| 0 <= i < |Schemes| && 0 <= j < |Subdomains| && 0 <= k < |Routes|
        && MatchesWith(url, Schemes[i], Subdomains[j], Routes[k]);
      LeadStart(i, j, k);
      assert false;
    }
  }

  lemma NotBlank(s: string)
    requires |s| > 0 && !IsSpace(s[0])
    ensures !IsBlank(s)
  {
  }

  /** The short-link form is accepted. */
  lemma ShortLinkAccepted()
    ensures ValidateUrl("https://youtu.be/dQw4w9WgXcQ") == None
  {
    RegexWitness("https://youtu.be/dQw4w9WgXcQ", 2, 0, 2, "dQw4w9WgXcQ");
  }

  /** Every combination of the optional scheme, the optional `www.` and a
      route, followed by an identifier and anything at all, is accepted. */
  lemma LinkAccepted(i: nat, j: nat, k: nat, vid: string, extra: string)
    requires i < |Schemes| && j < |Subdomains| && k < |Routes|
    requires StartsWithVideoId(vid)
    ensures ValidateUrl(Schemes[i] + Subdomains[j] + Routes[k] + vid + extra) == None
  {
    var lead := Schemes[i] + Subdomains[j] + Routes[k];
    var url := lead + vid + extra;
    var rest := vid + extra;
    assert url == lead + rest;
    assert rest[..VideoIdLength] == vid[..VideoIdLength];
    RegexWitness(url, i, j, k, rest);
    LeadStart(i, j, k);
    assert url[0] == lead[0];
    NotBlank(url);
  }

  /** An identifier shorter than eleven characters is rejected. */
  lemma ShortIdRejected()
    ensures ValidateUrl("https://youtu.be/dQw4w9WgXc") == Some(InvalidUrlMessage)
  {
    var url := "https://youtu.be/dQw4w9WgXc";
    assert url == Schemes[2] + Subdomains[0] + Routes[2] + "dQw4w9WgXc";
    StripAlternatives(2, 0, 2, "dQw4w9WgXc");
    MatchesIffRegex(url);
    NotBlank(url);
  }
}
