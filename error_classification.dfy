/** How `download()` turns the text of a failed extraction or transfer into
    the message shown under the row (the `except Exception` branch). */
module ErrorClassification {
  import opened Text

  const AuthRequired := "Требуется авторизация в Chrome"
  const VideoUnavailable := "Видео недоступно"
  const PrivateVideo := "Приватное видео"
  const CookieError := "Ошибка cookies Chrome"
  const PathErrorPrefix := "Ошибка пути: "
  const RegionBlocked := "Видео заблокировано в регионе"

  /** How much of the raw text the path rule and the fallback keep. */
  const PathDetailLength := 50
  const RawMessageLength := 100

  /** The classification as the source writes it: a cascade of substring
      tests, the first that holds decides. */
  function Classify(msg: string): string {
    var low := ToLower(msg);
    if Contains(msg, "Sign in") || Contains(low, "login") then AuthRequired
    else if Contains(low, "unavailable") then VideoUnavailable
    else if Contains(low, "private") then PrivateVideo
    else if Contains(low, "cookie") then CookieError
    else if Contains(msg, "No such file") || Contains(low, "path") then PathErrorPrefix + Take(msg, PathDetailLength)
    else if Contains(low, "blocked") || Contains(low, "geo") then RegionBlocked
    else if |msg| > RawMessageLength then msg[..RawMessageLength] else msg
  }

  /** One substring test: on the raw text, or on its lower-cased form. */
  datatype Test = OnRaw(pattern: string) | OnLower(pattern: string) {
    predicate Holds(msg: string) {
      match this
      case OnRaw(p) => Contains(msg, p)
      case OnLower(p) => Contains(ToLower(msg), p)
    }
  }

  /** What a rule yields: a fixed message, or the path prefix plus the
      first characters of the raw text. */
  datatype Verdict = Fixed(text: string) | PathDetail

  /** A rule fires when any of its tests holds. */
  datatype Rule = Rule(tests: seq<Test>, verdict: Verdict) {
    predicate Fires(msg: string) {
      exists t | t in tests :: t.Holds(msg)
    }
    function Message(msg: string): string {
      match verdict
      case Fixed(text) => text
      case PathDetail => PathErrorPrefix + Take(msg, PathDetailLength)
    }
  }

  /** The ordered rule table. */
  const Rules: seq<Rule> := [
    Rule([OnRaw("Sign in"), OnLower("login")], Fixed(AuthRequired)),
    Rule([OnLower("unavailable")], Fixed(VideoUnavailable)),
    Rule([OnLower("private")], Fixed(PrivateVideo)),
    Rule([OnLower("cookie")], Fixed(CookieError)),
    Rule([OnRaw("No such file"), OnLower("path")], PathDetail),
    Rule([OnLower("blocked"), OnLower("geo")], Fixed(RegionBlocked))
  ]

  /** Reference semantics of an ordered table: the first rule that fires
      decides; when none fires the raw text is kept, cut to its limit. */
  function FirstMatch(rules: seq<Rule>, msg: string): string {
    if rules == [] then Take(msg, RawMessageLength)
    else if rules[0].Fires(msg) then rules[0].Message(msg)
    else FirstMatch(rules[1..], msg)
  }

  lemma FiresFirstOf(r: Rule, msg: string)
    requires |r.tests| > 0
    ensures r.tests[0].Holds(msg) ==> r.Fires(msg)
  {
    if r.tests[0].Holds(msg) {
      assert r.tests[0] in r.tests;
    }
  }

  lemma FiresOne(r: Rule, msg: string)
    requires |r.tests| == 1
    ensures r.Fires(msg) <==> r.tests[0].Holds(msg)
  {
    FiresFirstOf(r, msg);
  }

  lemma FiresTwo(r: Rule, msg: string)
    requires |r.tests| == 2
    ensures r.Fires(msg) <==> r.tests[0].Holds(msg) || r.tests[1].Holds(msg)
  {
    FiresFirstOf(r, msg);
    if r.tests[1].Holds(msg) {
      assert r.tests[1] in r.tests;
    }
  }

  /** One step of the table: a rule that does not fire hands over to the rest. */
  lemma FirstMatchStep(rules: seq<Rule>, n: nat, msg: string)
    requires n < |rules|
    ensures FirstMatch(rules[n..], msg) ==
      if rules[n].Fires(msg) then rules[n].Message(msg) else FirstMatch(rules[n + 1..], msg)
  {
    assert rules[n..][0] == rules[n];
    assert rules[n..][1..] == rules[n + 1..];
  }

  /** The cascade and the table agree on every message. */
  lemma ClassifyIsFirstMatch(msg: string)
    ensures Classify(msg) == FirstMatch(Rules, msg)
  {
    var low := ToLower(msg);
    var r := Rules;
    var f5 := FirstMatch(r[5..], msg);
    assert f5 == if Contains(low, "blocked") || Contains(low, "geo") then RegionBlocked
                 else Take(msg, RawMessageLength) by {
      FiresTwo(r[5], msg);
      FirstMatchStep(r, 5, msg);
      assert r[6..] == [];
    }
    var f4 := FirstMatch(r[4..], msg);
    assert f4 == if Contains(msg, "No such file") || Contains(low, "path") then PathErrorPrefix + Take(msg, PathDetailLength)
                 else f5 by {
      FiresTwo(r[4], msg);
      FirstMatchStep(r, 4, msg);
    }
    var f3 := FirstMatch(r[3..], msg);
    assert f3 == if Contains(low, "cookie") then CookieError else f4 by {
      FiresOne(r[3], msg);
      FirstMatchStep(r, 3, msg);
    }
    var f2 := FirstMatch(r[2..], msg);
    assert f2 == if Contains(low, "private") then PrivateVideo else f3 by {
      FiresOne(r[2], msg);
      FirstMatchStep(r, 2, msg);
    }
    var f1 := FirstMatch(r[1..], msg);
    assert f1 == if Contains(low, "unavailable") then VideoUnavailable else f2 by {
      FiresOne(r[1], msg);
      FirstMatchStep(r, 1, msg);
    }
    assert FirstMatch(r, msg) == if Contains(msg, "Sign in") || Contains(low, "login") then AuthRequired else f1 by {
      FiresTwo(r[0], msg);
      FirstMatchStep(r, 0, msg);
      assert r[0..] == r;
    }
  }

  /** The first rule of a table that fires decides, whatever follows it. */
  lemma {:induction false} FirstFiringRuleWins(rules: seq<Rule>, k: nat, msg: string)
    requires k < |rules| && rules[k].Fires(msg)
    requires forall j | 0 <= j < k :: !rules[j].Fires(msg)
    ensures FirstMatch(rules, msg) == rules[k].Message(msg)
  {
    if k > 0 {
      FirstFiringRuleWins(rules[1..], k - 1, msg);
    }
  }

  /** The cascade gives the message of the first rule of the table that
      fires, and the raw text, cut to its limit, when none fires. */
  lemma ClassifyByRule(msg: string)
    ensures forall k | 0 <= k < |Rules| ::
      (Rules[k].Fires(msg) && forall j | 0 <= j < k :: !Rules[j].Fires(msg)) ==> Classify(msg) == Rules[k].Message(msg)
    ensures (forall j | 0 <= j < |Rules| :: !Rules[j].Fires(msg)) ==> Classify(msg) == Take(msg, RawMessageLength)
  {
    ClassifyIsFirstMatch(msg);
    forall k | 0 <= k < |Rules| && Rules[k].Fires(msg) && forall j | 0 <= j < k :: !Rules[j].Fires(msg) {
      FirstFiringRuleWins(Rules, k, msg);
    }
    if forall j | 0 <= j < |Rules| :: !Rules[j].Fires(msg) {
      NoRuleKeepsRawText(Rules, msg);
    }
  }

  /** When no rule fires the raw text comes back unchanged up to the limit,
      and cut to exactly the limit beyond it. */
  lemma {:induction false} NoRuleKeepsRawText(rules: seq<Rule>, msg: string)
    requires forall j | 0 <= j < |rules| :: !rules[j].Fires(msg)
    ensures |msg| <= RawMessageLength ==> FirstMatch(rules, msg) == msg
    ensures |msg| > RawMessageLength ==> FirstMatch(rules, msg) == msg[..RawMessageLength]
  {
    if rules != [] {
      NoRuleKeepsRawText(rules[1..], msg);
    }
  }

  /** Whatever the message, the result is one of the fixed messages, the
      path prefix with at most fifty characters of the text, or a prefix of
      the text of at most one hundred characters. */
  lemma ClassifyShape(msg: string)
    ensures var r := Classify(msg);
      || r in {AuthRequired, VideoUnavailable, PrivateVideo, CookieError, RegionBlocked}
      || (exists n | 0 <= n <= PathDetailLength && n <= |msg| :: r == PathErrorPrefix + msg[..n])
      || (|r| <= RawMessageLength && r == msg[..|r|])
  {
    var r := Classify(msg);
    var d := Take(msg, PathDetailLength);
    if r == PathErrorPrefix + d {
      assert d == msg[..|d|];
    }
  }

  /** `p` occurs in any text that has it in the middle. */
  lemma ContainsInfix(a: string, p: string, b: string)
    ensures Contains(a + p + b, p)
  {
    assert (a + p + b)[|a|..|a| + |p|] == p;
    assert OccursAt(a + p + b, p, |a|);
  }

  /** A pattern whose first character the text lacks does not occur in it. */
  lemma MissingFirstChar(s: string, p: string)
    requires |p| > 0 && forall i | 0 <= i < |s| :: s[i] != p[0]
    ensures !Contains(s, p)
  {
  }

  /** An authorisation hint outranks every later rule, whatever surrounds it
      (a text such as "Private video. Sign in if you've been granted access"
      is classified by its hint, not as a private video). */
  lemma SignInOutranksAll(before: string, after: string)
    ensures Classify(before + "Sign in" + after) == AuthRequired
  {
    ContainsInfix(before, "Sign in", after);
  }

  lemma PrivateVideoLower(msg: string)
    requires msg == "Video is private"
    ensures ToLower(msg) == "video is private"
  {
  }

  lemma PrivateVideoLowerFacts(low: string)
    requires low == "video is private"
    ensures !Contains(low, "login") && !Contains(low, "unavailable") && Contains(low, "private")
  {
    assert low == "video is " + "private" + "";
    ContainsInfix("video is ", "private", "");
    MissingFirstChar(low, "login");
    MissingFirstChar(low, "unavailable");
  }

  /** A message mentioning only a private video is classified as such. */
  lemma PrivateVideoMessage(msg: string)
    requires msg == "Video is private"
    ensures Classify(msg) == PrivateVideo
  {
    MissingFirstChar(msg, "Sign in");
    PrivateVideoLower(msg);
    PrivateVideoLowerFacts(ToLower(msg));
  }
}
