/**
 * Classification of a failed chat request into the notice the user sees
 * (the `!response.ok` branch of `sendMessage`), including the
 * "retry in N s" hint rounded up to whole seconds.
 */
module ErrorNotice {
  import opened Wrappers
  import opened Text

  /** The seconds shown in a rate-limit notice: none when the message has no
      hint, or the ceiling of the decimal found (NaN when it has no digit). */
  datatype RetryHint = NoHint | After(seconds: nat) | NotANumber

  datatype Notice =
    | RateLimited(hint: RetryHint)
    | BadRequest
    | KeyRejected
    | ModelUnavailable
    | OtherError(code: int)

  /** `err?.error?.code || response.status`: a missing or zero code falls
      back to the HTTP status. */
  function ErrorCode(status: int, code: Option<int>): (c: int)
    ensures c == status || (code.Some? && c == code.value && c != 0)
    ensures code.Some? && code.value != 0 ==> c == code.value
  {
    if code.Some? && code.value != 0 then code.value else status
  }

  /** The rate-limit test: code 429, or a case-sensitive `quota` or `rate`
      anywhere in the message. */
  predicate MentionsRateLimit(code: int, message: string) {
    code == 429 || Contains(message, "quota") || Contains(message, "rate")
  }

  /** The notice for a failed response. Code 429 is always a rate limit, and
      the generic notice is left only for codes no branch names. */
  function Classify(status: int, code: Option<int>, message: Option<string>): (n: Notice)
    ensures ErrorCode(status, code) == 429 ==> n.RateLimited?
    ensures n.OtherError? ==> n.code == ErrorCode(status, code) && n.code !in {400, 403, 404, 429}
  {
    var c := ErrorCode(status, code);
    var m := message.GetOr("");
    if MentionsRateLimit(c, m) then RateLimited(RetryHintOf(m))
    else if c == 400 then BadRequest
    else if c == 403 then KeyRejected
    else if c == 404 then ModelUnavailable
    else OtherError(c)
  }

  /** Decision table of the classifier, in the order the branches are tried. */
  lemma ClassifyTable(status: int, code: Option<int>, message: Option<string>)
    ensures var c := ErrorCode(status, code);
            var m := message.GetOr("");
            var n := Classify(status, code, message);
            && (n.RateLimited? <==> MentionsRateLimit(c, m))
            && (n.RateLimited? ==> n.hint == RetryHintOf(m))
            && (n == BadRequest <==> !MentionsRateLimit(c, m) && c == 400)
            && (n == KeyRejected <==> !MentionsRateLimit(c, m) && c == 403)
            && (n == ModelUnavailable <==> !MentionsRateLimit(c, m) && c == 404)
            && (n.OtherError? <==> !MentionsRateLimit(c, m) && c !in {400, 403, 404})
            && (n.OtherError? ==> n.code == c)
  {
  }

  /** The rate-limit branch is tried first: a 400, 403 or 404 whose message
      mentions `rate` or `quota` is still reported as a rate limit. */
  lemma RateLimitWinsOverStatus(status: int, code: Option<int>, m: string)
    requires ErrorCode(status, code) in {400, 403, 404}
    requires Contains(m, "rate") || Contains(m, "quota")
    ensures Classify(status, code, Some(m)) == RateLimited(RetryHintOf(m))
  {
  }

  /** The substring test is not a word test: "generate" contains "rate". */
  lemma GenerateReadsAsRateLimit()
    ensures Classify(500, None, Some("failed to generate")) == RateLimited(NoHint)
  {
    var m := "failed to generate";
    assert m[14..18] == "rate";
    ContainsAt(m, "rate", 14);
    forall i | 0 <= i <= |m| ensures MatchAt(m[i..]).None? {
      if i <= 9 {
        assert m[i..][0] == m[i];
        assert LowerChar(m[i]) != 'r';
      }
      MatchNeedsR(m[i..]);
    }
    RetryMatchIndexNone(m);
  }

  // ----- the `/retry in ([\d.]+)s/i` match -------------------------------

  const RetryPhrase := "retry in "

  predicate IsDigitOrDot(c: char) {
    IsDigit(c) || c == '.'
  }

  /** The longest prefix of `s` whose characters all satisfy `p`. */
  function Span(s: string, p: char -> bool): (r: string)
    ensures r <= s
    ensures forall i :: 0 <= i < |r| ==> p(r[i])
    ensures |r| < |s| ==> !p(s[|r|])
    decreases |s|
  {
    if s != [] && p(s[0]) then [s[0]] + Span(s[1..], p) else []
  }

  /** The regex tried at the start of `s`: the phrase in any ASCII case, a
      maximal run of digits and dots, then `s` or `S`. The captured run is
      returned; backtracking to a shorter run never helps, because the
      character after a shorter run is a digit or dot, not `s`. */
  function MatchAt(s: string): (r: Option<string>)
    ensures r.Some? ==> r.value != [] && forall i :: 0 <= i < |r.value| ==> IsDigitOrDot(r.value[i])
    ensures r.Some? ==>
      var k := |RetryPhrase| + |r.value|;
      && k < |s| && LowerAscii(s[..|RetryPhrase|]) == RetryPhrase
      && s[|RetryPhrase|..k] == r.value && s[k] in {'s', 'S'}
  {
    if |s| < |RetryPhrase| || LowerAscii(s[..|RetryPhrase|]) != RetryPhrase then None
    else
      var run := Span(s[|RetryPhrase|..], IsDigitOrDot);
      var k := |RetryPhrase| + |run|;
      if run != [] && k < |s| && (s[k] == 's' || s[k] == 'S') then Some(run) else None
  }

  /** Conversely, the phrase followed by a non-empty run of digits and dots
      and then `s` or `S` is a match, and the run is what it captures. */
  lemma MatchAtFinds(s: string, d: string)
    requires d != [] && forall i :: 0 <= i < |d| ==> IsDigitOrDot(d[i])
    requires |RetryPhrase| + |d| < |s| && LowerAscii(s[..|RetryPhrase|]) == RetryPhrase
    requires s[|RetryPhrase|..|RetryPhrase| + |d|] == d && s[|RetryPhrase| + |d|] in {'s', 'S'}
    ensures MatchAt(s) == Some(d)
  {
    SpanStopsAt(s[|RetryPhrase|..], d, IsDigitOrDot);
  }

  /** A run of characters satisfying `p`, followed by one that does not, is
      exactly what `Span` returns. */
  lemma SpanStopsAt(t: string, d: string, p: char -> bool)
    requires |d| < |t| && t[..|d|] == d && !p(t[|d|])
    requires forall i :: 0 <= i < |d| ==> p(d[i])
    ensures Span(t, p) == d
  {
    var r := Span(t, p);
    assert forall i :: 0 <= i < |d| ==> p(t[i]) by {
      forall i | 0 <= i < |d| ensures p(t[i]) {
        assert t[i] == d[i];
      }
    }
    assert forall i :: 0 <= i < |r| ==> p(t[i]) by {
      forall i | 0 <= i < |r| ensures p(t[i]) {
        assert t[i] == r[i];
      }
    }
    assert |r| == |d|;
    assert r == t[..|r|];
  }

  /** A match starts with an `r` or `R` and leaves room for the phrase. */
  lemma MatchNeedsR(s: string)
    ensures MatchAt(s).Some? ==> |s| >= |RetryPhrase| && LowerChar(s[0]) == 'r'
  {
    if MatchAt(s).Some? {
      assert LowerAscii(s[..9])[0] == RetryPhrase[0];
    }
  }

  /** The leftmost index where the regex matches, as `String.prototype.match`
      without the `g` flag finds it. */
  function RetryMatchIndex(s: string): (r: Option<nat>)
    ensures r.Some? ==> r.value <= |s| && MatchAt(s[r.value..]).Some?
    ensures r.Some? ==> forall j :: 0 <= j < r.value ==> MatchAt(s[j..]).None?
    decreases |s|
  {
    if MatchAt(s).Some? then Some(0)
    else if s == [] then None
    else
      var rest := RetryMatchIndex(s[1..]);
      if rest.None? then None
      else
        assert forall j :: 1 <= j <= |s| ==> s[1..][j - 1..] == s[j..];
        Some(rest.value + 1)
  }

  /** When no index is found, the regex matches nowhere. */
  lemma {:induction false} RetryMatchIndexNone(s: string)
    requires forall i :: 0 <= i <= |s| ==> MatchAt(s[i..]).None?
    ensures RetryMatchIndex(s).None?
    decreases |s|
  {
    if s != [] {
      forall i | 0 <= i <= |s| - 1 ensures MatchAt(s[1..][i..]).None? {
        assert s[1..][i..] == s[i + 1..];
      }
      RetryMatchIndexNone(s[1..]);
    }
  }

  lemma {:induction false} RetryMatchIndexComplete(s: string)
    requires RetryMatchIndex(s).None?
    ensures forall i :: 0 <= i <= |s| ==> MatchAt(s[i..]).None?
    decreases |s|
  {
    if s != [] {
      RetryMatchIndexComplete(s[1..]);
      forall i | 1 <= i <= |s| ensures MatchAt(s[i..]).None? {
        assert s[1..][i - 1..] == s[i..];
      }
    }
  }

  /** `wait[1]`: the captured run of the leftmost match. */
  function RetryCapture(s: string): Option<string> {
    match RetryMatchIndex(s)
    case None => None
    case Some(i) => MatchAt(s[i..])
  }

  // ----- parseFloat and Math.ceil, exactly ---------------------------------

  /** The part of a digits-and-dots run that `parseFloat` reads: the integer
      digits and, after the first dot, the fraction digits up to the next dot. */
  function DecimalParts(run: string): (p: (string, string))
    ensures AllDigits(p.0) && AllDigits(p.1)
    ensures p.0 <= run && (|p.0| < |run| ==> !IsDigit(run[|p.0|]))
    ensures var dot := |p.0| < |run| && run[|p.0|] == '.';
            && (dot ==> p.0 + "." + p.1 <= run)
            && (dot && |p.0| + 1 + |p.1| < |run| ==> !IsDigit(run[|p.0| + 1 + |p.1|]))
            && (!dot ==> p.1 == [])
  {
    var intPart := Span(run, IsDigit);
    var rest := run[|intPart|..];
    if rest != [] && rest[0] == '.' then
      var frac := Span(rest[1..], IsDigit);
      assert run == intPart + "." + rest[1..];
      assert |intPart| + 1 + |frac| < |run| ==> run[|intPart| + 1 + |frac|] == rest[1..][|frac|];
      (intPart, frac)
    else
      (intPart, [])
  }

  /** `Math.ceil(parseFloat(run))` computed over the decimal string. */
  function RetrySeconds(run: string): RetryHint {
    var (intPart, frac) := DecimalParts(run);
    if intPart == [] && frac == [] then NotANumber
    else After(DigitsValue(intPart) + (if DigitsValue(frac) > 0 then 1 else 0))
  }

  /** The hint of a rate-limit message: there is none exactly when the
      pattern matches at no index of the message. */
  function RetryHintOf(message: string): (r: RetryHint)
    ensures r == NoHint <==> forall i :: 0 <= i <= |message| ==> MatchAt(message[i..]).None?
  {
    match RetryCapture(message)
    case None =>
      RetryMatchIndexComplete(message);
      NoHint
    case Some(run) =>
      var i := RetryMatchIndex(message).value;
      assert MatchAt(message[i..]).Some?;
      RetrySeconds(run)
  }

  /** The seconds shown are the ceiling of the decimal read: writing the
      decimal as V / 10^k with k fraction digits, (n - 1) * 10^k < V <= n * 10^k. */
  lemma RetrySecondsIsCeiling(run: string)
    requires RetrySeconds(run).After?
    ensures var (intPart, frac) := DecimalParts(run);
            var n := RetrySeconds(run).seconds;
            var scale := Pow10(|frac|);
            var v := DigitsValue(intPart) * scale + DigitsValue(frac);
            (n - 1) * scale < v <= n * scale
  {
    var (intPart, frac) := DecimalParts(run);
    DigitsValueBound(frac);
    CeilingBounds(DigitsValue(intPart), DigitsValue(frac), Pow10(|frac|));
  }

  /** The seconds are the integer digits' value, plus one exactly when some
      fraction digit is not `0`. */
  lemma RetrySecondsRoundsUp(run: string)
    requires RetrySeconds(run).After?
    ensures var (intPart, frac) := DecimalParts(run);
            RetrySeconds(run).seconds
              == DigitsValue(intPart) + (if exists i :: 0 <= i < |frac| && frac[i] != '0' then 1 else 0)
  {
    DigitsValuePositive(DecimalParts(run).1);
  }

  /** i + f / scale, for a fraction below one, rounds up to i or i + 1. */
  lemma CeilingBounds(i: nat, f: nat, scale: nat)
    requires f < scale
    ensures var n := i + (if f > 0 then 1 else 0);
            (n - 1) * scale < i * scale + f <= n * scale
  {
    var j: int := i;
    assert (j + 1) * scale == j * scale + scale;
    assert (j - 1) * scale == j * scale - scale;
  }

  /** The hint is NaN exactly when the run does not start with a digit, nor
      with a dot followed by a digit (".", "..", ".x"). */
  lemma RetrySecondsNaN(run: string)
    ensures RetrySeconds(run) == NotANumber <==>
      && (|run| == 0 || !IsDigit(run[0]))
      && (|run| < 2 || run[0] != '.' || !IsDigit(run[1]))
  {
    var (intPart, frac) := DecimalParts(run);
    if |run| >= 2 && run[0] == '.' && IsDigit(run[1]) {
      assert intPart == [];
      assert frac != [] by {
        assert run[1..][0] == run[1];
      }
    }
    if |run| > 0 && IsDigit(run[0]) {
      assert intPart != [];
    }
  }

  /** The example from the service: "retry in 12.7s" rounds up to 13. */
  lemma RetryInTwelvePointSeven()
    ensures Classify(429, None, Some("Please retry in 12.7s.")) == RateLimited(After(13))
  {
    CaptureTwelvePointSeven();
    CeilTwelvePointSeven();
  }

  lemma CaptureTwelvePointSeven()
    ensures RetryCapture("Please retry in 12.7s.") == Some("12.7")
  {
    var m := "Please retry in 12.7s.";
    assert m[7..] == "retry in 12.7s.";
    MatchTwelvePointSeven();
    assert m[..7] == "Please ";
    NoMatchBefore(m, 7);
    RetryMatchIndexFirst(m, 7);
  }

  /** No match starts inside a prefix that has no `r` or `R`. */
  lemma NoMatchBefore(s: string, k: nat)
    requires k <= |s| && 'r' !in s[..k] && 'R' !in s[..k]
    ensures forall j :: 0 <= j < k ==> MatchAt(s[j..]).None?
  {
    forall j | 0 <= j < k ensures MatchAt(s[j..]).None? {
      assert s[j..][0] == s[..k][j];
      MatchNeedsR(s[j..]);
    }
  }

  lemma MatchTwelvePointSeven()
    ensures MatchAt("retry in 12.7s.") == Some("12.7")
  {
    var t := "retry in 12.7s.";
    assert LowerAscii(t[..9]) == RetryPhrase;
    assert t[9..] == "12.7s.";
    assert Span("12.7s.", IsDigitOrDot) == "12.7" by {
      assert "12.7s."[1..] == "2.7s.";
      assert "2.7s."[1..] == ".7s.";
      assert ".7s."[1..] == "7s.";
      assert "7s."[1..] == "s.";
    }
  }

  lemma CeilTwelvePointSeven()
    ensures RetrySeconds("12.7") == After(13)
  {
    assert Span("12.7", IsDigit) == "12" by {
      assert "12.7"[1..] == "2.7";
      assert "2.7"[1..] == ".7";
    }
    assert "12.7"[2..] == ".7";
    assert ".7"[1..] == "7";
    assert Span("7", IsDigit) == "7";
    assert DigitsValue("12") == 12 by { assert "12"[..1] == "1"; }
  }

  /** The leftmost matching index is the one `RetryMatchIndex` returns. */
  lemma {:induction false} RetryMatchIndexFirst(s: string, k: nat)
    requires k <= |s| && MatchAt(s[k..]).Some?
    requires forall j :: 0 <= j < k ==> MatchAt(s[j..]).None?
    ensures RetryMatchIndex(s) == Some(k)
    decreases k
  {
    if k > 0 {
      assert s[0..] == s;
      assert s[1..][k - 1..] == s[k..];
      forall j | 0 <= j < k - 1 ensures MatchAt(s[1..][j..]).None? {
        assert s[1..][j..] == s[j + 1..];
      }
      RetryMatchIndexFirst(s[1..], k - 1);
    } else {
      assert s[0..] == s;
    }
  }

  // ----- the notice texts -------------------------------------------------

  /** The text `sendMessage` shows for a classified error. */
  function NoticeText(n: Notice): string {
    match n
    case RateLimited(NoHint) => "⏳ API制限に達しました。しばらく待ってからお試しください。"
    case RateLimited(After(s)) => "⏳ API制限に達しました。" + NatToString(s) + "秒後にもう一度お試しください。"
    case RateLimited(NotANumber) => "⏳ API制限に達しました。NaN秒後にもう一度お試しください。"
    case BadRequest => "⚠️ リクエストエラー。APIキーが正しいか確認してください。"
    case KeyRejected => "🔑 APIキーが無効です。Google AI Studio で再発行してください。"
    case ModelUnavailable => "⚠️ 選択中のモデルが利用できません。Settingsから別のモデルをお試しください。"
    case OtherError(c) => "⚠️ エラーが発生しました (" + IntToString(c) + ")。しばらく待ってからお試しください。"
  }

  /** The notice of a rate limit with a hint names exactly the seconds
      computed: the digits can be read back from the text. */
  lemma RetryNoticeNamesSeconds(s: nat)
    ensures var t := NoticeText(RateLimited(After(s)));
            var head := "⏳ API制限に達しました。";
            var digits := NatToString(s);
            OccursAt(t, digits, |head|) && DigitsValue(digits) == s
  {
    NatToStringRoundTrip(s);
  }

  /** The generic notice embeds the error code. */
  lemma OtherNoticeNamesCode(c: int)
    ensures Contains(NoticeText(OtherError(c)), IntToString(c))
  {
    var t := NoticeText(OtherError(c));
    var head := "⚠️ エラーが発生しました (";
    assert OccursAt(t, IntToString(c), |head|);
    ContainsAt(t, IntToString(c), |head|);
  }

  const CancelledNotice := "⏹ キャンセルしました"
  const ConnectionNotice := "⚠️ 通信エラー。インターネット接続を確認してください。"
}
