/** `is_rate_limit_error` of feez/app.py and the failure messages the
    provider adapters raise. */
module Classifier {
  import opened Text

  /** The keywords `is_rate_limit_error` looks for, all lower case. */
  const RateLimitKeywords: seq<string> := ["rate limit", "too many requests", "429", "quota", "limit exceeded"]

  /** Some keyword of `keys` occurs in `text`. */
  function AnyKeyword(text: string, keys: seq<string>): (r: bool)
    ensures r <==> exists k :: k in keys && Contains(text, k)
  {
    if |keys| == 0 then false
    else if Contains(text, keys[0]) then (assert keys[0] in keys; true)
    else
      assert forall k :: k in keys <==> k == keys[0] || k in keys[1..];
      AnyKeyword(text, keys[1..])
  }

  /** `is_rate_limit_error(msg)`: the lower-cased message contains one of
      the five keywords somewhere. */
  function IsRateLimitError(msg: string): (r: bool)
    ensures r <==> exists k :: k in RateLimitKeywords && Contains(Lower(msg), k)
  {
    AnyKeyword(Lower(msg), RateLimitKeywords)
  }

  /** A message that lacks some piece of every keyword is not a rate-limit
      error: `avoid[j]` is a piece of keyword `j` absent from the lower-cased
      message. */
  lemma NoKeyword(msg: string, avoid: seq<string>, at: seq<int>)
    requires |avoid| == |at| == |RateLimitKeywords|
    requires forall j :: 0 <= j < |avoid| ==> OccursAt(RateLimitKeywords[j], avoid[j], at[j])
    requires forall j :: 0 <= j < |avoid| ==> !Contains(Lower(msg), avoid[j])
    ensures !IsRateLimitError(msg)
  {
    forall j | 0 <= j < |RateLimitKeywords| ensures !Contains(Lower(msg), RateLimitKeywords[j]) {
      ContainsTrans(Lower(msg), RateLimitKeywords[j], avoid[j]);
    }
    assert forall k :: k in RateLimitKeywords ==> exists j :: 0 <= j < |RateLimitKeywords| && RateLimitKeywords[j] == k;
  }

  /** A message in which a keyword occurs at `i` (in any letter case) is a rate-limit error. */
  lemma KeywordAt(msg: string, k: string, i: nat)
    requires k in RateLimitKeywords
    requires i + |k| <= |msg|
    requires forall j :: 0 <= j < |k| ==> LowerChar(msg[i + j]) == k[j]
    ensures IsRateLimitError(msg)
  {
    var low := Lower(msg);
    assert low[i..i + |k|] == k;
    assert OccursAt(low, k, i);
  }

  /** The message every adapter raises on HTTP 429 is a rate-limit error. */
  lemma RateLimitExceededIsRateLimit(msg: string)
    requires msg == RateLimitExceeded
    ensures IsRateLimitError(msg)
  {
    KeywordAt(msg, "rate limit", 0);
  }

  /** The rate-limit messages used as examples in feez/test_app.py
      (`test_is_rate_limit_error`) are classified as such. */
  lemma RateLimitExamples(msg: string)
    requires msg == "Rate limit exceeded" || msg == "Too many requests" || msg == "429 error" || msg == "Quota limit exceeded"
    ensures IsRateLimitError(msg)
  {
    if msg == "Rate limit exceeded" {
      RateLimitExceededIsRateLimit(msg);
    } else if msg == "Too many requests" {
      TooManyRequestsExample(msg);
    } else if msg == "429 error" {
      KeywordAt(msg, "429", 0);
    } else {
      QuotaExample(msg);
    }
  }

  lemma TooManyRequestsExample(msg: string)
    requires msg == "Too many requests"
    ensures IsRateLimitError(msg)
  {
    KeywordAt(msg, "too many requests", 0);
  }

  lemma QuotaExample(msg: string)
    requires msg == "Quota limit exceeded"
    ensures IsRateLimitError(msg)
  {
    KeywordAt(msg, "quota", 0);
  }

  /** A connection error is not a rate-limit error. */
  lemma ConnectionErrorExample(msg: string)
    requires msg == "Connection error"
    ensures !IsRateLimitError(msg)
  {
    NoLetterL(msg);
  }

  /** A message with no 'l', 'y', '4' or 'q' in either case is not a
      rate-limit error: every keyword has one of them. */
  lemma NoLetterL(msg: string)
    requires forall i :: 0 <= i < |msg| ==> msg[i] !in {'l', 'L', 'y', 'Y', '4', 'q', 'Q'}
    ensures !IsRateLimitError(msg)
  {
    assert 'l' !in msg && 'L' !in msg && 'y' !in msg && 'Y' !in msg && '4' !in msg && 'q' !in msg && 'Q' !in msg;
    LetterAbsent(msg, 'l');
    LetterAbsent(msg, 'y');
    LetterAbsent(msg, '4');
    LetterAbsent(msg, 'q');
    NoKeyword(msg, ["l", "y", "4", "q", "l"], [5, 7, 0, 0, 0]);
  }

  /** What one HTTP exchange with a provider came to: a transport fault
      (timeout, connection error, unparseable body) with its message, or a
      response with its status code, the `responseStatus` of its JSON body
      (read by the MyMemory adapter only; an absent one is any value but
      200) and the translation field the adapter reads ("" when absent,
      null or empty). */
  datatype Reply = Transport(message: string) | Http(status: int, bodyStatus: int, field: string)

  /** Result of one adapter call: the text it returned, or the message of the
      exception it raised. */
  datatype AdapterResult = Ok(text: string) | Err(msg: string)

  /** The message an HTTP 429 response is turned into by every adapter. */
  const RateLimitExceeded := "Rate limit exceeded"

  /** The message each adapter raises when the expected field is missing. */
  function NoResultMessage(provider: string): string {
    match provider
    case "mymemory" => "MyMemory translation failed"
    case "libretranslate" => "LibreTranslate failed"
    case "google" => "Google Translate failed"
    case _ => "Lingva Translate failed"
  }

  /** The adapters' normalisation of a reply: 429 always fails with
      "Rate limit exceeded"; a present field is the translation, provided
      (for MyMemory) the body's `responseStatus` is 200; anything else fails
      with the provider's own message, and a transport fault keeps its
      message. */
  function Normalize(provider: string, reply: Reply): (a: AdapterResult)
    ensures reply.Http? && reply.status == 429 ==> a == Err(RateLimitExceeded)
    ensures a.Ok? <==>
              && reply.Http? && reply.status != 429 && reply.field != ""
              && (provider == "mymemory" ==> reply.bodyStatus == 200)
    ensures a.Ok? ==> a.text == reply.field
    ensures reply.Http? && reply.status != 429 && a.Err? ==> a.msg == NoResultMessage(provider)
    ensures reply.Transport? ==> a == Err(reply.message)
  {
    match reply
    case Transport(msg) => Err(msg)
    case Http(status, bodyStatus, field) =>
      if status == 429 then Err(RateLimitExceeded)
      else if field != "" && (provider != "mymemory" || bodyStatus == 200) then Ok(field)
      else Err(NoResultMessage(provider))
  }

  /** A lower-case letter or digit that appears in `msg` in neither case
      does not occur in the lower-cased message. */
  lemma LetterAbsent(msg: string, c: char)
    requires 'a' <= c <= 'z' || '0' <= c <= '9'
    requires c !in msg
    requires 'a' <= c <= 'z' ==> ((c as int - 32) as char) !in msg
    ensures !Contains(Lower(msg), [c])
  {
    var low := Lower(msg);
    forall i | 0 <= i < |low| ensures low[i] != c {
      assert low[i] == LowerChar(msg[i]);
      assert msg[i] in msg;
    }
    CharAbsent(low, c);
  }

  /** Two neighbouring characters that never appear lower-cased in `msg` do not occur in the lower-cased message. */
  lemma PairAbsentLower(msg: string, a: char, b: char)
    requires forall i :: 0 <= i < |msg| - 1 ==> !(LowerChar(msg[i]) == a && LowerChar(msg[i + 1]) == b)
    ensures !Contains(Lower(msg), [a, b])
  {
    PairAbsent(Lower(msg), a, b);
  }

  /** The keyword pieces absent from the "no translation" messages of
      libretranslate, google and lingva: none of them has an 'm', a '4' or a 'q'. */
  lemma NoLetterM(msg: string)
    requires forall i :: 0 <= i < |msg| ==> msg[i] !in {'m', 'M', '4', 'q', 'Q'}
    ensures !IsRateLimitError(msg)
  {
    assert 'm' !in msg && 'M' !in msg && '4' !in msg && 'q' !in msg && 'Q' !in msg;
    LetterAbsent(msg, 'm');
    LetterAbsent(msg, '4');
    LetterAbsent(msg, 'q');
    NoKeyword(msg, ["m", "m", "4", "q", "m"], [7, 4, 0, 0, 2]);
  }

  /** A message without the neighbours "te" and without 'q', '4' or 'x' in
      either case is not a rate-limit error. */
  lemma NoPairTE(msg: string)
    requires forall i :: 0 <= i < |msg| - 1 ==> !(msg[i] in {'t', 'T'} && msg[i + 1] in {'e', 'E'})
    requires forall i :: 0 <= i < |msg| ==> msg[i] !in {'q', 'Q', '4', 'x', 'X'}
    ensures !IsRateLimitError(msg)
  {
    assert 'q' !in msg && 'Q' !in msg && '4' !in msg && 'x' !in msg && 'X' !in msg;
    PairAbsentLower(msg, 't', 'e');
    LetterAbsent(msg, 'q');
    LetterAbsent(msg, '4');
    LetterAbsent(msg, 'x');
    NoKeyword(msg, ["te", "q", "4", "q", "x"], [2, 11, 0, 0, 7]);
  }

  /** MyMemory's "no translation" message is not a rate-limit error. */
  lemma MyMemoryNoResult(msg: string)
    requires msg == "MyMemory translation failed"
    ensures !IsRateLimitError(msg)
  {
    NoPairTE(msg);
  }

  /** LibreTranslate's "no translation" message is not a rate-limit error. */
  lemma LibreTranslateNoResult(msg: string)
    requires msg == "LibreTranslate failed"
    ensures !IsRateLimitError(msg)
  {
    NoLetterM(msg);
  }

  /** Google's "no translation" message is not a rate-limit error. */
  lemma GoogleNoResult(msg: string)
    requires msg == "Google Translate failed"
    ensures !IsRateLimitError(msg)
  {
    NoLetterM(msg);
  }

  /** Lingva's "no translation" message is not a rate-limit error. */
  lemma LingvaNoResult(msg: string)
    requires msg == "Lingva Translate failed"
    ensures !IsRateLimitError(msg)
  {
    NoLetterM(msg);
  }

  /** No adapter's "no translation" message is a rate-limit error. */
  lemma NoResultNotRateLimit(provider: string)
    ensures !IsRateLimitError(NoResultMessage(provider))
  {
    var msg := NoResultMessage(provider);
    if provider == "mymemory" {
      MyMemoryNoResult(msg);
    } else if provider == "libretranslate" {
      LibreTranslateNoResult(msg);
    } else if provider == "google" {
      GoogleNoResult(msg);
    } else {
      LingvaNoResult(msg);
    }
  }

  /** A 429 response is classified as a rate-limit failure and a response
      without a translation is not, so of the replies only a 429 puts a
      provider on cooldown (transport faults depend on their message). */
  lemma NormalizedClassification(provider: string, reply: Reply)
    requires reply.Http?
    ensures var a := Normalize(provider, reply);
            a.Err? ==> (IsRateLimitError(a.msg) <==> reply.status == 429)
  {
    RateLimitExceededIsRateLimit(RateLimitExceeded);
    NoResultNotRateLimit(provider);
  }
}
