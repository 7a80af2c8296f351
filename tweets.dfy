/**
 * The tweet-level decisions: which tweet of the target's timeline is a
 * reply candidate (`get_latest_candidate_tweet`), which message to reply
 * with (`choose_reply`), and how old a tweet is (`time_since_tweet`).
 * Timelines are the sequences the Twitter API returned, newest first.
 */
module Tweets {
  import opened Wrappers
  import opened Values
  import opened Text

  /**
   * The fields of a status the bot looks at: the author's screen name, the
   * posting client, whether it is a retweet, its text, its id, the id it
   * replies to, and its creation time in seconds (UTC).
   */
  datatype Tweet = Tweet(
    author: string,
    source: string,
    isRetweet: bool,
    text: string,
    id: nat,
    inReplyTo: Option<nat>,
    createdAt: int)

  /** `tweet.id_str`: the id in decimal. */
  function IdStr(t: Tweet): string
  {
    Decimal(t.id)
  }

  // ---------------------------------------------------------------------
  // get_latest_candidate_tweet

  const ALT_TEXT_MARKER: string := "Alt/title text:"

  /** The four conditions a tweet must meet to be replied to. */
  predicate IsCandidate(t: Tweet, target: string, source: string)
  {
    && t.author == target
    && t.source == source
    && !t.isRetweet
    && Contains(t.text, ALT_TEXT_MARKER)
  }

  /** The first candidate of a timeline, if any. */
  function FirstCandidate(tweets: seq<Tweet>, target: string, source: string): (r: Option<Tweet>)
    ensures r.Some? ==> r.value in tweets && IsCandidate(r.value, target, source)
    decreases |tweets|
  {
    if tweets == [] then None
    else if IsCandidate(tweets[0], target, source) then Some(tweets[0])
    else FirstCandidate(tweets[1..], target, source)
  }

  /** `tweets[i]` is a candidate and no earlier tweet is. */
  ghost predicate IsFirstCandidateAt(tweets: seq<Tweet>, i: int, target: string, source: string)
  {
    && 0 <= i < |tweets|
    && IsCandidate(tweets[i], target, source)
    && forall j :: 0 <= j < i ==> !IsCandidate(tweets[j], target, source)
  }

  /** The first candidate is the earliest tweet, in timeline order, that meets all four conditions. */
  lemma {:induction false} FirstCandidateIsEarliest(tweets: seq<Tweet>, i: int, target: string, source: string)
    requires IsFirstCandidateAt(tweets, i, target, source)
    ensures FirstCandidate(tweets, target, source) == Some(tweets[i])
    decreases i
  {
    if i > 0 {
      assert !IsCandidate(tweets[0], target, source);
      forall j | 0 <= j < i - 1 ensures !IsCandidate(tweets[1..][j], target, source) {
        assert tweets[1..][j] == tweets[j + 1];
      }
      FirstCandidateIsEarliest(tweets[1..], i - 1, target, source);
    }
  }

  /** There is no first candidate exactly when no tweet meets all four conditions. */
  lemma {:induction false} FirstCandidateNone(tweets: seq<Tweet>, target: string, source: string)
    ensures FirstCandidate(tweets, target, source).None? <==>
      forall j :: 0 <= j < |tweets| ==> !IsCandidate(tweets[j], target, source)
    decreases |tweets|
  {
    if tweets != [] {
      FirstCandidateNone(tweets[1..], target, source);
      if !IsCandidate(tweets[0], target, source) {
        forall j | 0 < j < |tweets| ensures tweets[j] == tweets[1..][j - 1] { }
        forall j | 0 <= j < |tweets| - 1 ensures tweets[1..][j] == tweets[j + 1] { }
      }
    }
  }

  /** `get_latest_candidate_tweet`, on the timeline the API returned. */
  method LatestCandidateTweet(tweets: seq<Tweet>, target: string, source: string) returns (r: Option<Tweet>)
    ensures r == FirstCandidate(tweets, target, source)
    ensures r.None? <==> forall j :: 0 <= j < |tweets| ==> !IsCandidate(tweets[j], target, source)
    ensures r.Some? ==> exists i :: IsFirstCandidateAt(tweets, i, target, source) && tweets[i] == r.value
  {
    for i := 0 to |tweets|
      invariant forall j :: 0 <= j < i ==> !IsCandidate(tweets[j], target, source)
    {
      var tweet := tweets[i];
      if tweet.author != target {
        continue;
      }
      if tweet.source != source {
        continue;
      }
      if tweet.isRetweet {
        continue;
      }
      if !Contains(tweet.text, ALT_TEXT_MARKER) {
        continue;
      }
      assert IsFirstCandidateAt(tweets, i, target, source);
      FirstCandidateIsEarliest(tweets, i, target, source);
      return Some(tweet);
    }
    FirstCandidateNone(tweets, target, source);
    return None;
  }

  // ---------------------------------------------------------------------
  // choose_reply

  /** The messages the bot replies with. */
  const MESSAGES: set<string> := {
    "Admirable bot.",
    "Amazing bot.",
    "Awesome bot.",
    "Brilliant bot.",
    "Cool bot.",
    "Excellent bot.",
    "Exceptional bot.",
    "Extraordinary bot.",
    "Fantastic bot.",
    "Good bot.",
    "Grandiose bot.",
    "Impressive bot.",
    "Incredible bot.",
    "Magnificient bot.",
    "Marvelous bot.",
    "Noble bot.",
    "Outstanding bot.",
    "Phenomenal bot.",
    "Remarkable bot.",
    "Sensational bot.",
    "Sublime bot.",
    "Superb bot.",
    "Wonderful bot.",
    "The best bot.",
    "Thank you for your assiduity.",
    "Thank you for your conscientiousness.",
    "Thank you for your diligence.",
    "Thank you for your generous effort.",
    "Thanks!",
    "Much thanks.",
    "Thanks so much.",
    "Thank you for posting this.",
    "Good job.",
    "Splendid job.",
    "I appreciate your effort.",
    "I appreciate your diligence.",
    "I appreciate your work.",
    "I am grateful for your work.",
    "Well done.",
    "Continue your great work."
  }

  /** The messages that do not occur in `text`. */
  function Remaining(text: string): (pool: set<string>)
    ensures pool <= MESSAGES
    ensures forall m :: m in MESSAGES ==> (m in pool <==> !Contains(text, m))
  {
    set m | m in MESSAGES && !Contains(text, m)
  }

  /** Filtering the remaining messages against the same text again removes nothing, so the loop's repeated filter is the single filter. */
  lemma RemainingFilterIdempotent(text: string)
    ensures (set x | x in Remaining(text) && !Contains(text, x)) == Remaining(text)
  {
  }

  /** Some tweet of `mytweets` is a reply to the tweet with id `id`. */
  predicate RepliedTo(mytweets: seq<Tweet>, id: nat)
  {
    exists j :: 0 <= j < |mytweets| && mytweets[j].inReplyTo == Some(id)
  }

  /** What `choose_reply` decides, before its random pick. */
  datatype ReplyDecision = TimelineEmpty | AlreadyReplied | Pick(pool: set<string>)

  function ReplyDecisionFor(mytweets: seq<Tweet>, tweet: Tweet): ReplyDecision
  {
    if |mytweets| < 1 then TimelineEmpty
    else if RepliedTo(mytweets, tweet.id) then AlreadyReplied
    else Pick(Remaining(tweet.text))
  }

  /** `r` is a possible result of `choose_reply` given its decision `d`. */
  predicate Realises(r: Result<Option<string>, Error>, d: ReplyDecision)
  {
    match d
    case TimelineEmpty => r == Failure(NoTimeline)
    case AlreadyReplied => r == Success(None)
    case Pick(pool) =>
      if pool == {} then r == Failure(EmptyPool)
      else r.Success? && r.value.Some? && r.value.value in pool
  }

  /**
   * `choose_reply`, given the bot's own timeline. The random pick is a
   * nondeterministic choice from the remaining messages.
   */
  method ChooseReply(mytweets: seq<Tweet>, tweet: Tweet) returns (r: Result<Option<string>, Error>)
    ensures Realises(r, ReplyDecisionFor(mytweets, tweet))
    ensures r == Failure(NoTimeline) <==> |mytweets| == 0
    ensures r == Success(None) <==> |mytweets| > 0 && RepliedTo(mytweets, tweet.id)
    ensures r.Success? && r.value.Some? ==> r.value.value in MESSAGES && !Contains(tweet.text, r.value.value)
    ensures r == Failure(EmptyPool) <==> |mytweets| > 0 && !RepliedTo(mytweets, tweet.id) && Remaining(tweet.text) == {}
  {
    if |mytweets| < 1 {
      return Failure(NoTimeline);
    }
    var messages := MESSAGES;
    for i := 0 to |mytweets|
      invariant forall j :: 0 <= j < i ==> mytweets[j].inReplyTo != Some(tweet.id)
      invariant messages == if i == 0 then MESSAGES else Remaining(tweet.text)
    {
      if mytweets[i].inReplyTo == Some(tweet.id) {
        return Success(None);
      }
      // As written, the filter tests the target tweet's text, not the text of mytweets[i].
      messages := set x | x in messages && !Contains(tweet.text, x);
    }
    if messages == {} {
      return Failure(EmptyPool);
    }
    var m :| m in messages;
    return Success(Some(m));
  }

  /**
   * The filter tests the target tweet's text, so a message the bot used in a
   * recent reply stays available: here the bot's timeline holds a
   * "Good bot." reply and "Good bot." can still be chosen.
   */
  lemma RecentReplyNotExcluded()
    ensures var target := Tweet("xkcdComic", "bot", false, "Alt/title text: x", 2, None, 0);
      var mine := [Tweet("goodbotbot", "web", false, "@xkcdComic Good bot.", 1, Some(1), 0)];
      && Contains(mine[0].text, "Good bot.")
      && ReplyDecisionFor(mine, target).Pick?
      && "Good bot." in ReplyDecisionFor(mine, target).pool
  {
    var target := Tweet("xkcdComic", "bot", false, "Alt/title text: x", 2, None, 0);
    var mine := [Tweet("goodbotbot", "web", false, "@xkcdComic Good bot.", 1, Some(1), 0)];
    var text := "@xkcdComic Good bot.";
    assert text[11..11 + |"Good bot."|] == "Good bot.";
    ContainsIffOccurs(text, "Good bot.");
    assert OccursAt(text, "Good bot.", 11);
    assert !RepliedTo(mine, target.id);
    assert 'G' !in target.text;
    FirstCharAbsent(target.text, "Good bot.");
    assert "Good bot." in MESSAGES;
    assert "Good bot." in Remaining(target.text);
  }

  // ---------------------------------------------------------------------
  // time_since_tweet

  /** `time_since_tweet`: seconds from the tweet's creation to `now`, clamped at zero. */
  function TimeSinceTweet(createdAt: int, now: int): (r: nat)
    ensures r >= now - createdAt
    ensures r == 0 <==> now <= createdAt
    ensures r > 0 ==> createdAt + r == now
  {
    if now - createdAt < 0 then 0 else now - createdAt
  }

  /** The elapsed time never decreases as `now` advances. */
  lemma TimeSinceTweetMonotone(createdAt: int, now1: int, now2: int)
    requires now1 <= now2
    ensures TimeSinceTweet(createdAt, now1) <= TimeSinceTweet(createdAt, now2)
  {
  }
}
