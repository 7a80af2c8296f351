/**
 * The orchestration: the age gate of `choose_candidate_tweet`, the return
 * record of `reply_to_tweet`, the execution name of `run_state_machine` and
 * the dispatch of the Lambda `handler`. The Twitter API's answers (the
 * target's timeline, the bot's own timeline, the status looked up by id)
 * and the current time are parameters; the Step Functions call is
 * represented by the request it would make.
 */
module Bot {
  import opened Wrappers
  import opened Values
  import opened Text
  import opened Configuration
  import opened Tweets

  // ---------------------------------------------------------------------
  // choose_candidate_tweet

  /**
   * `choose_candidate_tweet`: the first candidate of the target's timeline,
   * provided it is at most `maxage` minutes old and `choose_reply` would
   * yield a message for it.
   */
  function ChooseCandidateTweet(timeline: seq<Tweet>, mytweets: seq<Tweet>, settings: Settings, now: int)
    : (r: Result<Option<Tweet>, Error>)
    ensures FirstCandidate(timeline, settings.target, settings.source).None? ==> r == Success(None)
    ensures r.Success? && r.value.Some? ==>
      && FirstCandidate(timeline, settings.target, settings.source) == r.value
      && TimeSinceTweet(r.value.value.createdAt, now) <= settings.maxage * 60
      && ReplyDecisionFor(mytweets, r.value.value) == Pick(Remaining(r.value.value.text))
      && Remaining(r.value.value.text) != {}
    ensures r.Failure? ==>
      && FirstCandidate(timeline, settings.target, settings.source).Some?
      && TimeSinceTweet(FirstCandidate(timeline, settings.target, settings.source).value.createdAt, now) <= settings.maxage * 60
      && (r.error == NoTimeline || r.error == EmptyPool)
      && (r.error == NoTimeline <==> |mytweets| == 0)
    ensures FirstCandidate(timeline, settings.target, settings.source).Some? ==>
      var t := FirstCandidate(timeline, settings.target, settings.source).value;
      && (TimeSinceTweet(t.createdAt, now) > settings.maxage * 60 ==> r == Success(None))
      && (TimeSinceTweet(t.createdAt, now) <= settings.maxage * 60 && ReplyDecisionFor(mytweets, t).AlreadyReplied? ==> r == Success(None))
      && (TimeSinceTweet(t.createdAt, now) <= settings.maxage * 60 && |mytweets| == 0 ==> r == Failure(NoTimeline))
      && ((TimeSinceTweet(t.createdAt, now) <= settings.maxage * 60 && |mytweets| > 0 && !RepliedTo(mytweets, t.id)
           && Remaining(t.text) != {}) ==> r == Success(Some(t)))
      && (r == Failure(EmptyPool) <==>
            (TimeSinceTweet(t.createdAt, now) <= settings.maxage * 60 && |mytweets| > 0
             && !RepliedTo(mytweets, t.id) && Remaining(t.text) == {}))
  {
    match FirstCandidate(timeline, settings.target, settings.source)
    case None => Success(None)
    case Some(candidate) =>
      if TimeSinceTweet(candidate.createdAt, now) > settings.maxage * 60 then Success(None)
      else
        match ReplyDecisionFor(mytweets, candidate)
        case TimelineEmpty => Failure(NoTimeline)
        case AlreadyReplied => Success(None)
        case Pick(pool) => if pool == {} then Failure(EmptyPool) else Success(Some(candidate))
  }

  /** A tweet older than `maxage` minutes is never chosen, whatever the timelines hold. */
  lemma TooOldNeverChosen(timeline: seq<Tweet>, mytweets: seq<Tweet>, settings: Settings, now: int, t: Tweet)
    requires TimeSinceTweet(t.createdAt, now) > settings.maxage * 60
    ensures ChooseCandidateTweet(timeline, mytweets, settings, now) != Success(Some(t))
  {
  }

  /** A tweet chosen at some time is chosen the same way at every earlier time. */
  lemma LaterNeverChoosesOther(timeline: seq<Tweet>, mytweets: seq<Tweet>, settings: Settings, now1: int, now2: int)
    requires now1 <= now2
    requires ChooseCandidateTweet(timeline, mytweets, settings, now2).Success?
    requires ChooseCandidateTweet(timeline, mytweets, settings, now2).value.Some?
    ensures ChooseCandidateTweet(timeline, mytweets, settings, now1) == ChooseCandidateTweet(timeline, mytweets, settings, now2)
  {
    var t := ChooseCandidateTweet(timeline, mytweets, settings, now2).value.value;
    TimeSinceTweetMonotone(t.createdAt, now1, now2);
  }

  // ---------------------------------------------------------------------
  // reply_to_tweet

  /** The reply `api.update_status` is asked to post. */
  datatype StatusUpdate = StatusUpdate(text: string, inReplyTo: int)

  /**
   * What `reply_to_tweet(api, tweetId, dryRun)` may produce, when `status`
   * is the tweet the API returns for the id and `mytweets` the bot's own
   * timeline: the exception it raises or the record it returns, and the
   * reply it posts, if any.
   */
  ghost predicate IsReplyOutcome(mytweets: seq<Tweet>, status: Tweet, tweetId: string, dryRun: Value,
                                 r: Result<map<string, Value>, Error>, update: Option<StatusUpdate>)
  {
    var base := map["tweet-id" := Str(tweetId), "dry-run" := dryRun];
    match ParseInt(tweetId)
    case None => r == Failure(InvalidInteger(tweetId)) && update.None?
    case Some(id) =>
      match ReplyDecisionFor(mytweets, status)
      case TimelineEmpty => r == Failure(NoTimeline) && update.None?
      case AlreadyReplied => r == Success(base) && update.None?
      case Pick(pool) =>
        if pool == {} then r == Failure(EmptyPool) && update.None?
        else if Truthy(dryRun) then
          (exists m :: m in pool) && r == Success(base) && update.None?
        else
          exists m :: m in pool
            && r == Success(base["reply-tweet" := Str(m)])
            && update == Some(StatusUpdate("@" + status.author + " " + m, id))
  }

  /** `reply_to_tweet`. */
  method ReplyToTweet(mytweets: seq<Tweet>, status: Tweet, tweetId: string, dryRun: Value)
    returns (r: Result<map<string, Value>, Error>, update: Option<StatusUpdate>)
    ensures IsReplyOutcome(mytweets, status, tweetId, dryRun, r, update)
  {
    var id := ParseInt(tweetId);
    if id.None? {
      return Failure(InvalidInteger(tweetId)), None;
    }
    var retval := map["tweet-id" := Str(tweetId), "dry-run" := dryRun];
    var reply := ChooseReply(mytweets, status);
    if reply.Failure? {
      return Failure(reply.error), None;
    }
    update := None;
    if reply.value.Some? && !Truthy(dryRun) {
      var message := reply.value.value;
      update := Some(StatusUpdate("@" + status.author + " " + message, id.value));
      retval := retval["reply-tweet" := Str(message)];
    }
    r := Success(retval);
  }

  /**
   * The returned record always holds `tweet-id` and `dry-run`; it holds
   * `reply-tweet` exactly when a reply was chosen and this is not a dry run,
   * and then the reply is one of the messages, absent from the tweet, and is
   * what was posted.
   */
  lemma ReplyRecordFields(mytweets: seq<Tweet>, status: Tweet, tweetId: string, dryRun: Value,
                          r: Result<map<string, Value>, Error>, update: Option<StatusUpdate>)
    requires IsReplyOutcome(mytweets, status, tweetId, dryRun, r, update)
    ensures r.Success? ==>
      && "tweet-id" in r.value && r.value["tweet-id"] == Str(tweetId)
      && "dry-run" in r.value && r.value["dry-run"] == dryRun
      && r.value.Keys <= {"tweet-id", "dry-run", "reply-tweet"}
    ensures r.Success? ==>
      ("reply-tweet" in r.value <==> ReplyDecisionFor(mytweets, status).Pick? && !Truthy(dryRun))
    ensures update.Some? <==> r.Success? && "reply-tweet" in r.value
    ensures r.Success? && "reply-tweet" in r.value ==>
      && r.value["reply-tweet"].Str?
      && r.value["reply-tweet"].s in MESSAGES
      && !Contains(status.text, r.value["reply-tweet"].s)
      && update.value.text == "@" + status.author + " " + r.value["reply-tweet"].s
      && Some(update.value.inReplyTo) == ParseInt(tweetId)
  {
    if ParseInt(tweetId).Some? && ReplyDecisionFor(mytweets, status).Pick? {
      var pool := ReplyDecisionFor(mytweets, status).pool;
      if pool != {} && !Truthy(dryRun) {
        var m :| m in pool
          && r == Success(map["tweet-id" := Str(tweetId), "dry-run" := dryRun]["reply-tweet" := Str(m)])
          && update == Some(StatusUpdate("@" + status.author + " " + m, ParseInt(tweetId).value));
        assert "reply-tweet" in r.value;
      }
    }
  }

  // ---------------------------------------------------------------------
  // run_state_machine

  const EXECUTION_PREFIX: string := "GoodBotBot-tweet-id-"

  /** The Step Functions execution name for a tweet id. */
  function ExecutionName(tweetId: string): (name: string)
    ensures |EXECUTION_PREFIX| <= |name| && name[..|EXECUTION_PREFIX|] == EXECUTION_PREFIX
    ensures name[|EXECUTION_PREFIX|..] == tweetId
  {
    EXECUTION_PREFIX + tweetId
  }

  /** Distinct tweet ids give distinct execution names. */
  lemma ExecutionNameInjective(a: string, b: string)
    ensures ExecutionName(a) == ExecutionName(b) ==> a == b
  {
  }

  /**
   * Distinct tweets get distinct execution names, so the engine's refusal to
   * start two executions with one name allows at most one reply workflow per tweet.
   */
  lemma DistinctTweetsDistinctExecutions(t1: Tweet, t2: Tweet)
    ensures t1.id != t2.id ==> ExecutionName(IdStr(t1)) != ExecutionName(IdStr(t2))
  {
    ExecutionNameInjective(IdStr(t1), IdStr(t2));
    DecimalInjective(t1.id, t2.id);
  }

  /** The `start_execution` request: state machine, execution name and JSON input. */
  datatype StartExecution = StartExecution(stateMachineArn: Value, name: string, input: map<string, Value>)

  /**
   * `run_state_machine(state_arn, tweet.id_str)`: the request names the state
   * machine, carries the tweet's id after the prefix of the execution name, and
   * passes an input whose `tweet-id` parses back to the tweet's numeric id.
   */
  function StartFor(stateArn: Value, t: Tweet): (r: StartExecution)
    ensures r.stateMachineArn == stateArn
    ensures r.name == ExecutionName(IdStr(t))
    ensures |EXECUTION_PREFIX| <= |r.name| && r.name[..|EXECUTION_PREFIX|] == EXECUTION_PREFIX
    ensures |EXECUTION_PREFIX| <= |r.name| && r.name[|EXECUTION_PREFIX|..] == IdStr(t)
    ensures r.input.Keys == {"tweet-id"} && r.input["tweet-id"].Str?
    ensures ParseInt(r.input["tweet-id"].s) == Some(t.id)
  {
    ParseIntOfDecimal(t.id);
    StartExecution(stateArn, ExecutionName(IdStr(t)), map["tweet-id" := Str(IdStr(t))])
  }

  // ---------------------------------------------------------------------
  // handler

  /** `event.get(key, None)`, with `None` also for a JSON null. */
  function Lookup(event: map<string, Value>, key: string): Option<Value>
  {
    if key in event && event[key] != Null then Some(event[key]) else None
  }

  /** The two modes of the handler, and the type error of a non-string tweet id. */
  datatype Branch = Poll(stateArn: Option<Value>) | Reply(tweetId: string, dryRun: Value) | BadTweetId

  /** The handler's branch selection for an event. */
  function Dispatch(event: map<string, Value>): (b: Branch)
    ensures b.Poll? <==> Lookup(event, "tweet-id").None?
    ensures b.Poll? ==> b.stateArn == Lookup(event, "state-machine-arn")
    ensures b.Reply? ==> Str(b.tweetId) == event["tweet-id"]
    ensures b.Reply? && "dry-run" !in event ==> b.dryRun == Bool(false)
    ensures b.Reply? && "dry-run" in event ==> b.dryRun == event["dry-run"]
    ensures b.BadTweetId? <==> Lookup(event, "tweet-id").Some? && !Lookup(event, "tweet-id").value.Str?
  {
    match Lookup(event, "tweet-id")
    case None => Poll(Lookup(event, "state-machine-arn"))
    case Some(Str(id)) => Reply(id, if "dry-run" in event then event["dry-run"] else Bool(false))
    case Some(_) => BadTweetId
  }

  /**
   * The input of the execution started for a tweet brings the handler into
   * its reply branch for that same tweet, not as a dry run, and the id
   * parses back to the tweet's numeric id.
   */
  lemma StartedExecutionReplies(stateArn: Value, t: Tweet)
    ensures Dispatch(StartFor(stateArn, t).input) == Reply(IdStr(t), Bool(false))
    ensures ParseInt(IdStr(t)) == Some(t.id)
  {
    ParseIntOfDecimal(t.id);
  }

  /** What one invocation of the handler produced. */
  datatype Outcome =
    | Polled(start: Option<StartExecution>)
    | Replied(record: map<string, Value>, update: Option<StatusUpdate>)

  /**
   * `handler(event, context)` with environment `environ`. `timeline` is the
   * target's timeline, `mytweets` the bot's own, `status` the tweet the API
   * returns for the event's id, and `now` the current time.
   */
  method Handler(environ: map<string, string>, event: map<string, Value>, timeline: seq<Tweet>,
                 mytweets: seq<Tweet>, status: Tweet, now: int)
    returns (r: Result<Outcome, Error>)
    ensures Load(map[], environ).1.Some? ==> r == Failure(Load(map[], environ).1.value)
    ensures Load(map[], environ).1.None? ==> SettingsOf(Load(map[], environ).0).Some?
    ensures Load(map[], environ).1.None? && Dispatch(event).Poll? ==>
      var chosen := ChooseCandidateTweet(timeline, mytweets, SettingsOf(Load(map[], environ).0).value, now);
      var arn := Dispatch(event).stateArn;
      && (r.Failure? <==> chosen.Failure?)
      && (r.Failure? ==> r.error == chosen.error)
      && (r.Success? ==> r.value.Polled? && (r.value.start.Some? <==> arn.Some? && chosen.value.Some?))
      && (r.Success? && r.value.start.Some? ==> r.value.start.value == StartFor(arn.value, chosen.value.value))
    ensures Load(map[], environ).1.None? && Dispatch(event).Reply? ==>
      var b := Dispatch(event);
      && (r.Failure? ==> IsReplyOutcome(mytweets, status, b.tweetId, b.dryRun, Failure(r.error), None))
      && (r.Success? ==>
            r.value.Replied? && IsReplyOutcome(mytweets, status, b.tweetId, b.dryRun, Success(r.value.record), r.value.update))
    ensures Load(map[], environ).1.None? && Dispatch(event).BadTweetId? ==> r == Failure(TweetIdNotString)
  {
    var config := new Config(map[]);
    var error := LoadConfiguration(config, environ);
    if error.Some? {
      return Failure(error.value);
    }
    LoadedSettings(environ);
    var settings := SettingsOf(config.entries).value;
    match Dispatch(event)
    case Poll(stateArn) =>
      var tweet := ChooseCandidateTweet(timeline, mytweets, settings, now);
      if tweet.Failure? {
        return Failure(tweet.error);
      }
      if stateArn.None? {
        r := Success(Polled(None));
      } else if tweet.value.Some? {
        r := Success(Polled(Some(StartFor(stateArn.value, tweet.value.value))));
      } else {
        r := Success(Polled(None));
      }
    case Reply(tweetId, dryRun) =>
      var record, update := ReplyToTweet(mytweets, status, tweetId, dryRun);
      if record.Failure? {
        assert update.None?;
        r := Failure(record.error);
      } else {
        r := Success(Replied(record.value, update));
      }
    case BadTweetId =>
      r := Failure(TweetIdNotString);
  }
}
