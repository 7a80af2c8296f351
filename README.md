# GoodBotBot decision logic in Dafny

GoodBotBot is a Twitter bot that runs as an AWS Lambda function. On a
timer, the handler looks for the newest tweet by a target account that came
from the right client, is not a retweet and contains "Alt/title text:". If
that tweet is recent enough and the bot has not replied to it yet, the
handler starts a Step Functions execution named after the tweet id. The
execution calls the handler again with the tweet id, and the handler then
replies with a compliment that does not appear in that tweet's text.

This project models the decision logic of `index.py`. API answers, the
environment, the Lambda event and the clock are plain data:

- `Wrappers`: `Option` and `Result` (the second stands for a raised exception).
- `Values`: Python's dynamically typed values with Python truthiness, and the exceptions.
- `Text`: the substring test `pat in s`, the decimal rendering `'%d'`/`id_str`, and `int()` parsing.
- `Configuration`: the option table, `set_defaults` and `load_configuration`. The
  configuration dictionary is updated in place and shared with the caller, so it is a
  `Config` object whose `entries` map the methods reassign. Both loops are kept as loops.
- `Duration`: `pretty_duration`, as a threshold ladder over whole seconds.
- `Tweets`: the tweet record, the candidate search (a loop with `continue` and an early
  return), `choose_reply` (a loop that reassigns the message pool and returns early;
  the random pick is a nondeterministic choice), and `time_since_tweet`.
- `Bot`: `choose_candidate_tweet`, `reply_to_tweet`, the execution name of
  `run_state_machine`, and the `handler` dispatch.

The comment at `index.py:325` says the loop drops the message of each of the bot's own
tweets. The code on the next line filters against the *target* tweet's text instead, so
the filter does not depend on which own tweet is being looked at. The model follows the
code. `Tweets.RecentReplyNotExcluded` shows a case where a message the bot just used in a
reply can still be chosen.

## Model

| member | source | states |
|---|---|---|
| `Text.ContainsIffOccurs` | index.py:290 | the substring test holds exactly when the pattern occurs at some position, both directions |
| `Text.Decimal` | index.py:226-234 | `'%d'` of a natural number is a non-empty string of digits with no leading zero |
| `Text.ParseInt` | index.py:196 | `int()` fails exactly on strings that are not an optional `+`/`-` followed by at least one ASCII digit; a literal's value is the value of its digits, negated after a minus sign; a negative result needs a leading minus; a digit string without a leading zero parses to the number whose rendering it is |
| `Text.LeadingZeroIgnored` | index.py:196 | a leading zero does not change the value of a digit run |
| `Text.ParseIntOfDigits` | index.py:196 | `int()` of an unsigned digit run is its value, and zero padding does not change the result |
| `Text.ParseIntOfSigned` | index.py:196 | `int()` of `+` or `-` followed by a digit run is the run's value, negated for the minus |
| `Text.DecimalOfDigits` | index.py:196 | a digit string without a leading zero is the decimal rendering of its value |
| `Text.ParseIntOfDecimal` | index.py:196 | `int()` of a decimal rendering gives the number back |
| `Text.ParseIntOfNegatedDecimal` | index.py:196 | `int()` of a minus sign followed by a decimal rendering gives the negated number |
| `Text.DecimalInjective` | index.py:451-453 | distinct numbers have distinct decimal renderings, so distinct `id_str`s |
| `Configuration.Config.constructor` | index.py:147-148 | a configuration dictionary starts with the entries it is given |
| `Configuration.WithDefaults` | index.py:126-130 | afterwards `maxage` is present and truthy; it is 360 exactly when it was absent, falsy (an explicit 0 included) or already 360; other keys are unchanged |
| `Configuration.WithDefaultsIdempotent` | index.py:126-130 | applying the defaults twice equals applying them once |
| `Configuration.SetDefaults` | index.py:126-130 | updates the dictionary in place to `WithDefaults` of its old entries |
| `Configuration.ReadOptionsEffect` | index.py:191-198 | every option set in the environment overwrites its entry (as an integer for `maxage`); every other key keeps its presence and value |
| `Configuration.ReadOptionsFailure` | index.py:191-198 | reading raises exactly when an integer option holds a string `int()` rejects, and the error is an invalid-integer error |
| `Configuration.LoadRaisesInvalidInteger` | index.py:183-196 | loading raises `ValueError` exactly when `BOT_MAXAGE` is set to a non-integer |
| `Configuration.MissingIndicesExact` | index.py:204-206 | the missing positions ascend strictly and are exactly the options whose key is absent |
| `Configuration.MissingNamesFollowIndices` | index.py:204-210 | the reported names are the environment variables of those positions, one for one, so they come in table order |
| `Configuration.MissingNamesEmpty` | index.py:204-208 | nothing is reported exactly when every option key is present |
| `Configuration.AbsentAfterLoad` | index.py:191-206 | after loading, a key is absent exactly when it was absent before, its variable is unset, and it is not `maxage` |
| `Configuration.Load` | index.py:132-212 | loading raises only `ConfigurationException` (with a non-empty list never naming `BOT_MAXAGE`) or `ValueError`; when it returns, every option key is present and `maxage` is truthy |
| `Configuration.LoadRaisesConfigurationError` | index.py:200-210 | `ConfigurationException` is raised exactly when some option key is absent after reading and defaulting; it lists the missing variables in table order |
| `Configuration.MaxageNeverMissing` | index.py:129-130 | `BOT_MAXAGE` is never reported missing |
| `Configuration.LoadConfiguration` | index.py:132-212 | the two loops leave the dictionary and raise the exception that `Load` gives, including the partly updated dictionary when `int()` fails |
| `Configuration.LoadedSettings` | index.py:144-212 | loading into an empty dictionary either raises, or yields the environment's target and source, and a non-zero integer `maxage`: the environment's value when it is a non-zero integer, 360 otherwise |
| `Duration.Breakdown` | index.py:225-234 | the count is the duration rounded down to whole units; the singular is used exactly below 2 s; plural counts are at least 2; minutes stay below 120 and hours below 48 |
| `Duration.PrettyDuration` | index.py:222-234 | the output string for each range, with integer division: below 2 `n second`, below 120 `n seconds`, below 7200 minutes, below 172800 hours, and days above |
| `Duration.RenderInjective` | index.py:226-234 | distinct (count, unit) readings render as distinct strings |
| `Duration.PrettyDurationDistinguishesReadings` | index.py:222-234 | two durations print alike exactly when they break down into the same count of the same unit |
| `Tweets.FirstCandidate` | index.py:280-296 | a tweet found is one of the timeline's tweets and meets all four conditions |
| `Tweets.FirstCandidateIsEarliest` | index.py:280-293 | when a tweet meets all four conditions and no earlier tweet does, that tweet is the one found |
| `Tweets.FirstCandidateNone` | index.py:280-296 | nothing is found exactly when no tweet meets all four conditions |
| `Tweets.LatestCandidateTweet` | index.py:262-296 | the loop returns the earliest tweet meeting the four conditions (author, source, not a retweet, contains "Alt/title text:"), or `None` when there is none |
| `Tweets.RemainingFilterIdempotent` | index.py:319-326 | filtering the remaining messages against the target's text again removes nothing, so the loop's repeated filter equals one filter |
| `Tweets.ChooseReply` | index.py:298-329 | raises `NoTimelineException` exactly on an empty own timeline; returns `None` exactly when an own tweet replies to the target's id; otherwise returns a message from `MESSAGES` that is not in the target's text, or raises on an empty pool |
| `Tweets.RecentReplyNotExcluded` | index.py:325-326 | the filter does not remove a message the bot used in a recent reply |
| `Tweets.TimeSinceTweet` | index.py:345-353 | the elapsed time is never negative; it is zero exactly when the tweet is not earlier than `now`, and otherwise equals the difference |
| `Tweets.TimeSinceTweetMonotone` | index.py:345-353 | the elapsed time never decreases as the clock advances |
| `Bot.ChooseCandidateTweet` | index.py:366-394 | no candidate or an expired one (older than `maxage * 60` seconds) gives `None`; a candidate the bot already replied to gives `None`; a recent, unreplied candidate with a non-empty message pool is returned; a recent candidate with an empty own timeline raises `NoTimeline`; a returned tweet is exactly such a candidate; `NoTimeline` comes exactly from an empty own timeline and `EmptyPool` exactly from an empty pool |
| `Bot.TooOldNeverChosen` | index.py:376-386 | a tweet older than `maxage` minutes is never returned |
| `Bot.LaterNeverChoosesOther` | index.py:376-394 | a tweet chosen at a later time is chosen the same way at any earlier time |
| `Bot.ReplyToTweet` | index.py:396-432 | invalid ids raise `ValueError`; choose_reply's exceptions propagate; the record holds `tweet-id` and `dry-run`, plus `reply-tweet` and one posted reply when a message was chosen and it is not a dry run |
| `Bot.ReplyRecordFields` | index.py:405-430 | the record always holds `tweet-id` and `dry-run`, holds `reply-tweet` exactly when a reply was chosen and `dry_run` is falsy, and then that reply is a fresh message posted as `@author message` in reply to the id |
| `Bot.ExecutionName` | index.py:445 | the name starts with `GoodBotBot-tweet-id-` and the tweet id is what follows it |
| `Bot.ExecutionNameInjective` | index.py:445 | distinct tweet ids give distinct execution names |
| `Bot.StartFor` | index.py:445-457 | the request names the given state machine, the execution name is exactly `ExecutionName` of the tweet's `id_str`, starts with the `GoodBotBot-tweet-id-` prefix and carries the tweet's `id_str` after the prefix, and the input holds only `tweet-id`, which parses back to the tweet's numeric id |
| `Bot.DistinctTweetsDistinctExecutions` | index.py:438-453 | tweets with distinct numeric ids get distinct execution names |
| `Bot.Dispatch` | index.py:465-483 | polls exactly when the event has no non-null `tweet-id`, and then passes the state-machine ARN on; raises `TypeError` exactly when the id is not a string; otherwise replies to the string id, passing a present `dry-run` through and defaulting it to false |
| `Bot.StartedExecutionReplies` | index.py:449-483 | an execution's input takes the handler into its reply branch for the same tweet, not as a dry run, and the id parses back to the tweet's numeric id |
| `Bot.Handler` | index.py:459-483 | configuration errors come first; polling reports choose_candidate_tweet's result and requests an execution exactly when there is an ARN and a chosen tweet; replying gives reply_to_tweet's outcome; a non-string id raises `TypeError` |

## Left out

- Tweepy (`user_timeline`, `get_status`, `update_status`), `instanciate_api` and OAuth are a foreign library. Their answers are parameters. The reply the bot would post is returned as a `StatusUpdate`, and the model does not say whether posting succeeds.
- The `count=20` limit on timelines is the API's doing. Any timeline length is accepted.
- boto3, `start_execution`, AWS X-Ray `patch_all` and the `AWS_EXECUTION_ENV` imports are cloud I/O. `run_state_machine` is modelled as the `StartExecution` request it makes, and the JSON encoding of its input is a map.
- `print_rate_limit`, `print_header`, `print_tweet`, `main` and all printed output are logging. So are the `pretty_duration` calls in `choose_candidate_tweet`.
- `datetime` and time-zone handling are left out, and so are the `total_seconds()` floats. Times are whole seconds (integers), and `pretty_duration` takes a natural number. That means the negative and fractional inputs of `print_rate_limit` are outside the model.
- `random.seed` / `random.sample` are a nondeterministic choice from the remaining pool. `random.sample` on an empty pool raises, and the model returns `EmptyPool` for it.
- `Tweets.ChooseReply`: the model assumes a Python interpreter older than 3.11, which accepts a `set` as the population of `random.sample`. From Python 3.11 on, `random.sample(messages, 1)` raises `TypeError` for any set, and this model does not capture that.
- `Text.ParseInt`: it accepts only an optional sign followed by ASCII digits. Python's `int()` also accepts surrounding whitespace, underscores between digits and non-ASCII digits, and the model rejects those.
- The message text of `ConfigurationException` (the names joined with ", ") is not built. The error carries the list of names itself.
- The retweet test (`hasattr(tweet, 'retweet_status') and tweet.retweet_status`) is a boolean field of the tweet record. Which attribute the library actually sets is not modelled.
- `reply_to_tweet` looks the status up by the id. The model does not relate `status.id` to the parsed id.
- The handler's `now` is a parameter, read once per invocation.
