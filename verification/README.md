# Estrys, modelled and proved

Estrys shows Twitter accounts to Mastodon. A poller asks Twitter for new tweets of every followed account and
queues one task for each follower; a worker that takes a task saves the tweet, the tweets it refers to and
their authors, and posts the result to the follower's inbox. Followers come and go through an inbox that
handles the ActivityPub activities Follow (section 7.5 of the W3C ActivityPub Recommendation) and Undo
(section 7.12). This project models that system in Dafny and proves what it keeps over whole runs.

Twitter, Postgres, Redis, the key server and the task queue are the environment. Each call to one of them is
answered by a value that may say anything, including an error, and, where the caller cannot tell, an error
about something that took effect all the same. A protocol that several workers or requests run at once is a
machine with one step for each call, so that a run is any interleaving of such steps. Beside the machine
stands the code in its own form, a class whose methods change its fields; each such method is proved equal to
the function that the theorems are about.

| file | what it is about |
|---|---|
| `Options.dfy`, `Sequences.dfy`, `Text.dfy`, `Environment.dfy` | an optional value, lists without repetition, the string operations of the Go library that matter here, and the answers of the outside |
| `Tweets.dfy` | tweets, their conversion, the copies nested in them |
| `TweetSaver.dfy`, `TweetSafety.dfy` | saving tweets by any number of workers: the machine, and what every interleaving keeps |
| `TweetResult.dfy`, `TweetSuccess.dfy` | what one call returns and stores, in closed form, and exactly when it succeeds |
| `TweetHistory.dfy`, `TweetConcurrency.dfy`, `TweetLimits.dfy` | calls one after the other; interleaved calls that stay apart; where the promises stop, and exactly when |
| `TweetService.dfy` | the service, in place |
| `Users.dfy`, `UserRules.dfy` | the user table and the creation of its rows; lookups and batches told from the rows and the answers |
| `TwitterClient.dfy`, `TwitterRules.dfy` | account lookups over the cache; their results told from the cache and the answers |
| `Poller.dfy`, `PollerRules.dfy`, `PollerRuns.dfy`, `PollerLimits.dfy`, `Ticker.dfy` | the poller, one call and one sweep told from the list and the answers, its runs, a run that loses a tweet, its pace |
| `SendTask.dfy` | one task with its retries, and the way from the poll to the inbox |
| `Voter.dfy` | who may follow |
| `Inbox.dfy`, `InboxSafety.dfy`, `InboxRuns.dfy`, `InboxService.dfy` | Follow and Undo: the machine, what every interleaving keeps, the promises, the service in place |
| `Relations.dfy`, `RelationRules.dfy`, `JoinRows.dfy`, `Records.dfy`, `Loading.dfy` | the lists that the generated models keep in memory, on both sides, against the join table |
| `QueryCache.dfy` | the queries that the generated models memoise |

## What turned out not to hold as one would expect

- The cache reports a write as done whatever Redis says (`internal/cache/redis.go:44`). Every tweet inside a
  stored tweet is in the cache only as far as no such write was dropped and nothing was evicted; the model
  records these keys in `lost`. `TweetLimits.DroppedWriteLeavesADanglingCopy` shows the gap, and
  `TweetLimits.ClosedUnlessDropped` says for which answers of Redis it opens.
- A Redis read that fails counts as a miss, and the tweet is then fetched and stored again over the old value.
  For calls that run one after the other and whose reads succeed the cache is write-once
  (`TweetHistory.WriteOnce`); when reads fail, a call that returns changes a value exactly when it fetches
  something else than the cache holds (`TweetLimits.CallPreservesExactly`). Two workers that miss the same tweet
  overwrite one another as well (`TweetLimits.ConcurrentCallsOverwrite`); workers that never miss a tweet that
  another one is about to write do not (`TweetConcurrency.WriteOnceTogether`).
- A cached tweet keeps the type it was stored with. A retweet of a tweet that is already in the cache as a
  tweet of its own is therefore not recognised as a retweet (`TweetLimits.RetweetIsMissed` shows one, and
  `TweetResult.RetweetIsRecognisedExactly` says when).
- The name of an author and the media of a tweet come from the lists beside the tweet in a response. Two fetches
  of one tweet agree on them only as far as those lists do.
- The timeline is asked for once per poll. When a poll that succeeds meets more than a hundred new tweets, the
  cursor moves past the oldest of them without serving them. They stay out of the queue, unless a poll that
  failed before had queued some of them already (`PollerRuns.UnservedIsNeverQueued`,
  `PollerLimits.TheOldestIsLost`).
- A user is looked up by ID first, then by name. An account whose name is the decimal ID of another account
  hides the other one: no batch from IDs creates its row (`Users.OwnRowExactly`, `Users.IdsNeverUncover`), while a
  batch with its own name does (`Users.NamesUncover`).
- 1501 timeline requests can fall into one window of fifteen minutes, one more than the limit. They do exactly
  when from the second of them on no tick is dropped, and the delay of the last one behind its tick together with
  the lead of the first one on the tick of the second is less than one period (`Ticker.OneTooManyExactly`). A
  window that opens with a request without delay never holds more than the limit.
- An Undo whose object is an empty list, or a list of several, is answered as a success and does nothing: the error
  of an earlier call, which is nil, is wrapped. An Undo without the property panics.
- A second Follow of a pair is refused by the primary key of the follower table and gets no Accept.
- SetActors and SetUsers do not take the owner out of the lists of those they drop. An add that is refused after
  its first pair leaves rows in the table that no list shows. A removal finds one side by key and the other by pointer, and
  two objects for one key make the sides differ. Each of these has its exact condition below.

## Model

| member | source | states |
|---|---|---|
| Tweets.DropLinkExactly | internal/domain/tweet.go:52-55 | a text that ends in a white space and a shortened link of ten characters loses exactly these; any other text stays |
| Tweets.ConvertTweet | internal/domain/tweet.go:47-97 | the nested loops over media and the first match among the users compute the converted tweet, or none when the date does not parse |
| Tweets.MediasAreListed | internal/domain/tweet.go:71-85 | when the response lists each medium of the tweet once, the converted media are those of the tweet, one by one in the tweet's order, wherever the response lists them, each with its kind, address, width and height |
| Tweets.ConvertExactly | internal/domain/tweet.go:47-97 | a tweet converts exactly when its date parses, into its own ID, author, text without the link, date, sensitivity and type, with the name of the first listed account of the author in lower case, and with exactly the listed media whose keys it names |
| Tweets.CompleteIncludesTell | internal/domain/tweet.go:71-94 | from a response that lists the author and each medium once, every conversion yields the author's lower-case name and exactly the media of the tweet |
| Tweets.Retweet | internal/twitter/models/tweet.go:43-50 | the first reference of type retweeted; none exactly when no reference has that type |
| TweetSafety.StoredTweetsAreClosed | internal/domain/tweet.go:143-162 | in every interleaving of any number of workers with failures anywhere, each tweet nested at any depth in a stored tweet is itself a key of the cache, or its key was evicted or its write dropped; its author resolves in the user table, or Twitter gave no account for it or the ID is no int64 |
| TweetSafety.ReturnedTweetsAreClosed | internal/domain/tweet.go:197-255 | the same, closure, author and content, for the tweet that a finished call returns and everything nested in it |
| TweetSafety.NothingLost | internal/twitter/repository/tweet_repository.go:44-51 | without evictions and dropped writes no key is ever lost, so that the two statements above hold without exception |
| TweetSafety.CopiesCarryTwitterContent | internal/domain/tweet.go:99-141 | with tweets that do not change on Twitter, every copy at every depth carries what Twitter has for its ID in all fields but its type and its own references, whichever worker fetched it and however |
| TweetSafety.ExecKeepsInv | internal/domain/tweet.go:197-255 | the invariant over all workers that carries these results: what each may rely on at each point of the protocol |
| TweetSafety.NobodyUnanswered | internal/domain/tweet.go:147-154 | as long as every question for authors is answered with an account for each author asked for, no author is missing |
| TweetSuccess.CallSucceedsExactly | internal/domain/tweet.go:197-255 | a call returns a tweet exactly when a read finds it, or the first lookup has one tweet whose date parses, the lookup of the references that no read finds has as many tweets whose dates parse, both batches of authors succeed and no write reports an error |
| TweetSuccess.CallSucceedsWithoutFailures | internal/domain/tweet.go:197-255 | when no call fails and every account that Twitter answers with is in the table or can be inserted, this comes down to the numbers of tweets and their dates |
| TweetResult.ResultIsConverted | internal/domain/tweet.go:216-224 | a call that fetches its tweet returns it as the response gives it, without a type of its own |
| TweetResult.ReferenceIsCachedOrFetched | internal/domain/tweet.go:99-141 | each of its references is the cached tweet of one that a read finds, or a tweet of the lookup as the response gives it, with the type under which its ID is listed last |
| TweetResult.CallReturnsExactly | internal/domain/tweet.go:197-255 | the value of a call that returns, as a function of the cache and the answers: the cached tweet, or the fetched one with the copies found and then the copies fetched |
| TweetResult.CallStoresExactly | internal/domain/tweet.go:226-248 | and the cache it leaves: every copy in order and then the parent, each if its write lands |
| TweetResult.RunsKeepNormalised | internal/twitter/repository/tweet_repository.go:44-51 | in every interleaving every tweet sits under its own ID, and no author name has a capital |
| TweetResult.ReferencesArePermuted | internal/domain/tweet.go:99-141 | for every split of the references into found and missing, failed reads among the missing, a call that fetches the tweet returns it with a permutation of Twitter's references and with Twitter's content; a call that finds it returns the cached value |
| TweetResult.RetweetIsRecognisedExactly | internal/domain/tweet.go:105-131 | a fetched tweet is recognised as a retweet exactly when a reference that is found was cached as a retweet, or one that is not found has that type in the last reference with its ID |
| TweetResult.ComesAsListed | internal/domain/tweet.go:126-131 | with distinct IDs, a reference that no read finds has just the type it is listed with |
| TweetLimits.RetweetIsMissed | internal/twitter/models/tweet.go:43-50 | a retweet whose original is in the cache as a tweet of its own: every call succeeds and the result is no retweet |
| TweetHistory.FinishIsARun | internal/domain/tweet.go:197-255 | a call that runs alone is one of the interleavings, so all of the above holds for it |
| TweetHistory.WriteOnce | internal/domain/tweet.go:105-112 | over any sequence of calls, whichever fail and wherever, with reads that succeed, no value under a key changes |
| TweetHistory.CopiesStayEqual | internal/domain/tweet.go:235-245 | each copy inside a stored tweet, at every depth, equals the stored tweet of its ID, now and after any further calls |
| TweetHistory.OnlyTheRequestedTweetRefers | internal/domain/tweet.go:197-255 | of the keys that one call adds only the requested tweet can have references |
| TweetHistory.SecondHandTweetsHaveNoReferences | internal/domain/tweet.go:209-214 | a tweet first stored as a reference is later returned without references, whatever Twitter lists for it |
| TweetLimits.FailedReadReplaces | internal/domain/tweet.go:209-216 | inputs that show it: a failed read leads to the value under an existing key being replaced |
| TweetLimits.PlainTweetStaysExactly | internal/domain/tweet.go:209-224 | a cached tweet without references keeps its value exactly when the read succeeds or the fetched tweet is what the cache holds |
| TweetLimits.CallPreservesExactly | internal/domain/tweet.go:107-112 | a call that returns changes no value under a key exactly when it finds its tweet, or everything it fetches although it is cached is cached with just that value |
| TweetLimits.FailingCallsPreserve | internal/domain/tweet.go:155-160 | and such a call changes none either when it fails on the way or writes are dropped |
| TweetLimits.OnlyFailedReadsAskAgain | internal/domain/tweet.go:107-112 | a cached reference is fetched again exactly when a read of it failed |
| TweetConcurrency.WriteOnceTogether | internal/domain/tweet.go:197-255 | in any interleaving of any number of workers, with reads that succeed, writes that are done when they are reported, and nothing evicted, whichever other calls fail, no value under a key changes, as long as no read misses a key that another worker has missed and is still on the way to write |
| TweetConcurrency.CopiesAgreeTogether | internal/domain/tweet.go:231-237 | and in such an interleaving every nested copy, at any depth, equals the stored tweet of its ID |
| TweetConcurrency.AloneIsApart | internal/domain/tweet.go:197-255 | a call that runs alone is one of these interleavings |
| TweetLimits.ConcurrentCallsOverwrite | internal/domain/tweet.go:107-112 | two workers, no failure and nothing lost, and yet a stored value changes |
| TweetLimits.DroppedWriteLeavesADanglingCopy | internal/cache/redis.go:26-47 | a run without reported errors and evictions whose stored tweet holds a copy that is not in the cache |
| TweetLimits.StoredKeysExactly | internal/domain/tweet.go:155-160 | from the first write of a copy on, a key is in the cache at the end exactly when it was there before or a write under it landed, of a copy or of the parent |
| TweetLimits.ClosedUnlessDropped | internal/cache/redis.go:26-47 | all references of a returned tweet are in the cache exactly when each was there before or the answer to its own write says that it landed |
| TweetService.TweetService.GetTweet | internal/twitter/repository/tweet_repository.go:33-42 | a hit returns the stored tweet with its author name in lower case; a miss and a failed read return none |
| TweetService.TweetService.Store | internal/twitter/repository/tweet_repository.go:44-51 | a write replaces exactly one key with the normalised tweet, or is dropped and recorded |
| TweetService.TweetService.FetchRawTweet | internal/domain/tweet.go:164-193 | an answer counts only when it has as many tweets as were asked for |
| TweetService.TweetService.CollectReferencedTweets | internal/domain/tweet.go:103-112 | the loop that separates cached from missing references is the machine going through them |
| TweetService.TweetService.ReferenceType | internal/domain/tweet.go:126-131 | the type of the last listed reference with the ID, and no type when none has it |
| TweetService.TweetService.ConvertFetched | internal/domain/tweet.go:125-139 | every fetched tweet is converted with its type, or none is returned |
| TweetService.TweetService.FetchReferencedTweets | internal/domain/tweet.go:99-141 | the whole of fetchReferencedTweets is that stretch of the machine |
| TweetService.TweetService.SaveReferencedTweets | internal/domain/tweet.go:143-162 | authors first, then every copy in order, stopping at the first failure |
| TweetService.TweetService.SaveFetched | internal/domain/tweet.go:226-254 | references, author and parent are saved in this order; a call that gets through has asked for the authors of all references and then for the author of the tweet |
| TweetService.TweetService.SaveTweetAndReferences | internal/domain/tweet.go:197-255 | the call as written, in place, ends in exactly the state and result of the machine running alone; it asks Twitter for its tweet, unless it is cached, and then for exactly the references that no read finds |
| TweetService.AskingIsABatch | internal/domain/users.go:97-119 | creating users from IDs inside the protocol is BatchCreateUsersFromIDs |
| Users.FindById | internal/repository/user.go:82-89 | a row with the ID, and none exactly when there is none |
| Users.FindByName | internal/repository/user.go:90-95 | a row with the name, and none exactly when there is none |
| Text.LowerForgetsCase | internal/repository/user.go:79-79 | two texts are alike in lower case exactly when they differ at most in which letters are capitals |
| Text.IsInt64Exactly | internal/repository/user.go:82-82 | digits, with or without a sign, are an ID exactly when there is one at least and the signed number fits into 64 bits; nothing else is |
| UserRules.GetForgetsCase | internal/repository/user.go:79-79 | capitals in what is asked for make no difference |
| UserRules.GetExactly | internal/repository/user.go:78-98 | in a table without a name or an ID twice, the lookup returns exactly the row with the number as its ID, or without one the row of that name, with its ID and key; none exactly when there is no such row |
| UserRules.InsertExactly | internal/repository/user.go:46-60 | an insert is refused exactly when the name is taken, capitals or not, and otherwise appends the ID, the key and the name in lower case |
| Text.WrittenIsInt64Exactly | internal/repository/user.go:82-82 | a number in decimal counts as an ID exactly when it fits into a signed 64-bit integer |
| Users.GetByIdExactly | internal/repository/user.go:78-98 | for an int64 the lookup succeeds exactly when a row has the ID or the name, and answers with that ID exactly when a row has it |
| UserRules.CreationExactly | internal/domain/users.go:146-165 | a creation succeeds exactly when the date parses, the name is free and the insert reports no error; exactly one row comes, unless the insert fails without effect |
| UserRules.BatchSucceedsExactly | internal/domain/users.go:97-119 | a batch from IDs succeeds exactly when no call fails and each account is in the table before it or can be inserted; said of accounts with int64 IDs and one name each, no two of the same name and none named like an ID |
| UserRules.NewRowsAreAccounts | internal/domain/users.go:102-118 | every row it adds, whatever fails, is the row of one of its accounts that was not in the table |
| UserRules.CreateNamedExactly | internal/domain/users.go:122-142 | one name of the other batch: when it succeeds and what row it adds; for a known user the answer of Twitter changes nothing |
| UserRules.NamesSucceed | internal/domain/users.go:121-144 | when no call fails and Twitter answers with accounts of the names, the batch by name succeeds |
| Users.UserService.BatchCreateUsersFromIDs | internal/domain/users.go:97-119 | one question for all the IDs; the loop then computes the new table, whether the batch succeeded, and the list of users it returns |
| Users.ReturnedAreTheRows | internal/domain/users.go:102-118 | a successful batch returns one user for each account, in order: for an int64 ID what the table answers for it afterwards |
| Users.UserService.BatchCreateUsers | internal/domain/users.go:121-144 | the same for the batch by name, which asks Twitter even for known users |
| Users.CreateMissingExtends | internal/domain/users.go:97-119 | whatever fails, rows are only added behind the old ones; names stay lower-case and unique |
| Users.CreateFromNamesExtends | internal/domain/users.go:121-144 | the same for the batch by name |
| Users.BatchesNeverRekey | internal/repository/user.go:46-60 | over any sequence of both batches no existing row changes, its key included |
| Users.BatchResolves | internal/domain/users.go:103-117 | after a successful batch every account with an int64 ID is found by it |
| Users.RepeatedBatchCreatesNothing | internal/domain/users.go:103-117 | repeating a successful batch later, whatever fails, creates no row |
| Users.NamesResolve | internal/domain/users.go:121-144 | after a successful batch by name every name is found, if Twitter answers with the account of the name |
| Users.RepeatedNamesCreateNothing | internal/domain/users.go:121-144 | repeating it later creates no row |
| Users.OneRowPerId | internal/domain/users.go:103-117 | with int64 IDs no ID gets two rows, also when a batch repeats one |
| Users.OneRowPerName | internal/domain/users.go:121-144 | with one fixed name for each account the batch by name gives no ID two rows |
| Users.BatchesKeepOneRowEach | internal/domain/users.go:97-144 | over any sequence of both kinds of batches, whatever fails, each account has at most one row, under its one name |
| Users.OwnRowExactly | internal/repository/user.go:82-95 | a successful creation of one account from its ID leaves a row with that ID exactly when there was one or no other account has that number as its name |
| Users.IdsNeverUncover | internal/domain/users.go:97-119 | over any sequence of batches from IDs, whatever fails, an account hidden by another's name gets no row |
| Users.NamesUncover | internal/domain/users.go:121-144 | a batch with the hidden account's own name creates its row |
| TwitterClient.TextsNeverMeet | internal/twitter/client.go:24-29 | the texts of the three families of Redis keys are injective and pairwise disjoint for all names and IDs |
| TwitterClient.Client.GetUser | internal/twitter/client.go:111-161 | cache, lookup by name, the order in which errors are read, and the two cache writes; Twitter is asked exactly when the name is not cached |
| TwitterClient.Client.SearchCache | internal/twitter/client.go:164-180 | the loop over the cache with a possible failure or eviction at each read |
| TwitterClient.Client.GetUserByIDs | internal/twitter/client.go:163-206 | the whole call: what the cache has, and one lookup for exactly the rest |
| TwitterRules.GetUserExactly | internal/twitter/client.go:111-150 | which account is returned, and when the answer is that there is none: the cache first, then not-found before any other error |
| TwitterRules.GetUserCaches | internal/twitter/client.go:151-158 | after it asked Twitter the account is under its name and under its ID, unless the write took no effect or was evicted since; nothing else comes |
| TwitterRules.GetUserOnlyReads | internal/twitter/client.go:111-150 | a lookup that the cache answers, or that fails, changes the cache by evictions only |
| TwitterRules.GetUserByIDsExactly | internal/twitter/client.go:163-206 | there is a result exactly when no read fails and, unless all are cached, the lookup succeeds without errors: the cached accounts in order, and then what Twitter answers |
| TwitterRules.GetUserByIDsOnlyReads | internal/twitter/client.go:163-206 | the cache changes by evictions only |
| TwitterClient.SearchSplits | internal/twitter/client.go:164-180 | cached and missing accounts are together exactly the requested ones |
| TwitterClient.CachedLookupIsLookup | internal/twitter/client.go:163-206 | on distinct IDs, for any cache content and eviction, the result is as a multiset what Twitter holds, and with calls that succeed there is a result exactly when Twitter holds every account |
| TwitterClient.LookupsKeepFresh | internal/twitter/client.go:152-158 | over any sequence of lookups the cache holds nothing but what a frozen Twitter holds |
| Poller.TwitterPoller.RefreshUserList | internal/twitter/poller/poller.go:60-70 | the list is replaced, also by nothing; success only with at least one user |
| Poller.TwitterPoller.HandleTweet | internal/twitter/poller/poller.go:135-155 | one task for each follower in order, up to the first failure |
| Poller.TwitterPoller.FetchTweets | internal/twitter/poller/poller.go:72-133 | list, index, cursors and queue after one call, for every failure |
| PollerRules.HandleExactly | internal/twitter/poller/poller.go:112-155 | the loop over the tweets gets through exactly when no call about any of them fails, and has then queued one task for each tweet and follower in order; otherwise exactly what came before the first failure |
| PollerRules.FetchExactly | internal/twitter/poller/poller.go:72-133 | a call polls the user at its position, at the end of the list the head of a new one: all tasks and this user's cursor and the next position, or on an error neither cursor nor position |
| PollerRules.QueryExactly | internal/twitter/poller/poller.go:93-108 | and it asks Twitter for the account of that user, after that user's cursor, or without one since the start |
| PollerRules.SweepServesEachPosition | internal/twitter/poller/poller.go:82-132 | over polls without errors the n-th is for the user at the n-th position, whose tasks are queued; a cursor is the newest tweet of the last poll of its user that had any |
| Poller.TwitterPoller.Start | internal/twitter/poller/poller.go:157-195 | it starts only with a non-empty list and then makes one FetchTweets for each tick, errors or not |
| PollerRuns.NoTweetIsLostExactly | internal/twitter/poller/poller.go:93-131 | every tweet of a user since the start and not after the cursor was served by the poll that moved the cursor past it, exactly when no successful poll of the user faced more than 100 new tweets; what was served is queued for each follower asked for, and failed polls lose nothing |
| PollerRuns.AsksForTheWindow | internal/twitter/poller/poller.go:104-108 | the query of a poll is about exactly the new tweets of its user |
| PollerRuns.UnservedIsNeverQueued | internal/twitter/poller/poller.go:115-125 | without a failed poll of the user, a tweet that was not served is queued for nobody |
| PollerLimits.TheOldestIsLost | internal/twitter/poller/poller.go:95-124 | a run without any failure, 101 posts and one poll, in which a tweet that the cursor has passed is queued for nobody |
| PollerRuns.WholeWindow | internal/twitter/poller/poller.go:95-103 | an answer holds all new tweets exactly when there are at most 100 |
| PollerRuns.DuplicatesAreBounded | internal/twitter/poller/poller.go:104-131 | a task is queued at most once more often than polls of its user failed, although the user list repeats a user for each follower |
| PollerRuns.QueuedExactlyOnce | internal/twitter/poller/poller.go:104-131 | without a failed poll of the user, and with at most 100 new tweets per poll, each tweet is queued exactly once for each follower |
| PollerRuns.CursorsNeverDecrease | internal/twitter/poller/poller.go:124-124 | in every run cursors never go back and queued tasks stay queued |
| PollerRuns.SweepVisitsInOrder | internal/twitter/poller/poller.go:82-132 | between two refreshes the successful polls visit 0, 1, 2, ... once each in order, the index never passes the end, and an error keeps the position |
| PollerRuns.AccessIsInRange | internal/twitter/poller/poller.go:82-93 | in every reachable state the access to the current user is in range, unless the list was just renewed and is empty |
| Ticker.PeriodIsTheQuotient | internal/twitter/poller/poller.go:179-179 | the period of the ticker is fifteen minutes divided by the limit, without a rest |
| Ticker.RunKeepsPace | internal/twitter/poller/poller.go:179-194 | each start lies between its own tick and the tick of any later start |
| Ticker.StartsTakeFirstTicks | internal/twitter/poller/poller.go:179-187 | each start receives the first tick that fires from the start before it on; the ticks behind it up to the start are dropped |
| Ticker.AtMostOneMoreThanTheLimit | internal/twitter/poller/poller.go:40-43 | at most 1501 starts in any half-open fifteen minutes |
| Ticker.OneTooManyExactly | internal/twitter/poller/poller.go:179-194 | the window that opens with a start holds one start too many exactly when no tick is dropped from the next start on and the two gaps between starts and ticks at its ends stay together under one period |
| Ticker.OnTimeKeepsTheLimit | internal/twitter/poller/poller.go:40-43 | a window that opens with a start at its own tick holds at most 1500 |
| Ticker.TheLimitIsExceeded | internal/twitter/poller/poller.go:179-194 | 1501 starts in fifteen minutes do occur |
| SendTask.Worker.HandleSendTweet | internal/worker/tasks/handlers/send_sweet.go:24-102 | an attempt posts exactly when everything before the post succeeds; it has no error exactly when the inbox also accepts, and its error asks for another try exactly on a rate limit |
| SendTask.Worker.Process | internal/worker/handler.go:23-48 | finished exactly when the attempt posts and the inbox accepts, retried exactly on a rate limit, archived otherwise |
| SendTask.Worker.RunTask | internal/worker/tasks/send_tweet.go:37-44 | the attempts of one task, six at most, and the last verdict |
| SendTask.VerdictExactly | internal/worker/handler.go:33-45 | a task is finished exactly when the first attempt without a rate limit posts and is accepted, archived when that one fails, and left to be retried when all six meet rate limits |
| SendTask.PostsOnceExactly | internal/worker/tasks/handlers/send_sweet.go:41-94 | a task posts at most once over all attempts, and does so exactly when an attempt gets through after nothing but rate limits |
| SendTask.InboxPostsAreBounded | internal/worker/tasks/handlers/send_sweet.go:81-94 | from the poll to the inbox: a follower gets a tweet at most once more often than polls of the user failed |
| SendTask.DueTweetsAreDelivered | internal/twitter/poller/poller.go:115-125 | when no successful poll of the user faced more than 100 new tweets, the tweet is queued for the follower and reaches the inbox exactly when one of its entries gets through, perhaps after rate limits |
| Voter.GrantedExactly | internal/authorization/voter/ActivityVoter.go:27-64 | granted exactly: following, a single actor, a slash in its path, and a full name that ends with an entry of one of the voters |
| Voter.HostEntryExactly | internal/authorization/voter/ActivityVoter.go:37-54 | an entry "@host" grants exactly the actors of that host |
| Voter.UserEntryExactly | internal/authorization/voter/ActivityVoter.go:37-64 | an entry "@name@host" grants, on that host, exactly the name and what ends with "@name" |
| Voter.BareEntryExactly | internal/authorization/voter/ActivityVoter.go:47-51 | an entry without "@" grants exactly the hosts that end with it |
| Voter.GrantedByOneEntry | internal/authorization/access_decision_manager.go:20-30 | any number of voters and entries grants exactly what one of the entries grants alone, and only the attribute for following |
| InboxSafety.LastEffectDecides | internal/domain/inbox.go:112-171 | in every run a pair is in the follower table exactly when the last insert or delete of it is an insert |
| InboxSafety.DeletedInBetween | migrations/000003_followers.up.sql:1-5 | between two inserts of a pair there is a delete of it |
| InboxSafety.ExecKeepsInv | internal/domain/inbox.go:112-241 | the invariant over all concurrent requests that carries these results |
| InboxRuns.AtMostOneAnswer | internal/domain/inbox.go:137-159 | a request schedules at most one of Accept and Reject |
| InboxRuns.AcceptAfterOwnInsert | internal/domain/inbox.go:150-159 | an Accept comes only after the request's own insert for the same user |
| InboxRuns.RejectInsertsNothing | internal/domain/inbox.go:137-148 | a request that schedules a Reject inserts nothing |
| InboxRuns.EffectsAreEntitled | internal/domain/inbox.go:101-241 | an actor enters or leaves the table only by a request of its own about the user that request names, and enters only if it may follow |
| InboxRuns.FollowersAreAuthorised | internal/domain/inbox.go:112-171 | every row joins a user that exists and an actor that exists and is authorised |
| InboxRuns.OneRowPerActor | internal/domain/inbox.go:173-195 | concurrent requests of a new actor never give it two rows |
| InboxRuns.FailureIsReported | internal/domain/inbox.go:112-241 | an error of any call, wherever it stands, ends the request with an error |
| InboxRuns.FollowEnds | internal/domain/inbox.go:112-171 | how a Follow ends and what it changes: the pair and one Accept, or one Reject, or nothing; when any call fails, that it answers with an error after a first part of that; and when every call succeeds, the verdict and its effect without exception |
| InboxRuns.ActorRowExactly | internal/domain/inbox.go:173-195 | a request leaves the actor table as it is, or adds the one row of its own actor, whom it did not hold, with the fetched key |
| InboxRuns.SecondFollowIsRefused | migrations/000003_followers.up.sql:4-4 | the same Follow again fails, changes nothing and gets no Accept |
| InboxRuns.UndoEnds | internal/domain/inbox.go:197-241 | how an Undo ends and what it changes: it deletes exactly the pair of its Follow, whether it is there or not; when any call fails, that it answers with an error after all of that or nothing; and when every call succeeds, the verdict and its effect without exception |
| InboxRuns.UndoRestores | internal/domain/inbox.go:197-241 | Follow and then Undo leaves the follower table as it was |
| InboxRuns.AloneIsARun | internal/domain/inbox.go:112-241 | a request that nobody interrupts is one of the interleavings, so all of the above holds for it |
| Text.SplitPathExactly | internal/domain/inbox.go:102-103 | the pieces of a path hold no slash, and joined by slashes they are the path |
| Voter.HostnameIsRecovered | internal/authorization/voter/ActivityVoter.go:62-62 | the host name or address that an actor is compared under is the one its URL was written with, with or without a port, and without the brackets of an address |
| Voter.LastPieceIsTheTail | internal/authorization/voter/ActivityVoter.go:56-64 | the name taken from a path is what follows its last slash |
| InboxService.InboxService.GetUserFromURL | internal/domain/inbox.go:101-110 | the user that the last piece of the path names |
| InboxService.InboxService.CreateActorIfNoExist | internal/domain/inbox.go:173-195 | the row of the actor, found or created with a fetched key |
| InboxService.InboxService.CreateActor | internal/repository/actor.go:36-57 | a new row unless the identifier or the URL is taken |
| InboxService.InboxService.FollowUser | internal/repository/user.go:62-68 | the insert of the pair under the keys of the table |
| InboxService.InboxService.Follow | internal/domain/inbox.go:112-171 | the call as written, in place, ends in exactly the state and answer of the machine running alone |
| InboxService.InboxService.UnFollow | internal/domain/inbox.go:197-241 | the same for an Undo |
| Relations.RemoveEachTakesThem | internal/models/users.go:658-673 | removal by swapping with the last takes exactly one occurrence of each given object from the list |
| RelationRules.AddExactly | internal/models/users.go:557-599 | an add gets through exactly when none of its inserts is refused, present or repeated; then its pairs are rows and each list has what was added behind it; otherwise the pairs before the refused one are rows and every list stays |
| RelationRules.RemoveExactly | internal/models/users.go:631-696 | a removal fails exactly when the database refuses something to remove, and then changes nothing; otherwise exactly the pairs go, and each list loses what was removed from it |
| RelationRules.ReplaceExactly | internal/models/users.go:607-626 | after a replacement the rows of the owner are exactly those of the new list, up to an insert that is refused; no other row comes or goes |
| Relations.AddKeepsTwoSided | internal/models/users.go:557-599 | an add keeps the count of each object in the list of another equal to the reverse count, also when it fails |
| Relations.RemoveKeepsTwoSidedExactly | internal/models/users.go:631-696 | a removal keeps the two sides equal exactly when it fails or finds the owner itself in each list it searches by key |
| Relations.RemoveKeepsTwoSided | internal/models/actors.go:635-700 | with one object for each key every removal keeps them equal |
| Relations.TwoObjectsForOneKeyDisagree | internal/models/users.go:678-696 | with two objects for one key a removal makes them differ |
| Relations.ReplaceKeepsTwoSidedExactly | internal/models/users.go:607-626 | replacing a list keeps the two sides equal exactly when the delete fails or the new list drops nobody |
| JoinRows.ListedKeysAreRows | migrations/000003_followers.up.sql:1-5 | when the lists mirror the table, the keys a user lists are its rows, without repetition |
| JoinRows.InsertsAllExactly | internal/models/users.go:567-582 | the loop of inserts gets through exactly when no pair is refused, in the table already, or given twice |
| JoinRows.AddKeepsMirroredExactly | internal/models/users.go:567-587 | an add keeps the lists a mirror of the table exactly when its first pair is refused or all its pairs can be inserted, told from the table before it |
| JoinRows.HalfAnAddBreaksTheMirror | internal/models/users.go:567-587 | two users added to an actor, the second refused: a row that no list shows |
| JoinRows.RemoveKeepsMirrored | internal/models/users.go:636-673 | a removal always does |
| JoinRows.CallsKeepTwoSided | internal/models/actors.go:561-603 | over any sequence of adds and removals on either side, whichever fail, the two sides agree |
| JoinRows.CallsKeepMirrored | internal/models/users.go:557-599 | and as long as no add of the sequence can stop halfway the lists are exactly the rows of the table |
| Records.Record.AddRelated | internal/models/users.go:557-599 | AddActors and AddUsers in place: table, own list and the lists of the others |
| Records.Record.TakeKey | internal/models/users.go:683-694 | the inner loop that takes out the first object with a key by moving the last one into its place |
| Records.Record.TakeObject | internal/models/users.go:659-671 | the inner loop that takes out one occurrence of a pointer |
| Records.Record.TakeFrom | internal/models/users.go:678-696 | removeActorsFromUsersSlice and its mirror image |
| Records.Record.RemoveRelated | internal/models/users.go:631-676 | RemoveActors and RemoveUsers in place |
| Records.Record.SetRelated | internal/models/users.go:607-626 | SetActors and SetUsers in place |
| Loading.Arguments | internal/models/users.go:457-471 | the argument list holds every name of the slice exactly once |
| Loading.HandOut | internal/models/users.go:536-548 | the loop over the rows, in place |
| Loading.LoadingGroups | internal/models/users.go:536-548 | with distinct names each user gets, behind its old list, exactly the rows with its name, and each loaded actor points back to that user |
| Loading.NoRowIsLost | internal/models/users.go:536-548 | the shares together are the rows: none is lost or handed out twice |
| Loading.RowsKeepTheirOrder | internal/models/users.go:536-541 | a user's rows are in the order of the query |
| Loading.RowIsFound | internal/models/users.go:536-541 | and every row with the name is among them |
| QueryCache.MakeCacheKey | internal/models/boil_types.go:34-52 | the two loops write kind, columns, a dot if needed, and defaults |
| QueryCache.MakeUpsertKey | internal/models/users.go:973-1000 | the key of an upsert as it is built in line |
| QueryCache.ColumnsAreCodes | internal/models/users.go:121-126 | the column names of both tables are prefix-free, without dots, and do not start like a number |
| QueryCache.CacheKeyInjective | internal/models/boil_types.go:34-52 | on such names the key determines kind, columns and defaults |
| QueryCache.UpsertKeyInjective | internal/models/users.go:973-1000 | the same for the five parts of the upsert key |
| QueryCache.Model.Insert | internal/models/users.go:757-820 | what is sent to the database is always the query built afresh; it is remembered exactly when the database took it, and no other entry of any cache changes |
| QueryCache.Model.Update | internal/models/users.go:828-883 | the same for updates |
| QueryCache.Model.Upsert | internal/models/users.go:955-1061 | the same for upserts |
| QueryCache.StoresStayFaithful | internal/models/users.go:759-883 | in every interleaving of threads, what the insert or the update cache answers for columns of the table is the query built afresh |
| QueryCache.UpsertStoresStayFaithful | internal/models/users.go:973-1061 | the same for the upsert cache |

## Left out

- HTTP routing, templates, logging, tracing, configuration and start-up: they carry no state that these results depend on.
- Keys and signatures are opaque values; the vocabulary of ActivityStreams and the encodings of tasks, tweets and users are taken to lose nothing.
- SQL text, hooks and scanning: the tables are sequences, maps and sets with their declared keys, and building a query is any function of its columns. Deleting a row of one table never cascades here, because nothing in the modelled code deletes users or actors.
- `user.go` asks the user table twice for a number; the two questions are one step of the machines.
- TwitterClient.Client.GetUserByIDs: the saver sees one answer for it and not its single cache reads, which are modelled on their own.
- Letters outside ASCII are not changed by the lower-case mapping, and time zones of tweets are not modelled: a time is a number or does not parse.
- Poller.TwitterPoller.Start: the sleep between two questions for users and the end by a cancelled context are not modelled; the loop ends with its list of ticks.
- Ticker.OneTooManyExactly: a tick fires exactly at a multiple of the period; a runtime that sends a tick late is not modelled.
- PollerRuns.NoTweetIsLostExactly: Twitter's side is part of the statement: a timeline is the newest tweets of the asked window, at most a hundred; IDs and times of an account grow; a name keeps its account.
- SendTask.PostsOnceExactly: the timeout of ten seconds, a crash of the worker and a panic are not modelled; after one of them the queue may run a task again.
- TweetSafety.StoredTweetsAreClosed: when a key expires in Redis is left open: it may be evicted at any step.
- Inbox.Begin: a property that is not one IRI makes the request panic; what the HTTP server then answers is not modelled.
- Records.Record.AddRelated: the option to insert the related objects first is not modelled, nor is the backing array that two users share when the same slice is given to both while neither has a list yet.
- Loading.HandOut: loading for a single user, which overwrites its list, is left out as the easy case; LoadUsers is the mirror image.
- The lists that GetWithFollowers and GetFollowers return are answers of the environment: the results of the poller hold for every list, with a user repeated or not.
- The retries of the Accept and Reject tasks, and the accounts, notes and inboxes that other handlers serve.
