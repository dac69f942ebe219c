# go-commons: a verified model of its stateful parts

`go-commons` is a collection of small Go modules. This project models the parts of it that hold real
state machines, loops or arithmetic, and proves what they do over whole runs and for all inputs:

| files | part of the system |
|---|---|
| `Text`, `Codec`, `Cursor` | Go strings as bytes, standard base64 and hex, page cursors and UUID text |
| `Keyset`, `Paging` | the row order and its one descending listing; page requests and pages |
| `SqlPagination`, `SqlRequests`, `SqlChangingWalk`, `SqlStaticWalk`, `SqlFlags` | the PostgreSQL paginator, what single requests return, walks over a changing and over a fixed table, the exact meaning of its flags |
| `RedisPagination`, `RedisRequests`, `RedisChangingWalk`, `RedisWalk`, `RedisBackwardWalk`, `BackendAgreement` | the sorted-set paginator, walks with tied scores over a changing and over a fixed set, and both paginators side by side |
| `InMemDelivery`, `InMemPubSub` | the in-memory pub/sub: delivery over all runs, and the index that is edited while it is iterated |
| `KafkaClaims`, `KafkaShutdown` | the consumer-group acknowledgement loop and the shutdown of a standalone subscription |
| `BlockingQueue` | the cyclic blocking queue with concurrent takers |
| `Money` | scaling amounts with bounded-precision floats |
| `SignedCookie` | signed cookie values and the key ring |
| `RandString` | the bit-caching random string loop |
| `ErrorTranslation` | application errors through gRPC and back |

Code that works step by step is modelled as methods on arrays and classes and proved against
specification functions; the guarantees are lemmas about those functions. Concurrency is modelled as
step machines whose runs are arbitrary interleavings; `ConsumeClaim` and `Refill` are in addition
written as loops and proved to be runs of their machines.

What is outside the system enters as a parameter: time and float text as functions with a parse that
inverts the format (`TimeText`, `ScoreText`), HMAC as a function with 32-byte tags, random draws as a
function of the draw number, the clock reading of a call, the table as each statement sees it, and
what other goroutines do between two steps. A row is its key `(created_at, id)`; identifiers compare
bytewise, as UUID columns and text columns in the C collation do; that UUID texts sort as their bytes is
proved. A score is its rank among the float64 values. Statements of one paginator call are not in a
transaction in the code, so the model gives each its own snapshot.

## Results that differ from what one might expect

- The probe against the direction of travel starts from the far end of the page
  (`pagination/psql_pagination.go:260-287`). `SqlFlags` shows a table on which HasPreviousPage is true
  although nothing precedes the page, against the comment in `pagination/types.go:55-61`, a mirror
  table for Last=k and HasNextPage, a table with a row without an identifier on which HasPreviousPage of
  a Last=k page is wrong, and proves exactly when the flags are right.
- A cursor comes back as the same key exactly if the identifier is non-empty and colon-free and the
  time is non-zero.
- Converting an amount to units and back can lose a smallest unit, and from 2^63 on also gain one:
  one thousandth at three decimals comes back as zero, and 11020228474075705008 at seven decimals comes
  back one higher. It never moves by more than one, whole units of either sign are exact, and for every
  amount `Money.ScalingExactly` says if and only if it comes back: the rounded quotient scaled back must
  fall short by at most half an ulp and must not overshoot by more than half a unit, a half going to the
  even side. Below 2^63 the first condition alone decides.
- Closing a subscription can hang for want of a receiver: the send of an error event has no cancellation
  branch (`pubsub/kafkasarama/kafkasarama_subscriber.go:166-170`). Close can return without a receiver
  exactly if no goroutine is reporting an error, but that is no guarantee: a goroutine at the outer select
  may take a queued error although the context is done. Close is certain to return without a receiver
  exactly if every goroutine is past the outer select and none is reporting. Both have an example.
- With tied scores the Redis walk leaves members out: exactly those tied with the last score of some
  page that sort beyond it; two members with one score and pages of one are an example. Read off the set
  alone, a walk shows everything if and only if no page of size k, counted off from the top (from the end
  for Last=k), ends between two members of the same score. If scores change during a walk, a member can be
  shown twice, but only with a lower score the second time.

## Model

| member | source | states |
|---|---|---|
| Text.StrLessIs | pagination/psql_pagination.go:153-159 | the order of identifiers: at the first difference the smaller byte comes first, and a proper prefix before its extensions |
| Codec.Base64RoundTrip | pagination/cursor.go:26-39 | decoding an encoding returns the bytes, for every byte string, with a decoder that skips CR and LF |
| Codec.EncodeAlphabet | httpserver/signed_cookie.go:165-170 | an encoding consists of the 64 symbols and the padding character only |
| Codec.SymbolsAre | httpserver/signed_cookie.go:165-170 | the 64 symbols and their values are those of RFC 4648, section 4 |
| Codec.EncodeIs | httpserver/signed_cookie.go:165-170 | the bits of three bytes are the bits of four symbols, in order; one or two bytes at the end are padded with zero bits and equals signs |
| Codec.DecodeSkipsNewlines | pagination/cursor.go:34-39 | a CR or LF anywhere makes no difference to the decoder |
| Codec.DecodeAccepts | pagination/cursor.go:34-39 | without CR and LF, exactly the texts of whole groups with at most two padding characters at the end decode |
| Codec.DecodeFullQuantum | pagination/cursor.go:34-39 | four symbols decode to the three bytes their 24 bits make, in front of the rest |
| Codec.DecodePaddedQuantum | pagination/cursor.go:34-39 | a padded group decodes to one or two bytes, whatever the unused low bits of its last symbol are |
| Codec.HexRoundTrip | httpserver/signed_cookie.go:189-226 | hex decoding inverts hex encoding |
| Codec.HexEncodeAt | httpserver/signed_cookie.go:224-226 | each byte becomes two lower-case digits, the high half first |
| Codec.HexDecodesExactly | httpserver/signed_cookie.go:189-192 | exactly the texts of even length made of hex digits of either case decode |
| Codec.HexValueIs | httpserver/signed_cookie.go:189-192 | the value of a hex digit, in either case |
| Codec.HexDecodeAt | httpserver/signed_cookie.go:189-192 | each decoded byte is made of its two digits, the high half first |
| Codec.HexOrder | pagination/cursor.go:57-64 | hex texts of byte strings of the same length compare as the bytes do |
| Cursor.CursorBox.SetString | pagination/cursor.go:34-55 | the receiver takes the decoded key on success and is unchanged on each of the three errors |
| Cursor.CutAtFirstColon | pagination/cursor.go:41-44 | the cut lies at the end of the identifier exactly if the identifier has no colon |
| Cursor.CursorRoundTrip | pagination/cursor.go:20-55 | the cursor text decodes to the same key if and only if the identifier is non-empty and colon-free and the time is non-zero |
| Cursor.CursorTextIs | pagination/cursor.go:20-32 | a cursor text is base64 of identifier, colon and time; it is empty if and only if the identifier is empty or the time is zero |
| Cursor.ParseExactly | pagination/cursor.go:34-55 | which texts decode to which key, and which of the three errors the others give: not base64, no colon, no time behind the first colon |
| Cursor.ItemCursorDecodes | pagination/cursor.go:66-114 | the cursor of an item, sent back, gives its time and its text or its sixteen bytes; byte identifiers of other lengths are an error |
| Cursor.UuidReadsBack | pagination/cursor.go:57-64 | the text of a 16-byte identifier has dashes at exactly four places, and its hex digits read back as the identifier |
| Cursor.UuidAddressable | pagination/cursor.go:100-114 | a row with a 16-byte identifier and a non-zero time always has a usable cursor |
| Cursor.UuidInjective | pagination/cursor.go:57-64 | distinct identifiers have distinct texts |
| Cursor.UuidOrder | pagination/cursor.go:57-64 | the texts of two 16-byte identifiers compare as the identifiers do |
| Cursor.ScoreRoundTrip | pagination/redis_pagination.go:261-278 | a score cursor decodes to its score |
| Keyset.DescLists | pagination/psql_pagination.go:131-145 | the descending listing is strictly descending and has exactly the rows of the set |
| Keyset.ListingUnique | pagination/psql_pagination.go:131-145 | no other sequence lists the set in descending order |
| Keyset.BelowRowAt | pagination/psql_pagination.go:153-159 | the strict condition with an existing row's key selects exactly the rows listed after it |
| Keyset.OverRowAt | pagination/psql_pagination.go:172-178 | the opposite condition selects exactly the rows listed before it |
| Paging.ReverseItems | pagination/psql_pagination.go:184-184 | the array holds its old contents in reverse |
| SqlPagination.QueryItems | pagination/psql_pagination.go:123-188 | the array holds the first rows below the After key, the last rows above the Before key in listing order, or all rows below the After key |
| SqlPagination.DecodeArgument | pagination/psql_pagination.go:30-42 | an absent cursor stays absent, a present one is decoded or rejected |
| SqlPagination.AttachCursors | pagination/psql_pagination.go:58-97 | every item carries its own row's cursor; the start and end cursors are the first and last row's |
| SqlPagination.ForwardPageInfo | pagination/psql_pagination.go:255-293 | the flags are what the probes from the page end, the cursor or the current time find |
| SqlPagination.BackwardPageInfo | pagination/psql_pagination.go:295-335 | the flags are what the probes from the page start, the cursor or the zero time find |
| SqlPagination.ListItems | pagination/psql_pagination.go:24-120 | the page, or the cursor error, is the specified function of the snapshots and the request, and every item carries its own row's cursor |
| SqlRequests.RejectedExactly | pagination/psql_pagination.go:30-42 | a request is rejected if and only if After is malformed or else Before is, with the error that says how |
| SqlRequests.ItemsCarryOwnCursors | pagination/psql_pagination.go:93-113 | on every page over any snapshots each item's cursor decodes to its own row, the page cursors are those of its first and last item, and the total is what the count statement saw |
| SqlRequests.ResumeAtItem | pagination/psql_pagination.go:131-185 | from the cursor of any item of any page, First=k shows the next k rows of the listing, Last=k the k rows in front, and no limit the whole rest |
| SqlRequests.OtherCursorUnread | pagination/psql_pagination.go:123-188 | First requests read Before, Last requests After and unlimited ones Before only to reject them |
| SqlRequests.FlagsReadTheirSnapshots | pagination/psql_pagination.go:255-335 | an empty page without a cursor is probed from the present, or from the zero time, on the probes' own snapshots |
| SqlRequests.FarFlagForward | pagination/psql_pagination.go:282-290 | HasPreviousPage of a First=k page says whether the last probe saw a row in front of its last row |
| SqlRequests.FarFlagBackward | pagination/psql_pagination.go:322-332 | HasNextPage of a Last=k page says whether the last probe saw a row behind its first row |
| SqlChangingWalk.PageStep | pagination/psql_pagination.go:147-164 | one more call appends the first k rows below the last row emitted, hands back that row's cursor, and probes from there |
| SqlChangingWalk.WalkInvariant | pagination/psql_pagination.go:123-164 | after any number of calls, a row present throughout is emitted or still below the cursor |
| SqlChangingWalk.ForwardWalkUnderChange | pagination/psql_pagination.go:203-293 | under any inserts and deletes between statements: keys strictly decrease, nothing is emitted twice, and once HasNextPage is false every row present throughout was emitted exactly once |
| SqlChangingWalk.BackwardPageStep | pagination/psql_pagination.go:166-185 | one more Last=k call puts the last k rows above the first row returned in front, hands back the new first row's cursor, and probes from there |
| SqlChangingWalk.BackwardInvariant | pagination/psql_pagination.go:166-185 | after any number of backward calls, a row present throughout is returned or still above the cursor |
| SqlChangingWalk.BackwardWalkUnderChange | pagination/psql_pagination.go:216-335 | the mirror image for Last=k: under any inserts and deletes nothing is returned twice, the pages put back in reverse are strictly descending, and once HasPreviousPage is false every row present throughout was returned exactly once |
| SqlStaticWalk.ForwardCall | pagination/psql_pagination.go:255-293 | First=k from the start or after an existing row shows the next k rows; on a non-empty page both flags say exactly whether rows lie on that side |
| SqlStaticWalk.BackwardCall | pagination/psql_pagination.go:295-335 | the same for Last=k from the end or before an existing row |
| SqlStaticWalk.UnlimitedCall | pagination/psql_pagination.go:131-145 | without First and Last the page is the whole listing and both flags are false |
| SqlStaticWalk.ForwardProgress | pagination/psql_pagination.go:147-164 | after m calls exactly the first m*k rows are out and HasNextPage says whether any are left |
| SqlStaticWalk.ForwardWalkIsListing | pagination/types.go:98-109 | the forward pages concatenated are the descending listing; there are as few pages as hold it, max(1, ceil(n/k)) |
| SqlStaticWalk.CompleteForwardExists | pagination/types.go:98-109 | such a walk exists for every table and page size |
| SqlStaticWalk.BackwardProgress | pagination/psql_pagination.go:166-185 | after m backward calls exactly the last m*k rows are out, in listing order |
| SqlStaticWalk.BackwardWalkIsListing | pagination/types.go:102-109 | the backward pages put back in reverse are the same listing, in the same number of pages |
| SqlStaticWalk.CompleteBackwardExists | pagination/types.go:102-109 | such a walk exists for every table and page size |
| SqlStaticWalk.StepBackReturnsPage | pagination/types.go:102-109 | Last=k before the start of the next page returns the full forward page just left |
| SqlFlags.SplitAtCursor | pagination/psql_pagination.go:153-178 | the listing splits at any cursor, whether or not its row exists |
| SqlFlags.ForwardFlagsExact | pagination/psql_pagination.go:255-293 | for every table and any text that decodes to a cursor, empty identifiers included, HasNextPage is exact, and HasPreviousPage is right if and only if a stated condition on table, cursor and limit holds |
| SqlFlags.BackwardFlagsExact | pagination/psql_pagination.go:295-335 | the mirror image for Last=k: an if and only if for each flag; HasPreviousPage is wrong only if the first row of the page has no identifier and all rows in front of it have its time |
| SqlFlags.GoneCursorMisleads | pagination/psql_pagination.go:282-290 | a concrete table on which HasPreviousPage is true and nothing precedes the page |
| SqlFlags.GoneCursorMisleadsBackward | pagination/psql_pagination.go:322-332 | a concrete table on which HasNextPage of a Last=2 page is true and nothing follows the page |
| SqlFlags.NamelessRowMisleads | pagination/psql_pagination.go:216-226 | a concrete table with a row without an identifier on which HasPreviousPage is false and a row is left in front of the page |
| RedisPagination.QueryForward | pagination/redis_pagination.go:96-123 | the members with a lower score than the cursor, highest first, up to the limit (a limit of zero is no limit), or the cursor error |
| RedisPagination.QueryBackward | pagination/redis_pagination.go:125-154 | the last members with a higher score than the cursor, turned back into listing order, a limit of zero being no limit, or the cursor error |
| RedisPagination.QueryStore | pagination/redis_pagination.go:72-94 | which of the three queries a request runs; First wins over Last |
| RedisPagination.MembersToItems | pagination/redis_pagination.go:56-62 | items, scores and cursors of the members, position by position |
| RedisPagination.HasNextPage | pagination/redis_pagination.go:200-228 | the flag of a non-empty page counts lower scores; the empty-page branches for every combination of arguments |
| RedisPagination.HasPreviousPage | pagination/redis_pagination.go:230-259 | the flag of a non-empty page counts higher scores; the empty-page branches for every combination of arguments |
| RedisPagination.ListItems | pagination/redis_pagination.go:38-70 | the page, or the cursor error, is the specified function of the snapshots and the request; an empty set is answered before any cursor is read |
| RedisRequests.RedisRejectedExactly | pagination/redis_pagination.go:38-54 | only the cursor of the query that runs is rejected, if and only if it is not base64 of a score, and never on an empty set |
| RedisRequests.ItemsCarryOwnScores | pagination/redis_pagination.go:56-70 | on every page each item's cursor decodes to its own score, the page cursors are those of its first and last item, and the total is the cardinality read |
| RedisRequests.FlagsReadTheirSnapshots | pagination/redis_pagination.go:200-259 | flags of a page with members count lower and higher scores on their own snapshots; flags of an empty page for every combination of arguments |
| RedisRequests.ZeroIsNoLimit | pagination/redis_pagination.go:110-116 | First=0 and Last=0 return everything beyond the cursor |
| RedisRequests.ResumeAtScore | pagination/redis_pagination.go:96-154 | from the cursor of any item, First=k shows the highest k members with a lower score and Last=k the lowest k with a higher one |
| RedisChangingWalk.StoreWalkInvariant | pagination/redis_pagination.go:96-123 | after any number of First=k calls over changing stores, a member that kept its score is shown, still below the last score, or tied with the end of some page; the latter are never shown |
| RedisChangingWalk.RedisWalkUnderChange | pagination/redis_pagination.go:38-70 | whatever changes between the commands: rows strictly descend, a member comes again only with a lower score, and once HasNextPage is false a member that kept its score was left out if and only if it ties with the last score of some page and sorts beyond it |
| RedisChangingWalk.ShownOnceIfStable | pagination/redis_pagination.go:96-123 | a member is shown twice only if its score changed during the walk |
| RedisChangingWalk.RescoredMemberShownTwice | pagination/redis_pagination.go:104-116 | a member whose score drops between two calls and that both pages show |
| RedisChangingWalk.RedisBackwardUnderChange | pagination/redis_pagination.go:125-154 | the mirror image for Last=k |
| RedisWalk.RedisForwardWalk | pagination/redis_pagination.go:96-123 | over a whole walk no member appears twice, and at its end the members left out are exactly those tied with some page's last score and sorting beyond it |
| RedisWalk.RedisHasNextMeansNextPage | pagination/redis_pagination.go:200-228 | HasNextPage is true if and only if the following page is not empty |
| RedisWalk.RedisWalkCompleteExactly | pagination/redis_pagination.go:96-123 | a complete walk shows the whole listing if and only if no multiple of the page size, counted off the listing, falls between two members of the same score |
| RedisWalk.TieHidesMember | pagination/redis_pagination.go:104-116 | the member after the first such page end is never shown |
| RedisWalk.TiedMemberIsSkipped | pagination/redis_pagination.go:104-116 | two members with one score and pages of one: a complete walk on which one of them is missing |
| RedisWalk.RedisDistinctScores | pagination/redis_pagination.go:15-16 | in particular with distinct scores a complete walk shows the whole listing, for every page size |
| RedisWalk.CompleteWalkExists | pagination/redis_pagination.go:96-123 | every set has a complete walk |
| RedisWalk.UnlimitedPage | pagination/redis_pagination.go:84-93 | without First and Last the page is the whole set and both flags are false, ties included |
| RedisWalk.EmptyForwardShortcut | pagination/redis_pagination.go:204-215 | an empty forward page has a cursor, and its flags are what counting on both sides of the cursor gives; leaving the cursor's own score out changes that only if all members have it |
| RedisWalk.EmptyBackwardShortcut | pagination/redis_pagination.go:234-245 | the same for backward pages |
| RedisBackwardWalk.RedisBackwardCompleteExactly | pagination/redis_pagination.go:125-154 | the pages of a complete Last=k walk put back in reverse are the whole listing if and only if no page of size k, counted off from the end, begins between two members of the same score |
| RedisBackwardWalk.TieHidesMemberBackward | pagination/redis_pagination.go:133-152 | the member before the first such page start is never returned |
| RedisBackwardWalk.TiedMemberIsSkippedBackward | pagination/redis_pagination.go:133-152 | two members with one score and pages of one: a complete backward walk on which one of them is missing |
| RedisBackwardWalk.CompleteBackwardWalkExists | pagination/redis_pagination.go:125-154 | every set has a complete backward walk |
| BackendAgreement.ImageListing | pagination/redis_pagination.go:15-16 | the sorted set lists the members in the order the table lists the rows |
| BackendAgreement.ForwardAgreement | pagination/redis_pagination.go:38-70 | First=k from the start or after an existing row: same items and totals on both backends and, unless the page is empty, the same flags, meaning a row follows or precedes |
| BackendAgreement.BackwardAgreement | pagination/redis_pagination.go:125-154 | the same for Last=k |
| InMemDelivery.OfferOneMore | pubsub/inmem/pubsub.go:57-67 | one more copy of an event is buffered if there is room and evicts otherwise |
| InMemDelivery.OfferNothing | pubsub/inmem/pubsub.go:47-55 | a subscription that is offered nothing stays as it is |
| InMemDelivery.MatchesCounts | pubsub/inmem/pubsub.go:47-55 | the number of offers is the number of positions of the published list that hold a channel of the subscription |
| InMemDelivery.DeliveredPrefix | pubsub/inmem/pubsub.go:37-71 | in every run, received plus buffered events are a prefix of the ideal stream, and all of it while the subscription is open |
| InMemDelivery.ClosedIsFinal | pubsub/inmem/pubsub.go:127-153 | a closed subscription accepts nothing more and stays closed |
| InMemDelivery.EvictionStopsAtFirstMiss | pubsub/inmem/pubsub.go:57-67 | an evicted subscription holds the ideal stream up to exactly the first event that did not fit |
| InMemDelivery.ClosedOnlyByEvictionOrLeaving | pubsub/inmem/pubsub.go:118-153 | a subscription is closed if and only if a Publish overran it or it was closed by its owner |
| InMemDelivery.PublishOrderIrrelevant | pubsub/inmem/pubsub.go:47-68 | every choice of map iteration orders leads to the same state |
| InMemDelivery.PublishSplits | pubsub/inmem/pubsub.go:47-68 | a Publish is one Publish per entry of its channel list, so receives that fall between its sends are covered by the runs |
| InMemPubSub.Subscription.TrySend | pubsub/inmem/pubsub.go:58-60 | sends if there is room; called only on an open channel |
| InMemPubSub.Subscription.CloseOnce | pubsub/inmem/pubsub.go:128-131 | the Go channel is closed at most once |
| InMemPubSub.Subscription.Receive | pubsub/inmem/subscription.go:32-36 | takes the oldest buffered event, also after the close |
| InMemPubSub.IndexDetermined | pubsub/inmem/pubsub.go:20-21 | an index without empty sets is determined by who is listed where |
| InMemPubSub.PubSub.constructor | pubsub/inmem/pubsub.go:29-34 | starts with an empty index and an empty history, which satisfy the invariants |
| InMemPubSub.PubSub.RemoveSubscription | pubsub/inmem/pubsub.go:127-153 | closes the subscription, takes exactly it off the index, and keeps the invariant: listed under a channel if and only if open and subscribed to it, no empty set |
| InMemPubSub.PubSub.SendOrEvict | pubsub/inmem/pubsub.go:58-66 | one subscription is offered the event once; evicted, it leaves the index |
| InMemPubSub.PubSub.Visit | pubsub/inmem/pubsub.go:57-67 | one round of the pass changes only the visited subscription, and takes nobody else out of the live set |
| InMemPubSub.PubSub.Serve | pubsub/inmem/pubsub.go:51-67 | iterates the live set of the channel while evictions delete from it and may drop the channel: whoever is not yet visited is listed at every round, and each subscription listed at the start is offered the event exactly once, in any order |
| InMemPubSub.PubSub.PublishTo | pubsub/inmem/pubsub.go:51-67 | the open subscriptions of the channel are offered the event once, all others are untouched |
| InMemPubSub.PubSub.Publish | pubsub/inmem/pubsub.go:37-71 | each subscription ends as if offered the event once per matching list entry, repeated names included; an empty list is an error and changes nothing; the call is appended to the history and the state stays the one the history leads to |
| InMemPubSub.PubSub.Subscribe | pubsub/inmem/pubsub.go:78-109 | adds one open, empty subscription under its channels and keeps the invariants; an empty list is an error |
| InMemPubSub.PubSub.Unsubscribe | pubsub/inmem/pubsub.go:118-123 | closes and unlists and keeps the invariants; a second call changes nothing |
| InMemPubSub.PubSub.Receive | pubsub/inmem/subscription.go:32-36 | the owner takes the oldest buffered event; index and history invariants are kept |
| InMemPubSub.PubSub.Delivered | pubsub/inmem/pubsub.go:37-71 | the delivery guarantee of the live objects: after any calls, what a subscription has received and buffered is a prefix of what was published to it since it was made, all of it while it is open, and it is closed if and only if a Publish overran it or it was closed by its owner |
| KafkaClaims.MessageAcker.Respond | pubsub/kafkasarama/kafkasarama_subscriber.go:210-220 | the first Ack or Nack is recorded, and later ones change nothing |
| KafkaClaims.StepKeepsInv | pubsub/kafkasarama/kafkasarama_subscriber.go:334-380 | every step keeps the protocol invariant: contiguous deliveries, verdicts that follow first responses, starts that follow the last mark |
| KafkaClaims.MarksIncrease | pubsub/kafkasarama/kafkasarama_subscriber.go:359-370 | over any sequence of sessions, marked offsets strictly increase and both messages were answered with Ack first |
| KafkaClaims.MarkedWasAcked | pubsub/kafkasarama/kafkasarama_subscriber.go:359-370 | in every run a message is marked only after Ack as its first response, skipped only after Nack, and left alone if nobody answered |
| KafkaClaims.FirstResponseCounts | pubsub/kafkasarama/kafkasarama_subscriber.go:210-220 | in every run the recorded response of a message is the first one it was given, and nothing is recorded for a message nobody answered |
| KafkaClaims.AtLeastOnce | pubsub/kafkasarama/kafkasarama_subscriber.go:326-381 | every offset below the resume point has been delivered |
| KafkaClaims.RedeliveryExactly | pubsub/kafkasarama/kafkasarama_subscriber.go:359-373 | a delivered message is redelivered by the next session, once it gets that far, if and only if neither it nor a later message of its claim was marked |
| KafkaClaims.ConsumeRound | pubsub/kafkasarama/kafkasarama_subscriber.go:336-373 | one message is delivered; acked first it is marked and the mark moves past it, nacked first it is skipped and the mark stays, whatever is called later; a session that ends leaves it undelivered or undecided |
| KafkaClaims.FetchesIs | pubsub/kafkasarama/kafkasarama_subscriber.go:334-352 | a claim takes one message per delivery from the log, and one more if the session ends while it is being sent |
| KafkaClaims.ConsumeClaim | pubsub/kafkasarama/kafkasarama_subscriber.go:326-381 | for any environment, waiting at the end of the log included: delivery l has offset start + l and is marked or skipped by the first answer of round l, an unanswered one is the last; the mark is just past the last marked delivery; and all this is a run of the protocol that ends the session and in which the responses to delivery l are exactly the calls of round l |
| KafkaShutdown.StepKeepsInv | pubsub/kafkasarama/kafkasarama_subscriber.go:144-183 | every step keeps the wait group equal to the goroutines not yet done and the consumers of returned ones closed |
| KafkaShutdown.ClosedOnlyAfterAllReturned | pubsub/kafkasarama/kafkasarama_subscriber.go:228-244 | for any number of partitions and any interleaving, the channel is closed only after every goroutine closed its consumer and returned, and nothing is sent on it afterwards |
| KafkaShutdown.CloseReturnsAloneExactly | pubsub/kafkasarama/kafkasarama_subscriber.go:166-170 | Close can still return without a receiver, if no error is taken up any more, if and only if no goroutine is reporting an error |
| KafkaShutdown.ReportingHoldsUpClose | pubsub/kafkasarama/kafkasarama_subscriber.go:166-170 | one partition reporting an error and then Close: a reachable state from which Close cannot return without a receiver |
| KafkaShutdown.CloseSurelyReturnsExactly | pubsub/kafkasarama/kafkasarama_subscriber.go:144-183 | in every reachable state: whatever happens without a receiver Close can still return, if and only if no goroutine is at the outer select or reporting an error |
| KafkaShutdown.ErrorAfterCancelHangs | pubsub/kafkasarama/kafkasarama_subscriber.go:150-172 | a reachable state after Close cancelled from which Close could return, and from which taking a queued error makes it hang |
| KafkaShutdown.AloneRunsEnd | pubsub/kafkasarama/kafkasarama_subscriber.go:144-183 | without a receiver every run stops within a stated number of steps, and where it stops Close has returned if and only if no goroutine is reporting an error, which is certain if none could report one at the start |
| BlockingQueue.StepKeepsInv | blockingqueue/queue.go:46-67 | takes and refill steps keep the channel a window of the cyclic stream and the stored index its continuation |
| BlockingQueue.FirstTakes | blockingqueue/queue.go:19-31 | on a new queue n takes in a row are possible at once and return the list, and then the queue is empty |
| BlockingQueue.TakesAreCyclic | blockingqueue/queue.go:34-67 | in every interleaving the k-th successful Take returns element k mod n |
| BlockingQueue.ConsecutiveTakesRotate | blockingqueue/queue.go:34-67 | any n consecutive takes are a rotation of the list |
| BlockingQueue.RefillAmounts | blockingqueue/queue.go:45-67 | a Refill with m queued and t takes meanwhile sends at most n-m+t elements, exactly n-m if t is 0 |
| BlockingQueue.RefillProceedsExactly | blockingqueue/queue.go:51-59 | in every run, a Refill that has not found the channel full can go on if and only if the queue has elements; with none its loop would index an empty list |
| BlockingQueue.Queue.constructor | blockingqueue/queue.go:19-31 | the channel holds the elements in order and the index is zero |
| BlockingQueue.Queue.Take | blockingqueue/queue.go:34-43 | takes the head of the channel and records it, or changes nothing if the context is done |
| BlockingQueue.Queue.SendOrStore | blockingqueue/queue.go:58-65 | one round sends the next element, or stores the index if the channel is full |
| BlockingQueue.Queue.Refill | blockingqueue/queue.go:46-67 | with any takes falling between its rounds, a run of the step machine with no other takes, which leaves the channel full unless takes follow the last round |
| Money.RoundingError | value/money/money.go:167-172 | rounding moves a value by at most half a unit in the last place |
| Money.RoundingIs | value/money/money.go:167-172 | rounding at p bits gives the nearest multiple of the unit in the last place, and from the middle the even one; negative values mirror |
| Money.PrecisionIs | value/money/money.go:167-172 | an integer gets 64 bits, or exactly as many as it needs if that is more |
| Money.MultiplierIsPower | value/money/money.go:174-183 | the multiplier is the power of ten: 1 and 10 for zero and one decimal, and a product for a sum of decimals |
| Money.UnitsNear | value/money/money.go:166-172 | an amount in units is within half an ulp of amount / 10^decimals, at the larger precision of the operands |
| Money.RoundingRespectsIntegers | value/money/money.go:186-193 | below 2^p rounding to p bits never jumps over an integer |
| Money.ProductNear | value/money/money.go:186-193 | the product before rounding is less than one away from the amount |
| Money.ScalingBound | value/money/money.go:166-193 | for every amount and every number of decimals, there and back differs by at most one |
| Money.WholeUnitsExact | value/money/money.go:166-193 | multiples of 10^decimals, of either sign, come back exactly |
| Money.ScalingExactly | value/money/money.go:166-193 | for every amount of either sign: it comes back unchanged if and only if a stated condition on the rounded quotient holds, and otherwise one smallest unit towards that quotient, on the same side of zero |
| Money.SmallAmountsExactly | value/money/money.go:166-193 | an amount with a spare bit of precision, such as any below 2^63, never grows, and comes back unchanged if and only if the quotient scaled back falls short by at most half an ulp |
| Money.OneThousandthIsLost | value/money/money.go:166-193 | the amount 1 at three decimals comes back as 0 |
| Money.OneUnitIsGained | value/money/money.go:166-193 | 11020228474075705008 at seven decimals comes back one higher |
| SignedCookie.NewSigner | httpserver/signed_cookie.go:67-94 | the ring is the primary key and the fallbacks; which error the first offending argument gives |
| SignedCookie.VerifySignedValue | httpserver/signed_cookie.go:172-222 | the scan over the keys returns the value or the specified error |
| SignedCookie.CutAtFirstDelimiter | httpserver/signed_cookie.go:177-183 | a payload without dashes ends at the first delimiter |
| SignedCookie.SignVerify | httpserver/signed_cookie.go:165-222 | for every name, value and ring key, verifying a signed value returns the value |
| SignedCookie.SignedBytes | httpserver/signed_cookie.go:165-235 | a signed value is base64, two dashes and the lower-case hex tag of name, NUL and base64 text |
| SignedCookie.SignedValueIsCookieValue | httpserver/signed_cookie.go:165-170 | signed values consist of cookie-octets (section 4.1.1 of RFC 6265) |
| SignedCookie.LargerRingAgrees | httpserver/signed_cookie.go:203-214 | growing the ring never changes an accepted result |
| SignedCookie.RingIsASet | httpserver/signed_cookie.go:203-214 | reordering the ring never changes any result |
| SignedCookie.AcceptedExactly | httpserver/signed_cookie.go:172-222 | a text is accepted with a value if and only if it is a payload, the first two dashes and the hex tag that some ring key gives to name, NUL and payload, and the payload decodes to the value |
| SignedCookie.RejectedExactly | httpserver/signed_cookie.go:172-222 | for each of the six errors, exactly which texts give it |
| SignedCookie.MessageInjective | httpserver/signed_cookie.go:228-235 | name and payload can be recovered from name, NUL and payload |
| SignedCookie.NamesAreBound | httpserver/signed_cookie.go:228-235 | a value signed for one cookie name is accepted for another only if tags of two different messages collide |
| RandString.String | rand/string.go:21-37 | exactly n letters, the reverse of the first n six-bit fields below 52; the last field used is the n-th letter, and there are only as many draws as the fields used need at ten a draw |
| RandString.LettersAre | rand/string.go:10-10 | the 52 letters are a to z and then A to Z |
| RandString.LettersChosen | rand/string.go:26-33 | the letters among the first j fields are exactly the fields below 52, in order |
| RandString.DrawIsItsFields | rand/string.go:26-34 | a draw is its ten six-bit fields, lowest first, and what remains above them |
| RandString.TenFieldsAreFree | rand/string.go:12-16 | any ten field values occur together in one 63-bit draw; an eleventh field could not reach 8 |
| ErrorTranslation.IsGRPCStatus | grpc/grpc_server.go:387-407 | the loop finds the status of the innermost error, if it is one |
| ErrorTranslation.ChainShowsLeaf | grpc/grpc_server.go:387-400 | at any wrap depth the chain is classified by its innermost error |
| ErrorTranslation.ErrorRoundTrip | errors/errorsgrpc/errorsgrpc_client_interceptor.go:23-46 | for any wrap chain around an application error, either server followed by the client restores type, code and message |
| ErrorTranslation.TranslationsAgreeExactly | grpc/server_2.go:59-113 | the two server translations give the same status if and only if the type is not panic |
| ErrorTranslation.CodesExactly | errors/errorsgrpc/errorsgrpc_error_handler.go:68-110 | through any wrap chain on both servers: which types give which status code, one if and only if per code, with the type as message and code and message as the one detail |
| ErrorTranslation.ClientExactly | errors/errorsgrpc/errorsgrpc_client_interceptor.go:23-46 | the client changes an error if and only if it is a status whose one detail is an error response, and takes type, code and message from it |
| ErrorTranslation.PlainMessage | grpc/grpc_server.go:372-378 | the message of a plain error's status is the quoted method name (from the handler), every wrap prefix in order, and the text |
| ErrorTranslation.OtherErrors | grpc/grpc_server.go:337-382 | cancellation gives no error on either server, an inner status is forwarded unchanged by both, anything else becomes an internal status with the whole error text that the client passes on |
| ErrorTranslation.ReportedExactly | grpc/grpc_server.go:337-382 | the handler reports exactly the errors that are neither cancellation nor status nor application error; the interceptor reports these and, without their wrapping, panics and internal errors |

## Left out

- Columns other than the two key columns: the paginators carry them along unread.
- SqlPagination.QueryItems: does not cover a request with both First and Last, to which the contract gives no meaning; what the two chained queries then return depends on how the query builder accumulates clauses.
- SqlPagination.ListItems: the same requests are left out.
- Negative limits, in both paginators.
- Database, Redis and Kafka failures: every statement and command succeeds.
- Time zones in cursor text: a time is an instant and its text is one function of it.
- Reflection in the cursor computation: an item has a string or byte identifier and a time; missing fields and other kinds are not modelled.
- Cookie attributes and HTTP header handling.
- InMemPubSub.PubSub.constructor: does not cover a buffer size of zero, where a send succeeds only while a receiver waits.
- Offset commits that are lost after a mark: a mark is taken to be the resume point of the next session.
- The `big.Float` operand that `fromUnits` overwrites: the model returns the product.
- Random sources that never yield enough letters: `RandString.String` asks for a bound on the fields it needs.
- Joined errors, and the wire encoding of statuses.
- Standalone subscriptions that fail while partitions are being opened.
- The other Kafka subscriber, AMQP workers, Docker helpers, telemetry, loggers, HTTP routing and authentication: plumbing around libraries.
