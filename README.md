# Likes and tweets of a video-sharing backend, in Dafny

This project models the core of a video-sharing service's backend: the
like toggles and the liked-videos view of its like controller, and the
tweet create/update/delete handlers and the user-tweets view of its tweet
controller. The database collections (likes, tweets, videos, users) are
sequences of records.

- `common.dfy` (module `Common`): option and result types, identifiers,
  the three kinds of like target, and the errors the handlers raise. An
  error is an `ApiError` with an HTTP status and a message, or the cast
  error the database layer raises for a malformed object id.
- `documents.dfy` (module `Documents`): the like, tweet, video and user
  records. `CountOn` counts the like rows on one target.
- `likes.dfy` (module `Likes`): `ToggleLike` is the one toggle algorithm
  behind `toggleVideoLike`, `toggleCommentLike` and `toggleTweetLike`. It
  takes the target kind as a parameter. The class `LikeStore` holds the
  like collection, and its method `Toggle` runs the algorithm in place. The
  lemmas prove the toggle's three outcomes and the class invariant: at most
  one like per (actor, kind, target). They also prove that the likes of
  other (actor, kind, target) are untouched by a toggle and by a run of
  toggles, and that a run of toggles alternates. After an even number of
  toggles every (actor, kind, target) has as many rows as before; the
  collection itself comes back when the actor had not liked the target.
  When the actor had liked it, re-creating the deleted like appends a new
  row at the end, under the id the database draws for it.
- `liked_videos.dfy` (module `LikedVideos`): the `getLikedVideos`
  aggregation as functions, one per pipeline stage. The stages are the
  match, the video lookup with its publish filter, the nested count, the
  owner lookup collapsed to its first element, and the projection.
- `tweets.dfy` (module `Tweets`): `CreateTweet`, `UpdateTweet` and
  `DeleteTweet` give the new tweet collection and the handler's answer. The
  class `TweetStore` holds the collection, and its methods run these
  operations in place.
- `user_tweets.dfy` (module `UserTweets`): the `getUserTweets` aggregation,
  both as written (no like count reaches the answer) and as intended.

The database assigns the id of each new document. The model passes that id
in as a parameter, and the methods require it to be fresh. Mongoose's
object-id format check is the parameter `isValidObjectId`. The same
predicate decides whether a cast to an object id (`new ObjectId(...)`,
`findById`) succeeds. A missing route parameter is the empty string. A
missing body field is `None`: for `newContent` that keeps the stored
content, while an empty string replaces it. The `user` query value of the user-tweets view is an `Option`
instead: an absent value makes the cast create a new id, while an empty
string fails the cast.

Where the code departs from what the service evidently means to do, the
model follows the code:

- The liked-videos view lists the likes of every user, not only the
  caller's.
- `updateTweet` checks that the request body exists, not that `newContent`
  is non-empty. It accepts empty content.
- `createTweet` and `updateTweet` catch every error and raise it again as
  a 500. A missing id or missing content therefore answers 500, not 400.
- `deleteTweet` answers 500, not a not-found status, for an unknown tweet.
- Unliking a tweet echoes the tweet id in the answer. No other toggle
  answer does.
- Nothing stops two likes for one (actor, target): there is no unique
  index. The invariant holds because toggles run one after another.

## Model

| member | source | states |
|---|---|---|
| `Likes.RowsForMembers` | src/controllers/like.controller.js:15-18 | the rows a lookup by (target, actor) can match are exactly the rows of the collection with that target and actor |
| `Likes.FindLike` | src/controllers/like.controller.js:15-18 | the lookup finds the first row liked by the actor on the target, and finds nothing exactly when no such row exists |
| `Likes.LikeStore.Toggle` | src/controllers/like.controller.js:8-86 | the three toggle handlers on the stored collection: the new collection and the answer are those of `ToggleLike`, and the invariant (at most one like per actor and target, distinct row ids) is kept |
| `Likes.ToggleRejectsInvalidId` | src/controllers/like.controller.js:11-13 | a target id that fails the format check gives a 400 "invalid id" error for that kind, and the collection is unchanged (likewise lines 37-39 and 63-65) |
| `Likes.ToggleRemovesExistingLike` | src/controllers/like.controller.js:15-24 | when the actor has liked the target, one of those rows is deleted and the answer is isLiked = false (tweets also echo the tweet id); the collection shrinks by one, and under the invariant no row for the pair is left |
| `Likes.ToggleAddsMissingLike` | src/controllers/like.controller.js:26-31 | when the actor has not liked the target, exactly one row for (actor, kind, target) is appended and the answer is isLiked = true |
| `Likes.ToggleLeavesOtherKeys` | src/controllers/like.controller.js:15-31 | the rows of every other (actor, kind, target) are the same rows, ids included, in the same order |
| `Likes.TogglePreservesAtMostOnePerKey` | src/controllers/like.controller.js:15-31 | a toggle keeps "at most one like row per (actor, kind, target)" |
| `Likes.AtMostOnePerKeyIffDistinctKeys` | src/controllers/like.controller.js:15-31 | "at most one row per key", stated with counts, holds exactly when no two positions hold the same key |
| `Likes.ToggleTwiceRestores` | src/controllers/like.controller.js:15-31 | two toggles in a row give opposite answers and restore the number of rows of every key; when the actor had not liked the target, they restore the collection itself |
| `Likes.ToggleRunAlternates` | src/controllers/like.controller.js:15-31 | any number of toggles alternate true/false starting from "not liked before"; an even number restores the actor's count on the target, an odd number flips it, and the invariant holds throughout |
| `Likes.RunLeavesOtherKeys` | src/controllers/like.controller.js:15-31 | a run of toggles on one target leaves the rows of every other (actor, kind, target) the same rows, ids included, in the same order |
| `Likes.EvenRunRestoresCounts` | src/controllers/like.controller.js:15-31 | after an even number of toggles every (actor, kind, target) has as many rows as before the run |
| `Likes.EvenRunFromUnlikedRestores` | src/controllers/like.controller.js:15-31 | when the actor had not liked the target, an even number of toggles gives back the collection itself |
| `Documents.CountOn` | src/controllers/like.controller.js:114-122 | the number of like rows on a target is zero exactly when no row refers to it |
| `LikedVideos.VideoLikes` | src/controllers/like.controller.js:95-99 | the match stage keeps exactly the likes that refer to a video, whoever gave them |
| `LikedVideos.FirstOwner` | src/controllers/like.controller.js:127-150 | the owner is the projection of the first user whose id is the video's owner, and is absent exactly when no user has that id |
| `LikedVideos.JoinVideos` | src/controllers/like.controller.js:102-112 | the video lookup holds exactly the projections of the published videos with the liked id |
| `LikedVideos.Rows` | src/controllers/like.controller.js:170-186 | one output row per matched like, in order, with the like's id and that like's video lookup |
| `LikedVideos.GetLikedVideos` | src/controllers/like.controller.js:190-204 | the "nobody liked any video" answer is given exactly when no like refers to a video; otherwise the rows are the aggregation's and are not empty |
| `LikedVideos.LikedVideosHasOneRowPerVideoLike` | src/controllers/like.controller.js:93-100 | as many rows as likes of videos; every like of a video, whoever gave it, has a row, and every row comes from such a like |
| `LikedVideos.LikedVideosPublishFilter` | src/controllers/like.controller.js:101-112 | a row's videos are published videos with the liked id; a like of a missing or unpublished video keeps its row, with an empty video list |
| `LikedVideos.JoinedVideoCountsAndOwner` | src/controllers/like.controller.js:113-150 | every joined video carries a count equal to the number of like rows on it, which is at least 1, and its owner is the first user with the owner id |
| `Tweets.FindTweet` | src/controllers/tweet.controller.js:157 | the lookup finds the first tweet with the id, and finds nothing exactly when no tweet has it |
| `Tweets.CreateTweetSpec` | src/controllers/tweet.controller.js:16-39 | missing or empty content fails with a 500 and creates nothing; otherwise exactly one tweet is appended, with that content and the caller as owner, and it is the answer |
| `Tweets.CreateTweetKeepsIdsDistinct` | src/controllers/tweet.controller.js:21-24 | with a fresh id, a create keeps tweet ids distinct |
| `Tweets.TweetStore.Create` | src/controllers/tweet.controller.js:8-41 | createTweet on the stored collection: the new collection and answer are those of `CreateTweet`, and ids stay distinct |
| `Tweets.UpdateTweetSpec` | src/controllers/tweet.controller.js:117-146 | success exactly when a well-formed id and a body are given and a tweet has that id; then only that tweet changes, it takes the body's newContent (or keeps its content when the body has none), keeps id and owner, and is the answer; otherwise nothing changes and the answer is the catch's 500 |
| `Tweets.UpdateTweetRewritesErrors` | src/controllers/tweet.controller.js:118-124 | a missing id or body raises a 400 inside the handler, and the catch (lines 144-146) turns it into a 500 |
| `Tweets.TweetStore.Update` | src/controllers/tweet.controller.js:109-147 | updateTweet on the stored collection: the new collection and answer are those of `UpdateTweet`, and ids stay distinct |
| `Tweets.DeleteTweetSpec` | src/controllers/tweet.controller.js:153-175 | success exactly when a well-formed id names a tweet; a missing id is a 400, an unknown one a 500, both with nothing changed; on success that one tweet is removed, the others keep their order, the payload is empty, and with distinct ids no tweet with the id remains |
| `Tweets.DeleteTweetKeepsIdsDistinct` | src/controllers/tweet.controller.js:164-168 | a deletion keeps tweet ids distinct |
| `Tweets.TweetStore.Delete` | src/controllers/tweet.controller.js:149-180 | deleteTweet on the stored collection: the new collection and answer are those of `DeleteTweet`; only the tweet collection may change, so the likes of a deleted tweet stay |
| `UserTweets.OwnedBy` | src/controllers/tweet.controller.js:50-54 | the match stage keeps exactly the tweets whose owner is the requested user |
| `UserTweets.OwnedByMultiplicity` | src/controllers/tweet.controller.js:50-54 | the match stage keeps each tweet owned by the user as many times as the collection holds it, and no other tweet |
| `UserTweets.Usernames` | src/controllers/tweet.controller.js:55-62 | the owner lookup lists the username of exactly the users whose id is the tweet's owner, first that of the first such user, and is empty exactly when no user has that id |
| `UserTweets.LikersAreTheLikeRows` | src/controllers/tweet.controller.js:63-77 | the liker list of a tweet has one entry per like row on it, and lists exactly the users of those rows |
| `UserTweets.UserTweetsUserCases` | src/controllers/tweet.controller.js:45-54 | a missing `user` query value lists nothing (the cast makes a new id that owns no tweet), a malformed one is the catch's 500 (lines 104-105), and a well-formed one succeeds |
| `UserTweets.UserTweetsListsOwnedTweets` | src/controllers/tweet.controller.js:48-54 | one entry per matched tweet, in order, each with that tweet's id and content, so that with `OwnedByMultiplicity` every owned tweet has exactly one entry per copy in the collection, and no other tweet has one |
| `UserTweets.UserTweetsCountsLikes` | src/controllers/tweet.controller.js:78-92 | in the intended view each entry lists exactly the likers of the tweet, and its count is the number of like rows on it |
| `UserTweets.AsWrittenDropsTheCount` | src/controllers/tweet.controller.js:78-92 | the view as written is the intended view with every count removed, and fails exactly when the intended one does |
| `UserTweets.AsWrittenLosesLikeCounts` | src/controllers/tweet.controller.js:78-92 | for two tweets with 2 and 1 likes, the intended view counts 2 and 1, but the view as written carries no count |

## Findings

| source | as written | input that shows it | evidently intended | confidence | as-written member | corrected member |
|---|---|---|---|---|---|---|
| src/controllers/tweet.controller.js:78-92 | the count stage writes `size` where the operator is `$size`, so it builds no count; the projection then asks for `likesCount`, a field that does not exist | user "a" owns tweets t1 and t2, liked by two users and by one: the entries carry no count | each entry carries `likeCount`, the number of likes of the tweet (2 and 1) | high; not executed | `UserTweets.AsWrittenLosesLikeCounts` | `UserTweets.UserTweetsCountsLikes` |

## Left out

- HTTP: response envelopes, status codes other than those in the error values, `asyncHandler`, routing and logging are not modelled. `src/index.js` (connection bootstrap) and `src/routes/user.routes.js` are not part of this model.
- The object-id format check and the cast to an object id are one uninterpreted predicate, a function parameter. New ids come from the database. They are method parameters that the methods require to be fresh.
- Storage faults are not modelled. Without them, the catches wrap only the handlers' own errors. The null checks after a create, an aggregate or a delete (`if (!tweet)`, `if (!tweets)`, `if (!deletedTweet)`) never fire in a sequential model.
- Concurrency: two toggles racing between the lookup and the write are not modelled. Toggles run one after another.
- Timestamps (`createdAt`) are not modelled. Aggregate results come out in collection order. The source promises no order, and the lemmas about membership and counts do not depend on it.
- The stored like document has three optional references. The model has one tagged reference, so a row with several references cannot be expressed. The toggles never create one.
- The caller is always authenticated: `req.user` is present. An absent user id would drop `likedBy` from the lookup.
- Request values of types other than string (numbers, objects) are not modelled.
- The schemas of the tweet, like, video and user models are not part of this model, so no schema validation is modelled.
- In `updateTweet`, a body without `newContent` leaves the content unchanged. This follows how current Mongoose drops undefined keys from an update. Older Mongoose versions would store null instead.
- New ids are fresh only with respect to the current collection. The database never reuses an object id, but the model lets the id of a deleted row be drawn again.
- Identifiers are compared as spelled. The source compares them after a cast to an object id, which normalises hex case, so the model treats two spellings of one object id (upper and lower case hex) as different ids.
- The user lookup of the user-tweets view keeps only usernames. A user document without a username is not modelled.
