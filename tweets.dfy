/** The write paths of the tweet controller: createTweet, updateTweet and
    deleteTweet. Each runs its checks, then inserts, updates in place or
    deletes in the tweet collection. The functions give the new collection
    and the answer; the class TweetStore runs them on its collection. */
module Tweets {
  import opened Common
  import opened Documents

  /** The collection after an operation, and what the handler answers. */
  datatype Outcome<+T> = Outcome(tweets: seq<Tweet>, response: Result<T, Failure>)

  /** The request body of updateTweet: an object whose newContent field may
      be missing. */
  datatype UpdateBody = UpdateBody(newContent: Option<string>)

  /** A value JavaScript treats as true: present and not the empty string. */
  predicate Truthy(s: Option<string>)
  {
    s.Some? && s.value != ""
  }

  /** Tweet.findById: the position of the first tweet with the id. */
  function FindTweet(tweets: seq<Tweet>, id: Id): (r: Option<nat>)
    ensures r.Some? ==> r.value < |tweets| && tweets[r.value].id == id
    ensures r.Some? ==> forall j :: 0 <= j < r.value ==> tweets[j].id != id
    ensures r.None? <==> forall j :: 0 <= j < |tweets| ==> tweets[j].id != id
  {
    if tweets == [] then None
    else if tweets[0].id == id then Some(0)
    else match FindTweet(tweets[1..], id)
      case None => None
      case Some(i) => Some(i + 1)
  }

  /** createTweet. Every error raised inside the handler's try block is
      caught and raised again as a 500 that quotes the error it caught. */
  function CreateTweet(tweets: seq<Tweet>, owner: Id, content: Option<string>, newId: Id): Outcome<Tweet>
  {
    if !Truthy(content) then
      Outcome(tweets, Err(ApiError(500, CreatingTweet(ApiError(400, ContentRequired)))))
    else
      var tweet := Tweet(newId, content.value, owner);
      Outcome(tweets + [tweet], Ok(tweet))
  }

  /** The body of updateTweet's try block, before its catch rewrites the
      error: the two presence checks, then findByIdAndUpdate, which fails
      with a cast error on a malformed id and finds nothing for an unknown
      one. The check is on the body object, not on its newContent field; a
      missing newContent is dropped from the update, so the content stays. */
  function UpdateAttempt(tweets: seq<Tweet>, tweetId: Id, body: Option<UpdateBody>,
                         isValidObjectId: Id -> bool): Outcome<Tweet>
  {
    if tweetId == "" then Outcome(tweets, Err(ApiError(400, TweetIdRequired)))
    else if body.None? then Outcome(tweets, Err(ApiError(400, NewContentRequired)))
    else if !isValidObjectId(tweetId) then Outcome(tweets, Err(CastError(tweetId)))
    else match FindTweet(tweets, tweetId)
      case None => Outcome(tweets, Err(ApiError(500, UpdateFailed)))
      case Some(i) =>
        var updated := tweets[i].(content := match body.value.newContent
                                               case Some(c) => c
                                               case None => tweets[i].content);
        Outcome(tweets[i := updated], Ok(updated))
  }

  /** updateTweet: whatever went wrong, the catch answers the same 500. */
  function UpdateTweet(tweets: seq<Tweet>, tweetId: Id, body: Option<UpdateBody>,
                       isValidObjectId: Id -> bool): Outcome<Tweet>
  {
    var attempt := UpdateAttempt(tweets, tweetId, body, isValidObjectId);
    if attempt.response.Err? then Outcome(attempt.tweets, Err(ApiError(500, UpdatingTweet)))
    else attempt
  }

  /** deleteTweet. Its checks run outside the try block, so their errors
      are not rewritten; the existence check comes before the deletion. */
  function DeleteTweet(tweets: seq<Tweet>, tweetId: Id, isValidObjectId: Id -> bool): Outcome<()>
  {
    if tweetId == "" then Outcome(tweets, Err(ApiError(400, TweetIdRequired)))
    else if !isValidObjectId(tweetId) then Outcome(tweets, Err(CastError(tweetId)))
    else match FindTweet(tweets, tweetId)
      case None => Outcome(tweets, Err(ApiError(500, TweetDoesNotExist)))
      case Some(i) => Outcome(RemoveAt(tweets, i), Ok(()))
  }

  /** createTweet without content (missing or empty) fails with a 500 and
      creates nothing; with content it appends exactly one tweet, holding
      that content and owned by the caller, and answers that tweet. */
  lemma CreateTweetSpec(tweets: seq<Tweet>, owner: Id, content: Option<string>, newId: Id)
    ensures var o := CreateTweet(tweets, owner, content, newId);
            && (o.response.Err? <==> !Truthy(content))
            && (o.response.Err? ==> o.tweets == tweets && o.response.error.ApiError?
                                    && o.response.error.status == 500)
            && (o.response.Ok? ==> |o.tweets| == |tweets| + 1 && o.tweets[..|tweets|] == tweets
                                   && o.tweets[|tweets|] == o.response.value
                                   && o.response.value.content == content.value
                                   && o.response.value.owner == owner)
  {
  }

  /** A fresh id keeps the ids of the collection distinct across a create. */
  lemma CreateTweetKeepsIdsDistinct(tweets: seq<Tweet>, owner: Id, content: Option<string>, newId: Id)
    requires DistinctTweetIds(tweets)
    requires forall t :: t in tweets ==> t.id != newId
    ensures DistinctTweetIds(CreateTweet(tweets, owner, content, newId).tweets)
  {
    var o := CreateTweet(tweets, owner, content, newId);
    if Truthy(content) {
      forall i, j | 0 <= i < j < |o.tweets| ensures o.tweets[i].id != o.tweets[j].id {
        assert o.tweets[i] == tweets[i] && tweets[i] in tweets;
      }
    }
  }

  /** updateTweet succeeds exactly when an id and a body are given and a
      tweet has that id. Then only that tweet changes: it takes the new
      content (or keeps its own when the body has none), keeps its id and
      owner, and is what the handler answers. Otherwise nothing changes and
      the answer is the catch's 500, whatever the cause. */
  lemma UpdateTweetSpec(tweets: seq<Tweet>, tweetId: Id, body: Option<UpdateBody>,
                        isValidObjectId: Id -> bool)
    ensures var o := UpdateTweet(tweets, tweetId, body, isValidObjectId);
            && (o.response.Ok? <==> tweetId != "" && body.Some? && isValidObjectId(tweetId)
                                    && exists t :: t in tweets && t.id == tweetId)
            && (o.response.Err? ==> o.tweets == tweets && o.response.error == ApiError(500, UpdatingTweet))
            && (o.response.Ok? ==>
                  && |o.tweets| == |tweets|
                  && exists i :: 0 <= i < |tweets| && tweets[i].id == tweetId
                       && o.tweets[i] == o.response.value
                       && o.response.value.id == tweetId
                       && o.response.value.owner == tweets[i].owner
                       && o.response.value.content
                          == (if body.value.newContent.Some? then body.value.newContent.value else tweets[i].content)
                       && forall j :: 0 <= j < |tweets| && j != i ==> o.tweets[j] == tweets[j])
  {
    if tweetId != "" && body.Some? && isValidObjectId(tweetId) {
      var found := FindTweet(tweets, tweetId);
      if found.None? {
        forall t | t in tweets ensures t.id != tweetId {
          var j :| 0 <= j < |tweets| && tweets[j] == t;
        }
      } else {
        assert tweets[found.value] in tweets;
      }
    }
  }

  /** Before any change, updateTweet's checks raise a 400 for a missing id
      or body; the catch turns every one of them into the same 500. */
  lemma UpdateTweetRewritesErrors(tweets: seq<Tweet>, tweetId: Id, body: Option<UpdateBody>,
                                  isValidObjectId: Id -> bool)
    requires tweetId == "" || body.None?
    ensures UpdateAttempt(tweets, tweetId, body, isValidObjectId).response.error.ApiError?
    ensures UpdateAttempt(tweets, tweetId, body, isValidObjectId).response.error.status == 400
    ensures UpdateTweet(tweets, tweetId, body, isValidObjectId).response == Err(ApiError(500, UpdatingTweet))
  {
  }

  /** deleteTweet succeeds exactly when a well-formed id names a tweet. It
      then removes that tweet alone, keeps the others in order, and answers
      an empty payload; with distinct ids no tweet with the id remains.
      A missing id, a malformed one or an unknown one fails with the
      collection untouched. */
  lemma DeleteTweetSpec(tweets: seq<Tweet>, tweetId: Id, isValidObjectId: Id -> bool)
    ensures var o := DeleteTweet(tweets, tweetId, isValidObjectId);
            && (o.response.Ok? <==> tweetId != "" && isValidObjectId(tweetId)
                                    && exists t :: t in tweets && t.id == tweetId)
            && (o.response.Err? ==> o.tweets == tweets)
            && (tweetId == "" ==> o.response == Err(ApiError(400, TweetIdRequired)))
            && ((tweetId != "" && isValidObjectId(tweetId) && forall t :: t in tweets ==> t.id != tweetId) ==>
                  o.response == Err(ApiError(500, TweetDoesNotExist)))
            && (o.response.Ok? ==>
                  && o.response.value == ()
                  && |o.tweets| == |tweets| - 1
                  && (exists i :: 0 <= i < |tweets| && tweets[i].id == tweetId && o.tweets == RemoveAt(tweets, i))
                  && (DistinctTweetIds(tweets) ==> forall t :: t in o.tweets ==> t.id != tweetId))
  {
    var o := DeleteTweet(tweets, tweetId, isValidObjectId);
    if tweetId != "" && isValidObjectId(tweetId) {
      var found := FindTweet(tweets, tweetId);
      if found.None? {
        forall t | t in tweets ensures t.id != tweetId {
          var j :| 0 <= j < |tweets| && tweets[j] == t;
        }
      } else {
        var i := found.value;
        assert tweets[i] in tweets;
        if DistinctTweetIds(tweets) {
          forall t | t in o.tweets ensures t.id != tweetId {
            var j :| 0 <= j < |o.tweets| && o.tweets[j] == t;
            if j < i {
              assert t == tweets[j];
            } else {
              assert t == tweets[j + 1];
            }
          }
        }
      }
    }
  }

  /** A deletion keeps the ids of the collection distinct. */
  lemma DeleteTweetKeepsIdsDistinct(tweets: seq<Tweet>, tweetId: Id, isValidObjectId: Id -> bool)
    requires DistinctTweetIds(tweets)
    ensures DistinctTweetIds(DeleteTweet(tweets, tweetId, isValidObjectId).tweets)
  {
    var o := DeleteTweet(tweets, tweetId, isValidObjectId);
    if tweetId != "" && isValidObjectId(tweetId) && FindTweet(tweets, tweetId).Some? {
      var k := FindTweet(tweets, tweetId).value;
      forall i, j | 0 <= i < j < |o.tweets| ensures o.tweets[i].id != o.tweets[j].id {
        var i' := if i < k then i else i + 1;
        var j' := if j < k then j else j + 1;
        assert o.tweets[i] == tweets[i'] && o.tweets[j] == tweets[j'];
      }
    }
  }

  /** The tweet collection as the handlers keep it. The like collection is
      another object: no method here can change it, so deleting a tweet
      leaves its likes in place. */
  class TweetStore {
    var tweets: seq<Tweet>

    ghost predicate Valid()
      reads this
    {
      DistinctTweetIds(tweets)
    }

    constructor ()
      ensures Valid() && tweets == []
    {
      tweets := [];
    }

    /** createTweet by `owner`; the database draws `newId` fresh. */
    method Create(owner: Id, content: Option<string>, newId: Id) returns (response: Result<Tweet, Failure>)
      requires Valid()
      requires forall t :: t in tweets ==> t.id != newId
      modifies this
      ensures Valid()
      ensures var o := CreateTweet(old(tweets), owner, content, newId);
              tweets == o.tweets && response == o.response
    {
      CreateTweetKeepsIdsDistinct(tweets, owner, content, newId);
      if !Truthy(content) {
        return Err(ApiError(500, CreatingTweet(ApiError(400, ContentRequired))));
      }
      var tweet := Tweet(newId, content.value, owner);
      tweets := tweets + [tweet];
      response := Ok(tweet);
    }

    /** updateTweet. */
    method Update(tweetId: Id, body: Option<UpdateBody>, isValidObjectId: Id -> bool)
      returns (response: Result<Tweet, Failure>)
      requires Valid()
      modifies this
      ensures Valid()
      ensures var o := UpdateTweet(old(tweets), tweetId, body, isValidObjectId);
              tweets == o.tweets && response == o.response
    {
      if tweetId == "" || body.None? || !isValidObjectId(tweetId) {
        return Err(ApiError(500, UpdatingTweet));
      }
      var found := FindTweet(tweets, tweetId);
      if found.None? {
        return Err(ApiError(500, UpdatingTweet));
      }
      var i := found.value;
      var content := if body.value.newContent.Some? then body.value.newContent.value else tweets[i].content;
      var updated := tweets[i].(content := content);
      tweets := tweets[i := updated];
      response := Ok(updated);
    }

    /** deleteTweet. */
    method Delete(tweetId: Id, isValidObjectId: Id -> bool) returns (response: Result<(), Failure>)
      requires Valid()
      modifies this
      ensures Valid()
      ensures var o := DeleteTweet(old(tweets), tweetId, isValidObjectId);
              tweets == o.tweets && response == o.response
    {
      DeleteTweetKeepsIdsDistinct(tweets, tweetId, isValidObjectId);
      if tweetId == "" {
        return Err(ApiError(400, TweetIdRequired));
      }
      if !isValidObjectId(tweetId) {
        return Err(CastError(tweetId));
      }
      var checkingTweet := FindTweet(tweets, tweetId);
      if checkingTweet.None? {
        return Err(ApiError(500, TweetDoesNotExist));
      }
      tweets := RemoveAt(tweets, checkingTweet.value);
      response := Ok(());
    }
  }
}
