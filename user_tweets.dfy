/** getUserTweets: the aggregation over the tweet collection that lists a
    user's tweets, each with its owner's username and the users who liked
    it. As written, the stage meant to count the likes builds no count (it
    uses `size` where the operator is `$size`) and the projection asks for
    a field of another name (`likesCount`), so no count reaches the answer.
    UserTweetsAsWritten is that pipeline; UserTweets is the intended one,
    whose entries carry the number of likes. */
module UserTweets {
  import opened Common
  import opened Documents

  /** One entry of the answer. `user` holds the username of every user the
      owner lookup found; `tweetlikes` the likedBy of every like row on the
      tweet; `likesCount` the count of those rows, absent when no stage
      produced it. */
  datatype TweetEntry = TweetEntry(
    id: Id,
    content: string,
    user: seq<string>,
    tweetlikes: seq<Id>,
    likesCount: Option<nat>)

  /** The match stage: the tweets the owner posted, in collection order. */
  function OwnedBy(tweets: seq<Tweet>, owner: Id): (r: seq<Tweet>)
    ensures |r| <= |tweets|
    ensures forall t :: t in r <==> t in tweets && t.owner == owner
  {
    if tweets == [] then []
    else
      assert forall t :: t in tweets <==> t == tweets[0] || t in tweets[1..];
      (if tweets[0].owner == owner then [tweets[0]] else []) + OwnedBy(tweets[1..], owner)
  }

  /** The match stage keeps each owned tweet as many times as the
      collection holds it, and no other tweet. */
  lemma {:induction false} OwnedByMultiplicity(tweets: seq<Tweet>, owner: Id)
    ensures forall t :: multiset(OwnedBy(tweets, owner))[t] == (if t.owner == owner then multiset(tweets)[t] else 0)
  {
    if tweets != [] {
      OwnedByMultiplicity(tweets[1..], owner);
      assert tweets == [tweets[0]] + tweets[1..];
    }
  }

  /** The owner lookup, projected to usernames: the username of every user
      whose id is the owner's, in collection order, so that the first is
      that of the first such user. */
  function Usernames(users: seq<User>, owner: Id): (r: seq<string>)
    ensures |r| <= |users|
    ensures forall s :: s in r <==> exists u :: u in users && u.id == owner && u.username == s
    ensures r == [] <==> forall u :: u in users ==> u.id != owner
    ensures r != [] ==> exists i :: 0 <= i < |users| && users[i].id == owner && r[0] == users[i].username
                                     && forall j :: 0 <= j < i ==> users[j].id != owner
  {
    if users == [] then []
    else
      assert forall u :: u in users <==> u == users[0] || u in users[1..];
      assert forall i :: 0 < i < |users| ==> users[i] == users[1..][i - 1];
      (if users[0].id == owner then [users[0].username] else []) + Usernames(users[1..], owner)
  }

  /** The like lookup, projected to the users who liked the tweet. */
  function Likers(likes: seq<Like>, tweetId: Id): seq<Id>
  {
    if likes == [] then []
    else (if On(likes[0], TweetKind, tweetId) then [likes[0].likedBy] else []) + Likers(likes[1..], tweetId)
  }

  /** The users listed for a tweet are the likers of its like rows, one
      entry per row. */
  lemma {:induction false} LikersAreTheLikeRows(likes: seq<Like>, tweetId: Id)
    ensures |Likers(likes, tweetId)| == CountOn(likes, TweetKind, tweetId)
    ensures forall a :: a in Likers(likes, tweetId) <==>
              exists l :: l in likes && On(l, TweetKind, tweetId) && l.likedBy == a
  {
    if likes != [] {
      LikersAreTheLikeRows(likes[1..], tweetId);
      assert forall l :: l in likes <==> l == likes[0] || l in likes[1..];
    }
  }

  /** An entry as the pipeline as written projects it: no count. */
  function EntryAsWritten(t: Tweet, users: seq<User>, likes: seq<Like>): TweetEntry
  {
    TweetEntry(t.id, t.content, Usernames(users, t.owner), Likers(likes, t.id), None)
  }

  /** An entry as intended: the count is the size of the liker list. */
  function Entry(t: Tweet, users: seq<User>, likes: seq<Like>): TweetEntry
  {
    var likers := Likers(likes, t.id);
    TweetEntry(t.id, t.content, Usernames(users, t.owner), likers, Some(|likers|))
  }

  /** getUserTweets as written. The `user` query value is cast to an object
      id: a malformed one throws, and the catch answers a 500; a missing one
      makes a new id, which no tweet is owned by. */
  function UserTweetsAsWritten(tweets: seq<Tweet>, users: seq<User>, likes: seq<Like>, user: Option<Id>,
                               isValidObjectId: Id -> bool): Result<seq<TweetEntry>, Failure>
  {
    if user.None? then Ok([])
    else if !isValidObjectId(user.value) then Err(ApiError(500, FetchingTweets))
    else
      var owned := OwnedBy(tweets, user.value);
      Ok(seq(|owned|, i requires 0 <= i < |owned| => EntryAsWritten(owned[i], users, likes)))
  }

  /** getUserTweets as intended: the same entries, each with its count. */
  function UserTweets(tweets: seq<Tweet>, users: seq<User>, likes: seq<Like>, user: Option<Id>,
                      isValidObjectId: Id -> bool): Result<seq<TweetEntry>, Failure>
  {
    if user.None? then Ok([])
    else if !isValidObjectId(user.value) then Err(ApiError(500, FetchingTweets))
    else
      var owned := OwnedBy(tweets, user.value);
      Ok(seq(|owned|, i requires 0 <= i < |owned| => Entry(owned[i], users, likes)))
  }

  /** A missing `user` query value lists nothing; a malformed one is the
      catch's 500. Both views agree on these. */
  lemma UserTweetsUserCases(tweets: seq<Tweet>, users: seq<User>, likes: seq<Like>, user: Option<Id>,
                            isValidObjectId: Id -> bool)
    ensures user.None? ==> UserTweets(tweets, users, likes, user, isValidObjectId) == Ok([])
    ensures user.Some? && !isValidObjectId(user.value) ==>
              UserTweets(tweets, users, likes, user, isValidObjectId) == Err(ApiError(500, FetchingTweets))
    ensures user.Some? && isValidObjectId(user.value) ==> UserTweets(tweets, users, likes, user, isValidObjectId).Ok?
  {
  }

  /** One entry per tweet the user owns and no others, each with the
      tweet's id and content: the entries follow the matched tweets
      position by position (OwnedByMultiplicity says how often each owned
      tweet is matched). */
  lemma UserTweetsListsOwnedTweets(tweets: seq<Tweet>, users: seq<User>, likes: seq<Like>, user: Id,
                                   isValidObjectId: Id -> bool)
    requires isValidObjectId(user)
    ensures var r := UserTweets(tweets, users, likes, Some(user), isValidObjectId);
            && r.Ok?
            && |r.value| == |OwnedBy(tweets, user)|
            && (forall i :: 0 <= i < |r.value| ==>
                  r.value[i].id == OwnedBy(tweets, user)[i].id
                  && r.value[i].content == OwnedBy(tweets, user)[i].content)
            && (forall t :: t in tweets && t.owner == user ==>
                  exists e :: e in r.value && e.id == t.id && e.content == t.content)
            && (forall e :: e in r.value ==>
                  exists t :: t in tweets && t.owner == user && e.id == t.id && e.content == t.content)
  {
    var owned := OwnedBy(tweets, user);
    var r := UserTweets(tweets, users, likes, Some(user), isValidObjectId).value;
    assert forall i :: 0 <= i < |r| ==> r[i] == Entry(owned[i], users, likes);
    EntriesMatchTweets(tweets, user, owned, r);
  }

  /** Entries that follow the owned tweets position by position hold the id
      and content of exactly the owned tweets. */
  lemma EntriesMatchTweets(tweets: seq<Tweet>, user: Id, owned: seq<Tweet>, r: seq<TweetEntry>)
    requires forall t :: t in owned <==> t in tweets && t.owner == user
    requires |r| == |owned|
    requires forall i :: 0 <= i < |r| ==> r[i].id == owned[i].id && r[i].content == owned[i].content
    ensures forall t :: t in tweets && t.owner == user ==>
              exists e :: e in r && e.id == t.id && e.content == t.content
    ensures forall e :: e in r ==>
              exists t :: t in tweets && t.owner == user && e.id == t.id && e.content == t.content
  {
    forall t | t in tweets && t.owner == user
      ensures exists e :: e in r && e.id == t.id && e.content == t.content
    {
      var i :| 0 <= i < |owned| && owned[i] == t;
      assert r[i] in r;
    }
    forall e | e in r ensures exists t :: t in tweets && t.owner == user && e.id == t.id && e.content == t.content {
      var i :| 0 <= i < |r| && r[i] == e;
      assert owned[i] in owned;
    }
  }

  /** Each intended entry lists exactly the likers of the like rows on its
      tweet, and its count is the number of those rows. */
  lemma UserTweetsCountsLikes(tweets: seq<Tweet>, users: seq<User>, likes: seq<Like>, user: Option<Id>,
                              isValidObjectId: Id -> bool, e: TweetEntry)
    requires UserTweets(tweets, users, likes, user, isValidObjectId).Ok?
    requires e in UserTweets(tweets, users, likes, user, isValidObjectId).value
    ensures e.likesCount == Some(CountOn(likes, TweetKind, e.id))
    ensures forall a :: a in e.tweetlikes <==> exists l :: l in likes && On(l, TweetKind, e.id) && l.likedBy == a
  {
    var r := UserTweets(tweets, users, likes, user, isValidObjectId).value;
    var i :| 0 <= i < |r| && r[i] == e;
    LikersAreTheLikeRows(likes, e.id);
  }

  /** As written, the answer is the intended one with every count dropped. */
  lemma AsWrittenDropsTheCount(tweets: seq<Tweet>, users: seq<User>, likes: seq<Like>, user: Option<Id>,
                               isValidObjectId: Id -> bool)
    ensures var written := UserTweetsAsWritten(tweets, users, likes, user, isValidObjectId);
            var intended := UserTweets(tweets, users, likes, user, isValidObjectId);
            && written.Ok? == intended.Ok?
            && (written.Err? ==> written == intended)
            && (written.Ok? ==>
                  && |written.value| == |intended.value|
                  && forall i :: 0 <= i < |written.value| ==>
                       written.value[i] == intended.value[i].(likesCount := None))
  {
  }

  /** The defect on a concrete collection: two tweets of one user, liked by
      two users and by one. The intended answer counts 2 and 1; the answer
      as written carries no count at all. */
  lemma AsWrittenLosesLikeCounts()
    ensures var tweets := [Tweet("t1", "first", "a"), Tweet("t2", "second", "a"), Tweet("t3", "other", "b")];
            var users := [User("a", "alice", "alice@example.com", "Alice")];
            var likes := [Like("l1", TweetKind, "t1", "b"), Like("l2", TweetKind, "t1", "c"),
                          Like("l3", TweetKind, "t2", "b"), Like("l4", VideoKind, "t1", "a")];
            var isValid := (s: Id) => s != "";
            var written := UserTweetsAsWritten(tweets, users, likes, Some("a"), isValid);
            var intended := UserTweets(tweets, users, likes, Some("a"), isValid);
            && intended.Ok? && |intended.value| == 2
            && intended.value[0].likesCount == Some(2) && intended.value[1].likesCount == Some(1)
            && written.Ok? && |written.value| == 2
            && written.value[0].likesCount == None && written.value[1].likesCount == None
  {
    var tweets := [Tweet("t1", "first", "a"), Tweet("t2", "second", "a"), Tweet("t3", "other", "b")];
    var likes := [Like("l1", TweetKind, "t1", "b"), Like("l2", TweetKind, "t1", "c"),
                  Like("l3", TweetKind, "t2", "b"), Like("l4", VideoKind, "t1", "a")];
    assert OwnedBy(tweets, "a") == [tweets[0], tweets[1]];
    assert Likers(likes, "t1") == ["b", "c"];
    assert Likers(likes, "t2") == ["b"];
  }
}
