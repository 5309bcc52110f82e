/** Vocabulary shared by the like and tweet controllers: optional values,
    results, identifiers, the three kinds of like target and the errors the
    handlers raise. */
module Common {

  datatype Option<+T> = None | Some(value: T)

  datatype Result<+T, +E> = Ok(value: T) | Err(error: E)

  /** A document identifier as a client sends it (a route parameter or a
      query value). The empty string is a missing identifier: it is the one
      string value JavaScript treats as false. Identifiers are compared as
      spelled; the normalisation a cast to an object id performs (hex case)
      is not modelled. */
  type Id = string

  /** What a like refers to. A like row carries exactly one reference: to a
      video, to a comment or to a tweet. */
  datatype TargetKind = VideoKind | CommentKind | TweetKind

  /** The text of an error raised by a handler. */
  datatype Message =
    | InvalidTargetId(kind: TargetKind)   // "Invalid videoId", "Invalid commentId", "Invalid tweetId"
    | ContentRequired                     // "Content of tweet is required"
    | TweetIdRequired                     // "Please give tweet ID"
    | NewContentRequired                  // "Please give new content"
    | UpdateFailed                        // "Error in updating the tweet"
    | TweetDoesNotExist                   // "Tweet does not exist in database"
    | CreatingTweet(cause: Failure)       // createTweet's catch, which interpolates the error it caught
    | UpdatingTweet                       // updateTweet's catch, which drops the error it caught
    | FetchingTweets                      // getUserTweets' catch

  /** An error that leaves a handler: an ApiError with its HTTP status, or the
      cast error the database layer raises for a string that is not an
      object id. */
  datatype Failure =
    | ApiError(status: int, message: Message)
    | CastError(value: Id)

  /** A collection with its element at position i deleted. */
  function RemoveAt<T>(s: seq<T>, i: nat): (r: seq<T>)
    requires i < |s|
    ensures |r| == |s| - 1
    ensures forall j :: 0 <= j < i ==> r[j] == s[j]
    ensures forall j :: i <= j < |r| ==> r[j] == s[j + 1]
    ensures multiset(r) + multiset{s[i]} == multiset(s)
  {
    assert s == s[..i] + [s[i]] + s[i + 1..];
    s[..i] + s[i + 1..]
  }
}
