/** The documents of the four collections the controllers read and write:
    likes, tweets, videos and users. Timestamps are not modelled. */
module Documents {
  import opened Common

  /** A like row. The stored document has three optional references
      (video, comment, tweet), of which a toggle sets exactly one; here that
      reference is the pair (kind, target). */
  datatype Like = Like(id: Id, kind: TargetKind, target: Id, likedBy: Id)

  datatype Tweet = Tweet(id: Id, content: string, owner: Id)

  /** The video fields the liked-videos view reads. */
  datatype Video = Video(
    id: Id,
    videoFile: string,
    thumbnail: string,
    title: string,
    description: string,
    duration: real,
    views: nat,
    isPublished: bool,
    owner: Id)

  /** The user fields the views read. */
  datatype User = User(id: Id, username: string, email: string, fullName: string)

  /** A like row refers to (kind, target). */
  predicate On(l: Like, kind: TargetKind, target: Id)
  {
    l.kind == kind && l.target == target
  }

  /** The number of like rows on (kind, target), whoever gave them. */
  function CountOn(likes: seq<Like>, kind: TargetKind, target: Id): (n: nat)
    ensures n <= |likes|
    ensures n == 0 <==> forall l :: l in likes ==> !On(l, kind, target)
  {
    if likes == [] then 0
    else
      assert forall l :: l in likes <==> l == likes[0] || l in likes[1..];
      (if On(likes[0], kind, target) then 1 else 0) + CountOn(likes[1..], kind, target)
  }

  /** No two rows of the collection share an id. */
  predicate DistinctLikeIds(likes: seq<Like>)
  {
    forall i, j :: 0 <= i < j < |likes| ==> likes[i].id != likes[j].id
  }

  predicate DistinctTweetIds(tweets: seq<Tweet>)
  {
    forall i, j :: 0 <= i < j < |tweets| ==> tweets[i].id != tweets[j].id
  }
}
