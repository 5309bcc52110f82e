/** getLikedVideos: the aggregation over the like collection that lists
    liked videos with their like count and owner. It is a pure pipeline:
    match the likes that reference a video, look each video up (published
    ones only), count that video's likes, look its owner up, project. */
module LikedVideos {
  import opened Common
  import opened Documents

  /** The owner as the inner lookup projects it (the id stays by default). */
  datatype OwnerView = OwnerView(id: Id, username: string, email: string, fullName: string)

  /** A joined video as the inner pipeline projects it. `likes` is absent
      when the count stage emits nothing, which it does for zero rows. */
  datatype VideoView = VideoView(
    id: Id,
    videoFile: string,
    thumbnail: string,
    title: string,
    description: string,
    duration: real,
    views: nat,
    likes: Option<nat>,
    videoOwner: Option<OwnerView>)

  /** One output row per matched like: the like's id and the joined videos. */
  datatype LikedVideoRow = LikedVideoRow(id: Id, videos: seq<VideoView>)

  /** The handler's payload: an empty object with a message when nothing
      matched, the rows otherwise. */
  datatype LikedVideosPayload = NobodyLiked | AllLiked(rows: seq<LikedVideoRow>)

  /** The match stage: every like row that references a video, whoever gave it. */
  function VideoLikes(likes: seq<Like>): (r: seq<Like>)
    ensures |r| <= |likes|
    ensures forall l :: l in r <==> l in likes && l.kind == VideoKind
  {
    if likes == [] then []
    else
      assert forall l :: l in likes <==> l == likes[0] || l in likes[1..];
      (if likes[0].kind == VideoKind then [likes[0]] else []) + VideoLikes(likes[1..])
  }

  /** The nested count: absent for zero rows, the number of rows otherwise. */
  function TotalLikes(likes: seq<Like>, videoId: Id): Option<nat>
  {
    var n := CountOn(likes, VideoKind, videoId);
    if n == 0 then None else Some(n)
  }

  function ProjectOwner(u: User): OwnerView
  {
    OwnerView(u.id, u.username, u.email, u.fullName)
  }

  /** The owner lookup collapsed to its first element. */
  function FirstOwner(users: seq<User>, ownerId: Id): (r: Option<OwnerView>)
    ensures r.None? <==> forall i :: 0 <= i < |users| ==> users[i].id != ownerId
    ensures r.Some? ==> exists i :: 0 <= i < |users| && users[i].id == ownerId
                          && r.value == ProjectOwner(users[i])
                          && forall j :: 0 <= j < i ==> users[j].id != ownerId
  {
    if users == [] then None
    else if users[0].id == ownerId then Some(ProjectOwner(users[0]))
    else
      var r := FirstOwner(users[1..], ownerId);
      assert forall i :: 0 < i < |users| ==> users[i] == users[1..][i - 1];
      r
  }

  function ProjectVideo(v: Video, likes: seq<Like>, users: seq<User>): VideoView
  {
    VideoView(v.id, v.videoFile, v.thumbnail, v.title, v.description, v.duration, v.views,
              TotalLikes(likes, v.id), FirstOwner(users, v.owner))
  }

  /** The video lookup of one like: the videos with that id, kept only when
      published, each projected with its count and owner. */
  function JoinVideos(videos: seq<Video>, videoId: Id, likes: seq<Like>, users: seq<User>): (r: seq<VideoView>)
    ensures |r| <= |videos|
    ensures forall w :: w in r <==>
              exists v :: v in videos && v.id == videoId && v.isPublished && w == ProjectVideo(v, likes, users)
  {
    if videos == [] then []
    else
      var v := videos[0];
      assert forall x :: x in videos <==> x == v || x in videos[1..];
      (if v.id == videoId && v.isPublished then [ProjectVideo(v, likes, users)] else [])
      + JoinVideos(videos[1..], videoId, likes, users)
  }

  /** The rows of the pipeline for some matched likes. */
  function Rows(matched: seq<Like>, likes: seq<Like>, videos: seq<Video>, users: seq<User>): (r: seq<LikedVideoRow>)
    ensures |r| == |matched|
    ensures forall i :: 0 <= i < |r| ==>
              r[i] == LikedVideoRow(matched[i].id, JoinVideos(videos, matched[i].target, likes, users))
  {
    if matched == [] then []
    else
      [LikedVideoRow(matched[0].id, JoinVideos(videos, matched[0].target, likes, users))]
      + Rows(matched[1..], likes, videos, users)
  }

  /** The aggregation itself. */
  function LikedVideoRows(likes: seq<Like>, videos: seq<Video>, users: seq<User>): seq<LikedVideoRow>
  {
    Rows(VideoLikes(likes), likes, videos, users)
  }

  /** getLikedVideos: the aggregation and the empty-result message. */
  function GetLikedVideos(likes: seq<Like>, videos: seq<Video>, users: seq<User>): (p: LikedVideosPayload)
    ensures p == NobodyLiked <==> forall l :: l in likes ==> l.kind != VideoKind
    ensures p.AllLiked? ==> p.rows == LikedVideoRows(likes, videos, users) && p.rows != []
  {
    var rows := LikedVideoRows(likes, videos, users);
    if |rows| == 0 then
      NobodyLiked
    else
      assert VideoLikes(likes)[0] in VideoLikes(likes);
      AllLiked(rows)
  }

  /** One row per like that references a video, whoever liked it: the view
      is not restricted to the caller's likes. */
  lemma LikedVideosHasOneRowPerVideoLike(likes: seq<Like>, videos: seq<Video>, users: seq<User>)
    ensures var rows := LikedVideoRows(likes, videos, users);
            && |rows| == CountVideoLikes(likes)
            && (forall l :: l in likes && l.kind == VideoKind ==> exists row :: row in rows && row.id == l.id)
            && (forall row :: row in rows ==> exists l :: l in likes && l.kind == VideoKind && row.id == l.id)
  {
    VideoLikesCount(likes);
    RowsComeFromMatched(VideoLikes(likes), likes, videos, users);
  }

  /** Every matched like has a row with its id, and every row has the id of
      a matched like. */
  lemma RowsComeFromMatched(matched: seq<Like>, likes: seq<Like>, videos: seq<Video>, users: seq<User>)
    ensures var rows := Rows(matched, likes, videos, users);
            && (forall l :: l in matched ==> exists row :: row in rows && row.id == l.id)
            && (forall row :: row in rows ==> exists l :: l in matched && row.id == l.id)
  {
    var rows := Rows(matched, likes, videos, users);
    forall l | l in matched ensures exists row :: row in rows && row.id == l.id {
      var i :| 0 <= i < |matched| && matched[i] == l;
      assert rows[i] in rows;
    }
    forall row | row in rows ensures exists l :: l in matched && row.id == l.id {
      var i :| 0 <= i < |rows| && rows[i] == row;
      assert matched[i] in matched;
    }
  }

  /** The number of like rows that reference a video. */
  function CountVideoLikes(likes: seq<Like>): nat
  {
    if likes == [] then 0
    else (if likes[0].kind == VideoKind then 1 else 0) + CountVideoLikes(likes[1..])
  }

  lemma {:induction false} VideoLikesCount(likes: seq<Like>)
    ensures |VideoLikes(likes)| == CountVideoLikes(likes)
  {
    if likes != [] {
      VideoLikesCount(likes[1..]);
    }
  }

  /** The publish filter: a row's videos are published videos with the
      liked id, and a like of a video that is missing or unpublished keeps
      its row, with no videos in it. */
  lemma LikedVideosPublishFilter(likes: seq<Like>, videos: seq<Video>, users: seq<User>, i: nat)
    requires i < |VideoLikes(likes)|
    ensures var row := LikedVideoRows(likes, videos, users)[i];
            var l := VideoLikes(likes)[i];
            && row.id == l.id
            && (forall w :: w in row.videos ==>
                  exists v :: v in videos && v.id == l.target && v.isPublished && w.id == v.id)
            && (row.videos == [] <==> forall v :: v in videos && v.id == l.target ==> !v.isPublished)
  {
    var row := LikedVideoRows(likes, videos, users)[i];
    var l := VideoLikes(likes)[i];
    forall v | v in videos && v.id == l.target && v.isPublished ensures row.videos != [] {
      assert ProjectVideo(v, likes, users) in row.videos;
    }
    if row.videos != [] {
      assert row.videos[0] in row.videos;
    }
  }

  /** Each joined video carries the number of like rows on it, which is at
      least one (the like the row came from), and the first user whose id is
      the video's owner. */
  lemma JoinedVideoCountsAndOwner(likes: seq<Like>, videos: seq<Video>, users: seq<User>,
                                  row: LikedVideoRow, w: VideoView)
    requires row in LikedVideoRows(likes, videos, users)
    requires w in row.videos
    ensures w.likes.Some? && w.likes.value >= 1 && w.likes.value == CountOn(likes, VideoKind, w.id)
    ensures exists v :: v in videos && v.id == w.id && v.isPublished && w.videoOwner == FirstOwner(users, v.owner)
  {
    var matched := VideoLikes(likes);
    var rows := LikedVideoRows(likes, videos, users);
    var i :| 0 <= i < |rows| && rows[i] == row;
    var l := matched[i];
    assert l in matched;
    var v :| v in videos && v.id == l.target && v.isPublished && w == ProjectVideo(v, likes, users);
    assert On(l, VideoKind, w.id);
  }
}
