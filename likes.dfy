/** The like toggles of the like controller: toggleVideoLike,
    toggleCommentLike and toggleTweetLike are one algorithm on the three kinds
    of target. Validate the target id, look up the caller's like of that
    target, delete it if there is one, create it otherwise. */
module Likes {
  import opened Common
  import opened Documents

  /** Who liked which target: the fields a toggle looks a like up by. */
  datatype LikeKey = LikeKey(likedBy: Id, kind: TargetKind, target: Id)

  function KeyOf(l: Like): LikeKey
  {
    LikeKey(l.likedBy, l.kind, l.target)
  }

  /** The rows of the collection with the given key, in collection order. */
  function RowsFor(likes: seq<Like>, key: LikeKey): (r: seq<Like>)
    ensures |r| <= |likes|
  {
    if likes == [] then []
    else (if KeyOf(likes[0]) == key then [likes[0]] else []) + RowsFor(likes[1..], key)
  }

  /** The rows with a key are exactly the rows of the collection that have
      that key. */
  lemma {:induction false} RowsForMembers(likes: seq<Like>, key: LikeKey)
    ensures forall l :: l in RowsFor(likes, key) <==> l in likes && KeyOf(l) == key
  {
    if likes != [] {
      RowsForMembers(likes[1..], key);
      assert forall l :: l in likes <==> l == likes[0] || l in likes[1..];
    }
  }

  /** The number of rows with the given key. */
  function Count(likes: seq<Like>, key: LikeKey): nat
  {
    |RowsFor(likes, key)|
  }

  /** No row has the key exactly when the count is zero. */
  lemma CountZero(likes: seq<Like>, key: LikeKey)
    ensures Count(likes, key) == 0 <==> forall l :: l in likes ==> KeyOf(l) != key
  {
    RowsForMembers(likes, key);
    if Count(likes, key) > 0 {
      assert RowsFor(likes, key)[0] in RowsFor(likes, key);
    }
  }

  /** The invariant of the like collection: at most one row per
      (actor, kind, target). */
  ghost predicate AtMostOnePerKey(likes: seq<Like>)
  {
    forall key :: Count(likes, key) <= 1
  }

  /** The same invariant stated on positions: no two rows share a key. */
  predicate DistinctKeys(likes: seq<Like>)
  {
    forall i, j :: 0 <= i < j < |likes| ==> KeyOf(likes[i]) != KeyOf(likes[j])
  }

  /** Like.findOne({<kind>: target, likedBy: actor}): the position of the
      first row with the key, or None when there is none. */
  function FindLike(likes: seq<Like>, key: LikeKey): (r: Option<nat>)
    ensures r.Some? ==> r.value < |likes| && KeyOf(likes[r.value]) == key
    ensures r.Some? ==> forall j :: 0 <= j < r.value ==> KeyOf(likes[j]) != key
    ensures r.None? <==> forall j :: 0 <= j < |likes| ==> KeyOf(likes[j]) != key
  {
    if likes == [] then None
    else if KeyOf(likes[0]) == key then Some(0)
    else match FindLike(likes[1..], key)
      case None => None
      case Some(i) => Some(i + 1)
  }

  /** The payload of a successful toggle. toggleTweetLike echoes the tweet
      id when it removes a like; no other branch does. */
  datatype ToggleResponse = ToggleResponse(isLiked: bool, tweetId: Option<Id>)

  /** The collection after a toggle, and what the handler answers. */
  datatype ToggleOutcome = ToggleOutcome(likes: seq<Like>, response: Result<ToggleResponse, Failure>)

  /** One toggle by `actor` on (kind, target). `newId` is the id the database
      gives a row it creates; `isValidObjectId` is the id-format check. */
  function ToggleLike(likes: seq<Like>, kind: TargetKind, target: Id, actor: Id, newId: Id,
                      isValidObjectId: Id -> bool): ToggleOutcome
  {
    if !isValidObjectId(target) then
      ToggleOutcome(likes, Err(ApiError(400, InvalidTargetId(kind))))
    else match FindLike(likes, LikeKey(actor, kind, target))
      case Some(i) =>
        ToggleOutcome(RemoveAt(likes, i),
                      Ok(ToggleResponse(false, if kind == TweetKind then Some(target) else None)))
      case None =>
        ToggleOutcome(likes + [Like(newId, kind, target, actor)], Ok(ToggleResponse(true, None)))
  }

  /** The rows with a key of a concatenation are those of its parts. */
  lemma {:induction false} RowsForConcat(a: seq<Like>, b: seq<Like>, key: LikeKey)
    ensures RowsFor(a + b, key) == RowsFor(a, key) + RowsFor(b, key)
  {
    if a == [] {
      assert a + b == b;
    } else {
      var head := if KeyOf(a[0]) == key then [a[0]] else [];
      calc {
        RowsFor(a + b, key);
      == { assert a + b == [a[0]] + (a[1..] + b); }
        RowsFor([a[0]] + (a[1..] + b), key);
      == { RowsForCons(a[0], a[1..] + b, key); }
        head + RowsFor(a[1..] + b, key);
      == { RowsForConcat(a[1..], b, key); }
        head + (RowsFor(a[1..], key) + RowsFor(b, key));
      == { assert head + (RowsFor(a[1..], key) + RowsFor(b, key)) == (head + RowsFor(a[1..], key)) + RowsFor(b, key); }
        (head + RowsFor(a[1..], key)) + RowsFor(b, key);
      == { RowsForCons(a[0], a[1..], key); assert a == [a[0]] + a[1..]; }
        RowsFor(a, key) + RowsFor(b, key);
      }
    }
  }

  /** The rows with a key around one row in the middle of a collection,
      with and without that row. */
  lemma RowsForSplit(before: seq<Like>, x: Like, after: seq<Like>, key: LikeKey)
    ensures RowsFor(before + ([x] + after), key)
              == RowsFor(before, key) + (if KeyOf(x) == key then [x] else []) + RowsFor(after, key)
    ensures RowsFor(before + after, key) == RowsFor(before, key) + RowsFor(after, key)
  {
    RowsForConcat(before, [x] + after, key);
    RowsForCons(x, after, key);
    RowsForConcat(before, after, key);
  }

  /** The rows with a key of a collection that starts with x. */
  lemma RowsForCons(x: Like, rest: seq<Like>, key: LikeKey)
    ensures RowsFor([x] + rest, key) == (if KeyOf(x) == key then [x] else []) + RowsFor(rest, key)
  {
    assert ([x] + rest)[0] == x && ([x] + rest)[1..] == rest;
  }

  /** Deleting one row removes it from the rows of its own key and leaves the
      rows of every other key as they were. */
  lemma RowsForRemoveAt(likes: seq<Like>, i: nat, key: LikeKey)
    requires i < |likes|
    ensures KeyOf(likes[i]) != key ==> RowsFor(RemoveAt(likes, i), key) == RowsFor(likes, key)
    ensures KeyOf(likes[i]) == key ==> Count(RemoveAt(likes, i), key) == Count(likes, key) - 1
  {
    var before, x, after := likes[..i], likes[i], likes[i + 1..];
    assert likes == before + ([x] + after);
    assert RemoveAt(likes, i) == before + after;
    RowsForSplit(before, x, after, key);
  }

  /** Appending a row adds it to the rows of its own key only. */
  lemma RowsForAppend(likes: seq<Like>, l: Like, key: LikeKey)
    ensures RowsFor(likes + [l], key) == RowsFor(likes, key) + (if KeyOf(l) == key then [l] else [])
  {
    RowsForConcat(likes, [l], key);
    assert [l][1..] == [];
  }

  /** The invariant holds exactly when no two positions share a key. */
  lemma {:induction false} AtMostOnePerKeyIffDistinctKeys(likes: seq<Like>)
    ensures AtMostOnePerKey(likes) <==> DistinctKeys(likes)
  {
    if likes == [] {
    } else {
      var tail := likes[1..];
      AtMostOnePerKeyIffDistinctKeys(tail);
      assert likes == [likes[0]] + tail;
      forall key ensures Count(likes, key) == (if KeyOf(likes[0]) == key then 1 else 0) + Count(tail, key) {
        RowsForConcat([likes[0]], tail, key);
        assert [likes[0]][1..] == [];
      }
      if AtMostOnePerKey(likes) {
        forall key ensures Count(tail, key) <= 1 {
          assert Count(likes, key) <= 1;
        }
        var key0 := KeyOf(likes[0]);
        assert Count(tail, key0) == 0 by {
          assert Count(likes, key0) <= 1;
        }
        RowsForMembers(tail, key0);
        forall j | 0 < j < |likes| ensures KeyOf(likes[0]) != KeyOf(likes[j]) {
          assert likes[j] == tail[j - 1];
          assert likes[j] !in RowsFor(tail, key0);
        }
        assert DistinctKeys(likes) by {
          forall i, j | 0 <= i < j < |likes| ensures KeyOf(likes[i]) != KeyOf(likes[j]) {
            if i > 0 {
              assert likes[i] == tail[i - 1] && likes[j] == tail[j - 1];
            }
          }
        }
      }
      if DistinctKeys(likes) {
        assert DistinctKeys(tail) by {
          forall i, j | 0 <= i < j < |tail| ensures KeyOf(tail[i]) != KeyOf(tail[j]) {
            assert tail[i] == likes[i + 1] && tail[j] == likes[j + 1];
          }
        }
        var key0 := KeyOf(likes[0]);
        assert forall l :: l in tail ==> KeyOf(l) != key0 by {
          forall j | 0 <= j < |tail| ensures KeyOf(tail[j]) != key0 {
            assert tail[j] == likes[j + 1];
          }
        }
        CountZero(tail, key0);
        forall key ensures Count(likes, key) <= 1 {
          assert Count(tail, key) <= 1;
        }
      }
    }
  }

  /** An id that fails the format check is an error, and the collection does
      not change. */
  lemma ToggleRejectsInvalidId(likes: seq<Like>, kind: TargetKind, target: Id, actor: Id, newId: Id,
                               isValidObjectId: Id -> bool)
    requires !isValidObjectId(target)
    ensures ToggleLike(likes, kind, target, actor, newId, isValidObjectId)
            == ToggleOutcome(likes, Err(ApiError(400, InvalidTargetId(kind))))
  {
  }

  /** When the actor has liked the target, the toggle deletes one of those
      rows, answers isLiked = false, and under the invariant no row for the
      pair is left. */
  lemma ToggleRemovesExistingLike(likes: seq<Like>, kind: TargetKind, target: Id, actor: Id, newId: Id,
                                  isValidObjectId: Id -> bool)
    requires isValidObjectId(target)
    requires Count(likes, LikeKey(actor, kind, target)) > 0
    ensures var o := ToggleLike(likes, kind, target, actor, newId, isValidObjectId);
            var key := LikeKey(actor, kind, target);
            && o.response == Ok(ToggleResponse(false, if kind == TweetKind then Some(target) else None))
            && |o.likes| == |likes| - 1
            && Count(o.likes, key) == Count(likes, key) - 1
            && (AtMostOnePerKey(likes) ==> Count(o.likes, key) == 0)
            && exists i :: 0 <= i < |likes| && KeyOf(likes[i]) == key && o.likes == RemoveAt(likes, i)
  {
    var key := LikeKey(actor, kind, target);
    var l := RowsFor(likes, key)[0];
    assert l in RowsFor(likes, key);
    RowsForMembers(likes, key);
    var found := FindLike(likes, key);
    assert found.Some?;
    RowsForRemoveAt(likes, found.value, key);
    assert Count(likes, key) <= 1 ==> Count(likes, key) == 1;
  }

  /** When the actor has not liked the target, the toggle appends exactly
      one row for the pair and answers isLiked = true. */
  lemma ToggleAddsMissingLike(likes: seq<Like>, kind: TargetKind, target: Id, actor: Id, newId: Id,
                              isValidObjectId: Id -> bool)
    requires isValidObjectId(target)
    requires Count(likes, LikeKey(actor, kind, target)) == 0
    ensures var o := ToggleLike(likes, kind, target, actor, newId, isValidObjectId);
            && o.response == Ok(ToggleResponse(true, None))
            && o.likes == likes + [Like(newId, kind, target, actor)]
            && Count(o.likes, LikeKey(actor, kind, target)) == 1
  {
    var key := LikeKey(actor, kind, target);
    CountZero(likes, key);
    forall j | 0 <= j < |likes| ensures KeyOf(likes[j]) != key {
      assert likes[j] in likes;
    }
    RowsForAppend(likes, Like(newId, kind, target, actor), key);
  }

  /** A toggle leaves the rows of every other (actor, kind, target) exactly
      as they were, ids included. */
  lemma ToggleLeavesOtherKeys(likes: seq<Like>, kind: TargetKind, target: Id, actor: Id, newId: Id,
                              isValidObjectId: Id -> bool, other: LikeKey)
    requires other != LikeKey(actor, kind, target)
    ensures RowsFor(ToggleLike(likes, kind, target, actor, newId, isValidObjectId).likes, other)
            == RowsFor(likes, other)
  {
    var key := LikeKey(actor, kind, target);
    if isValidObjectId(target) {
      match FindLike(likes, key)
      case Some(i) =>
        RowsForRemoveAt(likes, i, other);
      case None =>
        RowsForAppend(likes, Like(newId, kind, target, actor), other);
    }
  }

  /** A toggle keeps the invariant: at most one row per (actor, kind, target). */
  lemma TogglePreservesAtMostOnePerKey(likes: seq<Like>, kind: TargetKind, target: Id, actor: Id,
                                       newId: Id, isValidObjectId: Id -> bool)
    requires AtMostOnePerKey(likes)
    ensures AtMostOnePerKey(ToggleLike(likes, kind, target, actor, newId, isValidObjectId).likes)
  {
    var o := ToggleLike(likes, kind, target, actor, newId, isValidObjectId);
    var key := LikeKey(actor, kind, target);
    forall k ensures Count(o.likes, k) <= 1 {
      if k != key {
        ToggleLeavesOtherKeys(likes, kind, target, actor, newId, isValidObjectId, k);
        assert Count(likes, k) <= 1;
      } else if isValidObjectId(target) {
        if Count(likes, key) > 0 {
          ToggleRemovesExistingLike(likes, kind, target, actor, newId, isValidObjectId);
        } else {
          ToggleAddsMissingLike(likes, kind, target, actor, newId, isValidObjectId);
        }
      } else {
        assert Count(likes, k) <= 1;
      }
    }
  }

  /** Two toggles in a row by the same actor on the same target give
      opposite answers and, under the invariant, restore the number of rows
      of every key; when the actor had not liked the target, they restore
      the collection itself. */
  lemma ToggleTwiceRestores(likes: seq<Like>, kind: TargetKind, target: Id, actor: Id,
                            newId1: Id, newId2: Id, isValidObjectId: Id -> bool)
    requires isValidObjectId(target)
    requires AtMostOnePerKey(likes)
    ensures var o1 := ToggleLike(likes, kind, target, actor, newId1, isValidObjectId);
            var o2 := ToggleLike(o1.likes, kind, target, actor, newId2, isValidObjectId);
            && o1.response.Ok? && o2.response.Ok?
            && o1.response.value.isLiked != o2.response.value.isLiked
            && (forall k :: Count(o2.likes, k) == Count(likes, k))
            && (Count(likes, LikeKey(actor, kind, target)) == 0 ==> o2.likes == likes)
  {
    var key := LikeKey(actor, kind, target);
    var o1 := ToggleLike(likes, kind, target, actor, newId1, isValidObjectId);
    var o2 := ToggleLike(o1.likes, kind, target, actor, newId2, isValidObjectId);
    if Count(likes, key) > 0 {
      ToggleRemovesExistingLike(likes, kind, target, actor, newId1, isValidObjectId);
      ToggleAddsMissingLike(o1.likes, kind, target, actor, newId2, isValidObjectId);
      assert Count(likes, key) == 1;
    } else {
      ToggleAddsMissingLike(likes, kind, target, actor, newId1, isValidObjectId);
      ToggleRemovesExistingLike(o1.likes, kind, target, actor, newId2, isValidObjectId);
      var n := |likes|;
      assert FindLike(o1.likes, key) == Some(n) by {
        forall j | 0 <= j < n ensures KeyOf(o1.likes[j]) != key {
          assert o1.likes[j] == likes[j];
          assert likes[j] !in RowsFor(likes, key);
        }
      }
      assert o2.likes == RemoveAt(o1.likes, n);
      assert o2.likes == likes;
    }
    forall k ensures Count(o2.likes, k) == Count(likes, k) {
      if k != key {
        ToggleLeavesOtherKeys(likes, kind, target, actor, newId1, isValidObjectId, k);
        ToggleLeavesOtherKeys(o1.likes, kind, target, actor, newId2, isValidObjectId, k);
      }
    }
  }

  /** The collection after a run of toggles and the answers in order. */
  datatype Run = Run(likes: seq<Like>, responses: seq<Result<ToggleResponse, Failure>>)

  /** A run of toggles by one actor on one target, one fresh id per toggle. */
  function ToggleRun(likes: seq<Like>, kind: TargetKind, target: Id, actor: Id, newIds: seq<Id>,
                     isValidObjectId: Id -> bool): Run
    decreases |newIds|
  {
    if newIds == [] then Run(likes, [])
    else
      var o := ToggleLike(likes, kind, target, actor, newIds[0], isValidObjectId);
      var rest := ToggleRun(o.likes, kind, target, actor, newIds[1..], isValidObjectId);
      Run(rest.likes, [o.response] + rest.responses)
  }

  /** Whether the i-th answer of a run is isLiked = true, given whether the
      actor had liked the target before the run. */
  predicate AnswerAt(i: nat, likedBefore: bool)
  {
    (i % 2 == 0) != likedBefore
  }

  /** A run of one or more toggles is its first toggle followed by the run
      of the rest. */
  lemma ToggleRunFirst(likes: seq<Like>, kind: TargetKind, target: Id, actor: Id, newIds: seq<Id>,
                       isValidObjectId: Id -> bool)
    requires newIds != []
    ensures var o := ToggleLike(likes, kind, target, actor, newIds[0], isValidObjectId);
            var rest := ToggleRun(o.likes, kind, target, actor, newIds[1..], isValidObjectId);
            ToggleRun(likes, kind, target, actor, newIds, isValidObjectId)
              == Run(rest.likes, [o.response] + rest.responses)
  {
  }

  /** A run of two or more toggles is its first two toggles followed by the
      run of the rest. */
  lemma ToggleRunFirstTwo(likes: seq<Like>, kind: TargetKind, target: Id, actor: Id, newIds: seq<Id>,
                          isValidObjectId: Id -> bool)
    requires |newIds| >= 2
    ensures var o1 := ToggleLike(likes, kind, target, actor, newIds[0], isValidObjectId);
            var o2 := ToggleLike(o1.likes, kind, target, actor, newIds[1], isValidObjectId);
            ToggleRun(likes, kind, target, actor, newIds, isValidObjectId).likes
              == ToggleRun(o2.likes, kind, target, actor, newIds[2..], isValidObjectId).likes
  {
    var o1 := ToggleLike(likes, kind, target, actor, newIds[0], isValidObjectId);
    ToggleRunFirst(likes, kind, target, actor, newIds, isValidObjectId);
    ToggleRunFirst(o1.likes, kind, target, actor, newIds[1..], isValidObjectId);
    assert newIds[1..][0] == newIds[1] && newIds[1..][1..] == newIds[2..];
  }

  /** The step of the parity induction, on values: a first answer that
      negates "liked before" and flips the count, followed by n - 1 answers
      that alternate from the flipped count. */
  lemma AlternationStep(first: Result<ToggleResponse, Failure>, rest: seq<Result<ToggleResponse, Failure>>,
                        before: nat, middle: nat, after: nat, n: nat)
    requires n > 0 && before <= 1 && middle == 1 - before
    requires first.Ok? && first.value.isLiked == (before == 0)
    requires |rest| == n - 1
    requires forall i :: 0 <= i < |rest| ==> rest[i].Ok? && rest[i].value.isLiked == AnswerAt(i, middle > 0)
    requires after == (if (n - 1) % 2 == 0 then middle else 1 - middle)
    ensures |[first] + rest| == n
    ensures forall i :: 0 <= i < |[first] + rest| ==>
              ([first] + rest)[i].Ok? && ([first] + rest)[i].value.isLiked == AnswerAt(i, before > 0)
    ensures after == (if n % 2 == 0 then before else 1 - before)
  {
    var all := [first] + rest;
    forall i | 0 <= i < |all| ensures all[i].Ok? && all[i].value.isLiked == AnswerAt(i, before > 0) {
      if i > 0 {
        assert all[i] == rest[i - 1];
        assert (i - 1) % 2 == 0 <==> i % 2 != 0;
      }
    }
    assert (n - 1) % 2 == 0 <==> n % 2 != 0;
  }

  /** Toggle parity: repeated toggles answer true, false, true, ... when the
      actor starts without a like (false, true, ... when with one); after an
      even number the actor's row count on the target is back where it was,
      after an odd number it is flipped, and the invariant still holds. */
  lemma {:induction false} ToggleRunAlternates(likes: seq<Like>, kind: TargetKind, target: Id, actor: Id,
                                               newIds: seq<Id>, isValidObjectId: Id -> bool)
    requires isValidObjectId(target)
    requires AtMostOnePerKey(likes)
    decreases |newIds|
    ensures var run := ToggleRun(likes, kind, target, actor, newIds, isValidObjectId);
            var before := Count(likes, LikeKey(actor, kind, target));
            && |run.responses| == |newIds|
            && (forall i :: 0 <= i < |run.responses| ==>
                  run.responses[i].Ok? && run.responses[i].value.isLiked == AnswerAt(i, before > 0))
            && Count(run.likes, LikeKey(actor, kind, target)) == (if |newIds| % 2 == 0 then before else 1 - before)
            && AtMostOnePerKey(run.likes)
  {
    if newIds != [] {
      var o := ToggleLike(likes, kind, target, actor, newIds[0], isValidObjectId);
      var before := Count(likes, LikeKey(actor, kind, target));
      StepOfRun(likes, kind, target, actor, newIds[0], isValidObjectId);
      ToggleRunAlternates(o.likes, kind, target, actor, newIds[1..], isValidObjectId);
      var rest := ToggleRun(o.likes, kind, target, actor, newIds[1..], isValidObjectId);
      ToggleRunFirst(likes, kind, target, actor, newIds, isValidObjectId);
      AlternationStep(o.response, rest.responses, before, Count(o.likes, LikeKey(actor, kind, target)),
                      Count(rest.likes, LikeKey(actor, kind, target)), |newIds|);
    }
  }

  /** A run of toggles on one target leaves the rows of every other
      (actor, kind, target) as they were, ids and order included. */
  lemma {:induction false} RunLeavesOtherKeys(likes: seq<Like>, kind: TargetKind, target: Id, actor: Id,
                                              newIds: seq<Id>, isValidObjectId: Id -> bool, other: LikeKey)
    requires other != LikeKey(actor, kind, target)
    decreases |newIds|
    ensures RowsFor(ToggleRun(likes, kind, target, actor, newIds, isValidObjectId).likes, other)
              == RowsFor(likes, other)
  {
    if newIds != [] {
      var o := ToggleLike(likes, kind, target, actor, newIds[0], isValidObjectId);
      ToggleLeavesOtherKeys(likes, kind, target, actor, newIds[0], isValidObjectId, other);
      RunLeavesOtherKeys(o.likes, kind, target, actor, newIds[1..], isValidObjectId, other);
      ToggleRunFirst(likes, kind, target, actor, newIds, isValidObjectId);
    }
  }

  /** After an even number of toggles, every (actor, kind, target) has as
      many rows as before the run. */
  lemma EvenRunRestoresCounts(likes: seq<Like>, kind: TargetKind, target: Id, actor: Id,
                              newIds: seq<Id>, isValidObjectId: Id -> bool)
    requires isValidObjectId(target)
    requires AtMostOnePerKey(likes)
    requires |newIds| % 2 == 0
    ensures forall k :: Count(ToggleRun(likes, kind, target, actor, newIds, isValidObjectId).likes, k)
                          == Count(likes, k)
  {
    ToggleRunAlternates(likes, kind, target, actor, newIds, isValidObjectId);
    forall k | k != LikeKey(actor, kind, target)
      ensures Count(ToggleRun(likes, kind, target, actor, newIds, isValidObjectId).likes, k) == Count(likes, k)
    {
      RunLeavesOtherKeys(likes, kind, target, actor, newIds, isValidObjectId, k);
    }
  }

  /** When the actor had not liked the target, an even number of toggles
      gives back the collection itself. */
  lemma {:induction false} EvenRunFromUnlikedRestores(likes: seq<Like>, kind: TargetKind, target: Id, actor: Id,
                                                      newIds: seq<Id>, isValidObjectId: Id -> bool)
    requires isValidObjectId(target)
    requires AtMostOnePerKey(likes)
    requires Count(likes, LikeKey(actor, kind, target)) == 0
    requires |newIds| % 2 == 0
    decreases |newIds|
    ensures ToggleRun(likes, kind, target, actor, newIds, isValidObjectId).likes == likes
  {
    if newIds != [] {
      ToggleTwiceRestores(likes, kind, target, actor, newIds[0], newIds[1], isValidObjectId);
      ToggleRunFirstTwo(likes, kind, target, actor, newIds, isValidObjectId);
      EvenRunFromUnlikedRestores(likes, kind, target, actor, newIds[2..], isValidObjectId);
    }
  }

  /** One step of a run: the answer is the negation of "liked before", the
      count flips between 0 and 1, and the invariant holds after. */
  lemma StepOfRun(likes: seq<Like>, kind: TargetKind, target: Id, actor: Id, newId: Id,
                  isValidObjectId: Id -> bool)
    requires isValidObjectId(target)
    requires AtMostOnePerKey(likes)
    ensures var o := ToggleLike(likes, kind, target, actor, newId, isValidObjectId);
            var before := Count(likes, LikeKey(actor, kind, target));
            && o.response.Ok? && o.response.value.isLiked == (before == 0)
            && Count(o.likes, LikeKey(actor, kind, target)) == 1 - before
            && AtMostOnePerKey(o.likes)
  {
    var key := LikeKey(actor, kind, target);
    TogglePreservesAtMostOnePerKey(likes, kind, target, actor, newId, isValidObjectId);
    if Count(likes, key) > 0 {
      ToggleRemovesExistingLike(likes, kind, target, actor, newId, isValidObjectId);
    } else {
      ToggleAddsMissingLike(likes, kind, target, actor, newId, isValidObjectId);
    }
  }

  /** The like collection as the toggles keep it. */
  class LikeStore {
    var likes: seq<Like>

    ghost predicate Valid()
      reads this
    {
      AtMostOnePerKey(likes) && DistinctLikeIds(likes)
    }

    constructor ()
      ensures Valid() && likes == []
    {
      likes := [];
    }

    /** toggleVideoLike, toggleCommentLike and toggleTweetLike. The database
        draws `newId` fresh for a row it creates. */
    method Toggle(kind: TargetKind, target: Id, actor: Id, newId: Id, isValidObjectId: Id -> bool)
      returns (response: Result<ToggleResponse, Failure>)
      requires Valid()
      requires forall l :: l in likes ==> l.id != newId
      modifies this
      ensures Valid()
      ensures var o := ToggleLike(old(likes), kind, target, actor, newId, isValidObjectId);
              likes == o.likes && response == o.response
    {
      if !isValidObjectId(target) {
        return Err(ApiError(400, InvalidTargetId(kind)));
      }
      TogglePreservesAtMostOnePerKey(likes, kind, target, actor, newId, isValidObjectId);
      var likedAlready := FindLike(likes, LikeKey(actor, kind, target));
      if likedAlready.Some? {
        likes := RemoveAt(likes, likedAlready.value);
        response := Ok(ToggleResponse(false, if kind == TweetKind then Some(target) else None));
      } else {
        ghost var before := likes;
        likes := likes + [Like(newId, kind, target, actor)];
        assert forall i :: 0 <= i < |before| ==> likes[i] == before[i] && before[i] in before;
        response := Ok(ToggleResponse(true, None));
      }
    }
  }
}
