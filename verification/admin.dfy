/**
  The three computed columns of the admin site: the shortened message text,
  the "is a match" tick on likes and the message count on matches.
*/
module Admin {
  import opened Base
  import opened Models
  import Serializers

  /** Messages longer than this are cut in the message list. */
  const PREVIEW_LENGTH: nat := 50
  const ELLIPSIS := "..."

  /**
    `MessageAdmin.content_preview`: short texts are shown whole, longer ones
    as their first 50 characters followed by an ellipsis.
  */
  function ContentPreview(content: string): (r: string)
    ensures |content| <= PREVIEW_LENGTH ==> r == content
    ensures |content| > PREVIEW_LENGTH ==>
      |r| == PREVIEW_LENGTH + |ELLIPSIS| && r[..PREVIEW_LENGTH] == content[..PREVIEW_LENGTH]
      && r[PREVIEW_LENGTH..] == ELLIPSIS
    ensures |r| <= PREVIEW_LENGTH + |ELLIPSIS|
    ensures var n := Min(PREVIEW_LENGTH, |content|); n <= |r| && r[..n] == content[..n]
  {
    if |content| > PREVIEW_LENGTH then content[..PREVIEW_LENGTH] + ELLIPSIS else content
  }

  /** A preview is its own preview: a cut text is cut at the same place
      again and keeps its single ellipsis. */
  lemma ContentPreviewIdempotent(content: string)
    ensures ContentPreview(ContentPreview(content)) == ContentPreview(content)
  {
    if |content| > PREVIEW_LENGTH {
      var p := ContentPreview(content);
      assert p[..PREVIEW_LENGTH] + ELLIPSIS == p;
    }
  }

  /** `LikeAdmin.is_match`: the tick shown in the like list. */
  function AdminIsMatch(db: Db, id: Id): (r: bool)
    requires id in db.likes
    ensures r <==> exists k :: k in db.likes && db.likes[k].fromPet == db.likes[id].toPet
                                                && db.likes[k].toPet == db.likes[id].fromPet
  {
    var like := db.likes[id];
    var r := LikeIsMatch(db, like);
    assert r ==> exists k :: k in db.likes && db.likes[k].fromPet == like.toPet && db.likes[k].toPet == like.fromPet;
    assert (exists k :: k in db.likes && db.likes[k].fromPet == like.toPet && db.likes[k].toPet == like.fromPet) ==> r by {
      if exists k :: k in db.likes && db.likes[k].fromPet == like.toPet && db.likes[k].toPet == like.fromPet {
        var k :| k in db.likes && db.likes[k].fromPet == like.toPet && db.likes[k].toPet == like.fromPet;
        assert db.likes[k] == Like(like.toPet, like.fromPet);
      }
    }
    r
  }

  /**
    The admin tick and the API's `is_match` field read the same model
    method, and on a consistent database both say whether the pair of pets
    has a match row.
  */
  lemma AdminIsMatchAgrees(db: Db, id: Id)
    requires Valid(db) && id in db.likes
    ensures AdminIsMatch(db, id) == Serializers.SerializeLike(db, id, db.likes[id]).isMatch
    ensures var like := db.likes[id];
      AdminIsMatch(db, id) <==> HasMatch(db, Min(like.fromPet, like.toPet), Max(like.fromPet, like.toPet))
  {
    var like := db.likes[id];
    assert HasLike(db, like.fromPet, like.toPet);
  }

  /** `MatchAdmin.message_count`: the number of messages of the match. */
  function MessageCount(db: Db, matchId: Id): (n: nat)
    ensures n <= |db.messages|
    ensures n == 0 <==> forall i :: 0 <= i < |db.messages| ==> db.messages[i].matchId != matchId
  {
    var ms := MessagesOf(db.messages, matchId);
    if ms == [] then
      assert forall i :: 0 <= i < |db.messages| ==> db.messages[i] in db.messages;
      0
    else
      assert ms[0] in ms;
      |ms|
  }

  /** The positions in the message table that hold messages of the match. */
  function MessageSlots(ms: seq<Message>, matchId: Id): set<int> {
    set i | 0 <= i < |ms| && ms[i].matchId == matchId
  }

  lemma {:induction false} MessagesOfCountsSlots(ms: seq<Message>, matchId: Id)
    ensures |MessagesOf(ms, matchId)| == |MessageSlots(ms, matchId)|
    decreases |ms|
  {
    if ms == [] {
      assert MessageSlots(ms, matchId) == {};
    } else {
      var init := ms[..|ms| - 1];
      MessagesOfCountsSlots(init, matchId);
      SlotsOfSnoc(ms, matchId);
    }
  }

  /** Appending a message adds its position to the slots exactly when it
      belongs to the match. */
  lemma SlotsOfSnoc(ms: seq<Message>, matchId: Id)
    requires ms != []
    ensures var before := MessageSlots(ms[..|ms| - 1], matchId);
      if ms[|ms| - 1].matchId == matchId
      then MessageSlots(ms, matchId) == before + {|ms| - 1} && |ms| - 1 !in before
      else MessageSlots(ms, matchId) == before
  {
    var init := ms[..|ms| - 1];
    var before := MessageSlots(init, matchId);
    var now := MessageSlots(ms, matchId);
    forall i | i in now && i < |ms| - 1 ensures i in before {
      assert init[i] == ms[i];
    }
    forall i | i in before ensures i in now {
      assert init[i] == ms[i];
    }
  }

  /** The admin's count is the number of table positions holding a message
      of the match, and it is zero exactly when the match has no last
      message to show. */
  lemma MessageCountIsSlotCount(db: Db, matchId: Id)
    ensures MessageCount(db, matchId) == |MessageSlots(db.messages, matchId)|
    ensures MessageCount(db, matchId) == 0 <==> Serializers.GetLastMessage(db, matchId).None?
  {
    MessagesOfCountsSlots(db.messages, matchId);
  }
}
