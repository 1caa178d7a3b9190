/**
 * EmojiArtModel: a background and the emojis placed on it, in drawing order.
 *
 * The Swift struct is a value type, so the model is a datatype; its one
 * `mutating func`, `addEmoji`, is a function from the old value to the new.
 * The document class assigns the result back to its stored model.
 */
module ArtModel {
  import opened ModelBackground
  import opened UtilityExtensions

  /** A placed emoji. `text` and `id` are `let` in the source; only `x`, `y` and `size` change. */
  datatype Emoji = Emoji(text: string, x: int, y: int, size: int, id: int)

  /** The `Identifiable` projection of an emoji. */
  function EmojiId(e: Emoji): int {
    e.id
  }

  /** `b` is `a` with at most its placement changed. */
  predicate SameIdentity(a: Emoji, b: Emoji) {
    a.text == b.text && a.id == b.id
  }

  /** `uniqueEmojiId` is the private counter from which ids are issued. */
  datatype EmojiArtModel = EmojiArtModel(background: Background, emojis: seq<Emoji>, uniqueEmojiId: int) {

    /** Ids are pairwise distinct and each was issued by the counter, which counts up from 0. */
    ghost predicate Valid() {
      && uniqueEmojiId >= 0
      && DistinctIds(emojis, EmojiId)
      && forall i :: 0 <= i < |emojis| ==> 1 <= emojis[i].id <= uniqueEmojiId
    }

    /** `addEmoji(_:at:size:)`: bump the counter and append an emoji carrying the new value as its id. */
    function AddEmoji(text: string, x: int, y: int, size: int): (r: EmojiArtModel)
      ensures r.background == background
      ensures r.uniqueEmojiId == uniqueEmojiId + 1
      ensures |r.emojis| == |emojis| + 1 && r.emojis[..|emojis|] == emojis
      ensures r.emojis[|emojis|] == Emoji(text, x, y, size, r.uniqueEmojiId)
      ensures Valid() ==> r.Valid()
      ensures Valid() ==> forall i :: 0 <= i < |emojis| ==> emojis[i].id < r.emojis[|emojis|].id
    {
      var issued := uniqueEmojiId + 1;
      EmojiArtModel(background, emojis + [Emoji(text, x, y, size, issued)], issued)
    }
  }

  /** `init()`: a blank background, no emojis, and the counter at 0. */
  function InitialModel(): (m: EmojiArtModel)
    ensures m.background == Blank && m.emojis == [] && m.uniqueEmojiId == 0
    ensures m.Valid()
  {
    EmojiArtModel(Blank, [], 0)
  }

  /** Deleting the emoji at one position keeps the model valid. */
  lemma RemoveAtPreservesValid(m: EmojiArtModel, i: nat)
    requires m.Valid() && i < |m.emojis|
    ensures m.(emojis := m.emojis[..i] + m.emojis[i + 1..]).Valid()
  {
    var s := m.emojis;
    var r := s[..i] + s[i + 1..];
    assert forall k :: 0 <= k < |r| ==> r[k] == if k < i then s[k] else s[k + 1];
    forall a, b | 0 <= a < b < |r|
      ensures r[a].id != r[b].id
    {
      var a', b' := if a < i then a else a + 1, if b < i then b else b + 1;
      assert r[a] == s[a'] && r[b] == s[b'] && a' < b';
    }
  }

  /** Changing only the placement of one emoji keeps the model valid. */
  lemma ReplacePlacementPreservesValid(m: EmojiArtModel, i: nat, e: Emoji)
    requires m.Valid() && i < |m.emojis| && SameIdentity(m.emojis[i], e)
    ensures m.(emojis := m.emojis[i := e]).Valid()
  {
    var r := m.emojis[i := e];
    assert forall k :: 0 <= k < |r| ==> r[k].id == m.emojis[k].id;
  }

  /** Adding after any history of additions gives an id above every id still present. */
  lemma {:induction false} AddedIdIsFresh(m: EmojiArtModel, text: string, x: int, y: int, size: int)
    requires m.Valid()
    ensures var r := m.AddEmoji(text, x, y, size);
      forall e :: e in m.emojis ==> e.id < r.emojis[|m.emojis|].id && e in r.emojis
  {
    var r := m.AddEmoji(text, x, y, size);
    forall e | e in m.emojis
      ensures e.id < r.emojis[|m.emojis|].id && e in r.emojis
    {
      var k :| 0 <= k < |m.emojis| && m.emojis[k] == e;
      assert r.emojis[k] == e;
    }
  }
}
