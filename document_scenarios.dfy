/**
 * Callers of EmojiArtDocument: what follows from the intents' contracts alone
 * for typical sequences of edits, undos and redos.
 */
module DocumentScenarios {
  import opened Wrappers
  import opened FoundationTypes
  import opened ModelBackground
  import opened ArtModel
  import opened Undo
  import opened ArtDocument

  /**
   * Any undoable change, then undo, then redo: the undo brings back the snapshot taken
   * before the change, the redo brings back the changed model, and the history ends as
   * it was right after the change.
   */
  method PerformUndoRedo(doc: EmojiArtDocument, undoManager: UndoManager<RestoreSnapshot>,
                         operation: string, newValue: EmojiArtModel)
    returns (ghost afterUndo: EmojiArtModel, ghost nameAfterChange: string)
    requires doc.Valid() && newValue.Valid() && UndoManagerValid(undoManager) && undoManager.mode == Normal
    modifies doc, undoManager
    ensures afterUndo == old(doc.emojiArt)
    ensures nameAfterChange == operation
    ensures doc.emojiArt == newValue
    ensures undoManager.undoStack == old(undoManager.undoStack) + [UndoEntry(RestoreSnapshot(operation, old(doc.emojiArt)), operation)]
    ensures undoManager.redoStack == []
    ensures doc.Valid() && UndoManagerValid(undoManager) && undoManager.mode == Normal
  {
    doc.UndoablyPerform(operation, undoManager, newValue);
    nameAfterChange := undoManager.UndoActionName();
    doc.Undo(undoManager);
    afterUndo := doc.emojiArt;
    doc.Redo(undoManager);
  }

  const Grin: string := "\U{1F600}"

  /** The grinning emoji as added at (-200, -200) with size 80, then moved by (50, 0). */
  function Placed(): Emoji { Emoji(Grin, -200, -200, 80, 1) }
  function Moved(): Emoji { Emoji(Grin, -150, -200, 80, 1) }

  /** Add, move by (50, 0), scale by 1/2, remove: three undo entries, since removing registers none. */
  method WalkthroughEdits(decode: Data -> Option<Image>)
    returns (doc: EmojiArtDocument, undoManager: UndoManager<RestoreSnapshot>)
    ensures fresh(doc) && fresh(undoManager)
    ensures doc.Valid() && UndoManagerValid(undoManager) && undoManager.mode == Normal
    ensures doc.emojiArt.emojis == [] && undoManager.redoStack == []
    ensures |undoManager.undoStack| == 3
    ensures undoManager.undoStack[0] == UndoEntry(RestoreSnapshot("Add " + Grin, InitialModel()), "Add " + Grin)
    ensures undoManager.undoStack[1].handler.snapshot.emojis == [Placed()]
    ensures undoManager.undoStack[1].actionName == "Move"
    ensures undoManager.undoStack[2].handler.snapshot.emojis == [Moved()]
    ensures undoManager.undoStack[2].actionName == "Scale"
  {
    doc := new EmojiArtDocument(decode);
    undoManager := new UndoManager();

    doc.AddEmoji(Grin, -200, -200, 80, undoManager);
    assert doc.emojiArt.emojis == [Placed()];

    doc.MoveEmoji(doc.emojiArt.emojis[0], 50, 0, undoManager);
    assert doc.emojiArt.emojis == [Moved()];

    doc.ScaleEmoji(doc.emojiArt.emojis[0], Rational(1, 2), undoManager);
    assert ScaledSize(80, Rational(1, 2)) == 40;
    assert doc.emojiArt.emojis == [Emoji(Grin, -150, -200, 40, 1)];

    doc.RemoveEmoji(doc.emojiArt.emojis[0]);
  }

  /**
   * Three undos after those edits: the first brings the emoji back as it was before
   * scaling, the second as it was before moving, the third gives the empty document.
   */
  method WalkthroughUndos(doc: EmojiArtDocument, undoManager: UndoManager<RestoreSnapshot>)
    requires doc.Valid() && UndoManagerValid(undoManager) && undoManager.mode == Normal
    requires undoManager.redoStack == [] && |undoManager.undoStack| == 3
    requires undoManager.undoStack[0].handler.snapshot == InitialModel()
    requires undoManager.undoStack[1].handler.snapshot.emojis == [Placed()]
    requires undoManager.undoStack[2].handler.snapshot.emojis == [Moved()]
    modifies doc, undoManager
    ensures doc.emojiArt == InitialModel()
    ensures undoManager.undoStack == [] && |undoManager.redoStack| == 3
  {
    doc.Undo(undoManager);
    assert doc.emojiArt.emojis == [Moved()];
    doc.Undo(undoManager);
    assert doc.emojiArt.emojis == [Placed()];
    doc.Undo(undoManager);
  }

  /** The two halves in sequence. */
  method Walkthrough(decode: Data -> Option<Image>)
    returns (doc: EmojiArtDocument, undoManager: UndoManager<RestoreSnapshot>)
    ensures doc.emojiArt == InitialModel()
    ensures undoManager.undoStack == [] && |undoManager.redoStack| == 3
  {
    doc, undoManager := WalkthroughEdits(decode);
    WalkthroughUndos(doc, undoManager);
  }

  /**
   * The counter is part of the snapshot, so undoing an addition also rolls the counter
   * back and the next addition issues the same id again.
   */
  method IdReissuedAfterUndo(decode: Data -> Option<Image>, text: string)
    returns (doc: EmojiArtDocument)
    ensures doc.emojiArt.emojis == [Emoji(text, 0, 0, 40, 1)]
    ensures doc.emojiArt.uniqueEmojiId == 1
  {
    doc := new EmojiArtDocument(decode);
    var undoManager := new UndoManager();
    doc.AddEmoji(text, 0, 0, 40, undoManager);
    doc.Undo(undoManager);
    assert doc.emojiArt == InitialModel();
    doc.AddEmoji(text, 0, 0, 40, undoManager);
  }

  /**
   * Moving or scaling an emoji the document does not hold changes nothing, so the
   * addition before it is still the one an undo reverts.
   */
  method NoOpEditThenUndo(decode: Data -> Option<Image>, text: string)
    returns (doc: EmojiArtDocument, undoManager: UndoManager<RestoreSnapshot>)
    ensures doc.emojiArt == InitialModel()
    ensures undoManager.undoStack == [] && |undoManager.redoStack| == 1
  {
    doc := new EmojiArtDocument(decode);
    undoManager := new UndoManager();
    doc.AddEmoji(text, 0, 0, 40, undoManager);
    var absent := Emoji(text, 0, 0, 40, 2);
    doc.MoveEmoji(absent, 10, 10, undoManager);
    doc.ScaleEmoji(absent, Rational(2, 1), undoManager);
    doc.Undo(undoManager);
  }

  /**
   * A URL background followed by an inline image: the URL's download is not cancelled,
   * so when it arrives it replaces the decoded inline image.
   */
  method StaleDownload(decode: Data -> Option<Image>, a: URL, bytes: Data, downloaded: Image)
    returns (doc: EmojiArtDocument)
    ensures doc.emojiArt.background == ImageData(bytes)
    ensures doc.backgroundImage == Some(downloaded)
    ensures doc.backgroundImageFetchStatus == Idle
  {
    doc := new EmojiArtDocument(decode);
    doc.SetBackground(Url(a), null);
    assert doc.backgroundImageFetchStatus == Fetching;
    doc.SetBackground(ImageData(bytes), null);
    assert doc.backgroundImage == decode(bytes);
    doc.BackgroundFetchCompleted(Some(downloaded));
  }
}
