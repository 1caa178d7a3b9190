/**
 * EmojiArtDocument: owns one EmojiArtModel, offers the editing intents, makes them
 * undoable by snapshot swap, and keeps the background image and its fetch status
 * in step with the model's background.
 *
 * Network fetching and image decoding are not modelled: decoding is the
 * document's `decodeImage` parameter, and the end of a fetch is the separate
 * method `BackgroundFetchCompleted`, given the decoded result.
 */
module ArtDocument {
  import opened Wrappers
  import opened FoundationTypes
  import opened UtilityExtensions
  import opened ModelBackground
  import opened ArtModel
  import opened Undo

  /** A decoded image (`UIImage`); decoding itself is left to the `decodeImage` parameter. */
  datatype Image = Image(pixels: Data)

  datatype BackgroundImageFetchStatus = Idle | Fetching | Failed(url: URL)

  /**
   * The background state derived from the model: the resolved image, the fetch status,
   * and the URL whose download is still subscribed to (the one
   * `backgroundImageFetchCancellable` holds and whose result will be delivered).
   */
  datatype Resolution = Resolution(image: Option<Image>, status: BackgroundImageFetchStatus, pendingFetch: Option<URL>)

  /** `fetchBackgroundImageDataIfNecessary`, up to the start of the download. */
  function Refresh(r: Resolution, background: Background, decode: Data -> Option<Image>): Resolution {
    match background
    case Url(u) => Resolution(None, Fetching, Some(u))
    case ImageData(d) => r.(image := decode(d))
    case Blank => r.(image := None)
  }

  /** The `didSet` of `emojiArt`: a refresh only when the background changed. */
  function AfterModelChange(r: Resolution, oldBackground: Background, newBackground: Background,
                            decode: Data -> Option<Image>): Resolution {
    if newBackground != oldBackground then Refresh(r, newBackground, decode) else r
  }

  /** The sink of the subscribed download: `image` arrives decoded, or None when download or decoding failed. */
  function Completed(r: Resolution, image: Option<Image>): Resolution {
    match r.pendingFetch
    case None => r
    case Some(u) => Resolution(image, if image.Some? then Idle else Failed(u), None)
  }

  /** A new background first clears the resolved image; a URL background starts fetching it. */
  lemma RefreshClearsImage(r: Resolution, background: Background, decode: Data -> Option<Image>)
    ensures !background.ImageData? ==> Refresh(r, background, decode).image == None
    ensures background.Url? ==>
      Refresh(r, background, decode).status == Fetching &&
      Refresh(r, background, decode).pendingFetch == Some(background.location)
    ensures background.ImageData? ==> Refresh(r, background, decode).image == decode(background.bytes)
  {
  }

  /** Setting a background equal to the current one leaves the derived state alone. */
  lemma SameBackgroundNoRefresh(r: Resolution, b: Background, decode: Data -> Option<Image>)
    ensures AfterModelChange(r, b, b, decode) == r
  {
  }

  /** After a URL is set, its download ends in `idle` with the image, or in `failed(url)` without one. */
  lemma CompletionOutcome(r: Resolution, u: URL, image: Option<Image>, decode: Data -> Option<Image>)
    ensures var done := Completed(Refresh(r, Url(u), decode), image);
      done.image == image &&
      done.status == (if image.Some? then Idle else Failed(u)) &&
      done.pendingFetch == None
  {
  }

  /** Of two URLs set in a row, only the second one's download is delivered. */
  lemma LatestUrlWins(r: Resolution, a: URL, b: URL, image: Option<Image>, decode: Data -> Option<Image>)
    ensures Completed(Refresh(Refresh(r, Url(a), decode), Url(b), decode), image)
         == Completed(Refresh(r, Url(b), decode), image)
  {
  }

  /**
   * As written, moving from a URL to a blank or inline-image background does not cancel
   * the URL's download, whose result then overwrites the image and the status.
   */
  lemma StaleDownloadStillLands(r: Resolution, a: URL, next: Background, image: Option<Image>,
                                decode: Data -> Option<Image>)
    requires !next.Url?
    ensures var done := Completed(Refresh(Refresh(r, Url(a), decode), next, decode), image);
      done.image == image && done.status == (if image.Some? then Idle else Failed(a))
  {
  }

  // ---------------------------------------------------------------------------
  // Scaling
  // ---------------------------------------------------------------------------

  /** A scale factor as the fraction `numerator / denominator`. */
  datatype Rational = Rational(numerator: int, denominator: Positive)

  function Abs(n: int): nat {
    if n < 0 then -n else n
  }

  lemma RoundNonNegative(n: nat, d: Positive)
    ensures var q := (2 * n + d) / (2 * d);
      q >= 0 && 2 * Abs(n - q * d) <= d && (2 * Abs(n - q * d) == d ==> q * d > n)
  {
    var q, m := (2 * n + d) / (2 * d), (2 * n + d) % (2 * d);
    assert 2 * n + d == q * (2 * d) + m && 0 <= m < 2 * d;
    assert q * (2 * d) == 2 * (q * d);
    assert 2 * (n - q * d) == m - d;
  }

  /** `rounded(.toNearestOrAwayFromZero)` of `n / d`: the nearest integer, ties away from zero. */
  function RoundHalfAwayFromZero(n: int, d: Positive): (r: int)
    ensures 2 * Abs(n - r * d) <= d
    ensures 2 * Abs(n - r * d) == d ==> Abs(r * d) > Abs(n)
  {
    if n >= 0 then
      RoundNonNegative(n, d);
      (2 * n + d) / (2 * d)
    else
      RoundNonNegative(-n, d);
      var q := (2 * -n + d) / (2 * d);
      assert -q * d == -(q * d);
      -q
  }

  /** The new size of a scaled emoji: `size * scale`, rounded half away from zero. */
  function ScaledSize(size: int, scale: Rational): int {
    RoundHalfAwayFromZero(size * scale.numerator, scale.denominator)
  }

  /** Halves round away from zero: 10 * 1.05 = 10.5 gives 11, and -10.5 gives -11. */
  lemma ScaledSizeExamples()
    ensures ScaledSize(10, Rational(21, 20)) == 11
    ensures ScaledSize(-10, Rational(21, 20)) == -11
    ensures ScaledSize(80, Rational(1, 2)) == 40
    ensures ScaledSize(3, Rational(1, 2)) == 2
  {
  }

  // ---------------------------------------------------------------------------
  // The document
  // ---------------------------------------------------------------------------

  /** What the registered undo closure captures: the operation's name and the model before it. */
  datatype RestoreSnapshot = RestoreSnapshot(operation: string, snapshot: EmojiArtModel)

  ghost predicate HistoryValid(entries: seq<UndoEntry<RestoreSnapshot>>) {
    forall i :: 0 <= i < |entries| ==> entries[i].handler.snapshot.Valid()
  }

  /** Every snapshot an undo manager holds is a valid model. */
  ghost predicate UndoManagerValid(undoManager: UndoManager?<RestoreSnapshot>)
    reads undoManager
  {
    undoManager != null ==> HistoryValid(undoManager.undoStack) && HistoryValid(undoManager.redoStack)
  }

  /** The effect on an (optional) undo manager of `registerUndo` then `setActionName(operation)`. */
  twostate predicate Registers(undoManager: UndoManager?<RestoreSnapshot>, operation: string, snapshot: EmojiArtModel)
    reads undoManager
  {
    undoManager != null ==>
      undoManager.mode == old(undoManager.mode) &&
      undoManager.Current() == Registered(old(undoManager.Current()), old(undoManager.mode),
                                          RestoreSnapshot(operation, snapshot), operation)
  }

  class EmojiArtDocument {
    var emojiArt: EmojiArtModel
    var backgroundImage: Option<Image>
    var backgroundImageFetchStatus: BackgroundImageFetchStatus
    /** The URL whose download `backgroundImageFetchCancellable` keeps subscribed, if any. */
    var pendingFetch: Option<URL>
    /** `UIImage(data:)`. */
    const decodeImage: Data -> Option<Image>

    ghost predicate Valid()
      reads this
    {
      emojiArt.Valid()
    }

    function CurrentResolution(): Resolution
      reads this
    {
      Resolution(backgroundImage, backgroundImageFetchStatus, pendingFetch)
    }

    /** The position of the emoji with `emoji`'s id, as `index(matching:)` finds it. */
    function IndexOf(emoji: Emoji): Option<nat>
      reads this
    {
      IndexMatching(emojiArt.emojis, EmojiId, emoji)
    }

    /** `init()`: an empty model; no `didSet` runs during initialisation. */
    constructor (decodeImage: Data -> Option<Image>)
      ensures Valid() && emojiArt == InitialModel()
      ensures CurrentResolution() == Resolution(None, Idle, None)
      ensures this.decodeImage == decodeImage
    {
      emojiArt := InitialModel();
      backgroundImage := None;
      backgroundImageFetchStatus := Idle;
      pendingFetch := None;
      this.decodeImage := decodeImage;
    }

    /** Clears the image, then resolves the current background: decode inline bytes, or start a download. */
    method FetchBackgroundImageDataIfNecessary()
      modifies this`backgroundImage, this`backgroundImageFetchStatus, this`pendingFetch
      ensures CurrentResolution() == Refresh(old(CurrentResolution()), emojiArt.background, decodeImage)
    {
      backgroundImage := None;
      match emojiArt.background
      case Url(url) =>
        backgroundImageFetchStatus := Fetching;
        // the previous subscription is cancelled and replaced by one for `url`
        pendingFetch := Some(url);
      case ImageData(data) =>
        backgroundImage := decodeImage(data);
      case Blank =>
    }

    /** An assignment to `emojiArt`, with its `didSet` observer. */
    method SetEmojiArt(newValue: EmojiArtModel)
      modifies this`emojiArt, this`backgroundImage, this`backgroundImageFetchStatus, this`pendingFetch
      ensures emojiArt == newValue
      ensures CurrentResolution() ==
        AfterModelChange(old(CurrentResolution()), old(emojiArt.background), newValue.background, decodeImage)
    {
      var oldValue := emojiArt;
      emojiArt := newValue;
      if emojiArt.background != oldValue.background {
        FetchBackgroundImageDataIfNecessary();
      }
    }

    /** The download's sink firing; a download that was cancelled or already delivered fires nothing. */
    method BackgroundFetchCompleted(image: Option<Image>)
      modifies this`backgroundImage, this`backgroundImageFetchStatus, this`pendingFetch
      ensures emojiArt == old(emojiArt)
      ensures CurrentResolution() == Completed(old(CurrentResolution()), image)
    {
      if pendingFetch.Some? {
        var url := pendingFetch.value;
        backgroundImage := image;
        backgroundImageFetchStatus := if image != None then Idle else Failed(url);
        pendingFetch := None;
      }
    }

    /**
     * `undoablyPerform`: snapshot the model, apply the change, and register a closure
     * that restores the snapshot (through this same method), named after the operation.
     */
    method UndoablyPerform(operation: string, undoManager: UndoManager?<RestoreSnapshot>, newValue: EmojiArtModel)
      requires Valid() && newValue.Valid() && UndoManagerValid(undoManager)
      modifies this, undoManager
      ensures Valid() && UndoManagerValid(undoManager)
      ensures emojiArt == newValue
      ensures CurrentResolution() ==
        AfterModelChange(old(CurrentResolution()), old(emojiArt.background), newValue.background, decodeImage)
      ensures Registers(undoManager, operation, old(emojiArt))
    {
      var oldEmojiArt := emojiArt;
      SetEmojiArt(newValue);
      if undoManager != null {
        undoManager.RegisterUndo(RestoreSnapshot(operation, oldEmojiArt));
        undoManager.SetActionName(operation);
      }
    }

    // -------------------------------------------------------------------------
    // Intents
    // -------------------------------------------------------------------------

    /** `setBackground`: replaces only the background. */
    method SetBackground(background: Background, undoManager: UndoManager?<RestoreSnapshot>)
      requires Valid() && UndoManagerValid(undoManager)
      modifies this, undoManager
      ensures Valid() && UndoManagerValid(undoManager)
      ensures emojiArt.background == background
      ensures emojiArt.emojis == old(emojiArt.emojis) && emojiArt.uniqueEmojiId == old(emojiArt.uniqueEmojiId)
      ensures CurrentResolution() ==
        AfterModelChange(old(CurrentResolution()), old(emojiArt.background), background, decodeImage)
      ensures Registers(undoManager, "Set Background", old(emojiArt))
    {
      UndoablyPerform("Set Background", undoManager, emojiArt.(background := background));
    }

    /** `addEmoji`: the model's `addEmoji`, undoable as "Add <emoji>". `size` is already `Int(size)`. */
    method AddEmoji(emoji: string, x: int, y: int, size: int, undoManager: UndoManager?<RestoreSnapshot>)
      requires Valid() && UndoManagerValid(undoManager)
      modifies this, undoManager
      ensures Valid() && UndoManagerValid(undoManager)
      ensures emojiArt == old(emojiArt).AddEmoji(emoji, x, y, size)
      ensures CurrentResolution() == old(CurrentResolution())
      ensures Registers(undoManager, "Add " + emoji, old(emojiArt))
    {
      UndoablyPerform("Add " + emoji, undoManager, emojiArt.AddEmoji(emoji, x, y, size));
    }

    /** `moveEmoji`: shifts the emoji with `emoji`'s id by an offset already truncated to integers. */
    method MoveEmoji(emoji: Emoji, dx: int, dy: int, undoManager: UndoManager?<RestoreSnapshot>)
      requires Valid() && UndoManagerValid(undoManager)
      modifies this, undoManager
      ensures Valid() && UndoManagerValid(undoManager)
      ensures CurrentResolution() == old(CurrentResolution())
      ensures old(IndexOf(emoji)).None? ==>
        emojiArt == old(emojiArt) &&
        (undoManager != null ==> undoManager.Current() == old(undoManager.Current()) && undoManager.mode == old(undoManager.mode))
      ensures old(IndexOf(emoji)).Some? ==>
        var i := old(IndexOf(emoji)).value;
        && emojiArt.background == old(emojiArt.background)
        && emojiArt.uniqueEmojiId == old(emojiArt.uniqueEmojiId)
        && |emojiArt.emojis| == old(|emojiArt.emojis|)
        && emojiArt.emojis[i] == old(emojiArt.emojis[i]).(x := old(emojiArt.emojis[i].x) + dx,
                                                          y := old(emojiArt.emojis[i].y) + dy)
        && (forall j :: 0 <= j < |emojiArt.emojis| && j != i ==> emojiArt.emojis[j] == old(emojiArt.emojis[j]))
      ensures old(IndexOf(emoji)).Some? ==> Registers(undoManager, "Move", old(emojiArt))
    {
      var found := IndexOf(emoji);
      if found.Some? {
        var index := found.value;
        var moved := emojiArt.emojis[index].(x := emojiArt.emojis[index].x + dx,
                                             y := emojiArt.emojis[index].y + dy);
        ReplacePlacementPreservesValid(emojiArt, index, moved);
        UndoablyPerform("Move", undoManager, emojiArt.(emojis := emojiArt.emojis[index := moved]));
      }
    }

    /** `scaleEmoji`: sets the size of the emoji with `emoji`'s id to its scaled, rounded value. */
    method ScaleEmoji(emoji: Emoji, scale: Rational, undoManager: UndoManager?<RestoreSnapshot>)
      requires Valid() && UndoManagerValid(undoManager)
      modifies this, undoManager
      ensures Valid() && UndoManagerValid(undoManager)
      ensures CurrentResolution() == old(CurrentResolution())
      ensures old(IndexOf(emoji)).None? ==>
        emojiArt == old(emojiArt) &&
        (undoManager != null ==> undoManager.Current() == old(undoManager.Current()) && undoManager.mode == old(undoManager.mode))
      ensures old(IndexOf(emoji)).Some? ==>
        var i := old(IndexOf(emoji)).value;
        && emojiArt.background == old(emojiArt.background)
        && emojiArt.uniqueEmojiId == old(emojiArt.uniqueEmojiId)
        && |emojiArt.emojis| == old(|emojiArt.emojis|)
        && emojiArt.emojis[i] == old(emojiArt.emojis[i]).(size := ScaledSize(old(emojiArt.emojis[i].size), scale))
        && (forall j :: 0 <= j < |emojiArt.emojis| && j != i ==> emojiArt.emojis[j] == old(emojiArt.emojis[j]))
      ensures old(IndexOf(emoji)).Some? ==> Registers(undoManager, "Scale", old(emojiArt))
    {
      var found := IndexOf(emoji);
      if found.Some? {
        var index := found.value;
        var scaled := emojiArt.emojis[index].(size := ScaledSize(emojiArt.emojis[index].size, scale));
        ReplacePlacementPreservesValid(emojiArt, index, scaled);
        UndoablyPerform("Scale", undoManager, emojiArt.(emojis := emojiArt.emojis[index := scaled]));
      }
    }

    /** `removeEmoji`: deletes the emoji with `emoji`'s id; this intent registers no undo. */
    method RemoveEmoji(emoji: Emoji)
      requires Valid()
      modifies this
      ensures Valid()
      ensures CurrentResolution() == old(CurrentResolution())
      ensures emojiArt.background == old(emojiArt.background) && emojiArt.uniqueEmojiId == old(emojiArt.uniqueEmojiId)
      ensures emojiArt.emojis == RemoveMatching(old(emojiArt.emojis), EmojiId, emoji)
      ensures forall e :: e in emojiArt.emojis <==> e in old(emojiArt.emojis) && e.id != emoji.id
    {
      RemoveMatchingDropsId(emojiArt.emojis, EmojiId, emoji);
      var found := IndexOf(emoji);
      if found.Some? {
        var index := found.value;
        RemoveAtPreservesValid(emojiArt, index);
        SetEmojiArt(emojiArt.(emojis := emojiArt.emojis[..index] + emojiArt.emojis[index + 1..]));
      }
    }

    // -------------------------------------------------------------------------
    // Undo and redo
    // -------------------------------------------------------------------------

    /** The undo manager's `undo()` running the closure this document registered. */
    method Undo(undoManager: UndoManager<RestoreSnapshot>)
      requires Valid() && UndoManagerValid(undoManager) && undoManager.mode == Normal
      modifies this, undoManager
      ensures Valid() && UndoManagerValid(undoManager) && undoManager.mode == Normal
      ensures old(undoManager.undoStack) == [] ==>
        && emojiArt == old(emojiArt)
        && CurrentResolution() == old(CurrentResolution())
        && undoManager.Current() == old(undoManager.Current())
      ensures old(undoManager.undoStack) != [] ==>
        var top := old(undoManager.undoStack)[|old(undoManager.undoStack)| - 1].handler;
        && emojiArt == top.snapshot
        && CurrentResolution() ==
             AfterModelChange(old(CurrentResolution()), old(emojiArt.background), top.snapshot.background, decodeImage)
        && undoManager.undoStack == old(undoManager.undoStack)[..|old(undoManager.undoStack)| - 1]
        && undoManager.redoStack ==
             old(undoManager.redoStack) + [UndoEntry(RestoreSnapshot(top.operation, old(emojiArt)), top.operation)]
    {
      var entry := undoManager.BeginUndo();
      if entry.Some? {
        var restore := entry.value.handler;
        assert restore.snapshot.Valid() by {
          assert entry.value == old(undoManager.undoStack)[|old(undoManager.undoStack)| - 1];
        }
        UndoablyPerform(restore.operation, undoManager, restore.snapshot);
        undoManager.EndUndoRedo();
      }
    }

    /** The undo manager's `redo()` running the closure registered while undoing. */
    method Redo(undoManager: UndoManager<RestoreSnapshot>)
      requires Valid() && UndoManagerValid(undoManager) && undoManager.mode == Normal
      modifies this, undoManager
      ensures Valid() && UndoManagerValid(undoManager) && undoManager.mode == Normal
      ensures old(undoManager.redoStack) == [] ==>
        && emojiArt == old(emojiArt)
        && CurrentResolution() == old(CurrentResolution())
        && undoManager.Current() == old(undoManager.Current())
      ensures old(undoManager.redoStack) != [] ==>
        var top := old(undoManager.redoStack)[|old(undoManager.redoStack)| - 1].handler;
        && emojiArt == top.snapshot
        && CurrentResolution() ==
             AfterModelChange(old(CurrentResolution()), old(emojiArt.background), top.snapshot.background, decodeImage)
        && undoManager.redoStack == old(undoManager.redoStack)[..|old(undoManager.redoStack)| - 1]
        && undoManager.undoStack ==
             old(undoManager.undoStack) + [UndoEntry(RestoreSnapshot(top.operation, old(emojiArt)), top.operation)]
    {
      var entry := undoManager.BeginRedo();
      if entry.Some? {
        var restore := entry.value.handler;
        assert restore.snapshot.Valid() by {
          assert entry.value == old(undoManager.redoStack)[|old(undoManager.redoStack)| - 1];
        }
        UndoablyPerform(restore.operation, undoManager, restore.snapshot);
        undoManager.EndUndoRedo();
      }
    }
  }
}
