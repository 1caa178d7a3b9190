# EmojiArt document core in Dafny

This project models the core of EmojiArt, an app for placing emoji stickers on a canvas that has an optional background image. The model covers:

- **The document model** (`ArtModel`, `ModelBackground`). A background is blank, a URL or inline image bytes. It comes with an ordered list of emojis. Each emoji has an immutable text and id and a mutable position and size. A private counter issues the ids. The Swift struct is a value type, so the model is a datatype and `addEmoji` is a function from the old value to the new one. The document class does the in-place assignment.
- **The document controller** (`ArtDocument.EmojiArtDocument`). It is a class holding the model, the resolved background image, the fetch status and the URL whose download is still subscribed to. It offers the intents `setBackground`, `addEmoji`, `moveEmoji`, `scaleEmoji` and `removeEmoji`. A `didSet` observer refreshes the background only when the background changed. `undoablyPerform` snapshots the model, applies the change and registers a closure that restores the snapshot through `undoablyPerform` again, which is where redo comes from.
- **Foundation's `UndoManager`** (`Undo.UndoManager`). It is modelled as an undo stack and a redo stack of (captured closure data, action name) entries, plus the mode (normal, undoing, redoing) that decides where a registration goes. The document's `Undo` and `Redo` pop an entry and run its closure, which captured the operation name and the snapshot (`RestoreSnapshot`).
- **The palette store** (`Palettes.PaletteStore`). It is a class over a sequence of palettes. Lookup, removal and insertion all clamp the index. Removal never deletes the last palette. Insertion allocates an id one above the largest present. The constructor inserts the two built-in palettes when nothing was restored.
- **The collection and string helpers** (`UtilityExtensions`). These are `index(matching:)`, `remove(_:)`, the id-keyed subscript getter and setter, `removingDuplicateCharacters` (a loop checked against a reference fold) and the query scan of `URL.imageURL`.

Things the code does not control are inputs:
- Image decoding is the document's `decodeImage` parameter.
- The end of a download is the method `BackgroundFetchCompleted`, called with the decoded result or `None`.
- URL construction and percent-decoding in `imageURL` are function parameters.
- Whatever could be restored from storage is a constructor argument of the palette store.
- Drag offsets and sizes arrive as integers that `Int(...)` has already truncated.
- The scale factor is a fraction.

Behaviour of the code that is easy to miss, which the model follows:
- `removeEmoji` is not undoable: it registers nothing (`EmojiArtDocument.RemoveEmoji`, and `DocumentScenarios.WalkthroughUndos`, where the first undo brings the removed emoji back at its size from before the scaling).
- Switching from a URL background to a blank or inline-image background does not reset the status and does not cancel the download. When that download later completes, it overwrites the image and the status (`ArtDocument.StaleDownloadStillLands`, `DocumentScenarios.StaleDownload`). Only a switch to another URL cancels the earlier download (`ArtDocument.LatestUrlWins`). The completion handler does not check the current background.
- The id counter is part of the snapshot. Undoing an addition therefore rolls the counter back, and the next addition issues the same id again (`DocumentScenarios.IdReissuedAfterUndo`). Ids stay distinct within the document, but they are not "never reused".
- `setBackground` registers an undo entry even when the new background equals the current one.

## Model

| member | source | states |
|---|---|---|
| `UtilityExtensions.IndexMatching` | EmojiArt_Multiplatform/UtilityExtensions.swift:12-16 | `Some(i)` only for an index whose element has the argument's id with no earlier such element; `None` exactly when no element has that id |
| `UtilityExtensions.RemoveMatching` | EmojiArt_Multiplatform/UtilityExtensions.swift:143-147 | with no match the collection is unchanged; otherwise it is one shorter, everything before the match is kept and everything after it moves down one place |
| `UtilityExtensions.RemoveMatchingMultiset` | EmojiArt_Multiplatform/UtilityExtensions.swift:143-147 | removal takes out exactly one occurrence of the matched element and nothing else |
| `UtilityExtensions.RemoveMatchingDropsId` | EmojiArt_Multiplatform/UtilityExtensions.swift:143-147 | when ids are distinct, afterwards no element has the removed id, every other element is still present, and ids stay distinct |
| `UtilityExtensions.GetMatching` | EmojiArt_Multiplatform/UtilityExtensions.swift:150-156 | the getter returns the matching element, or the argument itself when nothing matches; either way the result has the argument's id |
| `UtilityExtensions.SetMatching` | EmojiArt_Multiplatform/UtilityExtensions.swift:157-161 | the setter keeps the length, puts the new value at the matching position only and leaves every other position alone; with no match it changes nothing |
| `UtilityExtensions.GetAfterSet` | EmojiArt_Multiplatform/UtilityExtensions.swift:150-161 | after setting a present element to a value with the same id, the getter returns that value |
| `UtilityExtensions.SetWhatWasGot` | EmojiArt_Multiplatform/UtilityExtensions.swift:150-161 | setting back what the getter returned leaves the collection unchanged |
| `UtilityExtensions.RemovingDuplicateCharacters` | EmojiArt_Multiplatform/UtilityExtensions.swift:121-127 | the accumulating loop returns the reference fold `FirstOccurrences`, with no repeated character, exactly the input's characters, in the order of their first occurrence |
| `UtilityExtensions.FirstOccurrencesSameCharacters` | EmojiArt_Multiplatform/UtilityExtensions.swift:121-127 | a character is in the result exactly when it is in the input |
| `UtilityExtensions.FirstOccurrencesNoDuplicates` | EmojiArt_Multiplatform/UtilityExtensions.swift:121-127 | the result has no character twice |
| `UtilityExtensions.FirstOccurrencesOrder` | EmojiArt_Multiplatform/UtilityExtensions.swift:121-127 | the result lists characters in the order of their first occurrence in the input |
| `UtilityExtensions.FirstOccurrencesOfDistinct` | EmojiArt_Multiplatform/UtilityExtensions.swift:121-127 | a string without repeated characters comes out unchanged |
| `UtilityExtensions.FirstOccurrencesIdempotent` | EmojiArt_Multiplatform/UtilityExtensions.swift:121-127 | removing duplicates twice is the same as removing them once |
| `UtilityExtensions.Split` | EmojiArt_Multiplatform/UtilityExtensions.swift:58-59 | `components(separatedBy:)` gives at least one piece, and no piece contains the separator |
| `UtilityExtensions.JoinSplit` | EmojiArt_Multiplatform/UtilityExtensions.swift:58-59 | joining the pieces with the separator gives back the original string |
| `UtilityExtensions.SplitJoin` | EmojiArt_Multiplatform/UtilityExtensions.swift:58-59 | splitting separator-free pieces joined by the separator gives back the pieces |
| `UtilityExtensions.ImageURL` | EmojiArt_Multiplatform/UtilityExtensions.swift:57-68 | the result is the URL made from the first `&`-item that splits on `=` into exactly `imgurl` and a value that makes a URL; when no item does, it is `baseURL ?? self` |
| `ModelBackground.Background.AsUrl` | EmojiArt_Multiplatform/EmojiArtModel.Background.swift:48-53 | the URL exactly when the background is `.url`, and then the background is `.url` of it |
| `ModelBackground.Background.AsImageData` | EmojiArt_Multiplatform/EmojiArtModel.Background.swift:55-60 | the bytes exactly when the background is `.imageData`, and then the background is `.imageData` of them |
| `ModelBackground.AccessorsExclusive` | EmojiArt_Multiplatform/EmojiArtModel.Background.swift:48-60 | at most one accessor answers, and both are empty exactly for `.blank` |
| `ModelBackground.EqualityIsStructural` | EmojiArt_Multiplatform/EmojiArtModel.Background.swift:13-16 | two backgrounds are equal exactly when they have the same case and equal payloads |
| `ArtModel.InitialModel` | EmojiArt_Multiplatform/EmojiArtModel.swift:12-13 | a new model has a blank background, no emojis and the counter at 0, and it is valid |
| `ArtModel.EmojiArtModel.AddEmoji` | EmojiArt_Multiplatform/EmojiArtModel.swift:49-54 | the counter goes up by one; the list grows by one new last emoji with the given text, position and size and the new counter value as its id; earlier emojis and the background are unchanged; validity is kept and the new id is above every earlier id |
| `ArtModel.AddedIdIsFresh` | EmojiArt_Multiplatform/EmojiArtModel.swift:49-54 | in a valid model the added emoji's id is above the id of every emoji present, and all of those stay |
| `ArtModel.RemoveAtPreservesValid` | EmojiArt_Multiplatform/EmojiArtDocument.swift:157-158 | deleting one emoji keeps ids distinct and within the counter |
| `ArtModel.ReplacePlacementPreservesValid` | EmojiArt_Multiplatform/EmojiArtModel.swift:16-20 | replacing an emoji by one with the same text and id (only x, y or size changed) keeps the model valid |
| `ArtDocument.RefreshClearsImage` | EmojiArt_Multiplatform/EmojiArtDocument.swift:86-121 | a refresh clears the image unless the background is inline data, which it decodes; a URL background goes to `fetching` with that URL's download pending |
| `ArtDocument.SameBackgroundNoRefresh` | EmojiArt_Multiplatform/EmojiArtDocument.swift:50-55 | a model change that keeps the background leaves image, status and download alone |
| `ArtDocument.CompletionOutcome` | EmojiArt_Multiplatform/EmojiArtDocument.swift:111-115 | a URL's download ends with its image and `idle`, or without an image and `failed(url)` |
| `ArtDocument.LatestUrlWins` | EmojiArt_Multiplatform/EmojiArtDocument.swift:93-115 | after two URL backgrounds in a row, only the second URL's download outcome can show |
| `ArtDocument.StaleDownloadStillLands` | EmojiArt_Multiplatform/EmojiArtDocument.swift:86-121 | after a URL background and then a non-URL one, the URL's download still sets the image and the status |
| `ArtDocument.RoundHalfAwayFromZero` | EmojiArt_Multiplatform/EmojiArtDocument.swift:151 | `rounded(.toNearestOrAwayFromZero)`: the result is within one half of `n/d`, and at exactly one half it is the one farther from zero |
| `ArtDocument.ScaledSizeExamples` | EmojiArt_Multiplatform/EmojiArtDocument.swift:151 | 10 × 1.05 gives 11, −10 × 1.05 gives −11, 80 × 0.5 gives 40, 3 × 0.5 gives 2 |
| `ArtDocument.EmojiArtDocument.constructor` | EmojiArt_Multiplatform/EmojiArtDocument.swift:59-63 | a new document holds the empty model, no image, status `idle` and no download |
| `ArtDocument.EmojiArtDocument.FetchBackgroundImageDataIfNecessary` | EmojiArt_Multiplatform/EmojiArtDocument.swift:86-122 | image, status and pending download become `Refresh` of the current background: cleared image; URL → `fetching` with that URL's download replacing any earlier one; inline data → decoded image; blank → nothing more |
| `ArtDocument.EmojiArtDocument.SetEmojiArt` | EmojiArt_Multiplatform/EmojiArtDocument.swift:48-56 | the model becomes the new value, and a refresh happens exactly when the background changed |
| `ArtDocument.EmojiArtDocument.BackgroundFetchCompleted` | EmojiArt_Multiplatform/EmojiArtDocument.swift:111-115 | the pending download delivers: image set, status `idle` or `failed(url)`, nothing pending; with nothing pending it changes nothing; the model is untouched |
| `ArtDocument.EmojiArtDocument.UndoablyPerform` | EmojiArt_Multiplatform/EmojiArtDocument.swift:165-178 | the model becomes the new value; with an undo manager, one entry restoring the old model, named after the operation, is registered where the manager's mode puts it; with none, nothing is registered; validity of the model and of all snapshots is kept |
| `ArtDocument.EmojiArtDocument.SetBackground` | EmojiArt_Multiplatform/EmojiArtDocument.swift:127-131 | only the background changes, the emojis and the counter stay, and an undo "Set Background" is registered |
| `ArtDocument.EmojiArtDocument.AddEmoji` | EmojiArt_Multiplatform/EmojiArtDocument.swift:133-137 | the model becomes the model's `addEmoji` result, the background state is untouched, and an undo "Add " + text is registered |
| `ArtDocument.EmojiArtDocument.MoveEmoji` | EmojiArt_Multiplatform/EmojiArtDocument.swift:139-146 | the first emoji with the argument's id has the offsets added to x and y, every other emoji and field is unchanged, and "Move" is registered; with no such emoji the model, both undo stacks and the undo manager's mode are unchanged and nothing is registered |
| `ArtDocument.EmojiArtDocument.ScaleEmoji` | EmojiArt_Multiplatform/EmojiArtDocument.swift:148-154 | the first emoji with the argument's id gets size `round(size × scale)` half away from zero, nothing else changes, and "Scale" is registered; with no such emoji the model, both undo stacks and the undo manager's mode are unchanged and nothing is registered |
| `ArtDocument.EmojiArtDocument.RemoveEmoji` | EmojiArt_Multiplatform/EmojiArtDocument.swift:156-160 | the emojis become `remove(_:)` of the old list: the first match goes, the rest keep their order, no emoji with that id is left; background and counter stay; no undo manager is involved |
| `ArtDocument.EmojiArtDocument.Undo` | EmojiArt_Multiplatform/EmojiArtDocument.swift:170-175 | with an entry to undo, the model becomes that entry's snapshot, the entry leaves the undo stack, and an entry restoring the pre-undo model under the same name goes onto the redo stack; with none, nothing changes |
| `ArtDocument.EmojiArtDocument.Redo` | EmojiArt_Multiplatform/EmojiArtDocument.swift:170-175 | with an entry to redo, the model becomes its snapshot, the entry leaves the redo stack, and an entry restoring the pre-redo model goes back onto the undo stack; with none, nothing changes |
| `Undo.Registered` | EmojiArt_Multiplatform/EmojiArtDocument.swift:170-177 | registering outside undo and redo pushes onto the undo stack and clears redo; while undoing it pushes onto redo; while redoing it pushes onto undo and keeps redo |
| `Undo.UndoManager.RegisterUndo` | EmojiArt_Multiplatform/EmojiArtDocument.swift:170-175 | the stacks become `Registered` of the handler, mode unchanged |
| `Undo.UndoManager.SetActionName` | EmojiArt_Multiplatform/EmojiArtDocument.swift:177 | the last entry on the stack being filled gets the name, nothing else changes |
| `DocumentScenarios.PerformUndoRedo` | EmojiArt_Multiplatform/EmojiArtDocument.swift:165-178 | after any undoable change, its undo restores the earlier model exactly, the redo that follows restores the changed model, and the undo history ends as it was right after the change, named after the operation |
| `DocumentScenarios.WalkthroughEdits` | EmojiArt_Multiplatform/EmojiArtDocument.swift:133-160 | add at (−200, −200) size 80 gives id 1; move by (50, 0) gives (−150, −200); scale by ½ gives size 40; remove leaves no emoji; three undo entries, none from the removal |
| `DocumentScenarios.WalkthroughUndos` | EmojiArt_Multiplatform/EmojiArtDocument.swift:170-175 | three undos after that give the size-80 emoji at (−150, −200), then at (−200, −200), then the empty model |
| `DocumentScenarios.Walkthrough` | EmojiArt_Multiplatform/EmojiArtDocument.swift:133-178 | the whole sequence ends in the initial model with three entries to redo |
| `DocumentScenarios.IdReissuedAfterUndo` | EmojiArt_Multiplatform/EmojiArtDocument.swift:165-175 | add, undo, add issues id 1 twice, because the counter is restored with the snapshot |
| `DocumentScenarios.NoOpEditThenUndo` | EmojiArt_Multiplatform/EmojiArtDocument.swift:139-154 | moving and scaling an emoji that is not in the document leave the undo history alone, so the following undo still reverts the preceding addition |
| `DocumentScenarios.StaleDownload` | EmojiArt_Multiplatform/EmojiArtDocument.swift:86-121 | URL background, then inline bytes, then the URL's download arriving: the downloaded image replaces the decoded inline one and the status is `idle` |
| `Palettes.Clamp` | EmojiArt_Multiplatform/PaletteStore.swift:78 | `min(max(i, lo), hi)` lies in `lo...hi`, is `i` inside the range and the nearer bound outside it |
| `Palettes.SwiftRemainder` | EmojiArt_Multiplatform/PaletteStore.swift:88 | Swift's `%`: `a` is the truncated quotient times `n` plus the remainder, which lies in `0..<n` for non-negative `a` and in `-n<..0` for negative `a` |
| `Palettes.MaxId` | EmojiArt_Multiplatform/PaletteStore.swift:92 | the largest id present, and `None` exactly for no palettes |
| `Palettes.NextId` | EmojiArt_Multiplatform/PaletteStore.swift:92 | the allocated id is above every existing id, so it differs from all of them; it is 1 for an empty list |
| `Palettes.PaletteStore.constructor` | EmojiArt_Multiplatform/PaletteStore.swift:61-72 | restored palettes are kept when there are any; otherwise the store holds "Sports" (id 2) and then "Vehicles" (id 1); there is always at least one palette |
| `Palettes.PaletteStore.PaletteAt` | EmojiArt_Multiplatform/PaletteStore.swift:77-80 | an in-range index gives that palette, a negative one the first, a too-large one the last |
| `Palettes.PaletteStore.RemovePalette` | EmojiArt_Multiplatform/PaletteStore.swift:84-89 | when more than one palette is left and the index is valid, exactly that palette goes and the rest keep their order; otherwise nothing changes; at least one palette remains; the result is Swift's `index % count`, in range for a non-negative index |
| `Palettes.PaletteStore.InsertPalette` | EmojiArt_Multiplatform/PaletteStore.swift:91-96 | the new palette, with `""` for missing emojis and an id above all existing ids, goes in at the index clamped to `0...count`; the others keep their order around it |

## Left out

- JSON encoding and decoding of the model (`json()`, `init(json:)`, `init(url:)`), and the document's file reading and writing (`init(configuration:)`, `snapshot`, `fileWrapper`, the content type). They are library `Codable` and file I/O. Their round trip is not modelled.
- The download itself (`URLSession`, the Combine pipeline, `receive(on:)`, the weak capture of the document) and `UIImage(data:)`. They are network, asynchronous and platform calls. Decoding is the `decodeImage` parameter, and the delivery is `BackgroundFetchCompleted`.
- `@Published` change notifications to views. They are observation plumbing with no effect on the state.
- Palette persistence in `UserDefaults`, restore and save on every change. It is storage I/O. What was restored is a constructor input.
- All SwiftUI views, the camera and photo pickers, the pasteboard, drag-and-drop loading (`loadObjects`), the `RawRepresentable` shim, `CGRect`/`CGSize` geometry and zoom/pan. They are UI, platform code or floating point.
- `Character.isEmoji`. It depends on Unicode property tables.
- Conversions from `CGFloat`. Offsets and sizes are integer inputs. The scale is an exact fraction, so the rounding error of a floating-point product is not modelled.
- Swift's 64-bit `Int` traps on overflow (for the id counter, positions and sizes). Integers here are unbounded.
- `URL(string:)`, `removingPercentEncoding`, `query` and `baseURL`. These are Foundation URL parsing. The first two are uninterpreted function parameters, and the other two are the URL's components passed in.
- UndoManager grouping: the manager SwiftUI supplies groups the registrations of one event into a single undo step. The model treats each registration as its own undo step.
- UndoManager levels of undo and clearing actions per target: the document does not use them. The model assumes each undo manager serves one document, so the target object a closure was registered for is not recorded.
- URL equality: two URLs are equal here exactly when their texts are equal. Foundation's `URL ==` also compares the base URL, and that comparison decides whether the background changed in the model's `didSet` (EmojiArtDocument.swift:52). Two URLs with the same text but different bases are therefore not distinguished.
- ArtDocument.EmojiArtDocument.Undo: requires the undo manager to be neither undoing nor redoing. Foundation does not allow `undo()` to be entered from inside an undo or redo.
- ArtDocument.EmojiArtDocument.Redo: requires the undo manager to be neither undoing nor redoing, for the same reason.
- UtilityExtensions.RemovingDuplicateCharacters: compares Unicode scalar values rather than Swift `Character`s. Swift characters are grapheme clusters compared by canonical equivalence, so a multi-scalar emoji such as "⚽️" counts as two characters here.
- Palettes.PaletteStore.constructor: the first character of the built-in "Vehicles" palette cannot be read back from the damaged text of PaletteStore.swift. Its last UTF-8 byte is lost. The model uses U+1F68D. Four more built-in characters have lost a byte in the same way: the U+FE0F after ⚽ and 🏀, 🏈 and 🏓 in "Sports". The model rebuilds them as U+FE0F, U+1F3C0, U+1F3C8 and U+1F3D3.
