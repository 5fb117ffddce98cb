# Photo-Renamer core in Dafny

Photo-Renamer is a desktop tool that tags photos by writing the tags into
their file names: a photo `img.jpg` tagged `beach` and then `sunset`
becomes `img@beach@sunset.jpg`. Every photo keeps a renaming history
(a memento map from timestamps to snapshots) and can be reverted to any
earlier entry. Tags know which photos carry them. Two registries index
all tags by name and all photos by the name they were first seen under.

This project models the engine behind the GUI:

- JavaStrings: the `java.lang.String` operations the engine relies on
  (`indexOf`, `lastIndexOf`, `contains`, `replace`, `trim`, `split(",")`),
  as pure functions with the contracts the Java library documents.
- RenameEngine: `addTagToName` and `deleteTagFromName`, the string
  surgery on a photo's name. It also gives the structured view
  `Encode(stem, tags, ext)` of an engine-built name and proves what adding,
  deleting and a round trip do to it.
- Photos: the classes `Tag`, `TagManager`, `PhotoManager` and
  `PhotoNode`. They cover adding and deleting a tag, the rename and its
  history entry, the sweep of unused tags, revert and the stash of later
  history. The process-wide static maps of the two registries are
  explicit objects passed in. The clock is a `now: nat` parameter, ordered
  as the `yyyy/MM/dd HH:mm:ss` strings are.
- Bfs and FileTree: the file tree node and its breadth-first
  `findChild`. `Bfs` defines the levels of a breadth-first search over a
  graph given as a ghost map. `FileTree.FileNode.FindChild` is proved to
  return a match of least depth, or null exactly when no level holds one.
- SelectPhoto: how the select button recovers a photo's initial name
  from a tagged file name, and finds or creates the photo record.
- TagInput: the add-tag button. It validates the typed text, splits it
  at commas, adds each new trimmed name to the photo, and updates the
  photo's tag list and the list of all tags.

## Model

| member | source | states |
|---|---|---|
| JavaStrings.IndexOf | PhotoNode.java:205-211 | `indexOf(pat, from)`: -1 or an occurrence at or after `from`, and no occurrence between `from` and the result |
| JavaStrings.ContainsIndexOf | PhotoNode.java:188 | `contains` holds exactly when `indexOf` finds the text |
| JavaStrings.IndexOfChar | SelectButtonListener.java:106 | `indexOf(c, from)`: -1 or the first index at or after `from` holding `c` |
| JavaStrings.LastIndexOfChar | PhotoNode.java:157 | `lastIndexOf(c)`: -1 or an index holding `c` with no `c` after it |
| JavaStrings.ReplaceAllSkips | SelectButtonListener.java:111 | `replace` leaves alone a prefix without the pattern's first character |
| JavaStrings.TrimStartIs | AddTagButtonListener.java:92 | trimming the start drops a prefix of characters up to U+0020 and stops at a character above it |
| JavaStrings.TrimEndIs | AddTagButtonListener.java:92 | trimming the end drops a suffix of characters up to U+0020 and stops at a character above it |
| JavaStrings.TrimIs | AddTagButtonListener.java:92 | `trim()` is a slice of the input with only characters up to U+0020 outside it, and has none at either end |
| JavaStrings.TrimChars | AddTagButtonListener.java:113 | every character of a trimmed string occurs in the input |
| JavaStrings.TrimTrimmed | AddTagButtonListener.java:113 | a string with nothing to trim is its own `trim()`, so trimming is idempotent |
| JavaStrings.SplitOn | AddTagButtonListener.java:111 | the pieces hold no separator and, joined with it, give back the input |
| JavaStrings.JoinWithChars | AddTagButtonListener.java:111 | a character of a piece is a character of the joined text |
| JavaStrings.DropTrailingEmpty | AddTagButtonListener.java:111 | the result is the longest prefix of the pieces that does not end with an empty piece |
| JavaStrings.JavaSplit | AddTagButtonListener.java:111 | `split(",")`: no piece holds a comma, and every character of a piece comes from the input |
| RenameEngine.Extension | PhotoNode.java:157 | the suffix from the last dot: starts with the dot, holds no other dot, and the stem followed by it is the name |
| RenameEngine.AddTagToName | PhotoNode.java:184-194 | a name that already contains `@tag` is unchanged; otherwise the result is the stem, then `@tag`, then the suffix; the result always contains `@tag` |
| RenameEngine.DeleteTagFromName | PhotoNode.java:203-221 | a name in which the tag text does not occur, or that has no `@`, comes back unchanged |
| RenameEngine.CutToken | PhotoNode.java:205-218 | in `pre + "@t" + post`, when `post` opens with `@` or is a bare extension and `t` occurs in `pre` only before its first `@`, deleting `t` removes exactly `@t` |
| RenameEngine.RoundTrip | PhotoNode.java:184-221 | adding a tag that does not occur in a dotted name, then deleting it, gives back the name |
| RenameEngine.EncodedLastDot | PhotoNode.java:186 | the last dot of an engine-built name starts its extension |
| RenameEngine.TokensAvoid | PhotoNode.java:209 | a tag that occurs in none of the earlier tags does not occur in their tokens |
| RenameEngine.AddToEncoded | PhotoNode.java:184-194 | adding a tag to an engine-built name appends the tag to its tag list, unless `@tag` already occurs in it |
| RenameEngine.DeleteFromEncoded | PhotoNode.java:203-221 | deleting the i-th tag of an engine-built name removes that tag from its tag list, when no earlier tag contains its text |
| RenameEngine.AddAllAppend | PhotoNode.java:95-103 | adding one more tag after several is one more `addTagToName` |
| RenameEngine.AddAllCarried | PhotoNode.java:188-189 | adding tags whose tokens the name carries leaves it unchanged |
| RenameEngine.AddAllEncoded | PhotoNode.java:184-194 | successive adds to an engine-built name give the engine-built name of the grown tag list |
| Photos.Tag.constructor | Tag.java:25-28 | a new tag has the given name and no photos |
| Photos.Tag.AddPhoto | Tag.java:65-67 | the photo is filed under its initial name, replacing any entry there; the keys grow by that one key at most |
| Photos.Tag.DeletePhoto | Tag.java:72-74 | only the entry under the photo's initial name is removed |
| Photos.TagManager.constructor | TagManager.java:40-41 | the registry starts empty |
| Photos.TagManager.AppendTag | TagManager.java:97-100 | the tag is filed under its name, overwriting a same-named tag, all other entries kept |
| Photos.TagManager.FindTag | TagManager.java:135-137 | null exactly when no tag is filed under the name, else the filed tag |
| Photos.TagManager.TagCleaner | TagManager.java:116-126 | the registry afterwards is the old one without the names of the tags that have no photos |
| Photos.SweptKeeps | TagManager.java:118-124 | in a keyed registry the sweep keeps exactly the tags that have photos, with their objects |
| Photos.SweptIdempotent | TagManager.java:116-125 | a second sweep removes nothing, and the swept registry stays keyed |
| Photos.PhotoManager.constructor | PhotoManager.java:45-46 | the registry starts empty |
| Photos.PhotoManager.AppendPhoto | PhotoManager.java:106-107 | the photo is filed under its initial name; re-filing a renamed photo adds no key |
| Photos.PhotoManager.RemovePhoto | PhotoManager.java:119-120 | only the entry under the photo's initial name is removed |
| Photos.PhotoManager.FindPhoto | PhotoManager.java:131-133 | null exactly when no photo is filed under the name, else the filed photo |
| Photos.Prune | PhotoNode.java:288-300 | the history entries dated no later than the revert date, unchanged |
| Photos.Fill | PhotoNode.java:258-261 | the snapshot's tags the photo lacks, by key |
| Photos.Restore | PhotoNode.java:258-273 | the tags after revert: the snapshot's key set, keeping the photo's own object where it had one |
| Photos.RestoreBy | PhotoNode.java:258-273 | re-adding the missing tags and then dropping the keys the snapshot lacks leaves `Restore` |
| Photos.ProgressedStep | PhotoNode.java:258-262 | one more re-added tag extends the name by its token, the tag maps by the tag, and records one history entry |
| Photos.RelistKeyed | PhotoNode.java:258-262 | in a keyed snapshot, photo maps stated name by name for the re-added names are the photo maps of the re-added tag objects |
| Photos.RestoredIndexed | PhotoNode.java:258-273 | every tag left on the photo by a revert comes from the photo or the snapshot, and is either kept, re-added with the photo, or not among the dropped tags, so it still lists the photo |
| Photos.NewName | PhotoNode.java:156-164 | the name `renamePhoto` computes: add mode always yields a name with `@tag`; delete mode and other modes keep a name without the tag |
| Photos.PhotoNode.constructor | PhotoNode.java:65-80 | a new photo: current and initial name are the given name, no tags, empty history, no modification yet |
| Photos.PhotoNode.InitializeRenamingHistory | PhotoNode.java:134-140 | a baseline entry with the initial name and no tags under the creation time, which becomes the last modification |
| Photos.PhotoNode.RecordToHistory | PhotoNode.java:232-242 | an entry with the changed name and a copy of the tags under `now`, replacing one of the same second; `now` becomes the last modification |
| Photos.PhotoNode.RenamePhoto | PhotoNode.java:154-170 | the name becomes the mode's new name with the file's extension, which is recorded under `now`, and the photo is re-filed |
| Photos.PhotoNode.AddTag | PhotoNode.java:95-103 | the tag is filed in the photo, the photo in the tag, the tag in the registry; the name gains `@tag`; the baseline is recorded first on a photo never changed; both halves of the photo/tag index are kept: every tag of the photo lists it, and, in a registry keyed by name, every registry tag that lists the photo is one of its tags |
| Photos.PhotoNode.DeleteTag | PhotoNode.java:113-121 | the tag leaves the photo and the photo leaves the tag; unused tags are swept; the name is `deleteTagFromName` of the old one; history as for add; when the photo's tags are keyed by name, every tag of the photo still lists it; when the registry is keyed by name and files `t` under its name, every registry tag that lists the photo is still one of its tags |
| Photos.PhotoNode.File | PhotoNode.java:99-101 | the tag is filed in the photo and the registry under its name and lists the photo; both halves of the photo/tag index are kept as for `addTag` |
| Photos.PhotoNode.Unfile | PhotoNode.java:117-119 | the photo drops the tag's key, the tag drops the photo, the registry is swept; both halves of the photo/tag index are kept under the conditions stated for `deleteTag` |
| Photos.PhotoNode.RenameWithNameGiven | PhotoNode.java:315-320 | the photo is re-filed; its name is not touched |
| Photos.PhotoNode.SetName | FileNode.java:104-106 | the name becomes the given one and nothing else of the photo changes |
| Photos.PhotoNode.ReAddOne | PhotoNode.java:259-261 | `addTag` on a photo with history: the tag gains the photo and no baseline entry is recorded |
| Photos.PhotoNode.ReAddStep | PhotoNode.java:258-262 | one entry of the first revert loop: the tag is added back exactly when the photo lacks its key |
| Photos.PhotoNode.ReAddEach | PhotoNode.java:258-262 | after the first revert loop exactly the missing snapshot tags were added, and only those tags list the photo anew |
| Photos.PhotoNode.ReAddMissing | PhotoNode.java:258-262 | the missing tags are added back in some order: name, tags, registry, history and photo registry as that many `addTag` calls leave them; of any watched set of tags, exactly the re-added ones gain the photo and the others keep their photo maps |
| Photos.PhotoNode.UnfileOne | PhotoNode.java:266 | the registry's tag of that name forgets the photo |
| Photos.PhotoNode.UnfileExtra | PhotoNode.java:263-269 | the photo's tags the snapshot lacks are listed, and the registry's tags of those names, and only those, forget the photo |
| Photos.PhotoNode.RemoveListed | PhotoNode.java:270-273 | each listed tag forgets the photo and the photo drops the key of its name |
| Photos.PhotoNode.DropExtra | PhotoNode.java:263-273 | the tags the snapshot lacks are dropped from the photo; of the photo's and the registry's tags, exactly those objects and the registry's tags of those names lose the photo's key, and every other photo map is unchanged |
| Photos.PhotoNode.LaterDates | PhotoNode.java:291-297 | the history dates later than the revert date, and no others |
| Photos.PhotoNode.StashLaterChanges | PhotoNode.java:288-305 | the history keeps exactly its entries up to the date, which becomes the last modification |
| Photos.PhotoNode.Settle | PhotoNode.java:263-275 | the extra tags are dropped, the later history stashed and the registry swept; of any watched set of tags, exactly the dropped objects and the registry's tags of the dropped names lose the photo's key on top of the change they had |
| Photos.PhotoNode.TakeBack | PhotoNode.java:256-262 | the snapshot's name is taken, then its missing tags re-added; no tag object from outside the photo and the snapshot enters the maps; of any watched set of tags, exactly the re-added ones gain the photo |
| Photos.PhotoNode.RevertTo | PhotoNode.java:254-275 | revert to an existing entry, as stated for `Revert`, with the photo maps of every tag involved |
| Photos.PhotoNode.Revert | PhotoNode.java:253-280 | no entry at `d`: nothing changes, photo maps included; otherwise the name is the entry's (with the re-added tags' tokens if any were missing), the tags have the entry's key set, no history later than `d` remains, `d` is the last modification, the registry is swept; of the photo's, the registry's and the entry's tags, the re-added ones gain the photo, the dropped ones and the registry's tags of their names lose it, and all others keep their photo maps; a photo listed by all its tags stays so |
| Photos.PhotoNode.RevertIndexed | PhotoNode.java:258-273 | after a revert with keyed maps, every tag the photo has lists the photo |
| Bfs.LevelsAre | FileNode.java:72-85 | a list of sets each expanding the one before lists the search levels |
| Bfs.LevelEmpty | FileNode.java:72 | once a level is empty, every deeper level is empty |
| Bfs.StartSearch | FileNode.java:68-71 | the queue of the start nodes is a search state at level 0 |
| Bfs.Advance | FileNode.java:72-73 | when the current level is used up, the queued nodes become the next level, and the level count stays below the rank bound |
| Bfs.PassNode | FileNode.java:73-84 | taking a non-matching node and queueing its children keeps the search state |
| Bfs.FoundAt | FileNode.java:81-82 | the node taken lies on the current level, and no earlier level holds a match |
| Bfs.Exhausted | FileNode.java:86 | an empty queue means no level holds a match |
| FileTree.FileNode.constructor | FileNode.java:52-57 | a node with the given name, parent and type, and no children |
| FileTree.FileNode.SetName | FileNode.java:104-106 | the name becomes the given one; type, parent and children are kept |
| FileTree.FileNode.SetParent | FileNode.java:132-134 | the parent becomes the given one; the rest is kept |
| FileTree.FileNode.AddChild | FileNode.java:145-147 | the child is filed under the key, replacing any child there; other children kept |
| FileTree.FileNode.QueueChildren | FileNode.java:69-71 | the old queue is a prefix of the new one, and the appended part holds exactly the node's children |
| FileTree.FileNode.Visit | FileNode.java:73-84 | one loop step: a match is a non-directory named `n` on the current level; otherwise the search state is kept |
| FileTree.FileNode.FindChild | FileNode.java:67-87 | a result is a non-directory named `n`, not this node, found at a least depth below this node's children through directories only; null exactly when no level holds such a node |
| SelectPhoto.InitialName | SelectButtonListener.java:104-112 | a name without `@` is its own initial name; the error case is exactly a first `@` after the last dot |
| SelectPhoto.CutOnce | SelectButtonListener.java:111 | replacing the tagged part, which starts with `@`, in a name with no other `@` cuts it once |
| SelectPhoto.StripTagged | SelectButtonListener.java:106-111 | with `@` before the last dot and none after it, the initial name is the text before the first `@` followed by the text from the last dot; it has no `@` and the same extension |
| SelectPhoto.StripEncoded | SelectButtonListener.java:104-112 | the initial name of an engine-built name is its stem followed by its extension |
| SelectPhoto.StripAddAll | SelectButtonListener.java:104-112 | a photo named without `@`, tagged any number of times, is recovered by its initial name |
| SelectPhoto.FindOrCreate | SelectButtonListener.java:122-126 | the record filed under the initial name is reused; a new photo with that initial name for the chosen file is made only when there is none |
| TagInput.NewNamesAre | AddTagButtonListener.java:111-113 | the names an input adds are exactly its non-empty trimmed pieces the list lacks, each once |
| TagInput.NoDuplicateNew | AddTagButtonListener.java:113-121 | the photo's list stays free of duplicates when the new names are appended |
| TagInput.MergedIs | AddTagButtonListener.java:122-124 | the list of all tags keeps its old entries as a prefix, holds exactly the names of both lists, and gains no duplicate |
| TagInput.AddedNamesPlain | AddTagButtonListener.java:100-120 | every name passed on is non-empty, trimmed, free of `@` and commas, and not yet in the list |
| TagInput.NoDuplicateAdded | AddTagButtonListener.java:113-121 | a name typed twice or already shown is added at most once |
| TagInput.FileExtension | PhotoNode.java:157 | the extension of a dotted file name, itself dotted |
| TagInput.NewNamesStep | AddTagButtonListener.java:112-113 | one more piece adds its trimmed text exactly when it is non-empty and not yet shown |
| TagInput.MergedStep | AddTagButtonListener.java:122-124 | one more name is appended to the list of all tags exactly when missing |
| TagInput.ShownOne | AddTagButtonListener.java:121-124 | showing one more name keeps both lists equal to the old lists with the names added so far |
| TagInput.AttachedOne | AddTagButtonListener.java:114-120 | filing one more tag, the registry's own or a new one of that name, keeps the photo's tags and the registry equal to the old ones plus the added tags |
| TagInput.CarriedNext | AddTagButtonListener.java:114-120 | when every other tag kept its photo map and the tag filed under the new name gained the photo, the photo maps stay as the added names require |
| TagInput.AddTagListener.constructor | AddTagButtonListener.java:69-81 | the listener holds the photo and the two lists, with an empty field |
| TagInput.AddTagListener.ActionPerformed | AddTagButtonListener.java:91-137 | blank input: nothing changes; input with `@`: refused and the field cleared; otherwise the new names are appended to the photo's list and merged into the list of all tags, the photo's tags and the registry gain one tag per new name (the registry's own where it had one), the name gains their tokens in input order, each registry tag gains the photo exactly when its name was added and keeps its photo map otherwise, each new tag lists the photo alone, and the field is cleared |
| TagInput.AddTagListener.Accept | AddTagButtonListener.java:109-137 | an accepted input: the lists, the photo's tags and name, the registry and the registry tags' photo maps end as stated for `ActionPerformed`, and the field is cleared |
| TagInput.AddTagListener.AddEach | AddTagButtonListener.java:111-129 | after the loop both lists, the tags, the registry and the name are the old ones with the input's new names added in order, and the registry's tags and the new tags list the photo as stated for `ActionPerformed` |
| TagInput.AddTagListener.ProgressStart | AddTagButtonListener.java:111 | before the first piece the loop state holds with nothing added |
| TagInput.AddTagListener.Concluded | AddTagButtonListener.java:111-129 | the loop state gives the lists, the tags, the registry and the name with the names added, every registry tag's photo map gaining the photo exactly for an added name, and every added tag listing the photo |
| TagInput.AddTagListener.TakePiece | AddTagButtonListener.java:113-124 | a piece adds its trimmed text exactly when it is non-empty and not in the photo's list, and the loop state, photo maps included, is kept |
| TagInput.AddTagListener.Show | AddTagButtonListener.java:121-124 | the name is appended to the photo's list, and to the list of all tags only when missing there |
| TagInput.AddTagListener.AttachTag | AddTagButtonListener.java:114-120 | the registry's tag of that name, or a new tag, is added to the photo: the name gains its token; the tag is filed in the photo and the registry and lists the photo besides its old photos; other registry tags keep their photo maps; history, last modification and photo registry are as `addTag` leaves them |
| TagInput.AddTagListener.AttachNext | AddTagButtonListener.java:113-120 | one accepted name: the tag is attached and the loop's photo, registry and photo-map state extends by that name |

## Left out

- File moves (`Files.move`), serialisation (`saveToFile`, `readFromFile`, the constructors' file checks), logging and console output are I/O and are not modelled. The in-memory state is updated as in the source; the save inside `setTags` is a no-op.
- The wall clock and `SimpleDateFormat` are not modelled. Every operation takes its timestamp as a `now: nat` parameter, and dates compare as numbers. The swallowed `ParseException` of `stashLaterChanges` cannot arise.
- One `now` serves every `addTag` inside a revert or a button press, although the source reads the clock at each call. History entries the source records in different seconds therefore collapse into one entry under `now`, the last one written.
- `TagManager` and `PhotoManager` keep process-wide static maps. Here they are objects passed to the operations that use them. Their file constructors start from an empty map.
- HashMap iteration order is not modelled. Loops over map entries pick any remaining key; `Photos.PhotoNode.ReAddMissing` and `Revert` return that order as a ghost `order`.
- `printTags`, `printAllPhotos` and `toString` depend on HashMap order and are not modelled.
- Getters (`getName`, `getTags`, `getPhotos`, `getRenamingHistory`, `getChildren`, `getParent`, `getInitialName`) are field reads, and `isDirectory` is a test of the type field (`FileTree.FileNode.IsDirectory`); none carries a contract of its own.
- `Tag.setName` is not modelled. A tag's name is constant, because the registry and the photos file tags under their names.
- A snapshot holds the tag objects of the copied map, not only their names. Revert adds those very objects back.
- `PhotoNode` keeps the name of its `java.io.File` as a constant `fileName`, which supplies the extension. The parent node, the file object and the `FileType` of a photo are not modelled.
- The GUI parts of both listeners are not modelled: dialogs, beeps, focus, the revert menu and the image label.
- Photos.PhotoNode.AddTag: requires a dotted file name and a name `addTagToName` can cut. It does not model the `StringIndexOutOfBoundsException` the source throws otherwise.
- Photos.PhotoNode.DeleteTag: requires a dotted file name and a name `deleteTagFromName` can cut. It does not model the exception the source throws otherwise.
- Photos.PhotoNode.RenamePhoto: same preconditions as `AddTag` and `DeleteTag`. The `IOException` path is not modelled.
- Photos.PhotoNode.Revert: requires that tag maps are keyed by tag name and that every dropped tag is in the registry. Otherwise the source's `findTag(...).deletePhoto` throws a `NullPointerException`.
- Photos.PhotoNode.Revert: states only the photo's half of the photo/tag index afterwards (every tag of the photo lists it), not the registry's half that `AddTag` and `DeleteTag` state. Its photo maps are stated against a ghost parameter `photos0` holding the maps of the photo's, the registry's and the entry's tags before the call; no other tag is in its frame.
- Photos.PhotoNode.AddTag: states the photo/tag index for this photo only, over its own tags and the registry's. The index for every other photo would need every photo in scope.
- Photos.PhotoNode.DeleteTag: states the photo/tag index for this photo only, as for `AddTag`.
- RenameEngine.DeleteFromEncoded: holds only when no earlier tag contains the deleted tag's text. The source cuts at the first occurrence of the text after the first `@`, so deleting `be` from `img@beach@be.jpg` cuts into `beach`.
- RenameEngine.RoundTrip: requires an extension without `@`. Adding and then deleting the tag `x` turns `a.b@c` into `a@c`.
- TagInput.AddTagListener.ActionPerformed: does not state that tags created for new names are new objects. `AttachTag` states it for each tag.
- TagInput.AddTagListener.ActionPerformed: does not state the history, last modification and photo registry after the loop. `AttachTag` states them for each name.
- TagInput.AddTagListener.AddEach: same two omissions as `ActionPerformed`.
- TagInput.AddTagListener.Accept: same two omissions as `ActionPerformed`.
- TagInput.AddTagListener.ActionPerformed: requires a dotted photo name and file name when a name is to be added, where the source would throw.
- FileTree.FileNode.FindChild: takes the tree as a ghost map from nodes to the nodes they queue, with a ghost rank that shows the tree has no cycle. Among several matches at least depth it may return any one. The source's null check on `children` has no counterpart, because a map field is never null.
- FileTree.FileNode.FindChild: the depth of the result is a ghost out-parameter.
- SelectPhoto.FindOrCreate: the parent directory node and the `File` object are not modelled. The constructor's `ClassNotFoundException`/`IOException` path is not modelled.
