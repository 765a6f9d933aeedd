# PiFrame playlists, modelled in Dafny

PiFrame is a digital picture frame. A small Express server keeps the
uploaded media and a set of playlists. Each playlist is a text file
`<id>.txt` listing one media file name per line. It sits in one of two
directories: `active` (the playlist the frame plays) or `inactive`. A React
page manages the playlists and their order. A Python program on the frame
reads the active playlist and shows it on a small touch screen.

The project models four parts and proves what each of them promises:

- `PlaylistServer.dfy` models `backend/server.js`.
  - Pure functions: playlist ids and names, the file format (`trim`, `split`, blank-line filter, `join`) and the three media-type classifiers.
  - Listing: the list handler is a function over the two directories.
  - State: the create, update, delete, add-media and upload handlers are methods of a class `Store`. Its fields are the two directories, as maps from file name to file text, and the set of uploaded file names.
  - Errors: HTTP 400 and 404 become `Err(BadRequest)` and `Err(NotFound)`.
- `MediaManager.dfy` models `src/pages/MediaManager.tsx`.
  - A class `Manager` holds the page's state: the playlists, the selected playlist, the selected media item, the new-name field and the dialog and loading flags.
  - Each handler is one transition of that state.
  - What the server answers is a parameter, `None` when the request fails.
  - The index arithmetic is pure functions with lemmas.
- `SortablePlaylist.dfy` models `src/components/SortablePlaylist.tsx`: `findIndex`, dnd-kit's `arrayMove`, the drag-end handler and the row mapping, all pure.
- `Display.dfy` models the control logic of `display/display.py`.
  - Pure parts: file classification, where the file list comes from, the display-time button, the playback index, the playlist menu's filter, scrolling and selection, and the directory moves.
  - A class `Frame` holds the script's globals and the two directories' name sets. Its methods are the callbacks and the touch events.
  - The loader loop builds the slide list with a `while` loop.
- `Text.dfy` holds the shared string helpers:
  - JavaScript `trim` and its whitespace set, `split` and `join` on one character;
  - ASCII lower-casing and `path.extname`;
  - the code-point order and insertion sort that stand for Python's `list.sort()`;
  - directory listings: `Lists` (a listing holds exactly a directory's names) and `Distinct` (no name twice).
- `Options.dfy` holds an `Option` type.

Outside effects are parameters:

- directory listings, and their order;
- file contents the display reads;
- whether a media file loads;
- the server's answers to the page.

Three facts about the code shape the model:

- **Two extension classifiers.** The list handler and the add-media handler each keep their own set of media extensions. The model keeps both, and `PlaylistServer.ClassifiersDisagreement` proves they differ on exactly `.tiff`, `.gif`, `.mpg` and `.wmv`.
- **One id can end up in both directories.** Create writes into `inactive` without looking at `active`. `PlaylistServer.Store.OneFilePerId` says no file sits in both directories: `Create` keeps it exactly when it held before and the id had no active file, and the other handlers always keep it. A file in both directories is listed twice (`PlaylistServer.ListedTwiceWhenInBoth`).
- **Media type `unknown`.** The list and add-media handlers type a file whose extension is in neither of their sets `unknown`, and the model's `MediaType` has that third value.

## Model

| member | source | states |
|---|---|---|
| Text.Trim | backend/server.js:68 | the result is the slice of the string left between a whitespace-only prefix and a whitespace-only suffix; it neither starts nor ends with whitespace, and a string that already does not is returned unchanged |
| Text.BlankIffTrimEmpty | backend/server.js:68 | a line fails `line.trim() !== ''` exactly when it is whitespace only |
| Text.Split | backend/server.js:68 | splitting gives at least one piece, and no piece holds the separator |
| Text.JoinSplit | backend/server.js:68 | joining the pieces of a split with the separator gives back the string |
| Text.SplitJoin | backend/server.js:249 | splitting a join of separator-free parts gives back the parts |
| Text.Join | backend/server.js:148 | an empty list joins to the empty string; otherwise the result starts with the first part, and the separator follows it when there are more parts; Text.JoinSplit and Text.SplitJoin make it the inverse of Split |
| Text.ToLower | backend/server.js:79 | same length, every character lower-cased in place |
| Text.Extension | backend/server.js:79 | the extension is empty or a suffix of the name that starts its only '.' and is shorter than the name |
| Text.ExtensionOf | backend/server.js:253 | a non-empty stem followed by a '.'-led suffix with no other '.' has that suffix as its extension |
| Text.Sort | display/display.py:157 | the result is a permutation of the input (same multiset, same length) in code-point order |
| Text.SortedUnique | display/display.py:157 | two ordered permutations of the same names are equal, so the sort result is the one `list.sort()` gives |
| PlaylistServer.SanitizeId | backend/server.js:117 | the id's length is the name's JavaScript (UTF-16) length, and it holds only `[A-Za-z0-9_]` |
| PlaylistServer.SanitizeIdAppend | backend/server.js:117 | the replacement works character by character: the id of a concatenation is the concatenation of the ids |
| PlaylistServer.SanitizeIdAt | backend/server.js:117 | each character becomes the code units of the id that start at the UTF-16 length of the part before it: itself when a letter or digit, one `_` per code unit otherwise |
| PlaylistServer.SanitizeIdBmp | backend/server.js:117 | for a name of one-unit characters the id has the same length, every letter and digit in place and `_` everywhere else |
| PlaylistServer.SanitizeAstral | backend/server.js:117 | a character outside the Basic Multilingual Plane, such as an emoji, becomes two `_` |
| PlaylistServer.SanitizeIdIdempotent | backend/server.js:117 | sanitising an id again changes nothing |
| PlaylistServer.DisplayName | backend/server.js:95 | same length, every `_` replaced by a space and nothing else changed |
| PlaylistServer.DisplayNameOfSanitizedId | backend/server.js:117-123 | the rebuilt name has the original's UTF-16 length and holds only letters, digits and spaces; a name of one-unit characters keeps each letter and digit in place and has a space for every other character |
| PlaylistServer.BaseName | backend/server.js:56 | the base name with ".txt" appended is the file name again |
| PlaylistServer.Parse | backend/server.js:242 | parsed lines are non-blank and free of line breaks, the first starts and the last ends without whitespace, and a blank file gives no lines |
| PlaylistServer.Serialize | backend/server.js:148 | the file text holds the names joined by line breaks: for a non-empty list of names without line breaks, splitting it on line breaks gives the names back; PlaylistServer.ParseSerialize gives the full read-back |
| PlaylistServer.ParseSerialize | backend/server.js:148 | reading back a written list of well-formed names gives the same list |
| PlaylistServer.ParseIdempotent | backend/server.js:241-249 | writing back a parsed list and parsing again gives the same list |
| PlaylistServer.AppendPersists | backend/server.js:241-249 | the file add-media writes reads back as the old names followed by the new ones, in order, without de-duplication |
| PlaylistServer.ListedType | backend/server.js:79-82 | image exactly when the lower-cased extension is in the list handler's image set, video exactly when it is in its video set, unknown exactly when in neither; PlaylistServer.ClassifiersDisagreement compares it with AddedType |
| PlaylistServer.AddedType | backend/server.js:253-256 | image, video or unknown by the add-media handler's own two extension sets, in the same way |
| PlaylistServer.UploadType | backend/server.js:200 | image exactly when the MIME type starts with `image/`, video otherwise, never unknown |
| PlaylistServer.ExtensionSetsDisagreement | backend/server.js:80-81 | the list and add-media extension sets give different types exactly for `.tiff`, `.gif`, `.mpg` and `.wmv` |
| PlaylistServer.ClassifiersDisagreement | backend/server.js:253-256 | the two classifiers disagree on a file exactly when its lower-cased extension is one of those four |
| PlaylistServer.NamedExtensionTypes | backend/server.js:79-82 | a name whose extension is written in lower case gets, from either classifier, the type of that extension alone |
| PlaylistServer.GifUploadListedUnknown | backend/server.js:80-82 | one uploaded file named `<stem>.gif` with an `image/` MIME type is recorded as an image, and the list handler types the same file unknown |
| PlaylistServer.MkvUploadListedUnknown | backend/server.js:81-82 | one uploaded file named `<stem>.mkv` with a `video/` MIME type is recorded as a video, and the list handler types the same file unknown |
| PlaylistServer.Filenames | backend/server.js:148 | same length, the k-th name is the k-th item's `filename` |
| PlaylistServer.ListedItem | backend/server.js:84-90 | the record's id, name and filename are the line itself, its url is `/uploads/` followed by the line, and its type is ListedType's |
| PlaylistServer.AddedItem | backend/server.js:258-264 | the list handler's record of the same name, but typed by the add-media classifier |
| PlaylistServer.UploadRecord | backend/server.js:198-208 | the add-media record of the original name, but typed by the MIME type |
| PlaylistServer.ListedItems | backend/server.js:71-91 | every listed item names an uploaded file the list contains, built as the list handler builds it |
| PlaylistServer.ListedItemsMembership | backend/server.js:73-76 | a name is listed exactly when the file names it, it is non-empty, and the upload directory holds it |
| PlaylistServer.ListedItemsAppend | backend/server.js:71-91 | the item filter keeps file order: items of a concatenation are the items of each part, concatenated |
| PlaylistServer.AddedItems | backend/server.js:252-265 | one item per file name in file order, no existence filter, each typed by the add-media classifier |
| PlaylistServer.UploadRecords | backend/server.js:198-209 | one record per uploaded file, in order, under its original name, typed image exactly for `image/` MIME types and never unknown |
| PlaylistServer.ListedPlaylist | backend/server.js:54-97 | the id is the file's base name, the name is the id with spaces for underscores, and the items are those listed by the active copy's content when there is an active copy, else by the inactive copy's; every item is an uploaded file |
| PlaylistServer.PlaylistFiles | backend/server.js:52-53 | every kept name ends in ".txt", and no more names are kept than listed |
| PlaylistServer.PlaylistFilesMembership | backend/server.js:52-53 | a name is kept exactly when it is in the listing and ends in ".txt" |
| PlaylistServer.ListPlaylists | backend/server.js:49-100 | the ".txt" names of the active listing and then of the inactive listing, in that order, each a stored file, each mapped to the playlist built from it |
| PlaylistServer.PlaylistFilesDistinct | backend/server.js:52-53 | keeping the ".txt" names keeps a listing free of repeats |
| PlaylistServer.StoredPlaylistListed | backend/server.js:49-55 | every stored ".txt" file appears in the listing as the playlist built from it |
| PlaylistServer.AbsentNotListed | backend/server.js:49-55 | no listed playlist carries an id whose file is in neither directory, so a deleted playlist is not listed |
| PlaylistServer.ListedTwiceWhenInBoth | backend/server.js:49-64 | a file in both directories is listed twice, both times as the playlist read from the active copy |
| PlaylistServer.CreatedPlaylistListed | backend/server.js:117-127 | after create, with no file in both directories before and no active file of the id, the next listing holds the new playlist (sanitised id, name rebuilt from it, no items) at exactly one position |
| PlaylistServer.Store.constructor | backend/server.js:17-26 | the store starts from the given directories and uploads |
| PlaylistServer.Store.Locate | backend/server.js:143-146 | the active file when it exists; no file when neither directory holds one; with no id in both directories, the inactive file exactly when the inactive directory holds it |
| PlaylistServer.Store.Create | backend/server.js:108-134 | a missing or empty name is refused with nothing changed; otherwise exactly `inactive/<id>.txt` is set empty and the playlist is returned under the given name with no items |
| PlaylistServer.Store.Update | backend/server.js:137-171 | the active file if present, else the inactive one, else NotFound; only that file changes, to the items' file names joined by line breaks; the body is echoed |
| PlaylistServer.Store.Delete | backend/server.js:174-192 | removes only the file found first (the active copy when both exist), else NotFound with nothing changed; with no file in both directories before, the id then has no file left |
| PlaylistServer.Store.AddMedia | backend/server.js:219-278 | the file found first becomes the old names followed by the new ones; the response lists every name, typed by extension; NotFound changes nothing |
| PlaylistServer.Store.Upload | backend/server.js:195-216 | the uploads gain exactly the original names, the playlists are untouched, and the response is the records |
| SortablePlaylist.Ids | src/components/SortablePlaylist.tsx:70 | the sortable ids are the items' ids, position by position |
| SortablePlaylist.FindIndex | src/components/SortablePlaylist.tsx:46-47 | -1 exactly when the id is absent, otherwise the first position holding it |
| SortablePlaylist.RemoveAt | src/pages/MediaManager.tsx:96-100 | one element shorter; elements before the index stay, elements after it shift down by one |
| SortablePlaylist.InsertAt | src/components/SortablePlaylist.tsx:49 | one element longer, the new element at the index, and removing it again gives the original |
| SortablePlaylist.ArrayMove | src/components/SortablePlaylist.tsx:49 | same multiset, the moved element at the target, and the other elements in their old order |
| SortablePlaylist.ArrayMovePositions | src/components/SortablePlaylist.tsx:49 | positions outside the moved span keep their element; inside it they shift by one towards the source |
| SortablePlaylist.ArrayMoveSame | src/components/SortablePlaylist.tsx:49 | moving an element onto its own position changes nothing |
| SortablePlaylist.DragEnd | src/components/SortablePlaylist.tsx:42-52 | no reorder when there is no target or the item is dropped on itself; otherwise a permutation with the first item of the dragged id at the target's first position and the rest in order |
| SortablePlaylist.Rows | src/components/SortablePlaylist.tsx:72-79 | one row per item, in order; clicking row i selects i; exactly one row is highlighted when the current index is in range, none otherwise |
| MediaManager.IndexAfterDelete | src/pages/MediaManager.tsx:103-108 | for non-negative indices the new index is never negative and never above the old one, at most one below it, and below it exactly when an earlier playlist or the selected one above position 0 was deleted; MediaManager.DeleteKeepsSelection states the in-range promise |
| MediaManager.DeleteKeepsSelection | src/pages/MediaManager.tsx:103-108 | deleting another playlist keeps the same playlist selected; deleting the selected one selects its predecessor, or the first; the index stays in range |
| MediaManager.MediaIndexAfterSort | src/pages/MediaManager.tsx:185-188 | unchanged when there is no current item (an empty id counts as none) or the new list is empty; otherwise the first position of the old item's id in the new list, or 0 when the id is gone |
| MediaManager.SortKeepsCurrentItem | src/pages/MediaManager.tsx:185-188 | after a permutation the same item stays selected, at the first position of its id |
| MediaManager.DragKeepsCurrentItem | src/pages/MediaManager.tsx:163-188 | a drag followed by sort-end keeps the selected item selected |
| MediaManager.PreviousIndex | src/pages/MediaManager.tsx:203-207 | a non-negative index stays non-negative and never grows; it moves, by one step back, exactly when it is above 0 |
| MediaManager.NextIndex | src/pages/MediaManager.tsx:209-213 | an index inside the list stays inside it; it moves, by one step forward, exactly when it is before the last item |
| MediaManager.SteppingStaysInRange | src/pages/MediaManager.tsx:203-213 | stepping never leaves the list or goes below 0; from index 0 it never moves on an empty list |
| MediaManager.Manager.constructor | src/pages/MediaManager.tsx:28-33 | the initial state: no playlists, both indices 0, empty field, dialog closed, loading; the media index is in range |
| MediaManager.Manager.LoadPlaylists | src/pages/MediaManager.tsx:37-58 | a non-empty fetch replaces the list; an empty one is replaced by the created default playlist; a failure changes nothing; loading ends; from the mount-time media index 0 the media index stays in range |
| MediaManager.Manager.CreatePlaylist | src/pages/MediaManager.tsx:63-89 | a request is sent exactly when the trimmed name is non-empty; the created playlist is appended at the end, the field cleared and the dialog closed; the media index stays in range |
| MediaManager.Manager.DeletePlaylist | src/pages/MediaManager.tsx:91-121 | exactly the element at the index is removed, the indices follow the deletion rule, and another playlist stays selected; the media index stays in range of the selected playlist |
| MediaManager.Manager.Upload | src/pages/MediaManager.tsx:123-161 | nothing is sent without playlists; otherwise only the selected slot is replaced by the server's playlist; the media index stays in range when that playlist has no fewer items |
| MediaManager.Manager.SortEnd | src/pages/MediaManager.tsx:163-201 | the selected slot becomes the server's playlist and the media index follows the previously current item, and stays in range when the server echoes the reordered items |
| MediaManager.Manager.Previous | src/pages/MediaManager.tsx:203-207 | the media index takes one step back, never below 0, and stays in range |
| MediaManager.Manager.Next | src/pages/MediaManager.tsx:209-213 | the media index takes one step forward, never past the last item, and never without a playlist; it stays in range |
| MediaManager.Manager.SelectPlaylist | src/pages/MediaManager.tsx:272-275 | the clicked playlist is selected and the media index reset to 0, which is in range |
| MediaManager.Manager.SelectMedia | src/pages/MediaManager.tsx:323 | the clicked row becomes the media index, which is in range |
| Display.KindOf | display/display.py:66-102 | a picture exactly when the lower-cased name ends in an image suffix, skipped exactly when it ends in no image or video suffix; Display.KindOfSuffixes, Display.KindIgnoresCase and Display.SlidesMembership state the rest |
| Display.KindOfSuffixes | display/display.py:66-102 | a picture exactly when the lower-cased name ends in one of the six image suffixes; a clip exactly when it ends in none of those but in one of the nine video suffixes |
| Display.KindIgnoresCase | display/display.py:66-67 | classification does not depend on letter case |
| Display.TiffIsPicture | display/display.py:67 | any name ending in ".tiff" is shown as a picture |
| Display.GifIsClip | display/display.py:96 | any name ending in ".gif" is played as a clip, while the server's add-media handler types it an image |
| Display.Slides | display/display.py:63-104 | every slide is a listed file that loads, shown as its classified kind |
| Display.SlidesMembership | display/display.py:63-104 | a file is shown as a kind exactly when it is listed, classified as that kind and loads |
| Display.SlidesAppend | display/display.py:63-100 | the slides keep list order |
| Display.SplitLines | display/display.py:57 | no line holds a line break |
| Display.SplitLinesJoin | display/display.py:57 | joining the lines with line breaks gives the file back, but for the one trailing line break `splitlines` drops |
| Display.DisplayReadsServerFile | display/display.py:57 | the display reads back exactly the file names the server wrote |
| Display.FrameShowsStoredPlaylist | display/display.py:52-61 | with a playlist active, the slides are those of the names the server stored in it |
| Display.PlaylistSource | display/display.py:52-61 | every upload is listed when there is no active file or it cannot be read; Display.FrameShowsStoredPlaylist gives the other case |
| Display.NextDisplayTime | display/display.py:132-138 | from a time in 1..5 the next one is again in 1..5 and one lower modulo 5 |
| Display.DisplayTimeBounded | display/display.py:132-138 | the display time stays between 1 and 5 seconds |
| Display.DisplayTimeFromStart | display/display.py:132-138 | from the initial 3, the presses cycle 3, 2, 1, 5, 4 with period 5 |
| Display.Advance | display/display.py:322 | the next index is a position of the playlist |
| Display.IndexAfterShowsMod | display/display.py:322 | after k slides the index is k mod the playlist length: round-robin playback |
| Display.IsMenuName | display/display.py:160 | a name is kept exactly when it is a playlist file name as the server writes them, and it is then the file name of its own base name |
| Display.PopLoop | display/display.py:159-161 | when the loop does not fail it returns no more names than it was given, all taken from them; Display.PopLoopClosedForm says when it fails |
| Display.FilterMenuAsWritten | display/display.py:159-161 | the removal loop computes the as-written function |
| Display.PopLoopClosedForm | display/display.py:159-161 | the loop fails when a rejected name precedes the last position, drops the last name when only it is rejected, and otherwise keeps the list |
| Display.PopLoopFailsOnStrayFile | display/display.py:159-161 | a stray file before the last playlist makes the loop fail where the filter keeps both playlists |
| Display.PopLoopAgreesWhenItSucceeds | display/display.py:159-161 | whenever the loop as written does not fail, its result is the filter's |
| Display.MenuNames | display/display.py:159-161 | a name is kept exactly when it is in the list and is a playlist file name |
| Display.MenuNamesAppend | display/display.py:159-161 | the filter keeps the order of the parts it is given |
| Display.MenuList | display/display.py:156-161 | the menu holds exactly the playlist file names of the two listings: the active listing's first, in listing order, then the inactive listing's, sorted |
| Display.ScrollUpOffset | display/display.py:187-188 | one step up exactly when the offset is above 0, keeping it in range |
| Display.ScrollDownOffset | display/display.py:189-190 | one step down exactly when the offset is below `count - 5`, keeping it in range |
| Display.RowsShowListedNames | display/display.py:192-205 | while the offset is in range of the current count, every shown or tapped row is a listed name |
| Display.StaleOffsetRunsPastEnd | display/display.py:156-161 | a list that shrinks under a scrolled offset leaves it out of range: seven playlists scrolled down twice, one deleted, and row 4 reads position 6 of six |
| Display.Move | display/display.py:172-175 | `mv` on two name sets: no name is lost or made, the name leaves the source and enters the target when the source holds it, nothing happens otherwise, and disjoint sets stay disjoint |
| Display.ActivateSelected | display/display.py:171-184 | the IndexError exactly when `playlists[0]` or `playlists[selected]` is out of range where it is read; otherwise the names are kept, disjoint directories stay disjoint, a selected name held by either directory ends up active, and nothing else is newly active |
| Display.ActivationMovesSelected | display/display.py:171-175 | with at most one active playlist listed first, the moves leave exactly the selected one active |
| Display.ExactlySelectedActive | display/display.py:156-184 | with at most one active playlist and valid names, Start or Back makes exactly the chosen one active and all others inactive |
| Display.Frame.constructor | display/display.py:13-46 | the script's initial globals |
| Display.Frame.CycleDisplayTime | display/display.py:132-138 | the display time steps down or wraps to 5; nothing else changes |
| Display.Frame.TogglePause | display/display.py:139-143 | pause is flipped; nothing else changes |
| Display.Frame.ReturnToMenu | display/display.py:126-131 | the menu flag is set; nothing else changes |
| Display.Frame.OpenSelectMenu | display/display.py:246-247 | the playlist menu opens; nothing else changes |
| Display.Frame.ScrollUp | display/display.py:187-188 | the offset scrolls up within range |
| Display.Frame.ScrollDown | display/display.py:189-190 | the offset scrolls down within range |
| Display.Frame.TapRow | display/display.py:192-194 | the tapped row plus the offset becomes selected; while the offset is in range of the count, that is a listed name |
| Display.Frame.FetchImages | display/display.py:48-104 | the slides are those of the active playlist's lines, or of every upload when no playlist is active or readable |
| Display.Frame.Start | display/display.py:167-177 | the moves, or the IndexError; then both menus close, the indices reset and the new active playlist is loaded |
| Display.Frame.Back | display/display.py:178-185 | the same moves, then back to the main menu with the indices reset and playback untouched |
| Display.Frame.PlayAll | display/display.py:231-239 | the first active file is moved out and playback restarts; with at most one active playlist, every upload is shown |
| Display.Frame.ShowNext | display/display.py:275-322 | an empty playlist returns to the menu; otherwise the current slide is shown and the index moves on round-robin |

## Left out

- HTTP status 500 and every `catch` branch of the server: failures of the file system, a request body without `items` or `mediaItems`, and a `name` that is not a string are not modelled.
- Express routing, CORS, multer's disk storage, static serving and the catch-all page are not modelled; neither are ids holding `/` or `..`, which `path.join` would resolve outside the playlist directories.
- The 404 returned inside the list handler's `map` is left out: a listed file always exists unless another request races with the listing, and concurrent requests are not modelled.
- Text.Extension: follows the last '.' when it is not the first character; other corner cases of `path.extname`, such as a name of two dots, are not modelled.
- Text.ToLower: lower-cases ASCII only, where JavaScript's `toLowerCase` and Python's `lower` use full Unicode case mapping.
- PlaylistServer.ListedItems: a line counts as an existing upload exactly when it is the name of a file in the upload directory; lines that `path.join` turns into other paths `existsSync` accepts, such as `.`, `../server.js` or `a/./b.jpg`, are treated as plain names.
- Text.IsWhitespace: strings are sequences of code points, not UTF-16 units, so lone surrogates are outside the model.
- Display.SplitLines: breaks only on '\n'; Python's `splitlines` also breaks on '\r', '\r\n', '\v', '\f' and a few Unicode separators, which the server writes only inside a media file name that holds one; such a name is split by the display, so Display.DisplayReadsServerFile holds only for names free of them.
- Display.RowsShowListedNames: holds only while the offset is in range of the current count. display/display.py:156-161 rebuild the menu list every frame, but only the arrows and Start and Back change `offset`, so a list that shrinks under a scrolled offset makes line 203 or 205 raise IndexError, and a tap in that frame selects a position past the end (Display.StaleOffsetRunsPastEnd). Display.Frame.ScrollUp, ScrollDown and TapRow take the current count as a parameter and promise the range only when the old offset was in range of it; the model does not show the IndexError.
- Directory listings (`readdirSync`, `os.listdir`) are parameters: each holds exactly the names of its directory (`Text.Lists`), without repeats where a property needs that (`Text.Distinct`), in an order the platform chooses. So are the contents the display reads and whether a media file loads (`readable`); image decoding, EXIF rotation and scaling, and video decoding are not modelled.
- MediaManager: `async` and the order in which React applies state updates, the toasts, the loading screen, the dialog and the input's `onChange`, and the uploader's spinner are not modelled; each handler runs as one step.
- MediaManager.Manager.LoadPlaylists: keeps the selection invariant only from the initial index 0, because it runs once on mount.
- MediaManager.Manager.Upload: keeps the media index in range only when the server's playlist has no fewer items than the one it replaces; the server's answer is a parameter, and the add-media handler only appends (PlaylistServer.AppendPersists).
- MediaManager.Manager.SortEnd: keeps the media index in range only when the server answers with the reordered items and the reorder keeps the length, as a drag does (SortablePlaylist.ArrayMove); the answer is a parameter.
- SortablePlaylist: which item `over` is comes from dnd-kit's sensors and collision detection, which are not modelled; the drag gives two ids of the list.
- The display's drawing, fonts, touch rectangles (taps are events), the clock (`imgTime`, `vidTime`, `time.sleep`), `ip.txt`, GPIO setup, and the quit paths (`cb_27`, the Quit button, Ctrl-C) are not modelled.
- The `Thread` that reruns `fetchImages` while a slide shows is not modelled; the slide list is rebuilt only by Start and Play all. In the program, display/display.py:285-286 and 321-322 rebuild `playlist` after every slide, so when the rebuilt list is empty (no listed file loads any more) `(idx+1) % len(playlist)` raises ZeroDivisionError, and a shorter or reordered rebuilt list changes which slide comes next; line 322 reduces `idx` modulo the rebuilt length, so the next read stays inside the list. Display.Advance requires a non-empty playlist and cannot show the ZeroDivisionError, and the model does not show the changed order.
- `mv` runs through a shell; names with spaces or shell characters, and failures other than a missing source, are not modelled.
- Display.Frame.Start: after the IndexError the program ends, and the model says nothing about the state it leaves.
- Display.Frame.Back: after the IndexError the program ends, and the model says nothing about the state it leaves.
- Display.MenuList: uses the corrected filter; the loop as written is modelled separately and its failure is a finding.

## Findings

| source | as written | input that shows it | evidently intended | confidence | as-written member | corrected member |
|---|---|---|---|---|---|---|
| display/display.py:159-161 | `for i in range(len(playlists))` calls `playlists.pop(i)` inside the loop, so the entry after a removed one is never examined and the index runs past the shortened list | an active directory listing `a.txt` and `notes` with `b.txt` inactive gives the menu list `a.txt`, `notes`, `b.txt`; removing `notes` leaves two names and `playlists[2]` raises IndexError, ending the program | keep exactly the names that end in ".txt", in order | not executed | Display.PopLoopFailsOnStrayFile | Display.MenuNames |
