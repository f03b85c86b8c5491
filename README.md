# Image caption tool — a Dafny model of its store, thumbnail worker and list bookkeeping

The image caption tool keeps one caption per image in a `.txt` sidecar next to
the image. It also keeps a per-folder SQLite store of every image's relative
path, absolute path, mtime, caption and cached JPEG thumbnail. This project
models the logic of that store and of the tool's window, leaving out the
storage engine, the threads and the widgets.

- **`ImageDB`** (`store.dfy`, module `Store`) is a class whose table is a
  `map` from relative path to `Row`, with the AUTOINCREMENT sequence as a
  counter.
  - `sync` reconciles the table with a scan of the disk:
    - it deletes rows whose file is gone;
    - it inserts new files with their sidecar caption and no thumbnail;
    - it clears the thumbnail of a file whose mtime moved by more than 0.5 s.
  - `sync` is specified by the predicate `Reconciled`. It is proved through
    value methods whose loops mirror the source's loops.
  - The queries, the caption and thumbnail updates, `rename` and `delete`
    are stated as exact new tables, built from `WithCaption`, `WithThumb`,
    `Renamed` and map subtraction.
  - `get_all` filters with SQLite `LIKE` semantics: ASCII case folding, with
    `%` and `_` acting as wildcards (`Text.Like`).
- **`ThumbWorker`** (`thumbnails.dfy`, module `Thumbnails`) runs its loop
  sequentially.
  - The run is specified by a pure trace of effects, `Trace`. The effects
    are `Persist` (a `set_thumb`) and `Emit` (a queue put).
  - The worker's queue and the store's table are proved to be what that
    trace produces.
  - Lemmas about the trace state the event protocol:
    - counts run 1..N;
    - the run ends with exactly one `done` or `abort`;
    - a thumbnail is stored only for non-empty bytes, and before its event;
    - nothing is stored after the stop point.
- **`ImageCaptionApp`** (`caption_app.dfy`, module `CaptionApp`) keeps the
  state that the window's handlers change:
  - `image_files`, `all_image_files`, `image_index`, `current_image`,
    `image_directory`, the view mode, whether the grid was built, and the
    thumbnail column count.
  - Its methods model the navigation keys, `select_image` stepping, the
    filter and its index repair, the switches between the list and the
    thumbnail view, opening a folder, the in-place path update, the delete
    bookkeeping and the grid's column and cell arithmetic.
- Support modules:
  - `Text`: Python `str.strip`, SQLite `LIKE`, and code-point order with a
    verified sort.
  - `Lists`: `list.index`, first-occurrence replacement, `pop`, `remove`, an
    order-preserving filter, and subsequence.
  - `Paths`: Windows separator normalisation, `os.path.splitext`, and the
    sidecar path.
  - `Wrappers`: `Option`, `Result` and `Outcome`.

The filesystem is an input value `FileSystem`. It holds:

- an `os.path.relpath` oracle;
- the mtimes `os.path.getmtime` can read;
- the sidecar files and whether they decode as UTF-8;
- the images the image library can open.

Pillow's thumbnail generation is an oracle `generate: string -> Option<Bytes>`.

## Model

| member | source | states |
|---|---|---|
| Text.TrimStart | db.py:206 | the result is a suffix of the input; everything dropped is whitespace, and the result does not start with whitespace |
| Text.TrimEnd | db.py:206 | the result is a prefix of the input; everything dropped is whitespace, and the result does not end with whitespace |
| Text.Strip | db.py:206 | `str.strip`: the result is a slice of the input with only whitespace on both sides of it, and it neither starts nor ends with whitespace |
| Text.StripTruthiness | db.py:206 | `text.strip()` is non-empty exactly when the text holds a non-whitespace character, which is what `has_caption` records |
| Text.StripIdempotent | main.py:661 | stripping twice is stripping once, so `update_caption` (db.py:206) sees the same truthiness in the text the window already stripped |
| Text.Like | db.py:161-166 | `LIKE` without an ESCAPE clause: a pattern without `%` only matches strings of its own length, and a pattern without wildcards matches exactly the strings equal to it up to ASCII case |
| Text.LikeAnything | db.py:166 | the pattern `%` matches every string |
| Text.LikeLiteralPrefix | db.py:166 | for a filter without wildcards, `LIKE 'f%'` holds exactly when the string starts with `f` up to ASCII case |
| Text.LikeLeadingPercent | db.py:166 | a leading `%` matches exactly when the rest of the pattern matches some suffix of the string |
| Text.LikeIsContains | db.py:161-166 | for a filter without wildcards, `LIKE '%f%'` holds exactly when `f` occurs in the string up to ASCII case |
| Text.LessIrreflexive | db.py:167 | the code-point order of `ORDER BY rel_path` is irreflexive |
| Text.LessTransitive | db.py:167 | that order is transitive |
| Text.LessTotal | db.py:167 | that order is total and antisymmetric on distinct strings |
| Text.LeastExists | main.py:768 | every non-empty set of paths has a least element |
| Text.SortKeys | main.py:768 | the result is strictly ascending and holds exactly the given paths, each once |
| Text.AscendingExists | main.py:768 | every finite set of paths can be listed in ascending order |
| Text.AscendingUnique | main.py:768 | two ascending lists with the same members are equal, so `found.sort()` has one possible result |
| Text.SortedOf | main.py:768 | the ascending list of a set's members, the list `found.sort()` produces |
| Lists.IndexOf | main.py:743 | `list.index`: found exactly when present, at the first position holding the value |
| Lists.ReplaceFirst | main.py:931-937 | same length; only the first occurrence of `old_ap` becomes `new_ap` |
| Lists.ReplaceFirstRoundTrip | main.py:931-937 | replacing a path by a fresh one and then back restores the list |
| Lists.RemoveAt | main.py:970 | `list.pop(i)`: one shorter, entries before `i` kept, entries after shifted down, the same multiset less the popped entry |
| Lists.RemoveFirst | main.py:972 | `list.remove(x)` drops one `x`, the first: the result is the list around a position holding `x` with no `x` before it, one shorter, with the same multiset less one `x` |
| Lists.Filter | main.py:712-715 | the result keeps exactly the entries that satisfy the test, in their original order, as a subsequence, and each kept value as often as in the input |
| Lists.FilterStep | main.py:712-715 | filtering a list extended by one entry extends the filtered list by that entry exactly when it passes the test |
| Paths.Normalize | db.py:282 | same length; every backslash becomes a forward slash and every other character is kept |
| Paths.Localize | db.py:285 | same length; every forward slash becomes a backslash and every other character is kept |
| Paths.NormalizeIdempotent | db.py:280-282 | normalising a normalised path changes nothing |
| Paths.LocalizeRoundTrip | db.py:280-285 | normalising what `_abs` localised gives back the stored relative path |
| Paths.JoinLayout | db.py:285 | `os.path.join(directory, rel)`: `directory`, then `rel`, with a backslash between them exactly when `directory` is non-empty, does not end in a separator and is not a bare drive such as `C:` |
| Paths.ExtStart | db.py:289 | the backward scan returns a position holding a dot, after which no dot or separator follows, or the end of the path |
| Paths.ExtStartSpec | db.py:289 | the scan finds an extension exactly when the final component has a non-dot character before a later dot |
| Paths.StripExtension | db.py:289 | `os.path.splitext(p)[0]`: a prefix of the path, cut at a dot after which no dot or separator follows; it is cut exactly when the final component has a non-dot character followed later by a dot |
| Paths.SidecarPath | db.py:289 | the sidecar path is the image path without its extension, plus `.txt` |
| Paths.SidecarReplacesExtension | db.py:289 | example: `C:\d\a.png` has the sidecar `C:\d\a.txt` |
| Paths.SidecarKeepsInnerDots | db.py:289 | example: only the last extension is replaced: `b.tar.jpg` gives `b.tar.txt` |
| Paths.SidecarOfDotName | db.py:289 | example: a leading dot does not start an extension, and dots in directory names do not count |
| Store.RelOf | db.py:280-282 | `_rel` is `relpath` with each backslash replaced by a forward slash and every other character kept |
| Store.AbsOfLayout | db.py:284-285 | `_abs` starts with the directory and ends with the relative path localised, which holds no forward slash |
| Store.MTimeOf | db.py:121-124 | the disk mtime where `getmtime` succeeds, 0.0 where it raises |
| Store.ReadCaption | db.py:288-297 | fails exactly on a sidecar that is not valid UTF-8; a decoded sidecar gives its text, with `has_caption` the truthiness of the stripped text; a missing or unreadable one gives `("", 0)` |
| Store.RelToAbs | db.py:96-99 | the map's keys are exactly the relative paths of the scanned files |
| Store.RelToAbsLastWins | db.py:96-99 | when two scanned files share a relative path, the map holds the later one |
| Store.Probe | db.py:116-125 | reading a new file fails exactly when its sidecar read fails, and otherwise gives its relative and absolute path, its disk mtime (0.0 if unreadable) and the caption read from its sidecar |
| Store.Refresh | db.py:139-147 | a row stays as it was exactly when its disk mtime is within 0.5 s of the stored one; otherwise it takes the disk mtime and loses its thumbnail; id, paths and caption are kept either way |
| Store.MatchesFilter | db.py:158-166 | an empty filter matches every row; a filter without wildcards matches exactly when it occurs, up to ASCII case, in the caption or the relative path |
| Store.WithCaption | db.py:205-213 | only the named row changes, and only in its caption fields; the key set is kept |
| Store.WithThumb | db.py:234-247 | only the named row changes, and only in its thumbnail; the key set is kept |
| Store.Renamed | db.py:254-262 | a missing old key is a no-op; otherwise the row moves to the new key with the new paths and keeps id, mtime, caption and thumbnail; no other row changes |
| Store.ReadAll | db.py:216-227 | one caption per path, each the one read from its sidecar |
| Store.ApplyCaptions | db.py:225-227 | the key set is kept and rows not listed are unchanged |
| Store.ApplyCaptionsEffect | db.py:216-227 | a listed row takes the caption read for it, and unlisted rows and the key set are unchanged |
| Store.UpdateAllEffect | db.py:216-227 | `update_all_captions` re-reads exactly the listed rows' captions and touches nothing else |
| Store.RelPathsOf | db.py:151-152 | the returned relative paths follow the input order, one per input path |
| Store.SyncComposes | db.py:108-147 | deleting, inserting and then refreshing gives a reconciled table |
| Store.SyncRows | db.py:83-152 | the sync outcome on values: failure exactly when a new file's sidecar does not decode; after success the key set is the disk set, the table is reconciled, and the paths are returned in order |
| Store.InsertAndRefresh | db.py:127-147 | inserting the probed new files and then refreshing the survivors gives a well-formed table, keyed by the disk set, that is reconciled with the old one |
| Store.MapRelToAbs | db.py:96-99 | the loop builds the relative-path map |
| Store.CollectNew | db.py:116-125 | collects every new file exactly once (pairwise distinct relative paths, one per new path), or fails exactly when one of them cannot be read |
| Store.GatherNew | db.py:116-125 | the loop probes every new path once: it fails only where some probe fails, and otherwise gathers each new path's successful probe, with distinct relative paths |
| Store.GatheredCount | db.py:116-125 | the collected files are as many as the new paths |
| Store.InsertNew | db.py:127-133 | each new file gets a fresh id from the sequence, no thumbnail, and its mtime and caption |
| Store.RefreshStayed | db.py:136-147 | each row is refreshed against its disk mtime with the 0.5 s tolerance |
| Store.ImageDB.constructor | db.py:31-35 | a new store has no directory and no rows |
| Store.ImageDB.Open | db.py:40-47 | opening a directory loads that directory's stored table and sequence |
| Store.ImageDB.Sync | db.py:83-152 | after success the stored relative paths are exactly those of the scanned files, and the table is reconciled (`StoreLaws` states what that means row by row); on failure only the stale deletions have happened; ids only grow |
| Store.ImageDB.GetAll | db.py:158-175 | a listing of exactly the rows that match the filter (all rows for an empty filter), strictly ascending by relative path |
| Store.ListingsOf | db.py:167-175 | one listing per given key, built from its row, strictly ascending by relative path, as `ORDER BY rel_path` returns them |
| Store.ImageDB.GetByRel | db.py:177-182 | the row of that path, or none when no row has it |
| Store.ImageDB.GetThumb | db.py:184-191 | the stored thumbnail, or none when the row or its thumbnail is missing |
| Store.ImageDB.GetPendingThumbs | db.py:193-199 | exactly the `(rel_path, abs_path)` pairs of rows without a thumbnail, ascending |
| Store.ImageDB.UpdateCaption | db.py:205-213 | the row's caption is set and `has_caption` is recomputed from the stripped text; nothing else changes |
| Store.ImageDB.UpdateAllCaptions | db.py:216-227 | fails, changing nothing, exactly when some listed sidecar does not decode; otherwise re-reads every listed caption |
| Store.ImageDB.ReadCaptions | db.py:221-224 | reading the listed sidecars fails exactly when one does not decode |
| Store.ImageDB.ApplyAll | db.py:225-227 | the table becomes the old table with the read captions applied |
| Store.ImageDB.SetThumb | db.py:234-239 | only the named row's thumbnail becomes the bytes |
| Store.ImageDB.InvalidateThumb | db.py:242-247 | only the named row's thumbnail is cleared |
| Store.ImageDB.Rename | db.py:254-262 | fails, changing nothing, exactly when the new path is already another row's (the UNIQUE constraint); otherwise the table is renamed |
| Store.ImageDB.Delete | db.py:269-273 | exactly the named row is removed |
| StoreLaws.RefreshSettles | db.py:136-147 | refreshing twice against the same mtime is refreshing once, and afterwards the row is within the tolerance |
| StoreLaws.SyncIdempotent | db.py:83-152 | a second sync against the same disk changes nothing |
| StoreLaws.SyncKeepsSurvivors | db.py:136-147 | a surviving row keeps id, paths and caption; it is untouched within the 0.5 s tolerance, and beyond it loses its thumbnail and takes the disk mtime |
| StoreLaws.SyncAddsFresh | db.py:116-133 | a new row has a fresh id, no thumbnail, the disk mtime (0.0 if unreadable), and the caption text of its decoded sidecar (empty when the sidecar is missing or unreadable), with `has_caption` exactly when the stripped caption is non-empty |
| StoreLaws.CaptionFlagIsStripped | db.py:205-213 | after `update_caption`, `has_caption` holds exactly when the stripped caption is non-empty |
| StoreLaws.RenameRoundTrip | db.py:254-262 | renaming a row and renaming it back restores the table |
| StoreLaws.RenameKeepsWellFormed | db.py:254-262 | a rename keeps the row's id and the table well formed |
| StoreLaws.ThumbUpdates | db.py:193-199 | `set_thumb` takes the row off the pending list and `invalidate_thumb` puts it back; no other row's pending status changes; invalidating after setting is invalidating |
| StoreLaws.FilterKeepsCat | db.py:161-166 | example: the filter `cat` keeps a row captioned `A black Cat` |
| StoreLaws.FilterDropsDog | db.py:161-166 | example: the filter `cat` drops `dog.png`, which has an empty caption |
| StoreLaws.RelOfAbsOf | db.py:280-285 | `_rel` undoes `_abs` when `relpath` undoes `join` |
| Thumbnails.Events | db.py:341-351 | the events of a trace are at most as many as its effects |
| Thumbnails.EventsMembers | db.py:341-351 | the queue receives exactly the events the trace emits |
| Thumbnails.Truthy | db.py:348 | bytes count as truthy exactly when they are neither None nor empty |
| Thumbnails.StepEffects | db.py:347-350 | one iteration stores truthy bytes first, then posts `thumb` with the count `i+1` of `total`; untruthy bytes post only the event |
| Thumbnails.Steps | db.py:342-350 | n iterations produce between n and 2n effects, each a store of non-empty bytes or a `thumb` event |
| Thumbnails.Trace | db.py:341-351 | a run ends with exactly one final event, `abort` (0, 0) when stopped before the end and `done` (N, N) otherwise, after stores of non-empty bytes and `thumb` events only |
| Thumbnails.StepsEvents | db.py:343-350 | after n items the queue holds n `thumb` events, the k-th carrying item k's relative path, its bytes and the count `k+1` of `total` |
| Thumbnails.RunEvents | db.py:341-351 | a run over N items, stopped at m (or never), emits exactly m `thumb` events counted 1..m of N, then a single `abort` with (0, 0), or `done` with (N, N) when it was not stopped |
| Thumbnails.RunPersists | db.py:343-350 | every `set_thumb` of a run is for an item before the stop point, with non-empty bytes from the generator, and is followed by that item's event; an event with non-empty bytes has its `set_thumb` right before it |
| Thumbnails.PersistedFills | db.py:348-349 | applying the effects keeps the key set, gives every stored-to row a thumbnail, and never clears one |
| Thumbnails.StepsHavePersist | db.py:347-349 | every item before the stop point whose bytes are non-empty is stored |
| Thumbnails.RunFillsThumbs | db.py:341-351 | after a run, every row for an item before the stop point with non-empty bytes has a thumbnail |
| Thumbnails.ThumbWorker.constructor | db.py:315-319 | a new worker is not stopped, works on the given store and starts from the given queue contents |
| Thumbnails.ThumbWorker.Stop | db.py:329-336 | the stop flag is set and the queue is empty |
| Thumbnails.ThumbWorker.Run | db.py:341-351 | the queue gains the events of the trace and the table takes its stores; the worker ends up stopped exactly when it already was or stopped mid-run |
| Thumbnails.ThumbWorker.Handle | db.py:347-350 | one item: its non-empty bytes are stored, then its event is queued |
| Thumbnails.ThumbWorker.Start | db.py:321-327 | after the old run is stopped and drained, the queue is exactly the new run's events and the table has its stores |
| CaptionApp.FloorDiv | main.py:309 | Python `//`: the quotient rounds toward negative infinity, for either sign of divisor |
| CaptionApp.ShortName | main.py:1065-1067 | a name within `max(4, cell_w // font_px)` characters is returned as is; a longer one becomes its first `max_chars-1` characters plus `…`; the result never exceeds `max_chars` |
| CaptionApp.DotFor | main.py:1070-1071 | green exactly when the row has a caption, red otherwise |
| CaptionApp.DotTracksCaption | main.py:658-668 | after `update_caption`, a cell's dot is green exactly when the saved caption is non-blank |
| CaptionApp.ColumnsFor | main.py:560-565 | at least one column; as many whole cells as fit in the width |
| CaptionApp.CalcThumbCols | main.py:304-309 | at least one column; a canvas not yet laid out (under 10 px) counts as 400 px, hence 2 columns; a laid-out canvas narrower than two cells gets one |
| CaptionApp.Cell | main.py:311-314 | `divmod`: `row*cols + col == idx` and `col < cols` |
| CaptionApp.CellOf | main.py:311-314 | a cell position is `divmod`'s exactly when `idx == row*cols + col` |
| CaptionApp.StepLeft | main.py:529-534 | stays in range, moves back at most one, and stays put only at the first image |
| CaptionApp.StepRight | main.py:536-541 | stays in range, moves forward at most one, and stays put only at the last image |
| CaptionApp.StepUp | main.py:543-548 | moves back one row, or to the first image from the top row |
| CaptionApp.StepDown | main.py:550-555 | moves forward one row, or to the last image from the last row; stays in range |
| CaptionApp.DownIsBelow | main.py:550-555 | when a full row lies below, down goes to the cell straight below, and up comes back |
| CaptionApp.UpIsAbove | main.py:543-548 | from below the top row, up goes to the cell straight above |
| CaptionApp.Wrap | main.py:678 | `(index + step) % len` is always a valid index |
| CaptionApp.WrapEnds | main.py:678 | stepping past either end comes back in at the other |
| CaptionApp.WrapCompose | main.py:678 | two steps compose into one step of their sum |
| CaptionApp.WrapBack | main.py:678 | stepping by `-step` undoes a step |
| CaptionApp.DeleteShowsNeighbour | main.py:970-988 | after deleting entry `i`, the cursor at `min(i, len-1)` shows the image that followed it, or the one before when the last went |
| CaptionApp.Displayed | main.py:592-608 | the current image changes only to the image under the cursor, and to it whenever it opens |
| CaptionApp.ResolvedIndex | main.py:742-745 | on a non-empty list: the first position holding the current image when it is set and still listed, else 0 |
| CaptionApp.Pending | main.py:289-297 | the pairs handed to the worker are the subsequence of the listed pairs whose stored thumbnail is missing or empty; none for an empty list |
| CaptionApp.LoadCaptionStricter | main.py:646-649 | `load_caption` raises on every sidecar that makes the store's read raise, and beyond those exactly on one that exists but cannot be opened |
| CaptionApp.EmptySidecarReadsAsMissing | main.py:650-653 | the empty sidecar `load_caption` writes for a missing one reads exactly as the missing one did, for the store and for `load_caption` |
| CaptionApp.DisplayOutcome | main.py:599-610 | `display_image` raises exactly when the image under the cursor opens and its sidecar exists but cannot be read as UTF-8 text, and then with that sidecar's path |
| CaptionApp.ImageCaptionApp.constructor | main.py:20-50 | the window starts in the list view with empty lists, index 0, no current image and no grid built |
| CaptionApp.ImageCaptionApp.LoadImages | main.py:752-798 | the found images in their sorted order become both lists with the cursor on the first and the grid marked unbuilt; the sync raises exactly when a new file's sidecar is not UTF-8, and otherwise the store is the stored table reconciled with the scan (stale rows gone, survivors refreshed, new rows inserted with their captions); no directory or no image lists nothing and leaves the store alone, and the window quits exactly when that leaves it empty-handed; a failed sync changes no list but leaves the store open on the new directory with its stale rows deleted |
| CaptionApp.ImageCaptionApp.OpenAndSync | main.py:775-792 | the store of the directory is opened and synced with the scanned files: it raises exactly when a new file's sidecar is not UTF-8, leaving the store on the directory with only its stale rows deleted; otherwise the store is the stored table reconciled with the scan, the files become both lists, the cursor goes to the first and the grid is marked unbuilt |
| CaptionApp.ImageCaptionApp.OpenFolder | main.py:800-806 | the store error is raised exactly when the load's sync raises, and then lists, cursor, grid and flags are as they were and the store as the failed sync left it; otherwise a load leaves the reconciled store, the cursor is on the first image, which is shown, and only when showing it did not raise does the thumbnail view rebuild its grid, returning the pairs handed to the worker; a successful load leaves the grid marked unbuilt; a cancelled or empty scan leaves lists, directory and store alone |
| CaptionApp.ImageCaptionApp.SwitchToList | main.py:236-245 | the view becomes the list; lists, cursor and current image are unchanged |
| CaptionApp.ImageCaptionApp.SwitchToThumbs | main.py:247-269 | the view becomes the thumbnails; the grid is built, and its pending pairs returned, only on the first switch since a load |
| CaptionApp.ImageCaptionApp.DisplayImage | main.py:592-610 | the image under the cursor becomes current when it opens, and then `load_caption` raises exactly when its sidecar exists but cannot be opened or decoded; nothing else the model holds changes |
| CaptionApp.ImageCaptionApp.SelectIndex | main.py:673-679 | selecting an index sets the cursor there and shows that image, raising what showing it raises |
| CaptionApp.ImageCaptionApp.SelectStep | main.py:673-679 | on a non-empty list the cursor moves to `(index + step) % len` and that image is shown, raising what showing it raises; an empty list raises ZeroDivisionError and nothing changes |
| CaptionApp.ImageCaptionApp.ThumbKeyLeft | main.py:529-534 | the cursor takes a clamped step left and, when it moved, the new image is shown, raising what showing it raises; nothing changes on an empty list |
| CaptionApp.ImageCaptionApp.ThumbKeyRight | main.py:536-541 | the cursor takes a clamped step right and, when it moved, the new image is shown, raising what showing it raises; nothing changes on an empty list |
| CaptionApp.ImageCaptionApp.ThumbKeyUp | main.py:543-548 | the cursor moves one clamped row up and, when it moved, the new image is shown, raising what showing it raises; nothing changes on an empty list or with fewer than one column |
| CaptionApp.ImageCaptionApp.ThumbKeyDown | main.py:550-555 | the cursor moves one clamped row down and, when it moved, the new image is shown, raising what showing it raises; nothing changes on an empty list or with fewer than one column |
| CaptionApp.ImageCaptionApp.ClickThumb | main.py:511-523 | clicking a listed image puts the cursor on its first position and shows it, raising what showing it raises; an unlisted one changes nothing |
| CaptionApp.ImageCaptionApp.ResolveIndexAfterFilter | main.py:732-746 | the cursor goes to the first position of the current image if it is still listed, else to 0, and that image is shown, raising what showing it raises; an empty list forgets the current image |
| CaptionApp.ImageCaptionApp.ResolveAndRebuild | main.py:717-730 | the list stays as set; the cursor is resolved as after any filter; only when showing the image did not raise does the thumbnail view rebuild its grid and return the pairs handed to the worker |
| CaptionApp.ImageCaptionApp.ClearFilter | main.py:723-730 | every image is listed again; the cursor is resolved as after any filter; only when showing the image did not raise does the thumbnail view rebuild its grid and return the pairs handed to the worker |
| CaptionApp.ImageCaptionApp.FilterFiles | main.py:706-721 | the listed images are the order-preserving subsequence of all images whose row matches the stripped filter (every image for a blank filter), each as often as before; the cursor is resolved, and only when showing the image did not raise does the thumbnail view rebuild its grid and return the pairs handed to the worker |
| CaptionApp.ImageCaptionApp.MatchingFiles | main.py:711-713 | the images of `all_image_files`, in order and as often as they occur, whose stored row matches the text |
| CaptionApp.ImageCaptionApp.UpdatePathInLists | main.py:931-937 | the first occurrence of the old path becomes the new path in both lists; cursor and everything else are unchanged |
| CaptionApp.ImageCaptionApp.DeleteCurrentImage | main.py:943-989 | once confirmed and removed: the row is deleted, entry `cur_idx` leaves `image_files`, the first match leaves `all_image_files`, and the cursor becomes `min(cur_idx, len-1)` and that image is shown, raising what showing it raises; an empty result forgets the current image and keeps the cursor; the store directory and id sequence are untouched; otherwise nothing changes |
| CaptionApp.ImageCaptionApp.ShowAfterDelete | main.py:977-989 | after the removal, an emptied list forgets the current image and keeps the cursor; otherwise the cursor becomes `min(cur_idx, len-1)` and that image is shown, raising what showing it raises |
| CaptionApp.ImageCaptionApp.CanvasResized | main.py:560-565 | a grid with cells takes the column count for the new width |
| CaptionApp.ImageCaptionApp.BuildThumbGrid | main.py:275-297 | a non-empty list sets the column count; the returned pending pairs are, in list order, exactly the listed images whose stored thumbnail is missing or empty |
| CaptionApp.ImageCaptionApp.PendingFor | main.py:289-297 | the loop queues exactly the listed images without a usable cached thumbnail, in order |
| CaptionApp.Pairs | main.py:291-292 | one `(rel_path, abs_path)` pair per listed image, in order |

## Left out

- SQLite mechanics are not modelled: the connection, `executescript`, the schema, indexes, `row_factory` and commits (db.py:40-77). `ImageDB.Open` takes the stored table and sequence of the directory's store file as inputs. `close` only drops the connection and is not modelled.
- Store.ImageDB.Sync: when a new file's sidecar is not valid UTF-8, `open(..., encoding="utf-8").read()` raises `UnicodeDecodeError`, which the `except OSError` around it does not catch. So `sync` and `update_all_captions` raise, where a per-file error might be expected to be skipped; the model follows the code. In that case the stale rows' DELETEs already ran on the connection without a commit, and the model keeps them deleted.
- Store.ImageDB.Sync, Store.SyncRows, Store.InsertNew: the ids of new rows follow the iteration order of a Python set, which is unspecified. They are stated only as lying in the range the sequence advanced over. Uniqueness of ids is not tracked.
- Store.ImageDB.Sync: a surviving row's `abs_path` is not refreshed even if the scan found it under another absolute path with the same relative path. This is faithful to the code.
- mtimes are modelled as `real` rather than floating point, and `has_caption` as `bool` rather than the INTEGER 0/1.
- `os.path` is modelled in its Windows flavour (`\` separator, `/` alternative separator), the platform the tool targets.
- `os.path.relpath`, `os.path.getmtime`, sidecar reads, `os.walk`, `os.remove` and the confirmation dialog are inputs:
  - the `FileSystem` oracles;
  - `found` in `LoadImages`, a set because the walk yields each path once; the walk and its case-insensitive extension test (`.png`, `.jpg`, `.jpeg`, `.webp`) are folded into it;
  - `removed` and `confirmed` in `DeleteCurrentImage`.
- Writing sidecars is not modelled: `save_caption`, `search_empty_caption`, find/replace, `rename_file` and `on_dir_change` read the text widget or write files. `select_image` saving the caption before it moves is therefore not modelled, and `search_empty_caption` (which reads the text widget after each display) is left out with it. `_update_path_in_lists`, which those handlers call, is modelled.
- Threading is not modelled: the lock, the thread, the `Event` and the race between `stop` and a running loop (db.py:33, db.py:318-339). `stopAt`, the first item index at which the loop sees the stop flag, stands for a stop arriving mid-run. `is_running` is left out with the thread.
- Thumbnails.ThumbWorker.Stop: draining is modelled as emptying the queue. A put racing with the drain cannot happen in the sequential model.
- Pillow is left out: decoding, resizing and JPEG encoding in `_generate` are the `generate` oracle. `resize_image`, `_apply_jpeg` and their float ratios are left out.
- CaptionApp.ImageCaptionApp.DisplayImage: the empty sidecar `load_caption` writes for an image that has none is not added to the `FileSystem`, which is a read-only snapshot. `CaptionApp.EmptySidecarReadsAsMissing` shows that every later caption read gives the same result either way. An OSError from that write, for example in a read-only folder, is not modelled.
- CaptionApp.ImageCaptionApp.LoadImages: `root.quit()` only ends the Tk main loop once the handler returns, so the model returns it as the flag `quits` and carries on as the code does.
- The directory combobox that `load_images` fills from a second walk, and the filter box that `open_folder` clears, are widgets and are left out.
- The Tk user interface is left out: widget construction, bindings, scrolling (`_scroll_to_thumb`), the progress bar (`_set_progress`), `_poll_thumb_queue`, highlighting and placeholder drawing. `BuildThumbGrid` and the handlers that call it return the pending pairs instead of stopping the old worker and starting a new one.
- The translation service, the external viewer and the clipboard key workaround are left out as foreign calls.
