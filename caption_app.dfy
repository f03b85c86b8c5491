/**
 * The bookkeeping of the captioning window (main.py, class
 * ImageCaptionApp) without its widgets. The window keeps two lists of
 * absolute image paths, `all_image_files` and the filtered `image_files`,
 * and a cursor `image_index` into the second. The thumbnail grid lays
 * `image_files` out row by row over `_thumb_cols` columns.
 */
module CaptionApp {
  import opened Wrappers
  import opened Text
  import opened Lists
  import opened Store
  import opened Thumbnails
  import opened Paths

  const ThumbPad: nat := 6
  /** The side of one grid cell in pixels. */
  const CellSize: nat := ThumbSize + ThumbPad * 2

  /** Python's `a // b`: the quotient rounded down, whatever the signs. */
  function FloorDiv(a: int, b: int): (q: int)
    requires b != 0
    ensures b > 0 ==> q * b <= a < q * b + b
    ensures b < 0 ==> q * b >= a > q * b + b
  {
    if b > 0 then a / b else (-a) / (-b)
  }

  function Max(a: int, b: int): int {
    if a < b then b else a
  }

  function Min(a: int, b: int): int {
    if a < b then a else b
  }

  /** `_short_name(name, cell_w, font_px)`: the name itself when it fits in
      `max(4, cell_w // font_px)` characters, otherwise its first characters
      and an ellipsis, filling that width exactly. */
  function ShortName(name: string, cellW: int, fontPx: int): (r: string)
    requires fontPx != 0
    ensures var maxChars := Max(4, FloorDiv(cellW, fontPx));
            && |r| <= maxChars
            && (r == name <==> |name| <= maxChars)
            && (r != name ==> |r| == maxChars && r[|r| - 1] == '…' && r[..|r| - 1] == name[..|r| - 1])
  {
    var maxChars := Max(4, FloorDiv(cellW, fontPx));
    if |name| <= maxChars then name else name[..maxChars - 1] + "…"
  }

  const Green: string := "#4caf50"
  const Red: string := "#f44336"

  /** `_dot_color(row["has_caption"] if row else 0)`: the colour of a grid
      cell's caption dot; green exactly for a stored row with a caption. */
  function DotFor(row: Option<Row>): (c: string)
    ensures c == Green <==> row.Some? && row.value.hasCaption
    ensures c == Green || c == Red
  {
    if row.Some? && row.value.hasCaption then Green else Red
  }

  /** After `save_caption` stores the stripped text of the caption box, the
      image's dot is green exactly when the box held more than whitespace. */
  lemma DotTracksCaption(t: Table, relPath: string, boxText: string)
    requires relPath in t
    ensures var text := Strip(boxText);
            DotFor(Some(WithCaption(t, relPath, Caption(text, HasText(text)))[relPath])) == Green <==> HasText(boxText)
  {
    StripTruthiness(boxText);
    StripTruthiness(Strip(boxText));
    StripIdempotent(boxText);
  }

  /** How many whole cells fit in `width` pixels, and at least one: the
      `max(1, width // CELL_SIZE)` of the canvas resize handler. */
  function ColumnsFor(width: int): (cols: int)
    ensures cols >= 1
    ensures width >= CellSize ==> cols * CellSize <= width < (cols + 1) * CellSize
    ensures width < 2 * CellSize ==> cols == 1
  {
    Max(1, FloorDiv(width, CellSize))
  }

  /** `_calc_thumb_cols()` for a canvas `width` pixels wide: a canvas not yet
      laid out (narrower than 10) counts as 400 pixels. */
  function CalcThumbCols(width: int): (cols: int)
    ensures cols >= 1
    ensures width < 10 ==> cols == 2
    ensures 10 <= width < 2 * CellSize ==> cols == 1
    ensures width >= CellSize ==> cols * CellSize <= width < (cols + 1) * CellSize
  {
    ColumnsFor(if width < 10 then 400 else width)
  }

  /** `divmod(idx, cols)`: the grid row and column of item `idx`. */
  function Cell(idx: nat, cols: int): (rc: (nat, nat))
    requires cols >= 1
    ensures rc.0 * cols + rc.1 == idx && rc.1 < cols
  {
    (idx / cols, idx % cols)
  }

  lemma {:induction false} MulAtLeast(d: int, n: int)
    requires d >= 1 && n > 0
    ensures d * n >= n
    decreases d
  {
    if d > 1 {
      MulAtLeast(d - 1, n);
      assert d * n == (d - 1) * n + n;
    }
  }

  /** A quotient and a remainder in `[0, n)` that make up `x` are the ones
      Python's `divmod(x, n)` returns. */
  lemma DivModUnique(x: int, n: int, q: int, r: int)
    requires n > 0 && 0 <= r < n && x == q * n + r
    ensures x / n == q && x % n == r
  {
    var q0, r0 := x / n, x % n;
    assert (q - q0) * n == r0 - r by {
      assert q * n - q0 * n == (q - q0) * n;
    }
    if q > q0 {
      MulAtLeast(q - q0, n);
    } else if q < q0 {
      assert (q0 - q) * n == r - r0;
      MulAtLeast(q0 - q, n);
    }
  }

  /** Every grid position is the cell of exactly the item that its row and
      column number. */
  lemma CellOf(idx: nat, cols: int, row: nat, col: nat)
    requires cols >= 1 && col < cols
    ensures Cell(idx, cols) == (row, col) <==> idx == row * cols + col
  {
    if idx == row * cols + col {
      DivModUnique(idx, cols, row, col);
    }
  }

  /** A valid index into a list of `n` items. */
  predicate InRange(idx: int, n: int) {
    0 <= idx < n
  }

  /** `_thumb_key_left`'s target: one back, stopping at the first item. */
  function StepLeft(idx: int): (r: int)
    ensures InRange(idx, idx + 1) ==> 0 <= r <= idx && idx - r <= 1 && (r == idx <==> idx == 0)
  {
    Max(0, idx - 1)
  }

  /** `_thumb_key_right`'s target: one on, stopping at the last item. */
  function StepRight(idx: int, n: int): (r: int)
    ensures InRange(idx, n) ==> InRange(r, n) && idx <= r && r - idx <= 1 && (r == idx <==> idx == n - 1)
  {
    Min(n - 1, idx + 1)
  }

  /** `_thumb_key_up`'s target: one row up, or the first item from the top
      row. */
  function StepUp(idx: int, cols: int): (r: int)
    requires cols >= 1
    ensures InRange(idx, idx + 1) ==> 0 <= r <= idx && (idx >= cols ==> r == idx - cols) && (idx < cols ==> r == 0)
  {
    Max(0, idx - cols)
  }

  /** `_thumb_key_down`'s target: one row down, or the last item when the
      row below does not reach this column. */
  function StepDown(idx: int, n: int, cols: int): (r: int)
    requires cols >= 1
    ensures InRange(idx, n) ==> InRange(r, n) && idx <= r && (idx + cols < n ==> r == idx + cols) && (idx + cols >= n ==> r == n - 1)
  {
    Min(n - 1, idx + cols)
  }

  /** Moving down lands in the same column of the next grid row whenever the
      list reaches that far, and moving up from there comes back. */
  lemma DownIsBelow(idx: nat, n: nat, cols: int)
    requires cols >= 1 && idx < n && idx + cols < n
    ensures var below := StepDown(idx, n, cols);
            below >= 0 && Cell(below, cols) == (Cell(idx, cols).0 + 1, Cell(idx, cols).1)
    ensures StepUp(StepDown(idx, n, cols), cols) == idx
  {
    var rc := Cell(idx, cols);
    assert idx + cols == (rc.0 + 1) * cols + rc.1;
    CellOf(idx + cols, cols, rc.0 + 1, rc.1);
  }

  /** Moving up lands in the same column of the previous grid row, when
      there is one. */
  lemma UpIsAbove(idx: nat, cols: int)
    requires cols >= 1 && idx >= cols
    ensures StepUp(idx, cols) >= 0 && Cell(StepUp(idx, cols), cols) == (Cell(idx, cols).0 - 1, Cell(idx, cols).1)
  {
    var rc := Cell(idx, cols);
    assert idx - cols == (rc.0 - 1) * cols + rc.1;
    CellOf(idx - cols, cols, rc.0 - 1, rc.1);
  }

  /** `(image_index + step) % len(image_files)`: Python's `%` with a
      positive divisor always gives a valid index. */
  function Wrap(idx: int, step: int, n: int): (r: int)
    requires n > 0
    ensures InRange(r, n)
  {
    (idx + step) % n
  }

  /** A step that stays inside the list lands on `idx + step`, and one that
      runs off either end by less than a lap comes back in from the other. */
  lemma WrapEnds(idx: int, step: int, n: int)
    requires n > 0
    ensures InRange(idx + step, n) ==> Wrap(idx, step, n) == idx + step
    ensures n <= idx + step < 2 * n ==> Wrap(idx, step, n) == idx + step - n
    ensures -n <= idx + step < 0 ==> Wrap(idx, step, n) == idx + step + n
  {
    var x := idx + step;
    if InRange(x, n) {
      DivModUnique(x, n, 0, x);
    } else if n <= x < 2 * n {
      DivModUnique(x, n, 1, x - n);
    } else if -n <= x < 0 {
      DivModUnique(x, n, -1, x + n);
    }
  }

  /** Stepping by `a` and then by `b` is stepping by `a + b`. */
  lemma WrapCompose(idx: int, a: int, b: int, n: int)
    requires n > 0
    ensures Wrap(Wrap(idx, a, n), b, n) == Wrap(idx, a + b, n)
  {
    var q1, w := (idx + a) / n, Wrap(idx, a, n);
    var q2, r := (w + b) / n, Wrap(w, b, n);
    assert idx + a + b == (q1 + q2) * n + r by {
      assert q1 * n + q2 * n == (q1 + q2) * n;
    }
    DivModUnique(idx + a + b, n, q1 + q2, r);
  }

  /** From a valid index, a step forward and a step back return to it. */
  lemma WrapBack(idx: int, step: int, n: int)
    requires InRange(idx, n)
    ensures Wrap(Wrap(idx, step, n), -step, n) == idx
  {
    WrapCompose(idx, step, -step, n);
  }

  /** After `delete_current_image` removes entry `i`, the cursor at
      `min(i, len - 1)` shows the image that followed the deleted one, or
      the one before it when the last image went. */
  lemma DeleteShowsNeighbour<T>(s: seq<T>, i: nat)
    requires i < |s| && |s| > 1
    ensures var r := RemoveAt(s, i);
            var j := Min(i, |r| - 1);
            InRange(j, |r|) && r[j] == if i < |s| - 1 then s[i + 1] else s[i - 1]
  {
  }

  /** What `display_image` leaves in `current_image`: the image at `idx`
      when there is one and the image library opens it, `prev` otherwise. */
  function Displayed(files: seq<string>, idx: int, fs: FileSystem, prev: Option<string>): (c: Option<string>)
    ensures c != prev ==> InRange(idx, |files|) && files[idx] in fs.images && c == Some(files[idx])
    ensures InRange(idx, |files|) && files[idx] in fs.images ==> c == Some(files[idx])
  {
    if InRange(idx, |files|) && files[idx] in fs.images then Some(files[idx]) else prev
  }

  /** The current image `_resolve_index_after_filter` follows: set,
      non-empty and still listed. */
  predicate Followed(files: seq<string>, cur: Option<string>) {
    cur.Some? && cur.value != [] && cur.value in files
  }

  /** Where `_resolve_index_after_filter` puts the cursor on a non-empty
      list: on the first entry of the followed image, on the first entry
      otherwise. */
  function ResolvedIndex(files: seq<string>, cur: Option<string>): (i: nat)
    requires files != []
    ensures i < |files|
    ensures Followed(files, cur) ==> files[i] == cur.value && cur.value !in files[..i]
    ensures !Followed(files, cur) ==> i == 0
  {
    if Followed(files, cur) then IndexOf(files, cur.value).value else 0
  }

  /** The `(rel_path, abs_path)` pairs `_build_thumb_grid` hands to the
      worker: the listed images, in order, whose stored thumbnail is missing
      or empty. */
  function Pending(t: Table, fs: FileSystem, directory: string, files: seq<string>): (ps: seq<(string, string)>)
    ensures IsSubsequence(ps, Pairs(fs, directory, files))
    ensures forall p :: p in ps <==> p in Pairs(fs, directory, files) && !Truthy(ThumbOf(t, p.0))
    ensures files == [] ==> ps == []
  {
    Filter(Pairs(fs, directory, files), (p: (string, string)) => !Truthy(ThumbOf(t, p.0)))
  }

  /** The exceptions that escape the window's handlers: `select_image`
      stepping through an empty list, `load_caption` failing on the sidecar
      at `path` (an OSError on open or a UnicodeDecodeError on read), and a
      store operation raising. */
  datatype AppError = ZeroDivisionError | CaptionError(path: string) | StoreError(error: DbError)

  /** Whether `load_caption` raises for the image at `imagePath`: its
      sidecar exists but cannot be opened or is not UTF-8. Unlike
      `_read_caption`, it catches nothing. */
  predicate LoadCaptionRaises(fs: FileSystem, imagePath: string) {
    var txt := SidecarPath(imagePath);
    txt in fs.sidecars && !fs.sidecars[txt].Decoded?
  }

  /** `load_caption` raises on every sidecar that makes the store's caption
      read raise, and on one more kind: a sidecar that cannot be opened,
      which `_read_caption` reads as no caption. */
  lemma LoadCaptionStricter(fs: FileSystem, imagePath: string)
    ensures ReadCaption(fs, imagePath).Failure? ==> LoadCaptionRaises(fs, imagePath)
    ensures LoadCaptionRaises(fs, imagePath) && ReadCaption(fs, imagePath).Success? <==>
              SidecarPath(imagePath) in fs.sidecars && fs.sidecars[SidecarPath(imagePath)] == Unreadable
  {
  }

  /** The empty sidecar `load_caption` writes for an image that has none
      reads, everywhere the store reads captions, exactly as the missing
      one did, and it does not make `load_caption` raise. */
  lemma EmptySidecarReadsAsMissing(fs: FileSystem, imagePath: string, p: string)
    requires SidecarPath(imagePath) !in fs.sidecars
    ensures var written := fs.(sidecars := fs.sidecars[SidecarPath(imagePath) := Decoded("")]);
            && ReadCaption(written, p) == ReadCaption(fs, p)
            && (LoadCaptionRaises(written, p) <==> LoadCaptionRaises(fs, p))
  {
    var written := fs.(sidecars := fs.sidecars[SidecarPath(imagePath) := Decoded("")]);
    if SidecarPath(p) == SidecarPath(imagePath) {
      assert !HasText("");
    }
  }

  /** What `display_image` raises with the cursor at `idx`: nothing for an
      empty list, nor for an image the library cannot open (that error is
      shown and swallowed); otherwise whatever `load_caption` raises. */
  function DisplayOutcome(files: seq<string>, idx: int, fs: FileSystem): (r: Outcome<AppError>)
    ensures r.Fail? <==> InRange(idx, |files|) && files[idx] in fs.images && LoadCaptionRaises(fs, files[idx])
    ensures r.Fail? ==> r.error == CaptionError(SidecarPath(files[idx]))
  {
    if InRange(idx, |files|) && files[idx] in fs.images && LoadCaptionRaises(fs, files[idx])
    then Fail(CaptionError(SidecarPath(files[idx])))
    else Pass
  }

  class ImageCaptionApp {
    const db: ImageDB
    var imageFiles: seq<string>
    var allImageFiles: seq<string>
    var imageIndex: int
    var imageDirectory: string
    var thumbCols: int
    var currentImage: Option<string>
    /** `view_mode == "thumbs"`. */
    var thumbsView: bool
    /** `_thumb_built`: the grid was built since the last load. */
    var thumbBuilt: bool

    /** `image_index` points into `image_files` whenever it is non-empty. */
    ghost predicate Valid()
      reads this
    {
      imageFiles != [] ==> InRange(imageIndex, |imageFiles|)
    }

    constructor (db: ImageDB)
      ensures this.db == db && imageFiles == [] && allImageFiles == [] && imageIndex == 0
      ensures imageDirectory == "" && thumbCols == 0 && currentImage == None && Valid()
      ensures !thumbsView && !thumbBuilt
    {
      this.db := db;
      imageFiles := [];
      allImageFiles := [];
      imageIndex := 0;
      imageDirectory := "";
      thumbCols := 0;
      currentImage := None;
      thumbsView := false;
      thumbBuilt := false;
    }

    /** `switch_to_list`: leaves the thumbnail view; nothing else the model
        holds changes. */
    method SwitchToList()
      modifies this
      ensures !thumbsView && thumbBuilt == old(thumbBuilt) && thumbCols == old(thumbCols)
      ensures imageFiles == old(imageFiles) && allImageFiles == old(allImageFiles) && imageIndex == old(imageIndex)
      ensures currentImage == old(currentImage) && imageDirectory == old(imageDirectory)
    {
      if !thumbsView {
        return;
      }
      thumbsView := false;
    }

    /** `switch_to_thumbs` on a canvas `width` pixels wide: enters the
        thumbnail view and, the first time since a load, builds the grid,
        returning the pairs handed to the worker (none otherwise). */
    method SwitchToThumbs(width: int, fs: FileSystem) returns (pending: seq<(string, string)>)
      requires Valid()
      modifies this
      ensures Valid() && thumbsView && thumbBuilt == (old(thumbsView) ==> old(thumbBuilt))
      ensures imageFiles == old(imageFiles) && allImageFiles == old(allImageFiles) && imageIndex == old(imageIndex)
      ensures currentImage == old(currentImage) && imageDirectory == old(imageDirectory)
      ensures var builds := !old(thumbsView) && !old(thumbBuilt);
              && thumbCols == (if builds && imageFiles != [] then CalcThumbCols(width) else old(thumbCols))
              && pending == if builds then Pending(db.rows, fs, db.directory, imageFiles) else []
    {
      if thumbsView {
        return [];
      }
      thumbsView := true;
      if !thumbBuilt {
        thumbBuilt := true;
        pending := BuildThumbGrid(width, fs);
      } else {
        pending := [];
      }
    }

    /** `load_images` once the user picked `directory` (empty when the
        dialog was cancelled) and the walk found the image files `found`:
        the files, in ascending order, become both lists with the cursor on
        the first, after the store of that directory (holding `stored`, its
        sequence at `sequence`) is opened and synced with them; the grid is
        to be rebuilt. Nothing is listed and the store is left alone when no
        directory or no image was found, and the window quits when that
        leaves it with nothing to show. A sync that raises leaves the lists
        as they were, and the store open on the new directory with its
        stale rows deleted. */
    method LoadImages(directory: string, found: set<string>, stored: Table, sequence: nat, fs: FileSystem)
      returns (r: Outcome<DbError>, quits: bool)
      requires Valid() && db.Valid() && WellFormed(stored, sequence + 1)
      modifies this, db
      ensures Valid() && db.Valid() && thumbCols == old(thumbCols) && currentImage == old(currentImage)
      ensures thumbsView == old(thumbsView)
      ensures quits <==> (directory == [] && old(imageFiles) == []) || (directory != [] && found == {})
      ensures directory == [] || found == {} ==>
                && r.Pass? && imageFiles == old(imageFiles) && allImageFiles == old(allImageFiles) && imageIndex == old(imageIndex)
                && imageDirectory == old(imageDirectory) && thumbBuilt == old(thumbBuilt)
                && db.rows == old(db.rows) && db.directory == old(db.directory) && db.nextId == old(db.nextId)
      ensures r.Fail? ==>
                && imageFiles == old(imageFiles) && allImageFiles == old(allImageFiles) && imageIndex == old(imageIndex)
                && imageDirectory == old(imageDirectory) && thumbBuilt == old(thumbBuilt)
                && db.directory == directory && db.nextId == sequence + 1
                && db.rows == stored - (stored.Keys - (set ap | ap in found :: RelOf(fs, directory, ap)))
      ensures directory != [] && found != {} ==>
                (r.Fail? <==> SyncFails(stored.Keys, RelToAbs(fs, directory, SortedOf(found)), fs))
      ensures r.Pass? && directory != [] && found != {} ==>
                && allImageFiles == SortedOf(found)
                && Ascending(allImageFiles) && (forall ap :: ap in allImageFiles <==> ap in found)
                && imageFiles == allImageFiles && imageIndex == 0 && imageDirectory == directory && !thumbBuilt
                && db.directory == directory && db.rows.Keys == RelSet(fs, directory, allImageFiles)
                && Reconciled(stored, db.rows, RelToAbs(fs, directory, allImageFiles), fs, sequence + 1, db.nextId)
    {
      if directory == [] {
        return Pass, imageFiles == [];
      }
      var sorted := SortKeys(found);
      if sorted == [] {
        assert forall ap :: ap !in found;
        return Pass, true;
      }
      quits := false;
      AscendingUnique(sorted, SortedOf(found));
      assert RelSet(fs, directory, sorted) == set ap | ap in found :: RelOf(fs, directory, ap);
      r := OpenAndSync(directory, sorted, stored, sequence, fs);
    }

    /** The part of `load_images` after the scan found `files`: the store of
        `directory` is opened and synced with them and, unless the sync
        raises, they become both lists with the cursor on the first and the
        grid to be rebuilt. */
    method OpenAndSync(directory: string, files: seq<string>, stored: Table, sequence: nat, fs: FileSystem)
      returns (r: Outcome<DbError>)
      requires Valid() && db.Valid() && WellFormed(stored, sequence + 1) && files != []
      modifies this, db
      ensures Valid() && db.Valid() && thumbCols == old(thumbCols) && currentImage == old(currentImage)
      ensures thumbsView == old(thumbsView)
      ensures r.Fail? <==> SyncFails(stored.Keys, RelToAbs(fs, directory, files), fs)
      ensures r.Fail? ==>
                && imageFiles == old(imageFiles) && allImageFiles == old(allImageFiles) && imageIndex == old(imageIndex)
                && imageDirectory == old(imageDirectory) && thumbBuilt == old(thumbBuilt)
                && db.directory == directory && db.nextId == sequence + 1
                && db.rows == stored - (stored.Keys - RelSet(fs, directory, files))
      ensures r.Pass? ==>
                && imageFiles == files && allImageFiles == files && imageIndex == 0 && imageDirectory == directory && !thumbBuilt
                && db.directory == directory && db.rows.Keys == RelSet(fs, directory, files)
                && Reconciled(stored, db.rows, RelToAbs(fs, directory, files), fs, sequence + 1, db.nextId)
    {
      db.Open(directory, stored, sequence);
      var synced := db.Sync(files, fs);
      if synced.Failure? {
        return Fail(synced.error);
      }
      imageDirectory := directory;
      allImageFiles := files;
      imageFiles := files;
      imageIndex := 0;
      thumbBuilt := false;
      r := Pass;
    }

    /** `open_folder`: loads, puts the cursor on the first listed image and
        shows it, and rebuilds the grid in the thumbnail view, returning the
        pairs handed to the worker. A sync that raises ends it before the
        cursor moves, and a caption that cannot be read ends it before the
        rebuild. The grid built here is not marked as built, so the next
        switch to the thumbnail view builds it again. */
    method OpenFolder(directory: string, found: set<string>, stored: Table, sequence: nat, fs: FileSystem, width: int)
      returns (r: Outcome<AppError>, quits: bool, pending: seq<(string, string)>)
      requires Valid() && db.Valid() && WellFormed(stored, sequence + 1)
      modifies this, db
      ensures Valid() && db.Valid() && thumbsView == old(thumbsView)
      ensures quits <==> (directory == [] && old(imageFiles) == []) || (directory != [] && found == {})
      ensures directory == [] || found == {} ==>
                && imageFiles == old(imageFiles) && allImageFiles == old(allImageFiles)
                && imageDirectory == old(imageDirectory) && thumbBuilt == old(thumbBuilt)
                && db.rows == old(db.rows) && db.directory == old(db.directory) && db.nextId == old(db.nextId)
      ensures r.Fail? && r.error.StoreError? <==>
                directory != [] && found != {} && SyncFails(stored.Keys, RelToAbs(fs, directory, SortedOf(found)), fs)
      ensures r.Fail? && r.error.StoreError? ==>
                && directory != [] && found != {}
                && imageFiles == old(imageFiles) && allImageFiles == old(allImageFiles) && imageIndex == old(imageIndex)
                && imageDirectory == old(imageDirectory) && thumbBuilt == old(thumbBuilt)
                && currentImage == old(currentImage) && thumbCols == old(thumbCols) && pending == []
                && db.directory == directory && db.nextId == sequence + 1
                && db.rows == stored - (stored.Keys - (set ap | ap in found :: RelOf(fs, directory, ap)))
      ensures directory != [] && found != {} && !(r.Fail? && r.error.StoreError?) ==>
                && allImageFiles == SortedOf(found)
                && Ascending(allImageFiles) && (forall ap :: ap in allImageFiles <==> ap in found)
                && imageFiles == allImageFiles && imageDirectory == directory && !thumbBuilt
                && db.directory == directory && db.rows.Keys == RelSet(fs, directory, allImageFiles)
                && Reconciled(stored, db.rows, RelToAbs(fs, directory, allImageFiles), fs, sequence + 1, db.nextId)
      ensures !(r.Fail? && r.error.StoreError?) ==>
                && imageIndex == 0 && currentImage == Displayed(imageFiles, 0, fs, old(currentImage))
                && r == DisplayOutcome(imageFiles, 0, fs)
                && thumbCols == (if r.Pass? && thumbsView && imageFiles != [] then CalcThumbCols(width) else old(thumbCols))
                && pending == if r.Pass? && thumbsView then Pending(db.rows, fs, db.directory, imageFiles) else []
    {
      var loaded;
      loaded, quits := LoadImages(directory, found, stored, sequence, fs);
      if loaded.Fail? {
        return Fail(StoreError(loaded.error)), quits, [];
      }
      imageIndex := 0;
      r := DisplayImage(fs);
      if r.Pass? && thumbsView {
        pending := BuildThumbGrid(width, fs);
      } else {
        pending := [];
      }
    }

    /** What `display_image` does to the model's state: the image under the
        cursor becomes `current_image` when the image library opens it, and
        then `load_caption` raises on a sidecar it cannot read. */
    method DisplayImage(fs: FileSystem) returns (r: Outcome<AppError>)
      requires Valid()
      modifies this
      ensures Valid() && imageFiles == old(imageFiles) && allImageFiles == old(allImageFiles)
      ensures imageIndex == old(imageIndex) && thumbCols == old(thumbCols)
      ensures imageDirectory == old(imageDirectory) && thumbsView == old(thumbsView) && thumbBuilt == old(thumbBuilt)
      ensures currentImage == Displayed(imageFiles, imageIndex, fs, old(currentImage))
      ensures currentImage == if imageFiles != [] && imageFiles[imageIndex] in fs.images then Some(imageFiles[imageIndex]) else old(currentImage)
      ensures r == DisplayOutcome(imageFiles, imageIndex, fs)
    {
      if imageFiles == [] {
        return Pass;
      }
      var absPath := imageFiles[imageIndex];
      if absPath !in fs.images {
        return Pass;
      }
      currentImage := Some(absPath);
      var txt := SidecarPath(absPath);
      if txt in fs.sidecars && !fs.sidecars[txt].Decoded? {
        return Fail(CaptionError(txt));
      }
      r := Pass;
    }

    /** `select_image(index=i)` for a valid `i`. */
    method SelectIndex(index: int, fs: FileSystem) returns (r: Outcome<AppError>)
      requires InRange(index, |imageFiles|)
      modifies this
      ensures Valid() && imageFiles == old(imageFiles) && allImageFiles == old(allImageFiles)
      ensures imageIndex == index && thumbCols == old(thumbCols)
      ensures imageDirectory == old(imageDirectory) && thumbsView == old(thumbsView) && thumbBuilt == old(thumbBuilt)
      ensures currentImage == Displayed(imageFiles, index, fs, old(currentImage))
      ensures r == DisplayOutcome(imageFiles, index, fs)
    {
      imageIndex := index;
      r := DisplayImage(fs);
    }

    /** `select_image(step=s)`: moves the cursor `s` places, wrapping around;
        an empty list raises. */
    method SelectStep(step: int, fs: FileSystem) returns (r: Outcome<AppError>)
      requires Valid()
      modifies this
      ensures Valid() && imageFiles == old(imageFiles) && allImageFiles == old(allImageFiles) && thumbCols == old(thumbCols)
      ensures imageDirectory == old(imageDirectory) && thumbsView == old(thumbsView) && thumbBuilt == old(thumbBuilt)
      ensures imageFiles == [] ==> r == Fail(ZeroDivisionError) && imageIndex == old(imageIndex) && currentImage == old(currentImage)
      ensures imageFiles != [] ==>
                && imageIndex == Wrap(old(imageIndex), step, |imageFiles|)
                && currentImage == Displayed(imageFiles, imageIndex, fs, old(currentImage))
                && r == DisplayOutcome(imageFiles, imageIndex, fs)
    {
      if imageFiles == [] {
        return Fail(ZeroDivisionError);
      }
      r := SelectIndex(Wrap(imageIndex, step, |imageFiles|), fs);
    }

    /** `_thumb_key_left`. */
    method ThumbKeyLeft(fs: FileSystem) returns (r: Outcome<AppError>)
      requires Valid()
      modifies this
      ensures Valid() && imageFiles == old(imageFiles) && allImageFiles == old(allImageFiles) && thumbCols == old(thumbCols)
      ensures imageDirectory == old(imageDirectory) && thumbsView == old(thumbsView) && thumbBuilt == old(thumbBuilt)
      ensures imageIndex == if imageFiles == [] then old(imageIndex) else StepLeft(old(imageIndex))
      ensures currentImage == if imageIndex == old(imageIndex) then old(currentImage)
                              else Displayed(imageFiles, imageIndex, fs, old(currentImage))
      ensures r == if imageIndex == old(imageIndex) then Pass else DisplayOutcome(imageFiles, imageIndex, fs)
    {
      if imageFiles == [] {
        return Pass;
      }
      var newIdx := StepLeft(imageIndex);
      r := Pass;
      if newIdx != imageIndex {
        r := SelectIndex(newIdx, fs);
      }
    }

    /** `_thumb_key_right`. */
    method ThumbKeyRight(fs: FileSystem) returns (r: Outcome<AppError>)
      requires Valid()
      modifies this
      ensures Valid() && imageFiles == old(imageFiles) && allImageFiles == old(allImageFiles) && thumbCols == old(thumbCols)
      ensures imageDirectory == old(imageDirectory) && thumbsView == old(thumbsView) && thumbBuilt == old(thumbBuilt)
      ensures imageIndex == if imageFiles == [] then old(imageIndex) else StepRight(old(imageIndex), |imageFiles|)
      ensures currentImage == if imageIndex == old(imageIndex) then old(currentImage)
                              else Displayed(imageFiles, imageIndex, fs, old(currentImage))
      ensures r == if imageIndex == old(imageIndex) then Pass else DisplayOutcome(imageFiles, imageIndex, fs)
    {
      if imageFiles == [] {
        return Pass;
      }
      var newIdx := StepRight(imageIndex, |imageFiles|);
      r := Pass;
      if newIdx != imageIndex {
        r := SelectIndex(newIdx, fs);
      }
    }

    /** `_thumb_key_up`: nothing happens before the grid has columns. */
    method ThumbKeyUp(fs: FileSystem) returns (r: Outcome<AppError>)
      requires Valid()
      modifies this
      ensures Valid() && imageFiles == old(imageFiles) && allImageFiles == old(allImageFiles) && thumbCols == old(thumbCols)
      ensures imageDirectory == old(imageDirectory) && thumbsView == old(thumbsView) && thumbBuilt == old(thumbBuilt)
      ensures imageIndex == if imageFiles == [] || thumbCols < 1 then old(imageIndex) else StepUp(old(imageIndex), thumbCols)
      ensures currentImage == if imageIndex == old(imageIndex) then old(currentImage)
                              else Displayed(imageFiles, imageIndex, fs, old(currentImage))
      ensures r == if imageIndex == old(imageIndex) then Pass else DisplayOutcome(imageFiles, imageIndex, fs)
    {
      if imageFiles == [] || thumbCols < 1 {
        return Pass;
      }
      var newIdx := StepUp(imageIndex, thumbCols);
      r := Pass;
      if newIdx != imageIndex {
        r := SelectIndex(newIdx, fs);
      }
    }

    /** `_thumb_key_down`: nothing happens before the grid has columns. */
    method ThumbKeyDown(fs: FileSystem) returns (r: Outcome<AppError>)
      requires Valid()
      modifies this
      ensures Valid() && imageFiles == old(imageFiles) && allImageFiles == old(allImageFiles) && thumbCols == old(thumbCols)
      ensures imageDirectory == old(imageDirectory) && thumbsView == old(thumbsView) && thumbBuilt == old(thumbBuilt)
      ensures imageIndex == if imageFiles == [] || thumbCols < 1 then old(imageIndex) else StepDown(old(imageIndex), |imageFiles|, thumbCols)
      ensures currentImage == if imageIndex == old(imageIndex) then old(currentImage)
                              else Displayed(imageFiles, imageIndex, fs, old(currentImage))
      ensures r == if imageIndex == old(imageIndex) then Pass else DisplayOutcome(imageFiles, imageIndex, fs)
    {
      if imageFiles == [] || thumbCols < 1 {
        return Pass;
      }
      var newIdx := StepDown(imageIndex, |imageFiles|, thumbCols);
      r := Pass;
      if newIdx != imageIndex {
        r := SelectIndex(newIdx, fs);
      }
    }

    /** `_on_thumb_click_by_path(abs_path)`: selects the clicked image by its
        current position, the first that holds it; a path no longer listed
        is ignored. */
    method ClickThumb(absPath: string, fs: FileSystem) returns (r: Outcome<AppError>)
      requires Valid()
      modifies this
      ensures Valid() && imageFiles == old(imageFiles) && allImageFiles == old(allImageFiles) && thumbCols == old(thumbCols)
      ensures imageDirectory == old(imageDirectory) && thumbsView == old(thumbsView) && thumbBuilt == old(thumbBuilt)
      ensures absPath in imageFiles ==>
                && imageIndex == IndexOf(imageFiles, absPath).value
                && imageFiles[imageIndex] == absPath && absPath !in imageFiles[..imageIndex]
                && currentImage == if imageIndex == old(imageIndex) then old(currentImage)
                                   else Displayed(imageFiles, imageIndex, fs, old(currentImage))
      ensures absPath !in imageFiles ==> imageIndex == old(imageIndex) && currentImage == old(currentImage)
      ensures r == if imageIndex == old(imageIndex) then Pass else DisplayOutcome(imageFiles, imageIndex, fs)
    {
      var idx := IndexOf(imageFiles, absPath);
      if idx.None? {
        return Pass;
      }
      r := Pass;
      if idx.value != imageIndex {
        r := SelectIndex(idx.value, fs);
      }
    }

    /** `_resolve_index_after_filter`: the cursor follows `current_image`
        when it is still listed and goes to the first image otherwise; an
        empty list forgets the current image. */
    method ResolveIndexAfterFilter(fs: FileSystem) returns (r: Outcome<AppError>)
      modifies this
      ensures Valid() && imageFiles == old(imageFiles) && allImageFiles == old(allImageFiles) && thumbCols == old(thumbCols)
      ensures imageDirectory == old(imageDirectory) && thumbsView == old(thumbsView) && thumbBuilt == old(thumbBuilt)
      ensures imageFiles == [] ==> currentImage == None && imageIndex == old(imageIndex)
      ensures imageFiles != [] ==>
                && imageIndex == ResolvedIndex(imageFiles, old(currentImage))
                && currentImage == Displayed(imageFiles, imageIndex, fs, old(currentImage))
      ensures r == DisplayOutcome(imageFiles, imageIndex, fs)
    {
      if imageFiles == [] {
        currentImage := None;
        return Pass;
      }
      if currentImage.Some? && currentImage.value != [] && currentImage.value in imageFiles {
        imageIndex := IndexOf(imageFiles, currentImage.value).value;
      } else {
        imageIndex := 0;
      }
      r := DisplayImage(fs);
    }

    /** What `filter_files` and `clear_filter` do once the list is set:
        the cursor is resolved, and the thumbnail view rebuilds its grid,
        returning the pairs handed to the worker, unless showing the image
        raised. */
    method ResolveAndRebuild(width: int, fs: FileSystem) returns (r: Outcome<AppError>, pending: seq<(string, string)>)
      modifies this
      ensures Valid() && imageFiles == old(imageFiles) && allImageFiles == old(allImageFiles)
      ensures imageDirectory == old(imageDirectory) && thumbsView == old(thumbsView) && thumbBuilt == old(thumbBuilt)
      ensures imageFiles == [] ==> currentImage == None && imageIndex == old(imageIndex)
      ensures imageFiles != [] ==>
                && imageIndex == ResolvedIndex(imageFiles, old(currentImage))
                && currentImage == Displayed(imageFiles, imageIndex, fs, old(currentImage))
      ensures r == DisplayOutcome(imageFiles, imageIndex, fs)
      ensures thumbCols == if r.Pass? && thumbsView && imageFiles != [] then CalcThumbCols(width) else old(thumbCols)
      ensures pending == if r.Pass? && thumbsView then Pending(db.rows, fs, db.directory, imageFiles) else []
    {
      r := ResolveIndexAfterFilter(fs);
      if r.Pass? && thumbsView {
        pending := BuildThumbGrid(width, fs);
      } else {
        pending := [];
      }
    }

    /** `clear_filter` on a canvas `width` pixels wide: every image is listed
        again, the cursor is resolved, and the thumbnail view rebuilds its
        grid, returning the pairs handed to the worker, unless showing the
        image raised. */
    method ClearFilter(width: int, fs: FileSystem) returns (r: Outcome<AppError>, pending: seq<(string, string)>)
      modifies this
      ensures Valid() && imageFiles == old(allImageFiles) && allImageFiles == old(allImageFiles)
      ensures imageDirectory == old(imageDirectory) && thumbsView == old(thumbsView) && thumbBuilt == old(thumbBuilt)
      ensures imageFiles == [] ==> currentImage == None && imageIndex == old(imageIndex)
      ensures imageFiles != [] ==>
                && imageIndex == ResolvedIndex(imageFiles, old(currentImage))
                && currentImage == Displayed(imageFiles, imageIndex, fs, old(currentImage))
      ensures r == DisplayOutcome(imageFiles, imageIndex, fs)
      ensures thumbCols == if r.Pass? && thumbsView && imageFiles != [] then CalcThumbCols(width) else old(thumbCols)
      ensures pending == if r.Pass? && thumbsView then Pending(db.rows, fs, db.directory, imageFiles) else []
    {
      imageFiles := allImageFiles;
      r, pending := ResolveAndRebuild(width, fs);
    }

    /** The list comprehension of `filter_files`: the images of
        `all_image_files`, in order and as often as they occur, whose stored
        row matches `text`. */
    method MatchingFiles(text: string, fs: FileSystem) returns (files: seq<string>)
      requires db.Valid()
      ensures IsSubsequence(files, allImageFiles)
      ensures forall ap :: ap in files <==>
                ap in allImageFiles && RelOf(fs, db.directory, ap) in db.rows && Matches(db.rows[RelOf(fs, db.directory, ap)], text)
      ensures forall ap :: multiset(files)[ap] == if ap in files then multiset(allImageFiles)[ap] else 0
    {
      var rows := db.GetAll(text);
      var rpSet := set r | r in rows :: r.relPath;
      var dir := db.directory;
      files := Filter(allImageFiles, ap => RelOf(fs, dir, ap) in rpSet);
    }

    /** `filter_files` with the filter box holding `boxText`, on a canvas
        `width` pixels wide: lists, in their original order, the images
        whose stored row matches the stripped text, or every image when it
        is blank; the cursor is then resolved and the thumbnail view
        rebuilds its grid, returning the pairs handed to the worker, unless
        showing the image raised. */
    method FilterFiles(boxText: string, width: int, fs: FileSystem) returns (r: Outcome<AppError>, pending: seq<(string, string)>)
      requires db.Valid()
      modifies this
      ensures Valid() && allImageFiles == old(allImageFiles)
      ensures imageDirectory == old(imageDirectory) && thumbsView == old(thumbsView) && thumbBuilt == old(thumbBuilt)
      ensures IsSubsequence(imageFiles, allImageFiles)
      ensures Strip(boxText) == [] ==> imageFiles == allImageFiles
      ensures forall ap :: ap in imageFiles <==>
                ap in allImageFiles &&
                (Strip(boxText) == [] ||
                 (RelOf(fs, db.directory, ap) in db.rows && Matches(db.rows[RelOf(fs, db.directory, ap)], Strip(boxText))))
      ensures forall ap :: multiset(imageFiles)[ap] == if ap in imageFiles then multiset(allImageFiles)[ap] else 0
      ensures imageFiles == [] ==> currentImage == None && imageIndex == old(imageIndex)
      ensures imageFiles != [] ==>
                && imageIndex == ResolvedIndex(imageFiles, old(currentImage))
                && currentImage == Displayed(imageFiles, imageIndex, fs, old(currentImage))
      ensures r == DisplayOutcome(imageFiles, imageIndex, fs)
      ensures thumbCols == if r.Pass? && thumbsView && imageFiles != [] then CalcThumbCols(width) else old(thumbCols)
      ensures pending == if r.Pass? && thumbsView then Pending(db.rows, fs, db.directory, imageFiles) else []
    {
      var text := Strip(boxText);
      if text == [] {
        r, pending := ClearFilter(width, fs);
        SubsequenceRefl(allImageFiles);
        return;
      }
      imageFiles := MatchingFiles(text, fs);
      r, pending := ResolveAndRebuild(width, fs);
    }

    /** `_update_path_in_lists(old_ap, new_ap)`: after a rename or a move,
        the first occurrence of the old path in each list becomes the new
        path; nothing else moves. */
    method UpdatePathInLists(oldAp: string, newAp: string)
      requires Valid()
      modifies this
      ensures Valid() && imageIndex == old(imageIndex) && currentImage == old(currentImage) && thumbCols == old(thumbCols)
      ensures imageDirectory == old(imageDirectory) && thumbsView == old(thumbsView) && thumbBuilt == old(thumbBuilt)
      ensures imageFiles == ReplaceFirst(old(imageFiles), oldAp, newAp)
      ensures allImageFiles == ReplaceFirst(old(allImageFiles), oldAp, newAp)
    {
      var idx := IndexOf(imageFiles, oldAp);
      if idx.Some? {
        imageFiles := imageFiles[idx.value := newAp];
      }
      idx := IndexOf(allImageFiles, oldAp);
      if idx.Some? {
        allImageFiles := allImageFiles[idx.value := newAp];
      }
    }

    /** `delete_current_image` once the user has answered the confirmation
        (`confirmed`) and the files are gone (`removed`; otherwise an error
        is shown and nothing changes): the row is deleted, the cursor's entry
        leaves `image_files` and the path's first entry leaves
        `all_image_files`; the cursor stays put, or moves to the new last
        image, which is shown. */
    method DeleteCurrentImage(confirmed: bool, removed: bool, fs: FileSystem) returns (r: Outcome<AppError>)
      requires Valid() && db.Valid()
      modifies this, db
      ensures Valid() && db.Valid() && thumbCols == old(thumbCols)
      ensures imageDirectory == old(imageDirectory) && thumbsView == old(thumbsView) && thumbBuilt == old(thumbBuilt)
      ensures db.directory == old(db.directory) && db.nextId == old(db.nextId)
      ensures var acts := old(currentImage).Some? && old(currentImage).value != [] && old(imageFiles) != [] && confirmed && removed;
              && (!acts ==> (imageFiles == old(imageFiles) && allImageFiles == old(allImageFiles) && imageIndex == old(imageIndex)
                             && currentImage == old(currentImage) && db.rows == old(db.rows) && r == Pass))
              && (acts ==>
                    && db.rows == old(db.rows) - {RelOf(fs, db.directory, old(currentImage).value)}
                    && imageFiles == RemoveAt(old(imageFiles), old(imageIndex))
                    && allImageFiles == (if old(currentImage).value in old(allImageFiles)
                                         then RemoveFirst(old(allImageFiles), old(currentImage).value) else old(allImageFiles))
                    && (imageFiles == [] ==> currentImage == None && imageIndex == old(imageIndex) && r == Pass)
                    && (imageFiles != [] ==> imageIndex == Min(old(imageIndex), |imageFiles| - 1))
                    && (imageFiles != [] ==> currentImage == Displayed(imageFiles, imageIndex, fs, old(currentImage)))
                    && (imageFiles != [] ==> r == DisplayOutcome(imageFiles, imageIndex, fs)))
    {
      if currentImage.None? || currentImage.value == [] || imageFiles == [] {
        return Pass;
      }
      if !confirmed || !removed {
        return Pass;
      }
      var curIdx := imageIndex;
      var delPath := currentImage.value;
      db.Delete(RelOf(fs, db.directory, delPath));
      imageFiles := RemoveAt(imageFiles, curIdx);
      if delPath in allImageFiles {
        allImageFiles := RemoveFirst(allImageFiles, delPath);
      }
      r := ShowAfterDelete(curIdx, fs);
    }

    /** The end of `delete_current_image`, once the entry at `curIdx` has
        left the list: an emptied list forgets the current image; otherwise
        the cursor stays at `curIdx`, or moves to the new last image, which
        is shown. */
    method ShowAfterDelete(curIdx: int, fs: FileSystem) returns (r: Outcome<AppError>)
      requires curIdx >= 0
      modifies this
      ensures Valid() && imageFiles == old(imageFiles) && allImageFiles == old(allImageFiles) && thumbCols == old(thumbCols)
      ensures imageDirectory == old(imageDirectory) && thumbsView == old(thumbsView) && thumbBuilt == old(thumbBuilt)
      ensures imageFiles == [] ==> currentImage == None && imageIndex == old(imageIndex) && r == Pass
      ensures imageFiles != [] ==>
                && imageIndex == Min(curIdx, |imageFiles| - 1)
                && currentImage == Displayed(imageFiles, imageIndex, fs, old(currentImage))
                && r == DisplayOutcome(imageFiles, imageIndex, fs)
    {
      if imageFiles == [] {
        currentImage := None;
        return Pass;
      }
      imageIndex := Min(curIdx, |imageFiles| - 1);
      r := DisplayImage(fs);
    }

    /** `_on_thumb_canvas_configure`: a canvas resized to `width` pixels
        changes the column count of a grid that has cells. */
    method CanvasResized(width: int, hasCells: bool)
      modifies this
      ensures imageFiles == old(imageFiles) && allImageFiles == old(allImageFiles) && imageIndex == old(imageIndex)
      ensures currentImage == old(currentImage)
      ensures imageDirectory == old(imageDirectory) && thumbsView == old(thumbsView) && thumbBuilt == old(thumbBuilt)
      ensures thumbCols == if hasCells then ColumnsFor(width) else old(thumbCols)
    {
      var newCols := ColumnsFor(width);
      if newCols != thumbCols && hasCells {
        thumbCols := newCols;
      }
    }

    /** The columns `_build_thumb_grid` lays out for a canvas `width` pixels
        wide, and the `(rel_path, abs_path)` pairs it hands to the worker:
        the listed images, in order, whose stored thumbnail is missing or
        empty. An empty list keeps the old column count. */
    method BuildThumbGrid(width: int, fs: FileSystem) returns (pending: seq<(string, string)>)
      modifies this
      ensures imageFiles == old(imageFiles) && allImageFiles == old(allImageFiles)
      ensures imageIndex == old(imageIndex) && currentImage == old(currentImage)
      ensures imageDirectory == old(imageDirectory) && thumbsView == old(thumbsView) && thumbBuilt == old(thumbBuilt)
      ensures thumbCols == if imageFiles == [] then old(thumbCols) else CalcThumbCols(width)
      ensures pending == Pending(db.rows, fs, db.directory, imageFiles)
    {
      if imageFiles == [] {
        return [];
      }
      thumbCols := CalcThumbCols(width);
      pending := PendingFor(imageFiles, fs);
    }

    /** The loop of `_build_thumb_grid` over the listed images: an image
        whose stored thumbnail is missing or empty is queued, in order. */
    method PendingFor(files: seq<string>, fs: FileSystem) returns (pending: seq<(string, string)>)
      ensures pending == Pending(db.rows, fs, db.directory, files)
    {
      var dir := db.directory;
      ghost var t := db.rows;
      pending := [];
      for i := 0 to |files|
        invariant pending == Filter(Pairs(fs, dir, files[..i]), (p: (string, string)) => !Truthy(ThumbOf(t, p.0)))
      {
        var rp := RelOf(fs, dir, files[i]);
        var jpeg := db.GetThumb(rp);
        PairsStep(fs, dir, files, i);
        FilterStep(Pairs(fs, dir, files[..i]), (rp, files[i]), (p: (string, string)) => !Truthy(ThumbOf(t, p.0)));
        if !Truthy(jpeg) {
          pending := pending + [(rp, files[i])];
        }
      }
      assert files[..|files|] == files;
    }
  }

  /** `(self.db._rel(ap), ap)` for every listed image, in order. */
  function Pairs(fs: FileSystem, directory: string, files: seq<string>): (ps: seq<(string, string)>)
    ensures |ps| == |files|
    ensures forall k :: 0 <= k < |files| ==> ps[k] == (RelOf(fs, directory, files[k]), files[k])
  {
    seq(|files|, k requires 0 <= k < |files| => (RelOf(fs, directory, files[k]), files[k]))
  }

  lemma PairsStep(fs: FileSystem, directory: string, files: seq<string>, i: nat)
    requires i < |files|
    ensures Pairs(fs, directory, files[..i + 1]) == Pairs(fs, directory, files[..i]) + [(RelOf(fs, directory, files[i]), files[i])]
  {
    assert files[..i + 1][..i] == files[..i];
  }
}
