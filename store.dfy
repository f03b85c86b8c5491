/**
 * The image metadata store (db.py, class ImageDB): one row per image file,
 * keyed by its relative path, reconciled with the directory by `Sync`.
 *
 * The SQLite table is the map `rows` from `rel_path` to the whole row, and
 * the AUTOINCREMENT sequence is `nextId`. What the store reads from the
 * disk (relative paths, modification times, caption sidecars) comes in as a
 * `FileSystem` value.
 */
module Store {
  import opened Wrappers
  import opened Text
  import opened Paths

  newtype byte = x: int | 0 <= x < 256
  type Bytes = seq<byte>

  /** One row of table `images`. `thumb` is `None` for SQL NULL: the
      thumbnail still has to be generated. */
  datatype Row = Row(
    id: nat,
    relPath: string,
    absPath: string,
    mtime: real,
    hasCaption: bool,
    captionText: string,
    thumb: Option<Bytes>)

  /** The table, keyed by its UNIQUE column `rel_path`. */
  type Table = map<string, Row>

  /** The columns `get_all` selects. */
  datatype Listing = Listing(id: nat, relPath: string, absPath: string, hasCaption: bool, captionText: string)

  /** A caption file that exists: decoded as UTF-8, failing with an OSError
      on open or read, or holding bytes that are not UTF-8. */
  datatype Sidecar = Decoded(text: string) | Unreadable | NotUtf8

  /** What the store learns from the operating system. `relpath` is
      `os.path.relpath(path, start)`; a path missing from `mtimes` makes
      `os.path.getmtime` raise OSError; a path missing from `sidecars` does
      not exist; `images` are the files the image library can open. */
  datatype FileSystem = FileSystem(
    relpath: (string, string) -> string,
    mtimes: map<string, real>,
    sidecars: map<string, Sidecar>,
    images: set<string>)

  /** Exceptions that escape the store: the UNIQUE constraint on `rel_path`
      (sqlite3.IntegrityError) and a caption that is not UTF-8
      (UnicodeDecodeError, which `_read_caption` does not catch). */
  datatype DbError = UniqueViolation(relPath: string) | DecodeError(path: string)

  /** The pair `(text, has_caption)` that `_read_caption` returns. */
  datatype Caption = Caption(text: string, hasCaption: bool)

  /** A newly discovered file, as `sync` collects it before inserting. */
  datatype NewFile = NewFile(relPath: string, absPath: string, mtime: real, caption: Caption)

  /** The largest mtime difference `sync` still treats as unchanged. */
  const MTimeTolerance: real := 0.5

  function AbsReal(x: real): real {
    if x < 0.0 then -x else x
  }

  /** `ImageDB._rel`: the path relative to the open directory, with forward
      slashes only. */
  function RelOf(fs: FileSystem, directory: string, absPath: string): (r: string)
    ensures Sep !in r && |r| == |fs.relpath(absPath, directory)|
    ensures var rel := fs.relpath(absPath, directory);
            forall k :: 0 <= k < |r| ==> r[k] == if rel[k] == Sep then AltSep else rel[k]
  {
    Normalize(fs.relpath(absPath, directory))
  }

  /** `ImageDB._abs`: the native path of a stored relative path. */
  function AbsOf(directory: string, relPath: string): string {
    Join(directory, Localize(relPath))
  }

  /** `_abs` starts with the directory and ends with the relative path
      localised, in which no forward slash is left. */
  lemma AbsOfLayout(directory: string, relPath: string)
    ensures var r := AbsOf(directory, relPath);
            && |directory| + |relPath| <= |r| && r[..|directory|] == directory
            && r[|r| - |relPath|..] == Localize(relPath) && AltSep !in r[|r| - |relPath|..]
  {
    JoinLayout(directory, Localize(relPath));
  }

  /** `os.path.getmtime`, with 0.0 where it raises OSError. */
  function MTimeOf(fs: FileSystem, absPath: string): (m: real)
    ensures absPath in fs.mtimes ==> m == fs.mtimes[absPath]
    ensures absPath !in fs.mtimes ==> m == 0.0
  {
    if absPath in fs.mtimes then fs.mtimes[absPath] else 0.0
  }

  /** `ImageDB._read_caption`: a missing or unreadable sidecar gives an empty
      caption; a sidecar that is not UTF-8 raises. */
  function ReadCaption(fs: FileSystem, imagePath: string): (r: Result<Caption, DbError>)
    ensures r.Failure? <==> SidecarPath(imagePath) in fs.sidecars && fs.sidecars[SidecarPath(imagePath)] == NotUtf8
    ensures r.Success? ==> r.value.hasCaption == HasText(r.value.text)
    ensures r.Success? && r.value.text != [] ==>
              SidecarPath(imagePath) in fs.sidecars && fs.sidecars[SidecarPath(imagePath)] == Decoded(r.value.text)
    ensures var txt := SidecarPath(imagePath);
            txt in fs.sidecars && fs.sidecars[txt].Decoded? ==>
              r == Success(Caption(fs.sidecars[txt].text, HasText(fs.sidecars[txt].text)))
    ensures var txt := SidecarPath(imagePath);
            txt !in fs.sidecars || fs.sidecars[txt] == Unreadable ==> r == Success(Caption("", false))
  {
    var txt := SidecarPath(imagePath);
    if txt in fs.sidecars then
      match fs.sidecars[txt]
      case Decoded(text) => Success(Caption(text, HasText(text)))
      case Unreadable => Success(Caption("", false))
      case NotUtf8 => Failure(DecodeError(txt))
    else
      Success(Caption("", false))
  }

  /** The relative paths of a scan: `disk_set` in `sync`. */
  ghost function RelSet(fs: FileSystem, directory: string, absPaths: seq<string>): set<string> {
    set ap | ap in absPaths :: RelOf(fs, directory, ap)
  }

  /** The dictionary `rel_to_abs` that `sync` builds: every relative path of
      the scan, mapped to the LAST absolute path that has it. */
  function RelToAbs(fs: FileSystem, directory: string, absPaths: seq<string>): (m: map<string, string>)
    ensures m.Keys == RelSet(fs, directory, absPaths)
  {
    if absPaths == [] then map[]
    else
      var init := absPaths[..|absPaths| - 1];
      var last := absPaths[|absPaths| - 1];
      assert absPaths == init + [last];
      RelToAbs(fs, directory, init)[RelOf(fs, directory, last) := last]
  }

  /** In `rel_to_abs`, a relative path maps to the last scanned absolute
      path that has it. */
  lemma {:induction false} RelToAbsLastWins(fs: FileSystem, directory: string, absPaths: seq<string>, rp: string)
    requires rp in RelToAbs(fs, directory, absPaths)
    ensures exists i :: LastWith(fs, directory, absPaths, i, rp) && absPaths[i] == RelToAbs(fs, directory, absPaths)[rp]
  {
    var n := |absPaths| - 1;
    var init := absPaths[..n];
    if rp == RelOf(fs, directory, absPaths[n]) {
      assert LastWith(fs, directory, absPaths, n, rp);
    } else {
      RelToAbsLastWins(fs, directory, init, rp);
      var i :| LastWith(fs, directory, init, i, rp) && init[i] == RelToAbs(fs, directory, init)[rp];
      forall j | i < j < |absPaths|
        ensures RelOf(fs, directory, absPaths[j]) != rp
      {
        if j < n {
          assert absPaths[j] == init[j];
        }
      }
      assert LastWith(fs, directory, absPaths, i, rp);
    }
  }

  /** Position `i` is the last scanned path whose relative path is `rp`. */
  ghost predicate LastWith(fs: FileSystem, directory: string, absPaths: seq<string>, i: int, rp: string) {
    && 0 <= i < |absPaths|
    && RelOf(fs, directory, absPaths[i]) == rp
    && forall j :: i < j < |absPaths| ==> RelOf(fs, directory, absPaths[j]) != rp
  }

  /** What `sync` collects for a new relative path: the mtime, then the
      caption; fails when the caption is not UTF-8. */
  function Probe(fs: FileSystem, relPath: string, absPath: string): (r: Result<NewFile, DbError>)
    ensures r.Failure? <==> ReadCaption(fs, absPath).Failure?
    ensures r.Success? ==> r.value.relPath == relPath && r.value.absPath == absPath
    ensures r.Success? ==> r.value.mtime == MTimeOf(fs, absPath) && r.value.caption == ReadCaption(fs, absPath).value
  {
    match ReadCaption(fs, absPath)
    case Success(c) => Success(NewFile(relPath, absPath, MTimeOf(fs, absPath), c))
    case Failure(e) => Failure(e)
  }

  /** The row `INSERT OR IGNORE` adds for a collected file: no thumbnail yet. */
  function Inserted(id: nat, f: NewFile): Row {
    Row(id, f.relPath, f.absPath, f.mtime, f.caption.hasCaption, f.caption.text, None)
  }

  /** The row `sync` inserts for a newly discovered file: caption from its
      sidecar, mtime from the disk, no thumbnail. */
  function Discovered(id: nat, relPath: string, absPath: string, fs: FileSystem): Row
    requires ReadCaption(fs, absPath).Success?
  {
    Inserted(id, Probe(fs, relPath, absPath).value)
  }

  /** What `sync` does to a row that stays: a new mtime and no thumbnail when
      the disk's mtime moved by more than the tolerance, nothing otherwise. */
  function Refresh(row: Row, diskMtime: real): (r: Row)
    ensures r == row <==> AbsReal(diskMtime - row.mtime) <= MTimeTolerance
    ensures r != row ==> r.mtime == diskMtime && r.thumb == None
    ensures r.id == row.id && r.relPath == row.relPath && r.absPath == row.absPath
    ensures r.hasCaption == row.hasCaption && r.captionText == row.captionText
  {
    if AbsReal(diskMtime - row.mtime) > MTimeTolerance then row.(mtime := diskMtime, thumb := None) else row
  }

  /** Some scanned file that is not among the `known` relative paths has a
      caption that is not UTF-8, so `sync` raises. */
  ghost predicate SyncFails(known: set<string>, relToAbs: map<string, string>, fs: FileSystem) {
    exists rp :: rp in relToAbs && rp !in known && ReadCaption(fs, relToAbs[rp]).Failure?
  }

  /** `files` lists the entries of `byRel`, each under its own relative
      path; `at` gives the position of each. */
  ghost predicate Gathered(files: seq<NewFile>, byRel: map<string, NewFile>, at: map<string, nat>) {
    && (forall k :: 0 <= k < |files| ==> files[k].relPath in byRel && byRel[files[k].relPath] == files[k])
    && (forall rp :: rp in byRel ==> rp in at && at[rp] < |files| && files[at[rp]].relPath == rp)
  }

  /** No two entries of `files` share a relative path. */
  ghost predicate Distinct(files: seq<NewFile>) {
    forall i, j :: 0 <= i < j < |files| ==> files[i].relPath != files[j].relPath
  }

  /** Files with distinct relative paths that cover exactly `keys` are as
      many as the keys. */
  lemma {:induction false} DistinctCount(files: seq<NewFile>, keys: set<string>)
    requires Distinct(files)
    requires forall k :: 0 <= k < |files| ==> files[k].relPath in keys
    requires forall rp :: rp in keys ==> exists k :: 0 <= k < |files| && files[k].relPath == rp
    ensures |files| == |keys|
    decreases |files|
  {
    if files == [] {
      assert forall rp :: rp !in keys;
      assert keys == {};
    } else {
      var n := |files| - 1;
      var init := files[..n];
      forall rp | rp in keys - {files[n].relPath}
        ensures exists k :: 0 <= k < |init| && init[k].relPath == rp
      {
        var k :| 0 <= k < |files| && files[k].relPath == rp;
        assert init[k] == files[k];
      }
      DistinctCount(init, keys - {files[n].relPath});
    }
  }

  /** Gathered files with distinct relative paths are one per entry. */
  lemma GatheredCount(files: seq<NewFile>, byRel: map<string, NewFile>, at: map<string, nat>)
    requires Gathered(files, byRel, at) && Distinct(files)
    ensures |files| == |byRel|
  {
    forall rp | rp in byRel.Keys
      ensures exists k :: 0 <= k < |files| && files[k].relPath == rp
    {
      assert files[at[rp]].relPath == rp;
    }
    DistinctCount(files, byRel.Keys);
  }

  /** Appending one more file, for a relative path not yet gathered, keeps
      `Gathered`. */
  lemma GatherStep(files: seq<NewFile>, byRel: map<string, NewFile>, at: map<string, nat>, f: NewFile)
    requires Gathered(files, byRel, at) && f.relPath !in byRel
    ensures Gathered(files + [f], byRel[f.relPath := f], at[f.relPath := |files|])
  {
    var files', byRel' := files + [f], byRel[f.relPath := f];
    forall k | 0 <= k < |files'|
      ensures files'[k].relPath in byRel' && byRel'[files'[k].relPath] == files'[k]
    {
      if k < |files| {
        assert files'[k] == files[k];
      }
    }
  }

  /** Recording one more successful probe keeps `Probed`. */
  lemma ProbedStep(byRel: map<string, NewFile>, relToAbs: map<string, string>, fs: FileSystem, f: NewFile)
    requires Probed(byRel, relToAbs, fs)
    requires f.relPath in relToAbs && Probe(fs, f.relPath, relToAbs[f.relPath]) == Success(f)
    ensures Probed(byRel[f.relPath := f], relToAbs, fs)
  {
  }

  /** Appending a file whose relative path was not yet gathered keeps the
      relative paths distinct. */
  lemma DistinctStep(files: seq<NewFile>, byRel: map<string, NewFile>, at: map<string, nat>, f: NewFile)
    requires Gathered(files, byRel, at) && Distinct(files) && f.relPath !in byRel
    ensures Distinct(files + [f])
  {
    var files' := files + [f];
    forall i, j | 0 <= i < j < |files'|
      ensures files'[i].relPath != files'[j].relPath
    {
      assert files'[i] == files[i];
      if j < |files| {
        assert files'[j] == files[j];
      }
    }
  }

  /** `t'` is `t` plus a row for each entry of `byRel`, with an id from
      `[firstId, nextId)`. */
  ghost predicate InsertedRows(t: Table, t': Table, byRel: map<string, NewFile>, firstId: nat, nextId: nat) {
    && t'.Keys == t.Keys + byRel.Keys
    && (forall rp :: rp in t ==> t'[rp] == t[rp])
    && (forall rp :: rp in byRel ==> firstId <= t'[rp].id < nextId && t'[rp] == Inserted(t'[rp].id, byRel[rp]))
  }

  /** `t'` is `t` after the mtime refresh of the rows that have an entry in
      `dbMtimes`. */
  ghost predicate RefreshedRows(t: Table, t': Table, relToAbs: map<string, string>, dbMtimes: map<string, real>, fs: FileSystem) {
    && t.Keys <= relToAbs.Keys
    && t'.Keys == t.Keys
    && (forall rp :: rp in t' ==>
          t'[rp] == if rp in dbMtimes then Refresh(t[rp], MTimeOf(fs, relToAbs[rp])) else t[rp])
  }

  /** Each entry of `byRel` is the successful probe of its relative path. */
  ghost predicate Probed(byRel: map<string, NewFile>, relToAbs: map<string, string>, fs: FileSystem) {
    forall rp :: rp in byRel ==> rp in relToAbs && Probe(fs, rp, relToAbs[rp]) == Success(byRel[rp])
  }

  /** The table after a successful `sync`: exactly the scanned relative
      paths; rows that stayed are refreshed; the others are new rows with
      fresh ids from `[firstId, nextId)`. */
  ghost predicate Reconciled(before: Table, after: Table, relToAbs: map<string, string>, fs: FileSystem, firstId: nat, nextId: nat) {
    && after.Keys == relToAbs.Keys
    && (forall rp :: rp in after && rp in before ==> after[rp] == Refresh(before[rp], MTimeOf(fs, relToAbs[rp])))
    && (forall rp :: rp in after && rp !in before ==>
          && firstId <= after[rp].id < nextId
          && ReadCaption(fs, relToAbs[rp]).Success?
          && after[rp] == Discovered(after[rp].id, rp, relToAbs[rp], fs))
  }

  /** The invariants SQLite keeps for the table: each row sits under its own
      `rel_path`, and ids are positive and below the AUTOINCREMENT sequence. */
  ghost predicate WellFormed(t: Table, nextId: nat) {
    && 0 < nextId
    && (forall rp :: rp in t ==> t[rp].relPath == rp && 0 < t[rp].id < nextId)
  }

  /** Whether a row matches `get_all`'s filter: every row for an empty
      filter, otherwise `caption_text LIKE '%filter%' OR rel_path LIKE '%filter%'`. */
  predicate Matches(row: Row, filter: string) {
    filter == [] || Like(row.captionText, "%" + filter + "%") || Like(row.relPath, "%" + filter + "%")
  }

  /** An empty filter matches every row; a filter without wildcards matches
      exactly the rows whose caption or relative path contains it, up to
      ASCII case. */
  lemma MatchesFilter(row: Row, filter: string)
    ensures filter == [] ==> Matches(row, filter)
    ensures Literal(filter) ==>
              (Matches(row, filter) <==> filter == [] || ContainsFolded(row.captionText, filter) || ContainsFolded(row.relPath, filter))
  {
    if Literal(filter) {
      LikeIsContains(row.captionText, filter);
      LikeIsContains(row.relPath, filter);
    }
  }

  function ListingOf(row: Row): Listing {
    Listing(row.id, row.relPath, row.absPath, row.hasCaption, row.captionText)
  }

  /** The rows of `t` under `keys`, as `ORDER BY rel_path` lists them:
      one listing per key, strictly ascending by relative path. */
  method ListingsOf(t: Table, keys: set<string>) returns (result: seq<Listing>)
    requires forall rp :: rp in keys ==> rp in t && t[rp].relPath == rp
    ensures forall i :: 0 <= i < |result| ==> result[i].relPath in keys && result[i] == ListingOf(t[result[i].relPath])
    ensures forall rp :: rp in keys ==> exists i :: 0 <= i < |result| && result[i].relPath == rp
    ensures forall i, j :: 0 <= i < j < |result| ==> Less(result[i].relPath, result[j].relPath)
  {
    var ordered := SortKeys(keys);
    assert forall k :: 0 <= k < |ordered| ==> ordered[k] in keys;
    result := seq(|ordered|, k requires 0 <= k < |ordered| && ordered[k] in t => ListingOf(t[ordered[k]]));
    assert forall k :: 0 <= k < |result| ==> result[k].relPath == ordered[k];
    forall rp | rp in keys
      ensures exists i :: 0 <= i < |result| && result[i].relPath == rp
    {
      var i :| 0 <= i < |ordered| && ordered[i] == rp;
      assert result[i].relPath == rp;
    }
  }

  /** The table after `UPDATE images SET caption_text=?, has_caption=? WHERE rel_path=?`. */
  function WithCaption(t: Table, relPath: string, c: Caption): (t': Table)
    ensures t'.Keys == t.Keys
    ensures forall rp :: rp in t && rp != relPath ==> t'[rp] == t[rp]
    ensures relPath in t ==> t'[relPath] == t[relPath].(captionText := c.text, hasCaption := c.hasCaption)
  {
    if relPath in t then t[relPath := t[relPath].(captionText := c.text, hasCaption := c.hasCaption)] else t
  }

  /** The table after `UPDATE images SET thumb=? WHERE rel_path=?`. */
  function WithThumb(t: Table, relPath: string, thumb: Option<Bytes>): (t': Table)
    ensures t'.Keys == t.Keys
    ensures forall rp :: rp in t && rp != relPath ==> t'[rp] == t[rp]
    ensures relPath in t ==> t'[relPath] == t[relPath].(thumb := thumb)
  {
    if relPath in t then t[relPath := t[relPath].(thumb := thumb)] else t
  }

  /** The `thumb` column of the row for `relPath`, nothing for a missing row. */
  function ThumbOf(t: Table, relPath: string): Option<Bytes> {
    if relPath in t then t[relPath].thumb else None
  }

  /** `UPDATE images SET rel_path=new, abs_path=? WHERE rel_path=old` breaks
      the UNIQUE constraint. */
  predicate RenameConflicts(t: Table, oldRel: string, newRel: string) {
    oldRel in t && newRel != oldRel && newRel in t
  }

  /** The table after a rename that did not raise: the row moves to its new
      key with a new absolute path; every other field and every other row
      stays. */
  function Renamed(t: Table, oldRel: string, newRel: string, newAbs: string): (t': Table)
    requires !RenameConflicts(t, oldRel, newRel)
    ensures oldRel !in t ==> t' == t
    ensures oldRel in t ==> t'.Keys == t.Keys - {oldRel} + {newRel}
    ensures oldRel in t ==> t'[newRel] == t[oldRel].(relPath := newRel, absPath := newAbs)
    ensures forall rp :: rp in t && rp != oldRel ==> t'[rp] == t[rp]
  {
    if oldRel in t then (t - {oldRel})[newRel := t[oldRel].(relPath := newRel, absPath := newAbs)] else t
  }

  /** The sidecar of the stored relative path `relPath` decodes. */
  predicate Readable(fs: FileSystem, directory: string, relPath: string) {
    ReadCaption(fs, AbsOf(directory, relPath)).Success?
  }

  /** The caption read for the stored relative path `relPath`. */
  function CaptionAt(fs: FileSystem, directory: string, relPath: string): Caption
    requires Readable(fs, directory, relPath)
  {
    ReadCaption(fs, AbsOf(directory, relPath)).value
  }

  /** The captions `update_all_captions` reads, one per relative path. */
  function ReadAll(fs: FileSystem, directory: string, relPaths: seq<string>): (cs: seq<Caption>)
    requires forall i :: 0 <= i < |relPaths| ==> Readable(fs, directory, relPaths[i])
    ensures |cs| == |relPaths|
    ensures forall i :: 0 <= i < |relPaths| ==> cs[i] == CaptionAt(fs, directory, relPaths[i])
  {
    if relPaths == [] then []
    else
      var n := |relPaths| - 1;
      ReadAll(fs, directory, relPaths[..n]) + [CaptionAt(fs, directory, relPaths[n])]
  }

  /** The table after `executemany` ran the caption UPDATE for each pair of
      `relPaths` and `captions`, in order. */
  function ApplyCaptions(t: Table, relPaths: seq<string>, captions: seq<Caption>): (t': Table)
    requires |relPaths| == |captions|
    ensures t'.Keys == t.Keys
    ensures forall rp :: rp in t && rp !in relPaths ==> t'[rp] == t[rp]
  {
    if relPaths == [] then t
    else
      var n := |relPaths| - 1;
      WithCaption(ApplyCaptions(t, relPaths[..n], captions[..n]), relPaths[n], captions[n])
  }

  /** Applying captions keeps the keys; a row that is not listed keeps its
      caption; a listed row gets the caption given for it. */
  lemma {:induction false} ApplyCaptionsEffect(t: Table, relPaths: seq<string>, captions: seq<Caption>, rp: string, c: Caption)
    requires |relPaths| == |captions|
    requires forall i :: 0 <= i < |relPaths| && relPaths[i] == rp ==> captions[i] == c
    ensures ApplyCaptions(t, relPaths, captions).Keys == t.Keys
    ensures rp in t && rp in relPaths ==>
              ApplyCaptions(t, relPaths, captions)[rp] == t[rp].(captionText := c.text, hasCaption := c.hasCaption)
    ensures rp in t && rp !in relPaths ==> ApplyCaptions(t, relPaths, captions)[rp] == t[rp]
  {
    if relPaths != [] {
      var n := |relPaths| - 1;
      ApplyCaptionsEffect(t, relPaths[..n], captions[..n], rp, c);
    }
  }

  /** After `update_all_captions`, every listed row that exists carries the
      caption of its sidecar, and nothing else changed. */
  lemma UpdateAllEffect(t: Table, directory: string, fs: FileSystem, relPaths: seq<string>, rp: string)
    requires forall i :: 0 <= i < |relPaths| ==> Readable(fs, directory, relPaths[i])
    ensures ApplyCaptions(t, relPaths, ReadAll(fs, directory, relPaths)).Keys == t.Keys
    ensures rp in t && rp in relPaths ==>
              Readable(fs, directory, rp) &&
              var c := CaptionAt(fs, directory, rp);
              ApplyCaptions(t, relPaths, ReadAll(fs, directory, relPaths))[rp] == t[rp].(captionText := c.text, hasCaption := c.hasCaption)
    ensures rp in t && rp !in relPaths ==> ApplyCaptions(t, relPaths, ReadAll(fs, directory, relPaths))[rp] == t[rp]
  {
    var cs := ReadAll(fs, directory, relPaths);
    if rp in relPaths {
      var k :| 0 <= k < |relPaths| && relPaths[k] == rp;
      assert Readable(fs, directory, relPaths[k]);
      ApplyCaptionsEffect(t, relPaths, cs, rp, CaptionAt(fs, directory, rp));
    } else {
      ApplyCaptionsEffect(t, relPaths, cs, rp, Caption("", false));
    }
  }

  /** The value `sync` returns: the relative path of every input that is
      on disk (all of them), in input order. */
  method RelPathsOf(directory: string, absPaths: seq<string>, relToAbs: map<string, string>, fs: FileSystem) returns (relPaths: seq<string>)
    requires relToAbs == RelToAbs(fs, directory, absPaths)
    ensures |relPaths| == |absPaths|
    ensures forall i :: 0 <= i < |absPaths| ==> relPaths[i] == RelOf(fs, directory, absPaths[i])
  {
    relPaths := [];
    for k := 0 to |absPaths|
      invariant |relPaths| == k
      invariant forall m :: 0 <= m < k ==> relPaths[m] == RelOf(fs, directory, absPaths[m])
    {
      var rp := RelOf(fs, directory, absPaths[k]);
      assert absPaths[k] in absPaths;
      if rp in relToAbs {
        relPaths := relPaths + [rp];
      }
    }
  }

  /** The phases of `sync` add up to a reconciled table: `inserted` is the
      table after the deletes and inserts, `after` the one after the mtime
      refresh of the rows known before (those with an entry in `dbMtimes`). */
  lemma SyncComposes(before: Table, inserted: Table, after: Table, relToAbs: map<string, string>,
                     byRel: map<string, NewFile>, dbMtimes: map<string, real>, fs: FileSystem, firstId: nat, nextId: nat)
    requires byRel.Keys == relToAbs.Keys - before.Keys && Probed(byRel, relToAbs, fs)
    requires InsertedRows(before - (before.Keys - relToAbs.Keys), inserted, byRel, firstId, nextId)
    requires dbMtimes.Keys == before.Keys
    requires RefreshedRows(inserted, after, relToAbs, dbMtimes, fs)
    ensures Reconciled(before, after, relToAbs, fs, firstId, nextId)
  {
    forall rp | rp in after && rp !in before
      ensures ReadCaption(fs, relToAbs[rp]).Success?
      ensures after[rp] == Discovered(after[rp].id, rp, relToAbs[rp], fs)
    {
      assert Probe(fs, rp, relToAbs[rp]) == Success(byRel[rp]);
    }
  }

  /** The body of `sync` on the table and the AUTOINCREMENT sequence:
      `after` is the table it leaves behind, including on the error path,
      where the deletes already happened. */
  method SyncRows(before: Table, firstId: nat, directory: string, absPaths: seq<string>, fs: FileSystem)
    returns (r: Result<seq<string>, DbError>, after: Table, nextId: nat)
    requires WellFormed(before, firstId)
    ensures WellFormed(after, nextId) && firstId <= nextId
    ensures r.Failure? <==> SyncFails(before.Keys, RelToAbs(fs, directory, absPaths), fs)
    ensures r.Failure? ==> after == before - (before.Keys - RelSet(fs, directory, absPaths)) && nextId == firstId
    ensures r.Success? ==> after.Keys == RelSet(fs, directory, absPaths)
    ensures r.Success? ==> Reconciled(before, after, RelToAbs(fs, directory, absPaths), fs, firstId, nextId)
    ensures r.Success? ==> |r.value| == |absPaths|
    ensures r.Success? ==> forall i :: 0 <= i < |absPaths| ==> r.value[i] == RelOf(fs, directory, absPaths[i])
  {
    var relToAbs := MapRelToAbs(directory, absPaths, fs);
    var diskSet := relToAbs.Keys;
    var dbMtimes := map rp | rp in before :: before[rp].mtime;
    var dbSet := before.Keys;

    // delete stale rows
    var stale := dbSet - diskSet;
    after, nextId := before - stale, firstId;

    var collected, byRel, at := CollectNew(relToAbs, dbSet, fs);
    if collected.Failure? {
      return Failure(collected.error), after, nextId;
    }
    after, nextId := InsertAndRefresh(before, after, firstId, relToAbs, collected.value, byRel, at, dbMtimes, fs);
    var relPaths := RelPathsOf(directory, absPaths, relToAbs, fs);
    r := Success(relPaths);
  }

  /** The second half of `sync`, once the stale rows are gone and every new
      file was probed: the inserts, then the mtime refresh. */
  method InsertAndRefresh(before: Table, remaining: Table, firstId: nat, relToAbs: map<string, string>, files: seq<NewFile>,
                          ghost byRel: map<string, NewFile>, ghost at: map<string, nat>, dbMtimes: map<string, real>, fs: FileSystem)
    returns (after: Table, nextId: nat)
    requires WellFormed(remaining, firstId) && remaining == before - (before.Keys - relToAbs.Keys)
    requires byRel.Keys == relToAbs.Keys - before.Keys && Gathered(files, byRel, at) && Probed(byRel, relToAbs, fs)
    requires dbMtimes.Keys == before.Keys && forall rp :: rp in before ==> dbMtimes[rp] == before[rp].mtime
    ensures WellFormed(after, nextId) && firstId <= nextId && after.Keys == relToAbs.Keys
    ensures Reconciled(before, after, relToAbs, fs, firstId, nextId)
  {
    after, nextId := InsertNew(remaining, firstId, files, byRel, at);
    ghost var inserted := after;
    assert forall rp :: rp in before && rp in inserted ==> rp in remaining && inserted[rp] == before[rp];
    after := RefreshStayed(after, nextId, relToAbs, dbMtimes, fs);
    SyncComposes(before, inserted, after, relToAbs, byRel, dbMtimes, fs, firstId, nextId);
  }

  /** The first loop of `sync`: `rel_to_abs` built path by path. */
  method MapRelToAbs(directory: string, absPaths: seq<string>, fs: FileSystem) returns (relToAbs: map<string, string>)
    ensures relToAbs == RelToAbs(fs, directory, absPaths)
  {
    relToAbs := map[];
    for i := 0 to |absPaths|
      invariant relToAbs == RelToAbs(fs, directory, absPaths[..i])
    {
      assert absPaths[..i + 1][..i] == absPaths[..i];
      relToAbs := relToAbs[RelOf(fs, directory, absPaths[i]) := absPaths[i]];
    }
    assert absPaths[..|absPaths|] == absPaths;
  }

  /** The collecting part of `sync`: every scanned relative path that is
      not `known` is probed; the first caption that is not UTF-8 raises.
      Each new file is collected once (`GatheredCount` turns that into one
      file per new path). */
  method CollectNew(relToAbs: map<string, string>, known: set<string>, fs: FileSystem)
    returns (r: Result<seq<NewFile>, DbError>, ghost byRel: map<string, NewFile>, ghost at: map<string, nat>)
    ensures r.Failure? <==> SyncFails(known, relToAbs, fs)
    ensures r.Success? ==> byRel.Keys == relToAbs.Keys - known && Gathered(r.value, byRel, at) && Probed(byRel, relToAbs, fs)
    ensures r.Success? ==> Distinct(r.value)
  {
    var newPaths := relToAbs.Keys - known;
    r, byRel, at := GatherNew(relToAbs, newPaths, fs);
    if r.Success? {
      ProbedReadable(byRel, relToAbs, fs);
    } else {
      var rp :| rp in newPaths && Probe(fs, rp, relToAbs[rp]).Failure?;
      assert ReadCaption(fs, relToAbs[rp]).Failure?;
    }
  }

  /** The loop of `sync` over `new_paths`, in whatever order the set yields
      them: one probe each, stopping at the first that fails. */
  method GatherNew(relToAbs: map<string, string>, newPaths: set<string>, fs: FileSystem)
    returns (r: Result<seq<NewFile>, DbError>, ghost byRel: map<string, NewFile>, ghost at: map<string, nat>)
    requires newPaths <= relToAbs.Keys
    ensures r.Failure? ==> exists rp :: rp in newPaths && Probe(fs, rp, relToAbs[rp]).Failure?
    ensures r.Success? ==> byRel.Keys == newPaths && Gathered(r.value, byRel, at) && Probed(byRel, relToAbs, fs)
    ensures r.Success? ==> Distinct(r.value)
  {
    var toInsert: seq<NewFile> := [];
    byRel, at := map[], map[];
    var todo := newPaths;
    while todo != {}
      invariant todo <= newPaths && byRel.Keys == newPaths - todo
      invariant Gathered(toInsert, byRel, at) && Probed(byRel, relToAbs, fs)
      invariant Distinct(toInsert)
      decreases |todo|
    {
      var rp :| rp in todo;
      var probe := Probe(fs, rp, relToAbs[rp]);
      if probe.Failure? {
        return Failure(probe.error), byRel, at;
      }
      GatherStep(toInsert, byRel, at, probe.value);
      ProbedStep(byRel, relToAbs, fs, probe.value);
      DistinctStep(toInsert, byRel, at, probe.value);
      byRel, at := byRel[rp := probe.value], at[rp := |toInsert|];
      toInsert := toInsert + [probe.value];
      todo := todo - {rp};
    }
    r := Success(toInsert);
  }

  /** Every path with a successful probe has a readable caption. */
  lemma ProbedReadable(byRel: map<string, NewFile>, relToAbs: map<string, string>, fs: FileSystem)
    requires Probed(byRel, relToAbs, fs)
    ensures forall rp :: rp in byRel ==> ReadCaption(fs, relToAbs[rp]).Success?
  {
    forall rp | rp in byRel
      ensures ReadCaption(fs, relToAbs[rp]).Success?
    {
      assert Probe(fs, rp, relToAbs[rp]).Success?;
    }
  }

  /** The `INSERT OR IGNORE` of `sync`, on the table and the AUTOINCREMENT
      sequence: each collected file gets a row with the next id; the rows
      already present stay as they are. */
  method InsertNew(t: Table, firstId: nat, files: seq<NewFile>, ghost byRel: map<string, NewFile>, ghost at: map<string, nat>)
    returns (t': Table, nextId: nat)
    requires WellFormed(t, firstId) && Gathered(files, byRel, at) && byRel.Keys !! t.Keys
    ensures WellFormed(t', nextId) && firstId <= nextId
    ensures InsertedRows(t, t', byRel, firstId, nextId)
  {
    t', nextId := t, firstId;
    for j := 0 to |files|
      invariant firstId <= nextId
      invariant WellFormed(t', nextId)
      invariant forall k :: 0 <= k < j ==> files[k].relPath in t'
      invariant t'.Keys <= t.Keys + byRel.Keys
      invariant forall rp :: rp in t ==> rp in t' && t'[rp] == t[rp]
      invariant forall rp :: rp in t' && rp in byRel ==>
                  firstId <= t'[rp].id < nextId && t'[rp] == Inserted(t'[rp].id, byRel[rp])
    {
      var f := files[j];
      if f.relPath !in t' {
        t' := t'[f.relPath := Row(nextId, f.relPath, f.absPath, f.mtime, f.caption.hasCaption, f.caption.text, None)];
        nextId := nextId + 1;
      }
    }
    assert forall rp :: rp in byRel ==> files[at[rp]].relPath in t';
  }

  /** The last loop of `sync`, on the table: a row that was in the table
      before the sync (it has an entry in `dbMtimes`) gets the disk's mtime
      and loses its thumbnail when the two mtimes differ by more than the
      tolerance; ids and relative paths stay. */
  method RefreshStayed(t: Table, ghost nextId: nat, relToAbs: map<string, string>, dbMtimes: map<string, real>, fs: FileSystem) returns (t': Table)
    requires WellFormed(t, nextId) && t.Keys == relToAbs.Keys
    requires forall rp :: rp in dbMtimes && rp in t ==> t[rp].mtime == dbMtimes[rp]
    ensures WellFormed(t', nextId) && RefreshedRows(t, t', relToAbs, dbMtimes, fs)
  {
    t' := t;
    var keys := relToAbs.Keys;
    while keys != {}
      invariant keys <= relToAbs.Keys
      invariant t'.Keys == t.Keys
      invariant forall rp :: rp in t' ==>
                  t'[rp] == if rp in dbMtimes && rp !in keys then Refresh(t[rp], MTimeOf(fs, relToAbs[rp])) else t[rp]
      decreases |keys|
    {
      var rp :| rp in keys;
      var ap := relToAbs[rp];
      if rp in dbMtimes {
        var mtime := MTimeOf(fs, ap);
        if AbsReal(mtime - dbMtimes[rp]) > MTimeTolerance {
          t' := t'[rp := t'[rp].(mtime := mtime, thumb := None)];
        }
      }
      keys := keys - {rp};
    }
  }

  class ImageDB {
    var directory: string
    var rows: Table
    var nextId: nat

    ghost predicate Valid()
      reads this
    {
      WellFormed(rows, nextId)
    }

    /** `ImageDB()`: no directory and, as far as the model is concerned, an
        empty table. */
    constructor ()
      ensures Valid() && directory == "" && rows == map[] && nextId == 1
    {
      directory := "";
      rows := map[];
      nextId := 1;
    }

    /** `open(directory)`: the store file in `directory` holds `stored`, and
        its AUTOINCREMENT sequence is at `sequence`. */
    method Open(directory: string, stored: Table, sequence: nat)
      requires WellFormed(stored, sequence + 1)
      modifies this
      ensures Valid() && this.directory == directory && rows == stored && nextId == sequence + 1
    {
      this.directory := directory;
      rows := stored;
      nextId := sequence + 1;
    }

    /** `sync(abs_paths)`: deletes rows whose file is gone, inserts rows for new
        files, refreshes rows whose mtime moved, and returns the relative path
        of every input, in input order. A new file whose caption is not UTF-8
        makes it raise after the stale rows are already deleted. */
    method Sync(absPaths: seq<string>, fs: FileSystem) returns (r: Result<seq<string>, DbError>)
      requires Valid()
      modifies this
      ensures Valid() && directory == old(directory) && old(nextId) <= nextId
      ensures r.Failure? <==> SyncFails(old(rows).Keys, RelToAbs(fs, directory, absPaths), fs)
      ensures r.Failure? ==> rows == old(rows) - (old(rows).Keys - RelSet(fs, directory, absPaths)) && nextId == old(nextId)
      ensures r.Success? ==> rows.Keys == RelSet(fs, directory, absPaths)
      ensures r.Success? ==> Reconciled(old(rows), rows, RelToAbs(fs, directory, absPaths), fs, old(nextId), nextId)
      ensures r.Success? ==> |r.value| == |absPaths|
      ensures r.Success? ==> forall i :: 0 <= i < |absPaths| ==> r.value[i] == RelOf(fs, directory, absPaths[i])
    {
      var after, id;
      r, after, id := SyncRows(rows, nextId, directory, absPaths, fs);
      rows, nextId := after, id;
    }

    /** `get_all(filter_text)`: the rows whose caption or relative path
        contains the filter (all rows for an empty filter), ordered by
        relative path. */
    method GetAll(filter: string) returns (result: seq<Listing>)
      requires Valid()
      ensures forall i :: 0 <= i < |result| ==>
                result[i].relPath in rows && Matches(rows[result[i].relPath], filter)
                && result[i] == ListingOf(rows[result[i].relPath])
      ensures forall rp :: rp in rows && Matches(rows[rp], filter) ==>
                exists i :: 0 <= i < |result| && result[i].relPath == rp
      ensures forall i, j :: 0 <= i < j < |result| ==> Less(result[i].relPath, result[j].relPath)
    {
      var t := rows;
      var keys: set<string>;
      if filter != [] {
        keys := set rp | rp in t && Matches(t[rp], filter);
      } else {
        keys := t.Keys;
      }
      assert forall rp :: rp in keys <==> rp in t && Matches(t[rp], filter);
      result := ListingsOf(t, keys);
    }

    /** `get_by_rel(rel_path)`: the whole row, or nothing. */
    function GetByRel(relPath: string): (r: Option<Row>)
      reads this
      requires Valid()
      ensures r.Some? <==> relPath in rows
      ensures r.Some? ==> r.value.relPath == relPath && r.value == rows[relPath]
    {
      if relPath in rows then Some(rows[relPath]) else None
    }

    /** `get_thumb(rel_path)`: the thumbnail bytes, or nothing when the row is
        missing or its thumbnail is NULL. */
    function GetThumb(relPath: string): (r: Option<Bytes>)
      reads this
      ensures r.Some? <==> relPath in rows && rows[relPath].thumb.Some?
      ensures r.Some? ==> rows[relPath].thumb == r
    {
      ThumbOf(rows, relPath)
    }

    /** `get_pending_thumbs()`: `(rel_path, abs_path)` of every row without a
        thumbnail, ordered by relative path. */
    method GetPendingThumbs() returns (result: seq<(string, string)>)
      requires Valid()
      ensures forall i :: 0 <= i < |result| ==>
                result[i].0 in rows && rows[result[i].0].thumb == None && result[i].1 == rows[result[i].0].absPath
      ensures forall rp :: rp in rows && rows[rp].thumb == None ==>
                exists i :: 0 <= i < |result| && result[i].0 == rp
      ensures forall i, j :: 0 <= i < j < |result| ==> Less(result[i].0, result[j].0)
    {
      var t := rows;
      var keys := set rp | rp in t && t[rp].thumb.None?;
      var ordered := SortKeys(keys);
      assert forall k :: 0 <= k < |ordered| ==> ordered[k] in keys;
      result := seq(|ordered|, k requires 0 <= k < |ordered| && ordered[k] in t => (ordered[k], t[ordered[k]].absPath));
      forall rp | rp in t && t[rp].thumb == None
        ensures exists i :: 0 <= i < |result| && result[i].0 == rp
      {
        assert rp in keys;
        var i :| 0 <= i < |ordered| && ordered[i] == rp;
        assert result[i].0 == rp;
      }
    }

    /** `update_caption(rel_path, caption_text)`: sets the caption and
        recomputes `has_caption` from its stripped text. */
    method UpdateCaption(relPath: string, captionText: string)
      requires Valid()
      modifies this
      ensures Valid() && directory == old(directory) && nextId == old(nextId)
      ensures rows == WithCaption(old(rows), relPath, Caption(captionText, HasText(captionText)))
    {
      var has := HasText(captionText);
      if relPath in rows {
        rows := rows[relPath := rows[relPath].(captionText := captionText, hasCaption := has)];
      }
    }

    /** `update_all_captions(rel_paths)`: re-reads every listed sidecar, then
        applies all the captions; a sidecar that is not UTF-8 raises before
        anything is written. */
    method UpdateAllCaptions(relPaths: seq<string>, fs: FileSystem) returns (r: Outcome<DbError>)
      requires Valid()
      modifies this
      ensures Valid() && directory == old(directory) && nextId == old(nextId)
      ensures r.Fail? <==> exists i :: 0 <= i < |relPaths| && !Readable(fs, directory, relPaths[i])
      ensures r.Fail? ==> rows == old(rows)
      ensures r.Pass? ==> rows == ApplyCaptions(old(rows), relPaths, ReadAll(fs, directory, relPaths))
    {
      var read := ReadCaptions(relPaths, fs);
      if read.Failure? {
        return Fail(read.error);
      }
      ApplyAll(relPaths, read.value);
      r := Pass;
    }

    /** The second half of `update_all_captions`: the `executemany` of the
        caption UPDATE, one statement per pair, in order. */
    method ApplyAll(relPaths: seq<string>, captions: seq<Caption>)
      requires Valid() && |relPaths| == |captions|
      modifies this
      ensures Valid() && directory == old(directory) && nextId == old(nextId)
      ensures rows == ApplyCaptions(old(rows), relPaths, captions)
    {
      for i := 0 to |relPaths|
        invariant directory == old(directory) && nextId == old(nextId)
        invariant WellFormed(rows, nextId)
        invariant rows == ApplyCaptions(old(rows), relPaths[..i], captions[..i])
      {
        assert relPaths[..i + 1][..i] == relPaths[..i];
        assert captions[..i + 1][..i] == captions[..i];
        var rp := relPaths[i];
        ghost var prev := rows;
        if rp in rows {
          rows := rows[rp := rows[rp].(captionText := captions[i].text, hasCaption := captions[i].hasCaption)];
        }
        assert rows == WithCaption(prev, rp, captions[i]);
      }
      assert relPaths[..|relPaths|] == relPaths;
      assert captions[..|relPaths|] == captions;
    }

    /** The first half of `update_all_captions`: the caption of every listed
        path, in order, or the error of the first sidecar that is not UTF-8. */
    method ReadCaptions(relPaths: seq<string>, fs: FileSystem) returns (r: Result<seq<Caption>, DbError>)
      ensures r.Failure? <==> exists i :: 0 <= i < |relPaths| && !Readable(fs, directory, relPaths[i])
      ensures r.Success? ==> r.value == ReadAll(fs, directory, relPaths)
    {
      var dir := directory;
      var updates: seq<Caption> := [];
      for i := 0 to |relPaths|
        invariant |updates| == i
        invariant forall k :: 0 <= k < i ==> Readable(fs, dir, relPaths[k]) && updates[k] == CaptionAt(fs, dir, relPaths[k])
      {
        var caption := ReadCaption(fs, AbsOf(dir, relPaths[i]));
        if caption.Failure? {
          return Failure(caption.error);
        }
        updates := updates + [caption.value];
      }
      assert updates == ReadAll(fs, dir, relPaths);
      r := Success(updates);
    }

    /** `set_thumb(rel_path, jpeg_bytes)`. */
    method SetThumb(relPath: string, jpeg: Bytes)
      requires Valid()
      modifies this
      ensures Valid() && directory == old(directory) && nextId == old(nextId)
      ensures rows == WithThumb(old(rows), relPath, Some(jpeg))
    {
      if relPath in rows {
        rows := rows[relPath := rows[relPath].(thumb := Some(jpeg))];
      }
    }

    /** `invalidate_thumb(rel_path)`: the row's thumbnail becomes NULL. */
    method InvalidateThumb(relPath: string)
      requires Valid()
      modifies this
      ensures Valid() && directory == old(directory) && nextId == old(nextId)
      ensures rows == WithThumb(old(rows), relPath, None)
    {
      if relPath in rows {
        rows := rows[relPath := rows[relPath].(thumb := None)];
      }
    }

    /** `rename(old_rel, new_rel, new_abs)`: moves the row to its new key;
        raises, changing nothing, when another row already has `new_rel`. */
    method Rename(oldRel: string, newRel: string, newAbs: string) returns (r: Outcome<DbError>)
      requires Valid()
      modifies this
      ensures Valid() && directory == old(directory) && nextId == old(nextId)
      ensures r.Fail? <==> RenameConflicts(old(rows), oldRel, newRel)
      ensures r.Fail? ==> rows == old(rows)
      ensures r.Pass? ==> rows == Renamed(old(rows), oldRel, newRel, newAbs)
    {
      if oldRel in rows {
        if newRel != oldRel && newRel in rows {
          return Fail(UniqueViolation(newRel));
        }
        var row := rows[oldRel];
        rows := (rows - {oldRel})[newRel := row.(relPath := newRel, absPath := newAbs)];
      }
      r := Pass;
    }

    /** `delete(rel_path)`. */
    method Delete(relPath: string)
      requires Valid()
      modifies this
      ensures Valid() && directory == old(directory) && nextId == old(nextId)
      ensures rows == old(rows) - {relPath}
    {
      rows := rows - {relPath};
    }
  }
}
