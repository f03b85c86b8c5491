/**
 * Properties that relate several operations of the image store: a second
 * `sync` over the same scan changes nothing, rows that stay keep their
 * identity and caption, a rename can be undone, and the thumbnail and
 * caption updates mean what `get_pending_thumbs` and `has_caption` read.
 */
module StoreLaws {
  import opened Wrappers
  import opened Text
  import opened Paths
  import opened Store

  /** Refreshing a row against the mtime it was just refreshed to changes
      nothing more. */
  lemma RefreshSettles(row: Row, diskMtime: real)
    ensures Refresh(Refresh(row, diskMtime), diskMtime) == Refresh(row, diskMtime)
    ensures Refresh(row, diskMtime).mtime == diskMtime || AbsReal(diskMtime - row.mtime) <= MTimeTolerance
  {
  }

  /** Syncing twice against the same scan of an unchanged disk is syncing
      once: every row is already at its disk mtime or within the tolerance,
      and no file is new. */
  lemma SyncIdempotent(before: Table, after: Table, again: Table, relToAbs: map<string, string>, fs: FileSystem,
                       id0: nat, id1: nat, id2: nat)
    requires Reconciled(before, after, relToAbs, fs, id0, id1)
    requires Reconciled(after, again, relToAbs, fs, id1, id2)
    ensures again == after
  {
    forall rp | rp in again
      ensures again[rp] == after[rp]
    {
      var m := MTimeOf(fs, relToAbs[rp]);
      if rp in before {
        RefreshSettles(before[rp], m);
      } else {
        assert after[rp].mtime == m;
      }
    }
  }

  /** A row that survives `sync` keeps its id, paths and caption; its
      thumbnail is kept exactly when the disk's mtime is within the tolerance
      of the stored one, and is otherwise cleared with the new mtime stored. */
  lemma SyncKeepsSurvivors(before: Table, after: Table, relToAbs: map<string, string>, fs: FileSystem,
                           id0: nat, id1: nat, rp: string)
    requires Reconciled(before, after, relToAbs, fs, id0, id1)
    requires rp in before && rp in relToAbs
    ensures rp in after
    ensures after[rp].id == before[rp].id && after[rp].relPath == before[rp].relPath
    ensures after[rp].absPath == before[rp].absPath
    ensures after[rp].captionText == before[rp].captionText && after[rp].hasCaption == before[rp].hasCaption
    ensures var m := MTimeOf(fs, relToAbs[rp]);
            if AbsReal(m - before[rp].mtime) <= MTimeTolerance then after[rp] == before[rp]
            else after[rp].thumb == None && after[rp].mtime == m
  {
  }

  /** A row that `sync` adds is a fresh row for the scanned file: id from the
      sequence, no thumbnail, the file's mtime, the caption read from its
      sidecar (empty when the sidecar is missing or unreadable), and
      `has_caption` set exactly when that caption holds more than
      whitespace. */
  lemma SyncAddsFresh(before: Table, after: Table, relToAbs: map<string, string>, fs: FileSystem,
                      id0: nat, id1: nat, rp: string)
    requires Reconciled(before, after, relToAbs, fs, id0, id1)
    requires rp !in before && rp in relToAbs
    ensures rp in after && id0 <= after[rp].id < id1
    ensures after[rp].relPath == rp && after[rp].absPath == relToAbs[rp]
    ensures after[rp].thumb == None && after[rp].mtime == MTimeOf(fs, relToAbs[rp])
    ensures after[rp].hasCaption <==> Strip(after[rp].captionText) != []
    ensures ReadCaption(fs, relToAbs[rp]).Success? && after[rp].captionText == ReadCaption(fs, relToAbs[rp]).value.text
    ensures var txt := SidecarPath(relToAbs[rp]);
            txt in fs.sidecars && fs.sidecars[txt].Decoded? ==> after[rp].captionText == fs.sidecars[txt].text
    ensures var txt := SidecarPath(relToAbs[rp]);
            txt !in fs.sidecars || fs.sidecars[txt] == Unreadable ==> after[rp].captionText == "" && !after[rp].hasCaption
  {
    StripTruthiness(after[rp].captionText);
  }

  /** `update_caption` stores `has_caption` as the truthiness of the
      stripped caption. */
  lemma CaptionFlagIsStripped(t: Table, relPath: string, text: string)
    requires relPath in t
    ensures WithCaption(t, relPath, Caption(text, HasText(text)))[relPath].hasCaption <==> Strip(text) != []
  {
    StripTruthiness(text);
  }

  /** Renaming a row and renaming it back, with its old absolute path,
      restores the table. */
  lemma RenameRoundTrip(t: Table, nextId: nat, oldRel: string, newRel: string, newAbs: string)
    requires WellFormed(t, nextId)
    requires oldRel in t && !RenameConflicts(t, oldRel, newRel)
    ensures !RenameConflicts(Renamed(t, oldRel, newRel, newAbs), newRel, oldRel)
    ensures Renamed(Renamed(t, oldRel, newRel, newAbs), newRel, oldRel, t[oldRel].absPath) == t
  {
    var moved := Renamed(t, oldRel, newRel, newAbs);
    var back := Renamed(moved, newRel, oldRel, t[oldRel].absPath);
    assert back.Keys == t.Keys;
    forall rp | rp in t
      ensures back[rp] == t[rp]
    {
      if rp == oldRel {
        assert t[oldRel].relPath == oldRel;
      }
    }
  }

  /** A rename that did not raise keeps the table well formed and keeps the
      row's id. */
  lemma RenameKeepsWellFormed(t: Table, nextId: nat, oldRel: string, newRel: string, newAbs: string)
    requires WellFormed(t, nextId) && oldRel in t && !RenameConflicts(t, oldRel, newRel)
    ensures WellFormed(Renamed(t, oldRel, newRel, newAbs), nextId)
    ensures Renamed(t, oldRel, newRel, newAbs)[newRel].id == t[oldRel].id
  {
  }

  /** Whether a row waits for a thumbnail, as `get_pending_thumbs` selects. */
  predicate Pending(t: Table, relPath: string) {
    relPath in t && t[relPath].thumb == None
  }

  /** `set_thumb` takes a row off the pending list and `invalidate_thumb`
      puts it back; neither touches whether any other row is pending, and
      invalidating after storing is invalidating. */
  lemma ThumbUpdates(t: Table, relPath: string, jpeg: Bytes, other: string)
    requires other != relPath
    ensures !Pending(WithThumb(t, relPath, Some(jpeg)), relPath)
    ensures Pending(WithThumb(t, relPath, None), relPath) <==> relPath in t
    ensures Pending(WithThumb(t, relPath, Some(jpeg)), other) == Pending(t, other)
    ensures Pending(WithThumb(t, relPath, None), other) == Pending(t, other)
    ensures WithThumb(WithThumb(t, relPath, Some(jpeg)), relPath, None) == WithThumb(t, relPath, None)
  {
    var a := WithThumb(WithThumb(t, relPath, Some(jpeg)), relPath, None);
    var b := WithThumb(t, relPath, None);
    assert forall rp :: rp in a ==> a[rp] == b[rp];
  }

  /** The filter `cat` keeps a row whose caption mentions a Cat, in any
      ASCII case. */
  lemma FilterKeepsCat()
    ensures Matches(Row(1, "pets/a.png", "C:\\pets\\a.png", 0.0, true, "A black Cat", None), "cat")
  {
    var s := "A black Cat";
    LikeIsContains(s, "cat");
    assert FoldedPrefix(s[8..], "cat");
  }

  /** The filter `cat` drops a row whose caption and path do not hold it. */
  lemma FilterDropsDog()
    ensures !Matches(Row(2, "dog.png", "C:\\dog.png", 0.0, false, "", None), "cat")
  {
    var p := "dog.png";
    LikeIsContains("", "cat");
    LikeIsContains(p, "cat");
    forall i | 0 <= i <= |p|
      ensures !FoldedPrefix(p[i..], "cat")
    {
      if i + 3 <= |p| {
        assert p[i..][0] == p[i];
      }
    }
  }

  /** `_rel` undoes `_abs` for a stored relative path, given that
      `os.path.relpath` recovers what `os.path.join` appended to the
      directory. */
  lemma RelOfAbsOf(fs: FileSystem, directory: string, relPath: string)
    requires Paths.Sep !in relPath
    requires fs.relpath(AbsOf(directory, relPath), directory) == Paths.Localize(relPath)
    ensures RelOf(fs, directory, AbsOf(directory, relPath)) == relPath
  {
    Paths.LocalizeRoundTrip(relPath);
  }
}
