/**
 * Path strings as the program handles them on Windows (the platform it
 * targets): `os.sep` is a backslash and `os.altsep` a forward slash. The
 * store keys rows by relative paths with forward slashes (`ImageDB._rel`),
 * turns them back into native paths (`ImageDB._abs`), and finds a caption
 * next to its image (`os.path.splitext(path)[0] + ".txt"`).
 */
module Paths {

  const Sep: char := '\\'
  const AltSep: char := '/'

  predicate IsSep(c: char) {
    c == Sep || c == AltSep
  }

  /** `s.replace(a, b)` for single characters: every `a` becomes `b`,
      nothing else moves. */
  function ReplaceChar(s: string, a: char, b: char): (r: string)
    ensures |r| == |s|
    ensures forall k :: 0 <= k < |s| ==> r[k] == (if s[k] == a then b else s[k])
  {
    if s == [] then [] else [if s[0] == a then b else s[0]] + ReplaceChar(s[1..], a, b)
  }

  /** The normalisation `ImageDB._rel` applies to `os.path.relpath`:
      backslashes become forward slashes. */
  function Normalize(s: string): (r: string)
    ensures |r| == |s| && Sep !in r
    ensures forall k :: 0 <= k < |s| ==> r[k] == if s[k] == Sep then AltSep else s[k]
  {
    ReplaceChar(s, Sep, AltSep)
  }

  /** The conversion `ImageDB._abs` applies: forward slashes become `os.sep`. */
  function Localize(rel: string): (r: string)
    ensures |r| == |rel| && AltSep !in r
    ensures forall k :: 0 <= k < |rel| ==> r[k] == if rel[k] == AltSep then Sep else rel[k]
  {
    ReplaceChar(rel, AltSep, Sep)
  }

  lemma NormalizeIdempotent(s: string)
    ensures Normalize(Normalize(s)) == Normalize(s)
  {
    assert forall k :: 0 <= k < |s| ==> Normalize(Normalize(s))[k] == Normalize(s)[k];
  }

  /** A stored relative path survives the trip to a native path and back:
      `_rel`'s normalisation undoes `_abs`'s localisation. */
  lemma LocalizeRoundTrip(rel: string)
    requires Sep !in rel
    ensures Normalize(Localize(rel)) == rel
  {
    forall k | 0 <= k < |rel|
      ensures Normalize(Localize(rel))[k] == rel[k]
    {
      assert rel[k] != Sep;
    }
  }

  /** A bare drive such as `C:`, which `ntpath.join` does not follow with
      a separator. */
  predicate BareDrive(directory: string) {
    |directory| == 2 && directory[1] == ':'
  }

  /** `ntpath.join(directory, rel)` for a relative `rel` without a drive. */
  function Join(directory: string, rel: string): string {
    if directory == [] || IsSep(directory[|directory| - 1]) || BareDrive(directory) then
      directory + rel
    else
      directory + [Sep] + rel
  }

  /** The layout of `ntpath.join(directory, rel)`: `directory`, then `rel`,
      with a separator inserted exactly when `directory` is non-empty, does
      not end in one and is not a bare drive. */
  lemma JoinLayout(directory: string, rel: string)
    ensures var r := Join(directory, rel);
            && |directory| + |rel| <= |r| <= |directory| + |rel| + 1
            && r[..|directory|] == directory && r[|r| - |rel|..] == rel
            && (|r| > |directory| + |rel| <==>
                  directory != [] && !IsSep(directory[|directory| - 1]) && !BareDrive(directory))
            && (|r| > |directory| + |rel| ==> r[|directory|] == Sep)
  {
  }

  /** Scans `p` backwards from position `i` through its final path
      component, as `ntpath.splitext` does with `rfind`: `dot` is the last dot
      (or -1 before one is seen) and `named` records a character other than a
      dot before it in the component. The result is where the extension
      starts, or `|p|` when the name has none. */
  function ExtStart(p: string, i: nat, dot: int, named: bool): (e: nat)
    requires i <= |p|
    requires dot == -1 || (i <= dot < |p| && p[dot] == '.')
    requires dot >= 0 ==> forall k :: dot < k < |p| ==> p[k] != '.' && !IsSep(p[k])
    requires dot < 0 ==> forall k :: i <= k < |p| ==> p[k] != '.' && !IsSep(p[k])
    ensures e <= |p|
    ensures e < |p| ==> p[e] == '.' && forall k :: e < k < |p| ==> p[k] != '.' && !IsSep(p[k])
    decreases i
  {
    if i == 0 || IsSep(p[i - 1]) then
      if dot >= 0 && named then dot else |p|
    else if p[i - 1] == '.' then
      if dot < 0 then ExtStart(p, i - 1, i - 1, false) else ExtStart(p, i - 1, dot, named)
    else
      ExtStart(p, i - 1, dot, dot >= 0)
  }

  /** No separator at or after position `c`: `c` lies in the final path
      component of `p`. */
  predicate InFinalComponent(p: string, c: nat) {
    forall k :: c <= k < |p| ==> !IsSep(p[k])
  }

  /** What the backward scan finds: an extension is found exactly when the
      final component has a character other than a dot followed, later,
      by a dot. */
  lemma {:induction false} ExtStartSpec(p: string, i: nat, dot: int, named: bool)
    requires i <= |p|
    requires dot == -1 || (i <= dot < |p| && p[dot] == '.')
    requires dot >= 0 ==> forall k :: dot < k < |p| ==> p[k] != '.' && !IsSep(p[k])
    requires dot < 0 ==> forall k :: i <= k < |p| ==> p[k] != '.' && !IsSep(p[k])
    requires InFinalComponent(p, i)
    requires named ==> dot >= 0 && exists c :: i <= c < dot && p[c] != '.'
    requires dot >= 0 && !named ==> forall c :: i <= c < dot ==> p[c] == '.'
    ensures var e := ExtStart(p, i, dot, named);
            e < |p| ==> exists c :: 0 <= c < e && p[c] != '.' && InFinalComponent(p, c)
    ensures (exists c, d :: 0 <= c < d < |p| && p[c] != '.' && p[d] == '.' && InFinalComponent(p, c)) ==>
              ExtStart(p, i, dot, named) < |p|
    decreases i
  {
    if i == 0 || IsSep(p[i - 1]) {
      if exists c, d :: 0 <= c < d < |p| && p[c] != '.' && p[d] == '.' && InFinalComponent(p, c) {
        var c, d :| 0 <= c < d < |p| && p[c] != '.' && p[d] == '.' && InFinalComponent(p, c);
        assert i <= c by {
          if i > 0 { assert IsSep(p[i - 1]); }
        }
        assert dot >= 0 && d <= dot;
        assert i <= c < dot && p[c] != '.';
      }
    } else if p[i - 1] == '.' {
      if dot < 0 {
        ExtStartSpec(p, i - 1, i - 1, false);
      } else {
        ExtStartSpec(p, i - 1, dot, named);
      }
    } else {
      ExtStartSpec(p, i - 1, dot, dot >= 0);
    }
  }

  /** `ntpath.splitext(p)[0]`: the last dot of the final path component
      starts the extension, unless everything before it in that component
      is dots (a name like `.profile` has no extension). */
  function StripExtension(p: string): (r: string)
    ensures |r| <= |p| && r == p[..|r|]
    ensures |r| < |p| ==> p[|r|] == '.'
    ensures forall k :: |r| < k < |p| ==> p[k] != '.' && !IsSep(p[k])
    ensures |r| < |p| ==> exists c :: 0 <= c < |r| && p[c] != '.' && InFinalComponent(p, c)
    ensures (exists c, d :: 0 <= c < d < |p| && p[c] != '.' && p[d] == '.' && InFinalComponent(p, c)) ==> |r| < |p|
  {
    ExtStartSpec(p, |p|, -1, false);
    p[..ExtStart(p, |p|, -1, false)]
  }

  /** The caption file beside an image: same stem, extension `.txt`. */
  function SidecarPath(imagePath: string): (r: string)
    ensures |r| >= 4 && r[|r| - 4..] == ".txt"
    ensures r[..|r| - 4] == StripExtension(imagePath)
  {
    StripExtension(imagePath) + ".txt"
  }

  /** The sidecar of an image replaces its extension. */
  lemma SidecarReplacesExtension()
    ensures SidecarPath("C:\\d\\a.png") == "C:\\d\\a.txt"
  {
    var p := "C:\\d\\a.png";
    assert ExtStart(p, 5, 6, true) == 6;
    assert ExtStart(p, 7, -1, false) == 6;
    assert ExtStart(p, 8, -1, false) == 6;
    assert ExtStart(p, 9, -1, false) == 6;
    assert ExtStart(p, |p|, -1, false) == 6;
  }

  /** Only the last extension is replaced. */
  lemma SidecarKeepsInnerDots()
    ensures SidecarPath("C:\\d\\b.tar.jpg") == "C:\\d\\b.tar.txt"
  {
    var q := "C:\\d\\b.tar.jpg";
    assert ExtStart(q, 9, 10, true) == 10;
    assert ExtStart(q, 11, -1, false) == 10;
    assert ExtStart(q, 12, -1, false) == 10;
    assert ExtStart(q, 13, -1, false) == 10;
    assert ExtStart(q, |q|, -1, false) == 10;
  }

  /** A name that starts with its only dot has no extension, and a dot in a
      directory name does not count. */
  lemma SidecarOfDotName()
    ensures SidecarPath("C:\\d.x\\.png") == "C:\\d.x\\.png.txt"
  {
    var h := "C:\\d.x\\.png";
    assert ExtStart(h, 7, 7, false) == |h|;
    assert ExtStart(h, 8, -1, false) == |h|;
    assert ExtStart(h, 9, -1, false) == |h|;
    assert ExtStart(h, 10, -1, false) == |h|;
    assert ExtStart(h, |h|, -1, false) == |h|;
  }
}
