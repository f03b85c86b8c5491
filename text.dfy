/**
 * Python string behaviour the program relies on: `str.strip()` and its
 * truthiness, SQLite's `LIKE`, and the code-point order used both by
 * Python's `sorted` on paths and by SQLite's BINARY collation in
 * `ORDER BY rel_path`.
 */
module Text {

  /** Python's `str.isspace()` for one character: the ASCII controls tab to
      carriage return, the separators 0x1C-0x1F, space, NEL, NBSP and the
      Unicode space separators. */
  predicate IsSpace(c: char) {
    || ('\t' <= c <= '\r')
    || ('\U{1C}' <= c <= ' ')
    || c == '\U{85}' || c == '\U{A0}' || c == '\U{1680}'
    || ('\U{2000}' <= c <= '\U{200A}')
    || c == '\U{2028}' || c == '\U{2029}' || c == '\U{202F}' || c == '\U{205F}' || c == '\U{3000}'
  }

  /** Drops leading whitespace: what is left is a suffix that starts with a
      visible character, and everything dropped is whitespace. */
  function TrimStart(s: string): (r: string)
    ensures |r| <= |s| && r == s[|s| - |r|..]
    ensures forall k :: 0 <= k < |s| - |r| ==> IsSpace(s[k])
    ensures r != [] ==> !IsSpace(r[0])
  {
    if s != [] && IsSpace(s[0]) then
      var r := TrimStart(s[1..]);
      assert forall k :: 1 <= k < |s| - |r| ==> s[k] == s[1..][k - 1];
      r
    else
      s
  }

  /** Drops trailing whitespace: what is left is a prefix that ends with a
      visible character, and everything dropped is whitespace. */
  function TrimEnd(s: string): (r: string)
    ensures |r| <= |s| && r == s[..|r|]
    ensures forall k :: |r| <= k < |s| ==> IsSpace(s[k])
    ensures r != [] ==> !IsSpace(r[|r| - 1])
  {
    if s != [] && IsSpace(s[|s| - 1]) then TrimEnd(s[..|s| - 1]) else s
  }

  /** `r` is the run of `s` starting at `i` with only whitespace on either
      side of it, and it neither starts nor ends with whitespace. */
  predicate TrimmedAt(s: string, i: int, r: string) {
    && 0 <= i && i + |r| <= |s| && r == s[i..i + |r|]
    && (forall k :: 0 <= k < i ==> IsSpace(s[k]))
    && (forall k :: i + |r| <= k < |s| ==> IsSpace(s[k]))
    && (r != [] ==> !IsSpace(r[0]) && !IsSpace(r[|r| - 1]))
  }

  /** Python's `s.strip()` with no argument: the run of `s` left once the
      leading whitespace (up to the first visible character) and the
      trailing whitespace are dropped. */
  function Strip(s: string): (r: string)
    ensures TrimmedAt(s, |s| - |TrimStart(s)|, r)
  {
    TrimmedRun(s);
    TrimEnd(TrimStart(s))
  }

  /** Dropping the leading and then the trailing whitespace leaves a run of
      `s` with only whitespace on either side of it. */
  lemma TrimmedRun(s: string)
    ensures TrimmedAt(s, |s| - |TrimStart(s)|, TrimEnd(TrimStart(s)))
  {
    TrimmedEnds(s);
    TrimmedSlice(s);
    TrimmedMargin(s);
  }

  /** The stripped run starts and ends with a visible character. */
  lemma TrimmedEnds(s: string)
    ensures var r := TrimEnd(TrimStart(s));
            r != [] ==> !IsSpace(r[0]) && !IsSpace(r[|r| - 1])
  {
    var t := TrimStart(s);
    var r := TrimEnd(t);
    if r != [] {
      assert r[0] == t[..|r|][0] == t[0];
    }
  }

  /** The stripped run is the slice of `s` that starts where the leading
      whitespace ends. */
  lemma TrimmedSlice(s: string)
    ensures var r := TrimEnd(TrimStart(s));
            var i := |s| - |TrimStart(s)|;
            0 <= i && i + |r| <= |s| && r == s[i..i + |r|]
  {
    var t := TrimStart(s);
    var r := TrimEnd(t);
    var i := |s| - |t|;
    assert t == s[i..];
    assert r == t[..|r|] == s[i..][..|r|];
    assert s[i..][..|r|] == s[i..i + |r|];
  }

  /** Only whitespace lies after the stripped run. */
  lemma TrimmedMargin(s: string)
    ensures var r := TrimEnd(TrimStart(s));
            var i := |s| - |TrimStart(s)|;
            forall k :: i + |r| <= k < |s| ==> IsSpace(s[k])
  {
    var t := TrimStart(s);
    var r := TrimEnd(t);
    var i := |s| - |t|;
    forall k | i + |r| <= k < |s|
      ensures IsSpace(s[k])
    {
      assert s[k] == t[k - i];
    }
  }

  /** Some character of `s` is not whitespace. */
  predicate HasText(s: string) {
    exists k :: 0 <= k < |s| && !IsSpace(s[k])
  }

  /** `HasText` is the truthiness of `s.strip()`, the test db.py uses for
      `has_caption` and main.py for an empty filter: the stripped text is
      empty exactly when every character of `s` is whitespace. */
  lemma StripTruthiness(s: string)
    ensures Strip(s) != [] <==> HasText(s)
  {
    var t := TrimStart(s);
    if t != [] {
      assert !IsSpace(s[|s| - |t|]);
    }
  }

  /** Stripping twice is stripping once. */
  lemma StripIdempotent(s: string)
    ensures Strip(Strip(s)) == Strip(s)
  {
    var u := Strip(s);
    var t := TrimStart(s);
    assert u == t[..|u|];
    if u != [] {
      assert u[0] == t[0];
      assert TrimStart(u) == u;
    } else {
      assert TrimStart(u) == u;
    }
    assert TrimEnd(u) == u;
  }

  /** SQLite's default case folding for `LIKE`: ASCII upper-case letters
      only. */
  function FoldCase(c: char): char {
    if 'A' <= c <= 'Z' then (c as int + 32) as char else c
  }

  /** SQLite's `s LIKE pattern` without an ESCAPE clause: `%` matches any
      run of characters, `_` any one character, and other characters match
      up to ASCII case. */
  function Like(s: string, pattern: string): (b: bool)
    ensures '%' !in pattern && b ==> |s| == |pattern|
    ensures Literal(pattern) ==> (b <==> |s| == |pattern| && FoldedPrefix(s, pattern))
    decreases |s| + |pattern|
  {
    if pattern == [] then s == []
    else if pattern[0] == '%' then Like(s, pattern[1..]) || (s != [] && Like(s[1..], pattern))
    else
      assert s != [] ==> forall k :: 1 <= k < |pattern| && k < |s| ==> s[1..][k - 1] == s[k] && pattern[1..][k - 1] == pattern[k];
      assert pattern[0] in pattern;
      s != [] && (pattern[0] == '_' || FoldCase(s[0]) == FoldCase(pattern[0])) && Like(s[1..], pattern[1..])
  }

  /** `s` starts with `prefix`, up to ASCII case. */
  predicate FoldedPrefix(s: string, prefix: string) {
    |prefix| <= |s| && forall k :: 0 <= k < |prefix| ==> FoldCase(s[k]) == FoldCase(prefix[k])
  }

  /** `sub` occurs in `s` at some position, up to ASCII case. */
  predicate ContainsFolded(s: string, sub: string) {
    exists i :: 0 <= i <= |s| && FoldedPrefix(s[i..], sub)
  }

  /** The text holds neither of `LIKE`'s wildcards. */
  predicate Literal(text: string) {
    '%' !in text && '_' !in text
  }

  lemma {:induction false} LikeAnything(s: string)
    ensures Like(s, "%")
    decreases |s|
  {
    if s != [] {
      LikeAnything(s[1..]);
    }
  }

  lemma {:induction false} LikeLiteralPrefix(s: string, f: string)
    requires Literal(f)
    ensures Like(s, f + "%") <==> FoldedPrefix(s, f)
    decreases |f|
  {
    if f == [] {
      assert f + "%" == "%";
      LikeAnything(s);
    } else {
      assert (f + "%")[1..] == f[1..] + "%";
      if s != [] {
        LikeLiteralPrefix(s[1..], f[1..]);
        if FoldedPrefix(s[1..], f[1..]) && FoldCase(s[0]) == FoldCase(f[0]) {
          assert forall k :: 1 <= k < |f| ==> FoldCase(s[k]) == FoldCase(f[k]) by {
            forall k | 1 <= k < |f| ensures FoldCase(s[k]) == FoldCase(f[k]) {
              assert s[1..][k - 1] == s[k] && f[1..][k - 1] == f[k];
            }
          }
        }
      }
    }
  }

  lemma {:induction false} LikeLeadingPercent(s: string, p: string)
    ensures Like(s, "%" + p) <==> exists i :: 0 <= i <= |s| && Like(s[i..], p)
    decreases |s|
  {
    assert ("%" + p)[1..] == p;
    assert s[0..] == s;
    if s != [] {
      LikeLeadingPercent(s[1..], p);
      forall i | 1 <= i <= |s|
        ensures s[1..][i - 1..] == s[i..]
      {
      }
    }
  }

  /** The pattern `'%' + text + '%'` that `get_all` builds is a
      case-insensitive substring search as long as the text holds no
      wildcard. */
  lemma LikeIsContains(s: string, text: string)
    requires Literal(text)
    ensures Like(s, "%" + text + "%") <==> ContainsFolded(s, text)
  {
    assert "%" + text + "%" == "%" + (text + "%");
    LikeLeadingPercent(s, text + "%");
    forall i | 0 <= i <= |s|
      ensures Like(s[i..], text + "%") <==> FoldedPrefix(s[i..], text)
    {
      LikeLiteralPrefix(s[i..], text);
    }
  }

  /** Strict code-point order of strings: Python's `<` on `str` and SQLite's
      BINARY collation on UTF-8 text agree with it. */
  predicate Less(a: string, b: string)
    decreases |a|
  {
    if a == [] then b != []
    else b != [] && (a[0] < b[0] || (a[0] == b[0] && Less(a[1..], b[1..])))
  }

  lemma {:induction false} LessIrreflexive(a: string)
    ensures !Less(a, a)
    decreases |a|
  {
    if a != [] {
      LessIrreflexive(a[1..]);
    }
  }

  lemma {:induction false} LessTransitive(a: string, b: string, c: string)
    requires Less(a, b) && Less(b, c)
    ensures Less(a, c)
    decreases |a|
  {
    if a != [] && a[0] == b[0] && b[0] == c[0] {
      LessTransitive(a[1..], b[1..], c[1..]);
    }
  }

  /** Any two different strings are ordered one way, and not both ways. */
  lemma {:induction false} LessTotal(a: string, b: string)
    ensures a != b <==> (Less(a, b) || Less(b, a))
    ensures !(Less(a, b) && Less(b, a))
    decreases |a|
  {
    if a != [] && b != [] {
      LessTotal(a[1..], b[1..]);
      if a[0] == b[0] && a[1..] == b[1..] {
        assert a == [a[0]] + a[1..] && b == [b[0]] + b[1..];
      }
    } else if a == b {
      LessIrreflexive(a);
    }
  }

  /** A non-empty finite set of strings has a least element. */
  lemma {:induction false} LeastExists(s: set<string>)
    requires s != {}
    ensures exists m :: m in s && forall x :: x in s && x != m ==> Less(m, x)
    decreases |s|
  {
    var y :| y in s;
    var rest := s - {y};
    if rest == {} {
      assert s == {y};
    } else {
      LeastExists(rest);
      var m :| m in rest && forall x :: x in rest && x != m ==> Less(m, x);
      LessTotal(m, y);
      if Less(y, m) {
        forall x | x in s && x != y
          ensures Less(y, x)
        {
          if x != m {
            LessTransitive(y, m, x);
          }
        }
      } else {
        assert forall x :: x in s && x != m ==> Less(m, x);
      }
    }
  }

  /** Strictly ascending in code-point order, hence free of duplicates. */
  ghost predicate Ascending(ks: seq<string>) {
    forall i, j :: 0 <= i < j < |ks| ==> Less(ks[i], ks[j])
  }

  /** Every finite set of strings can be listed in ascending order. */
  lemma {:induction false} AscendingExists(keys: set<string>)
    ensures exists ks :: Ascending(ks) && forall k :: k in ks <==> k in keys
    decreases |keys|
  {
    if keys == {} {
      assert Ascending([]) && forall k :: k in [] <==> k in keys;
    } else {
      LeastExists(keys);
      var m :| m in keys && forall x :: x in keys && x != m ==> Less(m, x);
      AscendingExists(keys - {m});
      var ks :| Ascending(ks) && forall k :: k in ks <==> k in keys - {m};
      var r := [m] + ks;
      forall i, j | 0 <= i < j < |r|
        ensures Less(r[i], r[j])
      {
        assert r[j] == ks[j - 1] && r[j] in keys - {m};
        if i > 0 {
          assert r[i] == ks[i - 1];
        }
      }
      assert forall k :: k in r <==> k == m || k in ks;
      assert Ascending(r) && forall k :: k in r <==> k in keys;
    }
  }

  /** Two ascending lists with the same members are the same list: there
      is one sorted order of a set. */
  lemma {:induction false} AscendingUnique(a: seq<string>, b: seq<string>)
    requires Ascending(a) && Ascending(b)
    requires forall k :: k in a <==> k in b
    ensures a == b
    decreases |a|
  {
    if a != [] {
      assert a[0] in b;
    }
    if b != [] {
      assert b[0] in a;
    }
    if a == [] {
      return;
    }
    assert a[0] in b && b[0] in a;
    var j :| 0 <= j < |b| && b[j] == a[0];
    var i :| 0 <= i < |a| && a[i] == b[0];
    if a[0] != b[0] {
      assert Less(a[0], a[i]) && Less(b[0], b[j]);
      LessTotal(a[0], b[0]);
      assert false;
    }
    LessIrreflexive(a[0]);
    forall k
      ensures k in a[1..] <==> k in b[1..]
    {
      if k in a[1..] {
        var p :| 0 <= p < |a[1..]| && a[1..][p] == k;
        assert a[p + 1] == k && k != a[0];
        assert k in b;
        var q :| 0 <= q < |b| && b[q] == k;
        assert q != 0 && b[1..][q - 1] == k;
      }
      if k in b[1..] {
        var q :| 0 <= q < |b[1..]| && b[1..][q] == k;
        assert b[q + 1] == k && k != b[0];
        assert k in a;
        var p :| 0 <= p < |a| && a[p] == k;
        assert p != 0 && a[1..][p - 1] == k;
      }
    }
    AscendingUnique(a[1..], b[1..]);
    assert a == [a[0]] + a[1..] && b == [b[0]] + b[1..];
  }

  /** The members of a set as `sort()` lists them. */
  ghost function SortedOf(keys: set<string>): (ks: seq<string>)
    ensures Ascending(ks) && forall k :: k in ks <==> k in keys
  {
    AscendingExists(keys);
    var ks :| Ascending(ks) && forall k :: k in ks <==> k in keys; ks
  }

  /** The keys of a set in ascending order: the `ORDER BY` of SQLite and the
      `sort()` of Python for text without duplicates. */
  method SortKeys(keys: set<string>) returns (ks: seq<string>)
    ensures Ascending(ks)
    ensures forall k :: k in ks <==> k in keys
    ensures |ks| == |keys|
  {
    ks := [];
    var rest := keys;
    while rest != {}
      invariant rest <= keys
      invariant Ascending(ks)
      invariant forall k :: k in keys <==> k in ks || k in rest
      invariant forall i, k :: 0 <= i < |ks| && k in rest ==> Less(ks[i], k)
      invariant |ks| + |rest| == |keys|
      decreases |rest|
    {
      LeastExists(rest);
      var m :| m in rest && forall x :: x in rest && x != m ==> Less(m, x);
      forall i | 0 <= i < |ks|
        ensures ks[i] != m
      {
        LessIrreflexive(m);
      }
      ks := ks + [m];
      rest := rest - {m};
    }
  }
}
