/** How build_tree_dict turns one raw path into its segments
    (Reports_Generic.py:266-268): a path that starts with two backslashes has
    EVERY occurrence of two backslashes deleted (Python's str.replace), and the
    result is split on a single backslash, keeping empty pieces. */
module PathSegments {

  const Sep: char := '\\'
  /** Two backslashes: the network-root marker and the pattern that is deleted. */
  const DoubleSep: string := "\\\\"

  predicate StartsWith(s: string, prefix: string) {
    prefix <= s
  }

  /** Python's `s.replace(pat, "")` for a non-empty pattern: scanning from the
      left, every occurrence that does not overlap an earlier one is deleted. */
  function RemoveAll(s: string, pat: string): (r: string)
    requires |pat| > 0
    ensures |r| <= |s|
    decreases |s|
  {
    if |s| == 0 then ""
    else if StartsWith(s, pat) then RemoveAll(s[|pat|..], pat)
    else [s[0]] + RemoveAll(s[1..], pat)
  }

  /** Lines 266-267. */
  function Normalize(path: string): (normal: string)
    ensures |normal| <= |path|
    ensures !StartsWith(path, DoubleSep) ==> normal == path
  {
    if StartsWith(path, DoubleSep) then RemoveAll(path, DoubleSep) else path
  }

  /** Python's `s.split(sep)` with an explicit separator: the pieces between
      separators, empty ones included; the empty string gives one empty piece. */
  function Split(s: string, sep: char): (pieces: seq<string>)
    ensures |pieces| >= 1
    decreases |s|
  {
    if |s| == 0 then [""]
    else
      var rest := Split(s[1..], sep);
      if s[0] == sep then [""] + rest
      else [[s[0]] + rest[0]] + rest[1..]
  }

  /** Python's `sep.join(pieces)`, the inverse of Split. */
  function Join(pieces: seq<string>, sep: char): string {
    if |pieces| == 0 then ""
    else if |pieces| == 1 then pieces[0]
    else pieces[0] + [sep] + Join(pieces[1..], sep)
  }

  /** The segment names of one record's path (line 268). */
  function Segments(path: string): seq<string> {
    Split(Normalize(path), Sep)
  }

  // ----- properties of the pieces -----

  function CountChar(s: string, c: char): nat {
    if |s| == 0 then 0 else (if s[0] == c then 1 else 0) + CountChar(s[1..], c)
  }

  /** Drops every occurrence of a character: what is left of a path apart from its separators. */
  function Without(s: string, c: char): string {
    if |s| == 0 then "" else (if s[0] == c then "" else [s[0]]) + Without(s[1..], c)
  }

  predicate NoDoubleSep(s: string) {
    forall i :: 0 <= i < |s| - 1 ==> !(s[i] == Sep && s[i + 1] == Sep)
  }

  /** There is one more piece than there are separators: no piece is ever lost. */
  lemma {:induction false} SplitCount(s: string, sep: char)
    ensures |Split(s, sep)| == CountChar(s, sep) + 1
    decreases |s|
  {
    if |s| > 0 {
      SplitCount(s[1..], sep);
    }
  }

  /** No piece contains the separator. */
  lemma {:induction false} SplitPiecesHaveNoSep(s: string, sep: char)
    ensures forall i :: 0 <= i < |Split(s, sep)| ==> sep !in Split(s, sep)[i]
    decreases |s|
  {
    if |s| > 0 {
      SplitPiecesHaveNoSep(s[1..], sep);
      var rest := Split(s[1..], sep);
      if s[0] != sep {
        assert sep !in rest[0];
        assert sep !in [s[0]] + rest[0];
      }
    }
  }

  /** Joining the pieces gives back the string. */
  lemma {:induction false} JoinSplit(s: string, sep: char)
    ensures Join(Split(s, sep), sep) == s
    decreases |s|
  {
    if |s| > 0 {
      JoinSplit(s[1..], sep);
      var rest := Split(s[1..], sep);
      if s[0] == sep {
        assert Split(s, sep) == [""] + rest;
        assert ([""] + rest)[1..] == rest;
        assert Join([""] + rest, sep) == "" + [sep] + Join(rest, sep);
        assert s == [s[0]] + s[1..];
      } else if |rest| == 1 {
        assert Split(s, sep) == [[s[0]] + rest[0]];
        assert s == [s[0]] + s[1..];
      } else {
        var p := Split(s, sep);
        assert p == [[s[0]] + rest[0]] + rest[1..];
        assert p[1..] == rest[1..];
        assert Join(rest, sep) == rest[0] + [sep] + Join(rest[1..], sep);
        assert Join(p, sep) == [s[0]] + rest[0] + [sep] + Join(rest[1..], sep);
        assert s == [s[0]] + s[1..];
      }
    }
  }

  lemma {:induction false} SplitWithoutSep(a: string, sep: char)
    requires sep !in a
    ensures Split(a, sep) == [a]
    decreases |a|
  {
    if |a| > 0 {
      assert sep !in a[1..];
      SplitWithoutSep(a[1..], sep);
      assert a == [a[0]] + a[1..];
    }
  }

  lemma {:induction false} SplitAfterPiece(a: string, sep: char, t: string)
    requires sep !in a
    ensures Split(a + [sep] + t, sep) == [a] + Split(t, sep)
    decreases |a|
  {
    var s := a + [sep] + t;
    if |a| == 0 {
      assert s == [sep] + t;
      assert s[1..] == t;
    } else {
      assert s[1..] == a[1..] + [sep] + t;
      assert sep !in a[1..];
      SplitAfterPiece(a[1..], sep, t);
      assert a == [a[0]] + a[1..];
    }
  }

  /** Splitting joined separator-free pieces gives back the pieces, empty ones
      included. */
  lemma {:induction false} SplitJoin(pieces: seq<string>, sep: char)
    requires |pieces| >= 1
    requires forall i :: 0 <= i < |pieces| ==> sep !in pieces[i]
    ensures Split(Join(pieces, sep), sep) == pieces
    decreases |pieces|
  {
    if |pieces| == 1 {
      SplitWithoutSep(pieces[0], sep);
    } else {
      SplitJoin(pieces[1..], sep);
      SplitAfterPiece(pieces[0], sep, Join(pieces[1..], sep));
      assert pieces == [pieces[0]] + pieces[1..];
    }
  }

  /** A trailing separator yields a real, empty last segment. */
  lemma TrailingSeparator(s: string, sep: char)
    ensures Split(s + [sep], sep) == Split(s, sep) + [""]
  {
    var p := Split(s, sep);
    SplitPiecesHaveNoSep(s, sep);
    JoinSplit(s, sep);
    var q := p + [""];
    JoinAppendEmpty(p, sep);
    assert Join(q, sep) == s + [sep];
    forall i | 0 <= i < |q| ensures sep !in q[i] {
      if i < |p| { assert q[i] == p[i]; }
    }
    SplitJoin(q, sep);
  }

  lemma {:induction false} JoinAppendEmpty(p: seq<string>, sep: char)
    requires |p| >= 1
    ensures Join(p + [""], sep) == Join(p, sep) + [sep]
    decreases |p|
  {
    if |p| == 1 {
      assert (p + [""])[1..] == [""];
    } else {
      assert (p + [""])[1..] == p[1..] + [""];
      JoinAppendEmpty(p[1..], sep);
    }
  }

  /** Every record yields at least one segment, so no record is ever skipped. */
  lemma SegmentsNonEmpty(path: string)
    ensures |Segments(path)| == CountChar(Normalize(path), Sep) + 1
  {
    SplitCount(Normalize(path), Sep);
  }

  lemma {:induction false} RemoveAllKeepsHead(s: string)
    requires |s| > 0 && s[0] != Sep
    ensures |RemoveAll(s, DoubleSep)| > 0 && RemoveAll(s, DoubleSep)[0] == s[0]
  {
    assert !StartsWith(s, DoubleSep);
  }

  /** After the deletion no two backslashes are adjacent: every occurrence of
      the pattern was removed, not just the leading one. */
  lemma {:induction false} RemoveAllLeavesNoDoubleSep(s: string)
    ensures NoDoubleSep(RemoveAll(s, DoubleSep))
    decreases |s|
  {
    if |s| == 0 {
    } else if StartsWith(s, DoubleSep) {
      RemoveAllLeavesNoDoubleSep(s[2..]);
    } else {
      var rest := RemoveAll(s[1..], DoubleSep);
      RemoveAllLeavesNoDoubleSep(s[1..]);
      var r := [s[0]] + rest;
      assert RemoveAll(s, DoubleSep) == r;
      if s[0] == Sep && |rest| > 0 {
        // s does not start with two backslashes, so s[1] is not one
        RemoveAllKeepsHead(s[1..]);
      }
      forall i | 0 <= i < |r| - 1 ensures !(r[i] == Sep && r[i + 1] == Sep) {
        if i > 0 { assert r[i] == rest[i - 1] && r[i + 1] == rest[i]; }
      }
    }
  }

  /** Only backslashes are deleted: every other character survives, in order. */
  lemma {:induction false} RemoveAllKeepsOtherChars(s: string)
    ensures Without(RemoveAll(s, DoubleSep), Sep) == Without(s, Sep)
    decreases |s|
  {
    if |s| == 0 {
    } else if StartsWith(s, DoubleSep) {
      RemoveAllKeepsOtherChars(s[2..]);
      assert s[1..][1..] == s[2..];
      assert Without(s, Sep) == Without(s[1..], Sep) == Without(s[2..], Sep);
    } else {
      RemoveAllKeepsOtherChars(s[1..]);
      var rest := RemoveAll(s[1..], DoubleSep);
      assert ([s[0]] + rest)[1..] == rest;
    }
  }

  /** n backslashes in a row. */
  function Seps(n: nat): (r: string)
    ensures |r| == n && forall i :: 0 <= i < n ==> r[i] == Sep
  {
    if n == 0 then "" else [Sep] + Seps(n - 1)
  }

  /** Length of the run of backslashes that starts the string. */
  function LeadingRun(s: string): (n: nat)
    ensures n <= |s|
    ensures forall i :: 0 <= i < n ==> s[i] == Sep
    ensures n < |s| ==> s[n] != Sep
  {
    if |s| > 0 && s[0] == Sep then 1 + LeadingRun(s[1..]) else 0
  }

  /** An independent description of the deletion, run by run: a run of n
      backslashes keeps one backslash when n is odd and none when n is even;
      every other character is kept. */
  function Collapse(s: string): string
    decreases |s|
  {
    if |s| == 0 then ""
    else if s[0] != Sep then [s[0]] + Collapse(s[1..])
    else
      var n := LeadingRun(s);
      Seps(n % 2) + Collapse(s[n..])
  }

  lemma SepsPair(n: nat)
    requires n >= 2
    ensures Seps(n) == DoubleSep + Seps(n - 2)
  {
    assert Seps(n) == [Sep] + ([Sep] + Seps(n - 2));
  }

  lemma RemoveAllDouble(t: string)
    ensures RemoveAll(DoubleSep + t, DoubleSep) == RemoveAll(t, DoubleSep)
  {
    assert StartsWith(DoubleSep + t, DoubleSep);
    assert (DoubleSep + t)[2..] == t;
  }

  lemma RemoveAllSingle(t: string)
    requires |t| == 0 || t[0] != Sep
    ensures RemoveAll([Sep] + t, DoubleSep) == [Sep] + RemoveAll(t, DoubleSep)
  {
    var s := [Sep] + t;
    assert |s| < 2 || s[1] != DoubleSep[1];
    assert !StartsWith(s, DoubleSep);
    assert s[1..] == t;
  }

  /** Deleting doubled backslashes from a run followed by a non-backslash
      leaves n % 2 backslashes. */
  lemma {:induction false} RemoveAllRun(n: nat, t: string)
    requires |t| == 0 || t[0] != Sep
    ensures RemoveAll(Seps(n) + t, DoubleSep) == Seps(n % 2) + RemoveAll(t, DoubleSep)
    decreases n
  {
    if n >= 2 {
      SepsPair(n);
      assert Seps(n) + t == DoubleSep + (Seps(n - 2) + t);
      RemoveAllDouble(Seps(n - 2) + t);
      RemoveAllRun(n - 2, t);
      assert (n - 2) % 2 == n % 2;
    } else if n == 1 {
      assert Seps(1) == [Sep];
      RemoveAllSingle(t);
    } else {
      assert Seps(0) + t == t;
    }
  }

  /** Python's deletion of every doubled backslash is exactly Collapse. */
  lemma {:induction false} RemoveAllIsCollapse(s: string)
    ensures RemoveAll(s, DoubleSep) == Collapse(s)
    decreases |s|
  {
    if |s| == 0 {
    } else if s[0] != Sep {
      assert !StartsWith(s, DoubleSep);
      RemoveAllIsCollapse(s[1..]);
    } else {
      var n := LeadingRun(s);
      assert s == Seps(n) + s[n..];
      RemoveAllRun(n, s[n..]);
      RemoveAllIsCollapse(s[n..]);
    }
  }

  /** Path normalisation in one statement: in a path with the network-root
      marker each run of n backslashes becomes n % 2 backslashes, so no two
      are left adjacent and every other character stays; any other path is
      kept. */
  lemma NormalizeSpec(path: string)
    ensures StartsWith(path, DoubleSep) ==> NoDoubleSep(Normalize(path))
    ensures Without(Normalize(path), Sep) == Without(path, Sep)
    ensures !StartsWith(path, DoubleSep) ==> Normalize(path) == path
    ensures StartsWith(path, DoubleSep) ==> Normalize(path) == Collapse(path)
  {
    RemoveAllIsCollapse(path);
    RemoveAllLeavesNoDoubleSep(path);
    RemoveAllKeepsOtherChars(path);
  }

  lemma {:induction false} RemoveAllAfterSepFree(a: string, t: string)
    requires Sep !in a
    ensures RemoveAll(a + t, DoubleSep) == a + RemoveAll(t, DoubleSep)
    decreases |a|
  {
    if |a| > 0 {
      var s := a + t;
      assert s[0] == a[0] && !StartsWith(s, DoubleSep);
      assert s[1..] == a[1..] + t;
      assert Sep !in a[1..];
      RemoveAllAfterSepFree(a[1..], t);
      assert a == [a[0]] + a[1..];
    } else {
      assert a + t == t;
    }
  }

  /** Non-empty names without a backslash in them. */
  predicate ProperPieces(pieces: seq<string>) {
    |pieces| >= 1 && forall i :: 0 <= i < |pieces| ==> |pieces[i]| > 0 && Sep !in pieces[i]
  }

  lemma {:induction false} JoinHead(pieces: seq<string>)
    requires ProperPieces(pieces)
    ensures |Join(pieces, Sep)| > 0 && Join(pieces, Sep)[0] == pieces[0][0]
  {
  }

  /** Single separators between non-empty names survive the deletion. */
  lemma {:induction false} RemoveAllKeepsJoin(pieces: seq<string>)
    requires ProperPieces(pieces)
    ensures RemoveAll(Join(pieces, Sep), DoubleSep) == Join(pieces, Sep)
    decreases |pieces|
  {
    if |pieces| == 1 {
      RemoveAllAfterSepFree(pieces[0], "");
      assert pieces[0] + "" == pieces[0];
    } else {
      var t := Join(pieces[1..], Sep);
      assert ProperPieces(pieces[1..]) by {
        forall i | 0 <= i < |pieces[1..]| ensures |pieces[1..][i]| > 0 && Sep !in pieces[1..][i] {
          assert pieces[1..][i] == pieces[i + 1];
        }
      }
      RemoveAllKeepsJoin(pieces[1..]);
      JoinHead(pieces[1..]);
      var u := [Sep] + t;
      assert u[0] == Sep && u[1] != Sep && !StartsWith(u, DoubleSep);
      assert u[1..] == t;
      assert RemoveAll(u, DoubleSep) == u;
      assert Join(pieces, Sep) == pieces[0] + u;
      RemoveAllAfterSepFree(pieces[0], u);
    }
  }

  /** A network path, the marker followed by names separated by single
      backslashes, starts at its first name (the server): the marker does not
      become an empty segment. */
  lemma NetworkPathSegments(pieces: seq<string>)
    requires ProperPieces(pieces)
    ensures Segments(DoubleSep + Join(pieces, Sep)) == pieces
  {
    var body := Join(pieces, Sep);
    var raw := DoubleSep + body;
    assert StartsWith(raw, DoubleSep);
    assert raw[|DoubleSep|..] == body;
    RemoveAllKeepsJoin(pieces);
    assert Normalize(raw) == body;
    SplitPiecesOfProper(pieces);
    SplitJoin(pieces, Sep);
  }

  /** A local path, names separated by single backslashes, splits into
      exactly those names. */
  lemma PlainPathSegments(pieces: seq<string>, path: string)
    requires ProperPieces(pieces) && path == Join(pieces, Sep)
    ensures Segments(path) == pieces
  {
    JoinHead(pieces);
    assert pieces[0][0] in pieces[0];
    assert !StartsWith(path, DoubleSep);
    SplitPiecesOfProper(pieces);
    SplitJoin(pieces, Sep);
  }

  lemma SplitPiecesOfProper(pieces: seq<string>)
    requires ProperPieces(pieces)
    ensures forall i :: 0 <= i < |pieces| ==> Sep !in pieces[i]
  {
  }

  lemma NetworkRootExample()
    ensures Segments("\\\\Server\\Share\\file.txt") == ["Server", "Share", "file.txt"]
  {
    var pieces := ["Server", "Share", "file.txt"];
    assert ProperPieces(pieces);
    assert Join(pieces, Sep) == "Server\\Share\\file.txt";
    assert DoubleSep + "Server\\Share\\file.txt" == "\\\\Server\\Share\\file.txt";
    NetworkPathSegments(pieces);
  }

  /** In a network path a doubled backslash further on is deleted too, which
      merges the names on either side into one segment. */
  lemma DoubledSepMerges(a: string, b: string)
    requires Sep !in a && Sep !in b
    ensures Segments(DoubleSep + a + DoubleSep + b) == [a + b]
  {
    var raw := DoubleSep + a + DoubleSep + b;
    assert StartsWith(raw, DoubleSep);
    assert raw[2..] == a + (DoubleSep + b);
    RemoveAllAfterSepFree(a, DoubleSep + b);
    var u := DoubleSep + b;
    assert StartsWith(u, DoubleSep) && u[2..] == b;
    RemoveAllAfterSepFree(b, "");
    assert b + "" == b;
    assert Normalize(raw) == a + b;
    SplitWithoutSep(a + b, Sep);
  }
}
