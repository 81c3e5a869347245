/** How HoststarClient.downloadFile turns a backup's download URL into a local
    file name and a destination path (src/hoststar.js:124-125):
    `url.split('/').pop().split('#')[0].split('?')[0]`, then `destDir + "/" + name`.
    The cut on `/` happens before the query and the fragment are removed, so
    this is not URL parsing in the sense of RFC 3986: a `/` inside the query
    changes the result. */
module FileNames {

  /** JavaScript's `String.prototype.split` with a one-character separator:
      the pieces between the separators, in order. There is always at least one
      piece (`"".split('/')` is `[""]`). */
  function Split(s: string, sep: char): (parts: seq<string>)
    ensures |parts| >= 1
    decreases |s|
  {
    if s == [] then [[]]
    else
      var rest := Split(s[1..], sep);
      if s[0] == sep then [[]] + rest
      else [[s[0]] + rest[0]] + rest[1..]
  }

  /** No piece contains the separator. */
  lemma {:induction false} SplitPiecesAreFree(s: string, sep: char)
    ensures forall k :: 0 <= k < |Split(s, sep)| ==> sep !in Split(s, sep)[k]
    decreases |s|
  {
    if s != [] {
      SplitPiecesAreFree(s[1..], sep);
      var rest := Split(s[1..], sep);
      if s[0] != sep {
        var parts := Split(s, sep);
        assert parts[0] == [s[0]] + rest[0];
        assert forall k :: 1 <= k < |parts| ==> parts[k] == rest[k];
      }
    }
  }

  /** Text without the separator is a single piece. */
  lemma {:induction false} SplitWithoutSep(s: string, sep: char)
    requires sep !in s
    ensures Split(s, sep) == [s]
    decreases |s|
  {
    if s != [] {
      SplitWithoutSep(s[1..], sep);
      assert s == [s[0]] + s[1..];
    }
  }

  /** The first piece is the text before the first separator. */
  lemma {:induction false} SplitFirst(s: string, sep: char)
    ensures Split(s, sep)[0] <= s
    ensures |Split(s, sep)[0]| < |s| ==> s[|Split(s, sep)[0]|] == sep
    decreases |s|
  {
    if s != [] {
      SplitFirst(s[1..], sep);
    }
  }

  /** `last` is a suffix of `s` that is either all of `s` or preceded by the
      separator. */
  predicate CutAfterSep(s: string, last: string, sep: char)
  {
    && |last| <= |s| && s[|s| - |last|..] == last
    && (|last| < |s| ==> s[|s| - |last| - 1] == sep)
  }

  /** The last piece is the text after the last separator. */
  lemma {:induction false} SplitLast(s: string, sep: char)
    ensures CutAfterSep(s, Last(Split(s, sep)), sep)
    decreases |s|
  {
    if s != [] {
      SplitLast(s[1..], sep);
      SplitLastStep(s, sep);
    }
  }

  /** The inductive step of SplitLast: one more character in front. */
  lemma SplitLastStep(s: string, sep: char)
    requires s != []
    requires CutAfterSep(s[1..], Last(Split(s[1..], sep)), sep)
    ensures CutAfterSep(s, Last(Split(s, sep)), sep)
  {
    var c, t := s[0], s[1..];
    assert s == [c] + t;
    var rest := Split(t, sep);
    if c == sep || |rest| > 1 {
      SplitLastKept(c, t, sep);
      LastOfTail(s, t, Last(rest), sep);
    } else {
      SplitWhole(c, t, sep);
    }
  }

  /** A character in front leaves the last piece alone when it is a
      separator or when there is more than one piece. */
  lemma SplitLastKept(c: char, t: string, sep: char)
    requires c == sep || |Split(t, sep)| > 1
    ensures Last(Split([c] + t, sep)) == Last(Split(t, sep))
    ensures c != sep ==> |Last(Split(t, sep))| < |t|
  {
    SplitCons(c, t, sep);
    if c != sep {
      JoinSplit(t, sep);
      JoinLongerThanLast(Split(t, sep), sep);
    }
  }

  /** Text whose only piece is itself stays whole behind a character that is
      not the separator. */
  lemma SplitWhole(c: char, t: string, sep: char)
    requires c != sep && |Split(t, sep)| == 1
    ensures Split([c] + t, sep) == [[c] + t]
  {
    JoinSplit(t, sep);
    SplitCons(c, t, sep);
  }

  /** Helper for SplitLast: a suffix of `s[1..]` that is cut at a separator
      there is cut at a separator in `s`. */
  lemma LastOfTail(s: string, t: string, last: string, sep: char)
    requires s != [] && t == s[1..]
    requires CutAfterSep(t, last, sep)
    requires |last| == |t| ==> s[0] == sep
    ensures CutAfterSep(s, last, sep)
  {
    assert s[|s| - |last|..] == t[|t| - |last|..];
  }

  /** JavaScript's `Array.prototype.join` with a one-character separator. */
  function Join(parts: seq<string>, sep: char): string
    requires |parts| >= 1
  {
    if |parts| == 1 then parts[0] else parts[0] + [sep] + Join(parts[1..], sep)
  }

  /** With more than one piece, the joined text is longer than its last piece. */
  lemma {:induction false} JoinLongerThanLast(parts: seq<string>, sep: char)
    requires |parts| > 1
    ensures |Join(parts, sep)| > |Last(parts)|
    decreases |parts|
  {
    if |parts| > 2 {
      JoinLongerThanLast(parts[1..], sep);
    }
  }

  /** Joining the pieces back gives the original text: Split loses nothing but
      the separators themselves. */
  lemma {:induction false} JoinSplit(s: string, sep: char)
    ensures Join(Split(s, sep), sep) == s
    decreases |s|
  {
    if s != [] {
      JoinSplit(s[1..], sep);
      var rest := Split(s[1..], sep);
      assert s == [s[0]] + s[1..];
      if s[0] != sep && |rest| > 1 {
        assert ([s[0]] + rest[0]) + [sep] + Join(rest[1..], sep) == [s[0]] + (rest[0] + [sep] + Join(rest[1..], sep));
      }
    }
  }

  /** Split of a text given by its first character and the rest. */
  lemma SplitCons(c: char, t: string, sep: char)
    ensures Split([c] + t, sep)
        == if c == sep then [[]] + Split(t, sep) else [[c] + Split(t, sep)[0]] + Split(t, sep)[1..]
  {
    assert ([c] + t)[1..] == t;
  }

  /** A separator splits the text into the pieces on its left followed by the
      pieces on its right. */
  lemma {:induction false} SplitAround(a: string, b: string, sep: char)
    ensures Split(a + [sep] + b, sep) == Split(a, sep) + Split(b, sep)
    decreases |a|
  {
    if a == [] {
      assert a + [sep] + b == [sep] + b;
      SplitCons(sep, b, sep);
    } else {
      SplitAround(a[1..], b, sep);
      SplitAroundStep(a[0], a[1..], b, sep);
      assert a == [a[0]] + a[1..];
    }
  }

  /** The inductive step of SplitAround: one more character in front. */
  lemma SplitAroundStep(c: char, a: string, b: string, sep: char)
    requires Split(a + [sep] + b, sep) == Split(a, sep) + Split(b, sep)
    ensures Split([c] + a + [sep] + b, sep) == Split([c] + a, sep) + Split(b, sep)
  {
    assert [c] + a + [sep] + b == [c] + (a + [sep] + b);
    SplitCons(c, a + [sep] + b, sep);
    SplitCons(c, a, sep);
    PiecesAround(c, Split(a, sep), Split(b, sep), sep);
  }

  /** The list manipulation behind SplitAroundStep. */
  lemma PiecesAround(c: char, left: seq<string>, right: seq<string>, sep: char)
    requires |left| >= 1
    ensures var whole := left + right;
      (if c == sep then [[]] + whole else [[c] + whole[0]] + whole[1..])
        == (if c == sep then [[]] + left else [[c] + left[0]] + left[1..]) + right
  {
    var whole := left + right;
    if c == sep {
      assert [[]] + whole == ([[]] + left) + right;
    } else {
      var first: seq<string> := [[c] + left[0]];
      assert whole[0] == left[0];
      assert whole[1..] == left[1..] + right;
      assert first + (left[1..] + right) == (first + left[1..]) + right;
    }
  }

  /** Splitting pieces that are joined back gives those pieces again, provided
      none of them holds the separator. */
  lemma {:induction false} SplitJoin(parts: seq<string>, sep: char)
    requires |parts| >= 1
    requires forall k :: 0 <= k < |parts| ==> sep !in parts[k]
    ensures Split(Join(parts, sep), sep) == parts
    decreases |parts|
  {
    SplitWithoutSep(parts[0], sep);
    if |parts| > 1 {
      SplitJoin(parts[1..], sep);
      SplitAround(parts[0], Join(parts[1..], sep), sep);
      assert parts == [parts[0]] + parts[1..];
    }
  }

  /** A prefix without the separator stays in front of the first piece. */
  lemma {:induction false} SplitFirstAfterFreePrefix(a: string, s: string, sep: char)
    requires sep !in a
    ensures Split(a + s, sep)[0] == a + Split(s, sep)[0]
    decreases |a|
  {
    if a == [] {
      assert a + s == s;
    } else {
      var f := Split(s, sep)[0];
      SplitFirstAfterFreePrefix(a[1..], s, sep);
      SplitFirstCons(a[0], a[1..] + s, sep);
      ConsAssoc(a, s);
      ConsAssoc(a, f);
    }
  }

  /** A character other than the separator joins the first piece. */
  lemma SplitFirstCons(c: char, t: string, sep: char)
    requires c != sep
    ensures Split([c] + t, sep)[0] == [c] + Split(t, sep)[0]
  {
    SplitCons(c, t, sep);
  }

  lemma ConsAssoc<T>(a: seq<T>, x: seq<T>)
    requires a != []
    ensures a + x == [a[0]] + (a[1..] + x)
  {
    assert a == [a[0]] + a[1..];
  }

  function Last<T>(xs: seq<T>): T
    requires |xs| >= 1
  {
    xs[|xs| - 1]
  }

  /** The local file name of a download URL: the text after the last `/`, cut
      at the first `#`, then cut at the first `?`. */
  function FileName(url: string): (name: string)
    ensures '/' !in name && '#' !in name && '?' !in name
  {
    var segment := Last(Split(url, '/'));
    SplitPiecesAreFree(url, '/');
    var beforeFragment := Split(segment, '#')[0];
    SplitFirst(segment, '#');
    SplitPiecesAreFree(segment, '#');
    var name := Split(beforeFragment, '?')[0];
    SplitFirst(beforeFragment, '?');
    SplitPiecesAreFree(beforeFragment, '?');
    assert forall k :: 0 <= k < |name| ==> name[k] == beforeFragment[k] == segment[k];
    name
  }

  /** What FileName keeps, stated without Split: the last `/`-free tail of the
      URL (all of it when the URL has no `/`), up to but not including its
      first `#` or `?`. */
  lemma FileNameIsCutOfLastSegment(url: string)
    ensures var segment := Last(Split(url, '/'));
      && CutAfterSep(url, segment, '/')
      && '/' !in segment
      && FileName(url) <= segment
      && (|FileName(url)| == |segment|
          || segment[|FileName(url)|] == '#' || segment[|FileName(url)|] == '?')
  {
    var segment := Last(Split(url, '/'));
    var beforeFragment := Split(segment, '#')[0];
    var name := Split(beforeFragment, '?')[0];
    SplitLast(url, '/');
    SplitPiecesAreFree(url, '/');
    SplitFirst(segment, '#');
    SplitFirst(beforeFragment, '?');
    CutOfCut(segment, beforeFragment, name);
  }

  /** A prefix cut at a `?` of a prefix cut at a `#` is a prefix cut at one
      of the two. */
  lemma CutOfCut(segment: string, beforeFragment: string, name: string)
    requires beforeFragment <= segment
    requires |beforeFragment| < |segment| ==> segment[|beforeFragment|] == '#'
    requires name <= beforeFragment
    requires |name| < |beforeFragment| ==> beforeFragment[|name|] == '?'
    ensures name <= segment
    ensures |name| == |segment| || segment[|name|] == '#' || segment[|name|] == '?'
  {
  }

  /** There is only one way to cut a text at its first `#` or `?`. */
  lemma CutIsUnique(segment: string, a: string, b: string)
    requires a <= segment && '#' !in a && '?' !in a
    requires |a| == |segment| || segment[|a|] == '#' || segment[|a|] == '?'
    requires b <= segment && '#' !in b && '?' !in b
    requires |b| == |segment| || segment[|b|] == '#' || segment[|b|] == '?'
    ensures a == b
  {
  }

  /** Query and fragment do not reach the file name: for a URL ending in
      `/name` followed by a `/`-free query or fragment, the file name is `name`. */
  lemma FileNameIgnoresQueryAndFragment(prefix: string, name: string, rest: string)
    requires '/' !in name && '#' !in name && '?' !in name
    requires '/' !in rest
    requires rest == [] || rest[0] == '?' || rest[0] == '#'
    ensures FileName(prefix + "/" + name + rest) == name
  {
    var url := prefix + "/" + name + rest;
    var tail := name + rest;
    assert Last(Split(url, '/')) == tail by {
      assert url == prefix + ['/'] + tail;
      SplitAround(prefix, tail, '/');
      assert '/' !in tail;
      SplitWithoutSep(tail, '/');
    }
    FileNameIsCutOfLastSegment(url);
    CutIsUnique(tail, FileName(url), name);
  }

  /** A worked example: query and fragment are dropped, whatever the URL
      before the last `/`. */
  lemma FileNameDropsQueryAndFragment(base: string)
    ensures FileName(base + "/" + "backup.tar.gz" + "?token=abc#frag") == "backup.tar.gz"
  {
    FileNameIgnoresQueryAndFragment(base, "backup.tar.gz", "?token=abc#frag");
  }

  /** A worked example: a `/` inside the query moves the cut, so the file
      name is the tail of the query. */
  lemma FileNameSlashInQuery()
    ensures FileName("https://host/f.tar?x=a/b") == "b"
  {
    var prefix, name, rest := "https://host/f.tar?x=a", "b", "";
    assert prefix + "/" + name + rest == "https://host/f.tar?x=a/b";
    FileNameIgnoresQueryAndFragment(prefix, name, rest);
  }

  /** The path a download is written to: the file name directly inside the
      destination directory. */
  function DestFile(destDir: string, url: string): (path: string)
    ensures |path| == |destDir| + 1 + |FileName(url)|
  {
    destDir + "/" + FileName(url)
  }

  /** The destination is the directory, one `/`, and a `/`-free name. */
  lemma DestFileShape(destDir: string, url: string)
    ensures var path := DestFile(destDir, url);
      && |path| == |destDir| + 1 + |FileName(url)|
      && path[..|destDir| + 1] == destDir + "/"
      && '/' !in path[|destDir| + 1..]
  {
    var path := DestFile(destDir, url);
    assert path[|destDir| + 1..] == FileName(url);
  }

  /** Two URLs share a destination exactly when they share a file name; no
      other part of the URL affects where a download lands. */
  lemma DestFileCollision(destDir: string, u1: string, u2: string)
    ensures DestFile(destDir, u1) == DestFile(destDir, u2) <==> FileName(u1) == FileName(u2)
  {
    var p1, p2 := DestFile(destDir, u1), DestFile(destDir, u2);
    assert p1[|destDir| + 1..] == FileName(u1);
    assert p2[|destDir| + 1..] == FileName(u2);
  }
}
