/**
  * Ignore filtering of the synchronizer (src/utils/sync.js): reading the
  * ignore list out of a session's ignore text, the file test (each pattern
  * compiled to a regular expression and searched for anywhere in the
  * root-relative path) and the directory test (an exact comparison of the
  * directory's name plus a separator with the normalized pattern).
  *
  * A compiled pattern is a sequence of tokens: after normalization the source
  * escapes `.`, `/` and `\` and turns `*` into `.*`, so a token is either a
  * literal character or a star.  JavaScript's `.` matches any character other
  * than a line terminator, and so does a star's run here.
  */
module SyncIgnore {
  import opened Text
  import opened Paths
  import opened Wrappers

  // ----- reading the ignore list -----

  /** The list after `readSyncIgnoreList`: `contents.trim().split('\n')` when
    * the session's ignore text is truthy (present and non-empty); otherwise
    * whatever list the previous read left behind. */
  function NextIgnoreList(contents: Option<string>, previous: seq<string>): seq<string>
  {
    if contents.Some? && contents.value != [] then Split(Trim(contents.value), '\n')
    else previous
  }

  /** Non-empty text yields its trimmed lines: none holds a newline, and
    * joining them with newlines gives back the trimmed text. */
  lemma IgnoreListFromText(text: string, previous: seq<string>)
    requires text != []
    ensures var list := NextIgnoreList(Some(text), previous);
      && |list| >= 1
      && (forall k :: 0 <= k < |list| ==> '\n' !in list[k])
      && Join(list, '\n') == Trim(text)
  {
    JoinSplit(Trim(text), '\n');
  }

  /** Absent or empty text leaves the previous list in place. */
  lemma IgnoreListKeptWithoutText(contents: Option<string>, previous: seq<string>)
    requires contents.None? || contents.value == []
    ensures NextIgnoreList(contents, previous) == previous
  {
  }

  /** Writing patterns one per line and reading them back gives the same
    * patterns, provided the text does not start or end with whitespace. */
  lemma {:induction false} IgnoreListRoundTrip(patterns: seq<string>, previous: seq<string>)
    requires |patterns| >= 1
    requires forall k :: 0 <= k < |patterns| ==> '\n' !in patterns[k]
    requires patterns[0] != [] && !IsWhitespace(patterns[0][0])
    requires var last := patterns[|patterns| - 1]; last != [] && !IsWhitespace(last[|last| - 1])
    ensures NextIgnoreList(Some(Join(patterns, '\n')), previous) == patterns
  {
    var text := Join(patterns, '\n');
    JoinFirst(patterns, '\n');
    JoinLast(patterns, '\n');
    TrimOfTrimmed(text);
    SplitJoin(patterns, '\n');
  }

  /** Ignore text made only of whitespace yields the single pattern "". */
  lemma WhitespaceTextYieldsEmptyPattern(text: string, previous: seq<string>)
    requires text != [] && AllWhitespace(text)
    ensures NextIgnoreList(Some(text), previous) == [""]
  {
    TrimAllWhitespace(text);
  }

  /** A blank line between two patterns yields the pattern "". */
  lemma BlankLineYieldsEmptyPattern(text: string, a: string, b: string, previous: seq<string>)
    requires Trim(text) == a + "\n\n" + b
    ensures "" in NextIgnoreList(Some(text), previous)
  {
    assert text != [];
    assert a + "\n\n" + b == a + ['\n'] + ("\n" + b);
    SplitAppend(a, "\n" + b, '\n');
    assert Split("\n" + b, '\n') == [""] + Split(b, '\n');
    assert Split(a + "\n\n" + b, '\n')[|Split(a, '\n')|] == "";
  }

  // ----- the compiled file pattern -----

  datatype Token = Lit(c: char) | Star

  /** Characters that keep a regular-expression meaning after the source's
    * escaping; patterns holding them are outside the modelled subset. */
  predicate IsRegexMeta(c: char)
  {
    c in "^$+?()[]{}|"
  }

  /** A pattern inside the modelled subset. */
  predicate Plain(pattern: string)
  {
    forall k :: 0 <= k < |pattern| ==> !IsRegexMeta(pattern[k])
  }

  /** The subset is closed under `normalize`, which adds no character but
    * `.` and `/`: the text the source escapes and compiles holds no
    * regular-expression operator when the pattern holds none. */
  lemma PlainNormalize(pattern: string)
    requires Plain(pattern)
    ensures Plain(Normalize(pattern))
  {
    var n := Normalize(pattern);
    forall k | 0 <= k < |n| ensures !IsRegexMeta(n[k]) {
      NormalizeCharacters(pattern, n[k]);
      if n[k] in pattern {
        var i :| 0 <= i < |pattern| && pattern[i] == n[k];
      }
    }
  }

  /** The token form of a normalized pattern: `*` is a star, and every other
    * character (the escaped `.`, `/` and `\` included) stands for itself. */
  function Compile(p: string): (r: seq<Token>)
    ensures |r| == |p|
    ensures forall k :: 0 <= k < |p| ==> r[k] == if p[k] == '*' then Star else Lit(p[k])
  {
    if p == [] then [] else [if p[0] == '*' then Star else Lit(p[0])] + Compile(p[1..])
  }

  ghost predicate NoLineTerminator(s: string)
  {
    forall k :: 0 <= k < |s| ==> !IsLineTerminator(s[k])
  }

  lemma NoLineTerminatorCons(c: char, s: string)
    ensures NoLineTerminator([c] + s) <==> !IsLineTerminator(c) && NoLineTerminator(s)
  {
    var t := [c] + s;
    if NoLineTerminator(t) {
      assert !IsLineTerminator(t[0]);
      forall m | 0 <= m < |s| ensures !IsLineTerminator(s[m]) {
        assert t[m + 1] == s[m];
      }
    }
    if !IsLineTerminator(c) && NoLineTerminator(s) {
      forall m | 0 <= m < |t| ensures !IsLineTerminator(t[m]) {
        if m > 0 { assert t[m] == s[m - 1]; }
      }
    }
  }

  /** The language of a token sequence: the strings the whole regular
    * expression matches. */
  ghost predicate Matches(tokens: seq<Token>, w: string)
    decreases |tokens|
  {
    if tokens == [] then w == []
    else match tokens[0]
      case Lit(c) => |w| > 0 && w[0] == c && Matches(tokens[1..], w[1..])
      case Star => exists k :: 0 <= k <= |w| && NoLineTerminator(w[..k]) && Matches(tokens[1..], w[k..])
  }

  /** Whether the tokens match some prefix of `s` (a backtracking matcher). */
  function MatchesPrefix(tokens: seq<Token>, s: string): bool
    decreases |tokens|, |s|
  {
    if tokens == [] then true
    else match tokens[0]
      case Lit(c) => |s| > 0 && s[0] == c && MatchesPrefix(tokens[1..], s[1..])
      case Star =>
        || MatchesPrefix(tokens[1..], s)
        || (|s| > 0 && !IsLineTerminator(s[0]) && MatchesPrefix(tokens, s[1..]))
  }

  /** `s.search(re) !== -1`: the tokens match at some position of `s`. */
  function Search(tokens: seq<Token>, s: string): bool
  {
    MatchesPrefix(tokens, s) || (|s| > 0 && Search(tokens, s[1..]))
  }

  /** The backtracking matcher accepts exactly when some prefix is in the language. */
  lemma {:induction false} MatchesPrefixCorrect(tokens: seq<Token>, s: string)
    ensures MatchesPrefix(tokens, s) <==> exists j :: 0 <= j <= |s| && Matches(tokens, s[..j])
    decreases |tokens|, |s|, 1
  {
    if tokens == [] {
      assert Matches(tokens, s[..0]);
    } else if tokens[0].Lit? {
      MatchesPrefixLit(tokens, s);
    } else {
      MatchesPrefixStarSound(tokens, s);
      MatchesPrefixStarComplete(tokens, s);
    }
  }

  lemma {:induction false} MatchesPrefixLit(tokens: seq<Token>, s: string)
    requires tokens != [] && tokens[0].Lit?
    ensures MatchesPrefix(tokens, s) <==> exists j :: 0 <= j <= |s| && Matches(tokens, s[..j])
    decreases |tokens|, |s|, 0
  {
    var t := tokens[1..];
    if |s| > 0 {
      MatchesPrefixCorrect(t, s[1..]);
      if MatchesPrefix(tokens, s) {
        var j' :| 0 <= j' <= |s[1..]| && Matches(t, s[1..][..j']);
        assert s[..j' + 1][1..] == s[1..][..j'];
        assert Matches(tokens, s[..j' + 1]);
      }
      if exists j :: 0 <= j <= |s| && Matches(tokens, s[..j]) {
        var j :| 0 <= j <= |s| && Matches(tokens, s[..j]);
        assert s[..j][1..] == s[1..][..j - 1];
      }
    }
  }

  /** What the star's matcher accepts, some prefix matches. */
  lemma {:induction false} MatchesPrefixStarSound(tokens: seq<Token>, s: string)
    requires tokens != [] && tokens[0].Star?
    ensures MatchesPrefix(tokens, s) ==> exists j :: 0 <= j <= |s| && Matches(tokens, s[..j])
    decreases |tokens|, |s|, 0
  {
    var t := tokens[1..];
    if MatchesPrefix(tokens, s) {
      if MatchesPrefix(t, s) {
        MatchesPrefixCorrect(t, s);
        var j :| 0 <= j <= |s| && Matches(t, s[..j]);
        var w := s[..j];
        assert w[..0] == [] && w[0..] == w;
        assert Matches(tokens, w);
      } else {
        MatchesPrefixCorrect(tokens, s[1..]);
        var j' :| 0 <= j' <= |s[1..]| && Matches(tokens, s[1..][..j']);
        var w' := s[1..][..j'];
        StarCons(tokens, s[0], w');
        assert s[..j' + 1] == [s[0]] + w';
      }
    }
  }

  /** When some prefix matches, the star's matcher accepts. */
  lemma {:induction false} MatchesPrefixStarComplete(tokens: seq<Token>, s: string)
    requires tokens != [] && tokens[0].Star?
    ensures (exists j :: 0 <= j <= |s| && Matches(tokens, s[..j])) ==> MatchesPrefix(tokens, s)
    decreases |tokens|, |s|, 0
  {
    var t := tokens[1..];
    if exists j :: 0 <= j <= |s| && Matches(tokens, s[..j]) {
      var j :| 0 <= j <= |s| && Matches(tokens, s[..j]);
      var w := s[..j];
      var k :| 0 <= k <= |w| && NoLineTerminator(w[..k]) && Matches(t, w[k..]);
      if k == 0 {
        assert w[0..] == w;
        assert Matches(t, s[..j]);
        MatchesPrefixCorrect(t, s);
        assert MatchesPrefix(t, s);
      } else {
        StarUncons(tokens, w, k);
        assert w[1..] == s[1..][..j - 1];
        assert Matches(tokens, s[1..][..j - 1]);
        MatchesPrefixCorrect(tokens, s[1..]);
        assert MatchesPrefix(tokens, s[1..]) && !IsLineTerminator(s[0]);
      }
    }
  }

  /** A leading star absorbs one more character that ends no line. */
  lemma StarCons(tokens: seq<Token>, c: char, w: string)
    requires tokens != [] && tokens[0].Star?
    requires !IsLineTerminator(c) && Matches(tokens, w)
    ensures Matches(tokens, [c] + w)
  {
    var k :| 0 <= k <= |w| && NoLineTerminator(w[..k]) && Matches(tokens[1..], w[k..]);
    var v := [c] + w;
    assert v[k + 1..] == w[k..];
    assert v[..k + 1] == [c] + w[..k];
    NoLineTerminatorCons(c, w[..k]);
  }

  /** A leading star that takes at least one character can give the first
    * one back. */
  lemma StarUncons(tokens: seq<Token>, w: string, k: nat)
    requires tokens != [] && tokens[0].Star?
    requires 0 < k <= |w| && NoLineTerminator(w[..k]) && Matches(tokens[1..], w[k..])
    ensures !IsLineTerminator(w[0]) && Matches(tokens, w[1..])
  {
    var v := w[1..];
    assert v[k - 1..] == w[k..];
    assert w[..k] == [w[0]] + v[..k - 1];
    NoLineTerminatorCons(w[0], v[..k - 1]);
  }

  /** The tokens occur in `path`: some contiguous part of it is in their language. */
  ghost predicate OccursIn(tokens: seq<Token>, path: string)
  {
    exists i, j :: 0 <= i <= j <= |path| && Matches(tokens, path[i..j])
  }

  /** A slice of the tail is a slice of the string, one position further on. */
  lemma TailSlice(s: string, i: nat, j: nat)
    requires i <= j < |s|
    ensures s[1..][i..j] == s[i + 1..j + 1]
  {
    assert forall k :: 0 <= k < j - i ==> s[1..][i..j][k] == s[i + 1 + k];
  }

  /** The unanchored search succeeds exactly when the tokens occur in `s`. */
  lemma {:induction false} SearchCorrect(tokens: seq<Token>, s: string)
    ensures Search(tokens, s) <==> OccursIn(tokens, s)
  {
    MatchesPrefixCorrect(tokens, s);
    OccursAtStart(tokens, s);
    OccursInCases(tokens, s);
    if |s| > 0 {
      SearchCorrect(tokens, s[1..]);
      OccursInTail(tokens, s);
    }
  }

  /** A match of a prefix is an occurrence. */
  lemma OccursAtStart(tokens: seq<Token>, s: string)
    ensures (exists j :: 0 <= j <= |s| && Matches(tokens, s[..j])) ==> OccursIn(tokens, s)
  {
    if exists j :: 0 <= j <= |s| && Matches(tokens, s[..j]) {
      var j :| 0 <= j <= |s| && Matches(tokens, s[..j]);
      assert s[0..j] == s[..j];
    }
  }

  /** An occurrence in the tail is an occurrence. */
  lemma OccursInTail(tokens: seq<Token>, s: string)
    requires |s| > 0
    ensures OccursIn(tokens, s[1..]) ==> OccursIn(tokens, s)
  {
    if OccursIn(tokens, s[1..]) {
      var i, j :| 0 <= i <= j <= |s[1..]| && Matches(tokens, s[1..][i..j]);
      TailSlice(s, i, j);
      assert Matches(tokens, s[i + 1..j + 1]);
    }
  }

  /** An occurrence starts at the front or lies in the tail. */
  lemma OccursInCases(tokens: seq<Token>, s: string)
    ensures OccursIn(tokens, s) ==>
      (exists j :: 0 <= j <= |s| && Matches(tokens, s[..j])) || (|s| > 0 && OccursIn(tokens, s[1..]))
  {
    if OccursIn(tokens, s) {
      var i, j :| 0 <= i <= j <= |s| && Matches(tokens, s[i..j]);
      if i == 0 {
        assert s[..j] == s[i..j];
      } else {
        TailSlice(s, i - 1, j - 1);
        assert Matches(tokens, s[1..][i - 1..j - 1]);
      }
    }
  }

  // ----- the file test -----

  /** Pattern `pattern` ignores the file at root-relative `path`. */
  ghost predicate PatternIgnoresFile(pattern: string, path: string)
  {
    OccursIn(Compile(Normalize(pattern)), path)
  }

  /** A file is ignored iff some pattern of the list ignores it. */
  ghost predicate FileIgnored(path: string, list: seq<string>)
  {
    exists k :: 0 <= k < |list| && PatternIgnoresFile(list[k], path)
  }

  /** `isFileIgnored`: tries the patterns in order and stops at the first one
    * whose compiled form is found in the path. */
  method IsFileIgnored(path: string, list: seq<string>) returns (ignored: bool)
    requires forall k :: 0 <= k < |list| ==> Plain(list[k])
    ensures ignored == FileIgnored(path, list)
  {
    var i := 0;
    while i < |list|
      invariant 0 <= i <= |list|
      invariant forall k :: 0 <= k < i ==> !PatternIgnoresFile(list[k], path)
    {
      var tokens := Compile(Normalize(list[i]));
      SearchCorrect(tokens, path);
      if Search(tokens, path) {
        return true;
      }
      i := i + 1;
    }
    return false;
  }

  /** With no patterns nothing is ignored; more patterns never un-ignore a file. */
  lemma FileIgnoredMonotone(path: string, list: seq<string>, more: seq<string>)
    ensures !FileIgnored(path, [])
    ensures FileIgnored(path, list) ==> FileIgnored(path, list + more) && FileIgnored(path, more + list)
  {
    if FileIgnored(path, list) {
      var k :| 0 <= k < |list| && PatternIgnoresFile(list[k], path);
      assert (list + more)[k] == list[k];
      assert (more + list)[|more| + k] == list[k];
    }
  }

  /** The search is unanchored: a pattern that ignores `q` ignores every path
    * containing `q`. */
  lemma PatternIgnoresEnclosingPath(pattern: string, x: string, q: string, y: string)
    requires PatternIgnoresFile(pattern, q)
    ensures PatternIgnoresFile(pattern, x + q + y)
  {
    var tokens := Compile(Normalize(pattern));
    var i, j :| 0 <= i <= j <= |q| && Matches(tokens, q[i..j]);
    assert (x + q + y)[|x| + i..|x| + j] == q[i..j];
  }

  /** A star-free token sequence matches exactly the string it spells. */
  lemma {:induction false} LiteralMatches(p: string, w: string)
    requires '*' !in p
    ensures Matches(Compile(p), w) <==> w == p
    decreases |p|
  {
    if p != [] {
      var t := Compile(p);
      assert p[0] in p;
      assert t[0] == Lit(p[0]) && t[1..] == Compile(p[1..]);
      assert '*' !in p[1..];
      if |w| > 0 {
        LiteralMatches(p[1..], w[1..]);
        assert w == p <==> w[0] == p[0] && w[1..] == p[1..] by {
          if w[0] == p[0] && w[1..] == p[1..] {
            assert w == [w[0]] + w[1..];
            assert p == [p[0]] + p[1..];
          }
        }
      }
    }
  }

  /** Text `n` occurs in `path` starting at index `i`. */
  predicate OccursAt(n: string, path: string, i: int)
  {
    0 <= i <= |path| - |n| && path[i..i + |n|] == n
  }

  /** A pattern without `*` ignores exactly the paths that contain its
    * normalized text somewhere (`.`, `/` and `\` being literal). */
  lemma LiteralPatternIgnoresSubstring(pattern: string, path: string)
    requires '*' !in Normalize(pattern)
    ensures var n := Normalize(pattern);
      PatternIgnoresFile(pattern, path) <==> exists i :: OccursAt(n, path, i)
  {
    var n := Normalize(pattern);
    if PatternIgnoresFile(pattern, path) {
      var i, j :| 0 <= i <= j <= |path| && Matches(Compile(n), path[i..j]);
      LiteralMatches(n, path[i..j]);
      assert OccursAt(n, path, i);
    }
    if exists i :: OccursAt(n, path, i) {
      var i :| OccursAt(n, path, i);
      LiteralMatches(n, path[i..i + |n|]);
      assert Matches(Compile(n), path[i..i + |n|]);
    }
  }

  /** A lone star matches any run of characters free of line terminators. */
  lemma StarMatchesAnyRun(w: string)
    ensures Matches([Star], w) <==> NoLineTerminator(w)
  {
    var t: seq<Token> := [Star];
    assert t[0] == Star && t[1..] == [];
    if NoLineTerminator(w) {
      assert w[..|w|] == w && w[|w|..] == [];
      assert Matches(t[1..], w[|w|..]);
    }
    if Matches(t, w) {
      var k :| 0 <= k <= |w| && NoLineTerminator(w[..k]) && Matches(t[1..], w[k..]);
      assert |w[k..]| == 0;
      assert w[..k] == w;
    }
  }

  /** The empty pattern (a blank line of ignore text) normalizes to ".", so it
    * ignores every file whose relative path contains a dot. */
  lemma EmptyPatternIgnoresDottedPaths(path: string, list: seq<string>)
    requires "" in list
    requires '.' in path
    ensures FileIgnored(path, list)
  {
    var k :| 0 <= k < |list| && list[k] == "";
    var m :| 0 <= m < |path| && path[m] == '.';
    assert Compile(Normalize("")) == [Lit('.')];
    assert Matches([Lit('.')], path[m..m + 1]);
    assert PatternIgnoresFile(list[k], path);
  }

  /** A pattern `*` followed by a star-free single name (such as `*.log`)
    * ignores every path that ends in that name after a run free of line
    * terminators, however deep (such as `a/b.log`). */
  lemma StarSuffixIgnores(lit: string, run: string)
    requires '*' !in lit && ValidName("*" + lit)
    requires NoLineTerminator(run)
    ensures FileIgnored(run + lit, ["*" + lit])
  {
    var pattern := "*" + lit;
    NormalizeName(pattern);
    assert Compile(pattern) == [Star] + Compile(lit) by {
      assert pattern[0] == '*' && pattern[1..] == lit;
    }
    StarThenLiteral(lit, run);
    var path := run + lit;
    assert path[0..|path|] == path;
    assert [pattern][0] == pattern;
  }

  /** The pattern `*.log` ignores `a/b.log`: the star absorbs `a/b`. */
  lemma StarDotLogIgnoresNestedLog()
    ensures FileIgnored("a/b.log", ["*.log"])
  {
    assert "*.log" == "*" + ".log";
    assert "a/b.log" == "a/b" + ".log";
    StarSuffixIgnores(".log", "a/b");
  }

  /** A star followed by a literal matches any run free of line terminators
    * followed by that literal. */
  lemma StarThenLiteral(p: string, run: string)
    requires '*' !in p && NoLineTerminator(run)
    ensures Matches([Star] + Compile(p), run + p)
  {
    var tokens := [Star] + Compile(p);
    var w := run + p;
    LiteralMatches(p, p);
    assert tokens[0] == Star && tokens[1..] == Compile(p);
    assert w[..|run|] == run && w[|run|..] == p;
  }

  // ----- the directory test -----

  /** `isDirectoryIgnored`'s condition: `path.join(basename(dir) + '/')`, that is
    * the normalized basename with a trailing separator, equals some
    * normalized pattern. */
  ghost predicate DirectoryIgnored(dirPath: string, list: seq<string>)
  {
    exists k :: 0 <= k < |list| && Normalize(Basename(dirPath) + "/") == Normalize(list[k])
  }

  /** `isDirectoryIgnored`: tries the patterns in order, stopping at the first equal one. */
  method IsDirectoryIgnored(dirPath: string, list: seq<string>) returns (ignored: bool)
    ensures ignored == DirectoryIgnored(dirPath, list)
  {
    var key := Normalize(Basename(dirPath) + "/");
    var i := 0;
    while i < |list|
      invariant 0 <= i <= |list|
      invariant forall k :: 0 <= k < i ==> key != Normalize(list[k])
    {
      if key == Normalize(list[i]) {
        return true;
      }
      i := i + 1;
    }
    return false;
  }

  /** A directory below the root is ignored iff some pattern normalizes to
    * exactly its name followed by a separator. */
  lemma DirectoryIgnoredByName(prefix: string, name: string, list: seq<string>)
    requires ValidName(name)
    ensures DirectoryIgnored(ChildPath(prefix, name), list) <==> exists k :: 0 <= k < |list| && Normalize(list[k]) == name + "/"
  {
    BasenameChildPath(prefix, name);
    NormalizeDirectoryName(name);
  }

  /** Only a single-segment pattern ending in a separator can ignore a
    * directory: one that normalizes to anything else never does. */
  lemma DirectoryPatternShape(prefix: string, name: string, pattern: string)
    requires ValidName(name)
    requires var n := Normalize(pattern); n == [] || n[|n| - 1] != '/' || '/' in n[..|n| - 1]
    ensures !DirectoryIgnored(ChildPath(prefix, name), [pattern])
  {
    DirectoryIgnoredByName(prefix, name, [pattern]);
  }

  /** No wildcard applies to directories: the pattern `*\/` ignores only a
    * directory literally named `*`. */
  lemma DirectoryStarIsLiteral(prefix: string, name: string)
    requires ValidName(name)
    ensures DirectoryIgnored(ChildPath(prefix, name), ["*/"]) <==> name == "*"
  {
    DirectoryIgnoredByName(prefix, name, ["*/"]);
    NormalizeDirectoryName("*");
    assert "*" + "/" == "*/";
    assert ["*/"][0] == "*/";
    if name + "/" == "*/" {
      assert |name| == 1 && name[0] == (name + "/")[0];
      assert name == [name[0]];
    }
  }
}
