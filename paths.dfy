/**
  * The parts of Node's `path` module (POSIX flavour) that the synchronizer
  * uses: `normalize`, `basename`, the relative path of an entry below the
  * configured root, and the `split('\\').join('/')` separator rewrite.
  */
module Paths {
  import opened Text

  /** A name as `readdir` reports it: non-empty, no separator, not `.` or `..`. */
  predicate ValidName(name: string)
  {
    name != [] && '/' !in name && name != "." && name != ".."
  }

  /** One step of `normalize`'s segment walk: empty and `.` segments vanish,
    * `..` cancels the previous segment unless that is itself `..`, and is kept
    * only when the path may climb above its start (a relative path). */
  function Resolve(stack: seq<string>, segment: string, aboveRoot: bool): seq<string>
  {
    if segment == "" || segment == "." then stack
    else if segment == ".." then
      if |stack| > 0 && stack[|stack| - 1] != ".." then stack[..|stack| - 1]
      else if aboveRoot then stack + [".."]
      else stack
    else stack + [segment]
  }

  /** The segment walk over the first `|segments|` segments, left to right. */
  function ResolveAll(segments: seq<string>, aboveRoot: bool): seq<string>
  {
    if segments == [] then []
    else Resolve(ResolveAll(segments[..|segments| - 1], aboveRoot), segments[|segments| - 1], aboveRoot)
  }

  /** `path.posix.normalize`. */
  function Normalize(p: string): (r: string)
    ensures r != []
    ensures p != [] && p[0] == '/' ==> r[0] == '/'
    ensures p != [] && p[|p| - 1] == '/' ==> r[|r| - 1] == '/'
  {
    if p == [] then "."
    else
      var isAbsolute := p[0] == '/';
      var trailing := p[|p| - 1] == '/';
      var body := Join(ResolveAll(Split(p, '/'), !isAbsolute), '/');
      if body == [] then
        if isAbsolute then "/" else if trailing then "./" else "."
      else
        var withTrailing := if trailing then body + "/" else body;
        if isAbsolute then "/" + withTrailing else withTrailing
  }

  /** `path.basename` of a path that does not end in a separator: its last segment. */
  function Basename(p: string): (r: string)
    ensures '/' !in r
  {
    var pieces := Split(p, '/');
    pieces[|pieces| - 1]
  }

  /** The root-relative path of entry `name` inside the directory whose
    * root-relative path is `prefix` (the empty string for the root itself),
    * as `path.relative(root, directoryPath + '/' + name)` yields it. */
  function ChildPath(prefix: string, name: string): string
  {
    if prefix == [] then name else prefix + "/" + name
  }

  /** `filePath.split('\\').join('/')`: every backslash becomes a slash. */
  function Slashed(p: string): (r: string)
    ensures |r| == |p|
    ensures forall k :: 0 <= k < |p| ==> r[k] == (if p[k] == '\\' then '/' else p[k])
  {
    if p == [] then [] else [if p[0] == '\\' then '/' else p[0]] + Slashed(p[1..])
  }

  /** The rewrite leaves no backslash behind and changes nothing else. */
  lemma SlashedProperties(p: string)
    ensures '\\' !in Slashed(p)
    ensures '\\' !in p ==> Slashed(p) == p
  {
  }

  /** Rewriting separators commutes with joining a child onto its directory. */
  lemma SlashedChildPath(prefix: string, name: string)
    requires prefix != []
    ensures Slashed(ChildPath(prefix, name)) == Slashed(prefix) + "/" + Slashed(name)
  {
    var a := Slashed(ChildPath(prefix, name));
    var b := Slashed(prefix) + "/" + Slashed(name);
    assert |a| == |b|;
    forall k | 0 <= k < |a| ensures a[k] == b[k] {
      if k < |prefix| {
      } else if k == |prefix| {
      } else {
        assert ChildPath(prefix, name)[k] == name[k - |prefix| - 1];
      }
    }
  }

  /** The basename of a child's path is the child's name. */
  lemma {:induction false} BasenameChildPath(prefix: string, name: string)
    requires ValidName(name)
    ensures Basename(ChildPath(prefix, name)) == name
  {
    SplitFree(name, '/');
    if prefix != [] {
      SplitAppend(prefix, name, '/');
    }
  }

  /** Normalizing `name + "/"` for a valid name changes nothing. */
  lemma NormalizeDirectoryName(name: string)
    requires ValidName(name)
    ensures Normalize(name + "/") == name + "/"
  {
    var p := name + "/";
    SplitFree(name, '/');
    SplitAppend(name, "", '/');
    assert p == name + ['/'] + "";
    assert Split(p, '/') == [name, ""];
    assert [name, ""][..1] == [name];
    assert ResolveAll([name], true) == [name] by {
      assert [name][..0] == [];
    }
    assert name[0] != '/' by { assert name[0] in name; }
  }

  /** A single-segment name is its own normal form. */
  lemma NormalizeName(name: string)
    requires ValidName(name)
    ensures Normalize(name) == name
  {
    SplitFree(name, '/');
    assert ResolveAll([name], true) == [name] by {
      assert [name][..0] == [];
    }
    assert name[0] != '/' && name[|name| - 1] != '/' by { assert name[0] in name && name[|name| - 1] in name; }
  }

  /** A stack the segment walk can leave: no empty, `.` or separator-holding
    * segment, and `..` only in a leading run, and only when the path may
    * climb above its start. */
  ghost predicate Resolved(stack: seq<string>, aboveRoot: bool)
  {
    && (forall k :: 0 <= k < |stack| ==> stack[k] != "" && stack[k] != "." && '/' !in stack[k])
    && (forall k :: 0 <= k < |stack| && stack[k] == ".." ==> aboveRoot && forall j :: 0 <= j < k ==> stack[j] == "..")
  }

  /** One step of the walk keeps the stack resolved. */
  lemma ResolveKeepsResolved(stack: seq<string>, segment: string, aboveRoot: bool)
    requires Resolved(stack, aboveRoot) && '/' !in segment
    ensures Resolved(Resolve(stack, segment, aboveRoot), aboveRoot)
  {
    if segment == ".." && !(|stack| > 0 && stack[|stack| - 1] != "..") && aboveRoot {
      var r := stack + [".."];
      forall k | 0 <= k < |r| && r[k] == ".." ensures forall j :: 0 <= j < k ==> r[j] == ".." {
        if k == |stack| && k > 0 {
          assert stack[k - 1] == "..";
        }
      }
    }
  }

  /** The walk over separator-free segments leaves a resolved stack. */
  lemma {:induction false} ResolveAllResolved(segments: seq<string>, aboveRoot: bool)
    requires forall k :: 0 <= k < |segments| ==> '/' !in segments[k]
    ensures Resolved(ResolveAll(segments, aboveRoot), aboveRoot)
  {
    if segments != [] {
      var init := segments[..|segments| - 1];
      assert forall k :: 0 <= k < |init| ==> init[k] == segments[k];
      ResolveAllResolved(init, aboveRoot);
      ResolveKeepsResolved(ResolveAll(init, aboveRoot), segments[|segments| - 1], aboveRoot);
    }
  }

  /** Walking a resolved stack gives it back. */
  lemma {:induction false} ResolveAllOfResolved(stack: seq<string>, aboveRoot: bool)
    requires Resolved(stack, aboveRoot)
    ensures ResolveAll(stack, aboveRoot) == stack
  {
    if stack != [] {
      var n := |stack|;
      var init := stack[..n - 1];
      assert forall k :: 0 <= k < |init| ==> init[k] == stack[k];
      ResolveAllOfResolved(init, aboveRoot);
      if stack[n - 1] == ".." && n > 1 {
        assert init[n - 2] == "..";
      }
      assert init + [stack[n - 1]] == stack;
    }
  }

  /** A leading empty segment (what a leading separator splits off) does not
    * change the walk. */
  lemma {:induction false} ResolveAllLeadingEmpty(segments: seq<string>, aboveRoot: bool)
    ensures ResolveAll([""] + segments, aboveRoot) == ResolveAll(segments, aboveRoot)
  {
    if segments != [] {
      var n := |segments|;
      ResolveAllLeadingEmpty(segments[..n - 1], aboveRoot);
      assert ([""] + segments)[..n] == [""] + segments[..n - 1];
    } else {
      assert [""][..0] == [];
    }
  }

  /** Neither does a trailing one. */
  lemma ResolveAllTrailingEmpty(segments: seq<string>, aboveRoot: bool)
    ensures ResolveAll(segments + [""], aboveRoot) == ResolveAll(segments, aboveRoot)
  {
    assert (segments + [""])[..|segments|] == segments;
  }

  /** The three normal forms of a path whose segments all vanish. */
  lemma NormalizeEmptyForms()
    ensures Normalize("/") == "/" && Normalize("./") == "./" && Normalize(".") == "."
  {
    NormalizeRoot();
    NormalizeVanishing(".", true);
    NormalizeVanishing(".", false);
  }

  lemma NormalizeRoot()
    ensures Normalize("/") == "/"
  {
    var p := "/";
    SplitFree("", '/');
    SplitAppend("", "", '/');
    assert p == "" + ['/'] + "";
    var segments := Split(p, '/');
    assert segments == ["", ""];
    assert segments[..1] == [""] && [""][..0] == [];
    assert ResolveAll(segments, false) == [];
  }

  /** `.` and `./` are their own normal forms. */
  lemma NormalizeVanishing(dot: string, trailing: bool)
    requires dot == "."
    ensures var p := if trailing then dot + "/" else dot; Normalize(p) == p
  {
    var p := if trailing then dot + "/" else dot;
    assert p[0] == '.';
    SplitFree(dot, '/');
    var segments := if trailing then [dot, ""] else [dot];
    if trailing {
      SplitFree("", '/');
      SplitAppend(dot, "", '/');
      assert p == dot + ['/'] + "";
      assert segments[..1] == [dot];
    }
    assert Split(p, '/') == segments;
    assert [dot][..0] == [];
    assert ResolveAll([dot], true) == [];
    assert ResolveAll(segments, true) == [];
  }

  /** `normalize` is idempotent: a normalized path is its own normal form. */
  lemma NormalizeIdempotent(p: string)
    ensures Normalize(Normalize(p)) == Normalize(p)
  {
    NormalizeEmptyForms();
    if p != [] {
      var isAbsolute := p[0] == '/';
      var trailing := p[|p| - 1] == '/';
      var stack := ResolveAll(Split(p, '/'), !isAbsolute);
      var body := Join(stack, '/');
      ResolveAllResolved(Split(p, '/'), !isAbsolute);
      if body != [] {
        var withTrailing := if trailing then body + "/" else body;
        var q := if isAbsolute then "/" + withTrailing else withTrailing;
        ResolvedJoinEnds(stack, body);
        NormalizeBody(stack, body, withTrailing, q, isAbsolute, trailing);
      }
    }
  }

  /** A non-empty join of a resolved stack neither starts nor ends with a
    * separator, and splits back into the stack. */
  lemma ResolvedJoinEnds(stack: seq<string>, body: string)
    requires (forall k :: 0 <= k < |stack| ==> stack[k] != "" && '/' !in stack[k])
    requires body == Join(stack, '/') && body != []
    ensures body[0] != '/' && body[|body| - 1] != '/'
    ensures Split(body, '/') == stack
  {
    assert |stack| >= 1;
    JoinFirst(stack, '/');
    JoinLast(stack, '/');
    assert body[0] in stack[0] && body[|body| - 1] in stack[|stack| - 1];
    SplitJoin(stack, '/');
  }

  /** The normal form `q` of a path whose walk left the non-empty resolved
    * `stack`, joined into `body`, normalizes to itself. */
  lemma NormalizeBody(stack: seq<string>, body: string, withTrailing: string, q: string, isAbsolute: bool, trailing: bool)
    requires Resolved(stack, !isAbsolute) && body == Join(stack, '/') && body != []
    requires body[0] != '/' && body[|body| - 1] != '/' && Split(body, '/') == stack
    requires withTrailing == if trailing then body + "/" else body
    requires q == if isAbsolute then "/" + withTrailing else withTrailing
    ensures Normalize(q) == q
  {
    assert q[0] == '/' <==> isAbsolute;
    assert q[|q| - 1] == '/' <==> trailing;
    TrailingWalk(stack, body, withTrailing, !isAbsolute, trailing);
    LeadingWalk(stack, withTrailing, q, isAbsolute);
    NormalizeOfParts(q, body, isAbsolute, trailing);
  }

  /** An optional trailing separator after the join does not change the walk. */
  lemma TrailingWalk(stack: seq<string>, body: string, withTrailing: string, aboveRoot: bool, trailing: bool)
    requires Resolved(stack, aboveRoot) && Split(body, '/') == stack
    requires withTrailing == if trailing then body + "/" else body
    ensures ResolveAll(Split(withTrailing, '/'), aboveRoot) == stack
  {
    ResolveAllOfResolved(stack, aboveRoot);
    if trailing {
      SplitFree("", '/');
      SplitAppend(body, "", '/');
      assert body + "/" == body + ['/'] + "";
      ResolveAllTrailingEmpty(stack, aboveRoot);
    }
  }

  /** Nor does an optional leading separator, on an absolute path. */
  lemma LeadingWalk(stack: seq<string>, withTrailing: string, q: string, isAbsolute: bool)
    requires ResolveAll(Split(withTrailing, '/'), !isAbsolute) == stack
    requires q == if isAbsolute then "/" + withTrailing else withTrailing
    ensures ResolveAll(Split(q, '/'), !isAbsolute) == stack
  {
    if isAbsolute {
      SplitFree("", '/');
      SplitAppend("", withTrailing, '/');
      assert "/" + withTrailing == "" + ['/'] + withTrailing;
      ResolveAllLeadingEmpty(Split(withTrailing, '/'), false);
    }
  }

  /** `normalize` read off the parts it computes: whether the path is
    * absolute, whether it ends in a separator, and the joined walk. */
  lemma NormalizeOfParts(q: string, body: string, isAbsolute: bool, trailing: bool)
    requires q != [] && (q[0] == '/' <==> isAbsolute) && (q[|q| - 1] == '/' <==> trailing)
    requires Join(ResolveAll(Split(q, '/'), !isAbsolute), '/') == body && body != []
    ensures var withTrailing := if trailing then body + "/" else body;
      Normalize(q) == if isAbsolute then "/" + withTrailing else withTrailing
  {
  }

  /** Every character of a normalized path comes from the input, or is a
    * separator or the dot that names the current directory. */
  lemma NormalizeCharacters(p: string, c: char)
    requires c in Normalize(p)
    ensures c in p || c == '.' || c == '/'
  {
    if p != [] {
      var isAbsolute := p[0] == '/';
      var pieces := Split(p, '/');
      SplitPieceChars(p, '/');
      ResolveAllChars(pieces, !isAbsolute, p);
      JoinChars(ResolveAll(pieces, !isAbsolute), '/', p);
    }
  }

  /** Characters of split pieces are characters of the string. */
  lemma {:induction false} SplitPieceChars(s: string, sep: char)
    ensures forall k, c :: 0 <= k < |Split(s, sep)| && c in Split(s, sep)[k] ==> c in s
  {
    if |s| > 0 {
      SplitPieceChars(s[1..], sep);
      var rest := Split(s[1..], sep);
      forall k, c | 0 <= k < |Split(s, sep)| && c in Split(s, sep)[k] ensures c in s {
        if s[0] == sep {
          assert Split(s, sep)[k] == if k == 0 then "" else rest[k - 1];
          if k > 0 { assert c in s[1..]; }
        } else if k == 0 {
          assert Split(s, sep)[0] == [s[0]] + rest[0];
          if c != s[0] { assert c in rest[0]; assert c in s[1..]; }
        } else {
          assert Split(s, sep)[k] == rest[k];
          assert c in s[1..];
        }
      }
    }
  }

  /** The segment walk only keeps input segments and `..`. */
  lemma {:induction false} ResolveAllChars(segments: seq<string>, aboveRoot: bool, p: string)
    requires forall k, c :: 0 <= k < |segments| && c in segments[k] ==> c in p
    ensures forall k, c :: 0 <= k < |ResolveAll(segments, aboveRoot)| && c in ResolveAll(segments, aboveRoot)[k] ==> c in p || c == '.'
  {
    if segments != [] {
      var init := segments[..|segments| - 1];
      assert forall k :: 0 <= k < |init| ==> init[k] == segments[k];
      ResolveAllChars(init, aboveRoot, p);
    }
  }

  /** Joining adds only separators. */
  lemma {:induction false} JoinChars(pieces: seq<string>, sep: char, p: string)
    requires forall k, c :: 0 <= k < |pieces| && c in pieces[k] ==> c in p || c == '.'
    ensures forall c :: c in Join(pieces, sep) ==> c in p || c == '.' || c == sep
  {
    if |pieces| > 1 {
      JoinChars(pieces[1..], sep, p);
      forall c | c in Join(pieces, sep) ensures c in p || c == '.' || c == sep {
        if c in pieces[0] {
        } else if c == sep {
        } else {
          assert c in Join(pieces[1..], sep);
        }
      }
    }
  }
}
