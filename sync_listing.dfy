/**
  * Entry classification and the two tree walks of src/utils/sync.js
  * (`getRemoteFileListByDirectory` and `getLocalFileListByDirectory`).
  *
  * The file system is an in-memory tree: a directory's contents are its
  * children in `readdir` order, or `Unreadable` when `readdir` fails.  Both
  * walks visit the children one at a time (`async.eachSeries`), push a
  * non-ignored file, and for a non-ignored directory (only when the session is
  * recursive) push its entry and then append whatever its own walk returned.
  * They differ only in their error paths:
  *   - remote: a failed `readdir` is an error; the per-entry step never fails;
  *   - local: a failed `readdir` gives an empty list, while a failed `fs.stat`
  *     of an entry stops the walk of that directory with an error;
  *   - both: an error from a subdirectory's walk is dropped, so that subtree
  *     contributes nothing and the walk goes on.
  */
module SyncListing {
  import opened Wrappers
  import opened Paths
  import opened SyncIgnore

  // ----- classification by mode bits -----

  const TypeMask: bv32 := 0xF000
  const RegularFileType: bv32 := 0x8000
  const DirectoryType: bv32 := 0x4000

  /** `isFile`: the type bits of the mode say "regular file". */
  predicate IsFile(mode: bv32): (r: bool)
    ensures r ==> !IsDirectory(mode)
  {
    mode & TypeMask == RegularFileType
  }

  /** `isDirectory`: the type bits of the mode say "directory". */
  predicate IsDirectory(mode: bv32): (r: bool)
    ensures r ==> mode & TypeMask != RegularFileType
  {
    mode & TypeMask == DirectoryType
  }

  /** No mode is both a file and a directory, and both tests look only at the
    * type bits: two modes with equal type bits are classified alike. */
  lemma ModeClassification(m: bv32, n: bv32)
    ensures !(IsFile(m) && IsDirectory(m))
    ensures m & TypeMask == n & TypeMask ==> (IsFile(m) <==> IsFile(n)) && (IsDirectory(m) <==> IsDirectory(n))
  {
  }

  /** `0o100644` is a regular file, `0o40755` a directory, and `0o120777`
    * (a symbolic link) neither. */
  lemma ModeExamples()
    ensures IsFile(0x81A4) && !IsDirectory(0x81A4)
    ensures IsDirectory(0x41ED) && !IsFile(0x41ED)
    ensures !IsFile(0xA1FF) && !IsDirectory(0xA1FF)
  {
  }

  // ----- the tree and the listing -----

  /** The attributes of an entry: its mode, its modification time (seconds on
    * the remote side, milliseconds on the local side) and its size. */
  datatype Attrs = Attrs(mode: bv32, mtime: int, size: nat)

  /** An entry of a directory.  `statFails` says `fs.stat` of it fails (only
    * the local walk stats its entries); `contents` are what `readdir` of it
    * yields, which matters only for a directory. */
  datatype Node = Node(name: string, attrs: Attrs, statFails: bool, contents: Contents)

  datatype Contents = Unreadable | Children(nodes: seq<Node>)

  datatype Side = Local | Remote

  datatype ListError = ReaddirFailed | StatFailed

  /** An entry the walk pushes: its root-relative path and its attributes. */
  datatype Visit = Visit(path: string, attrs: Attrs)

  /** An object of the returned file list. */
  datatype FileEntry = FileEntry(filename: string, attrs: Attrs, modifiedUnix: int)

  /** `modifiedUnix`: the remote mtime as is; the local one through
    * `moment(mtime).unix()`, whole seconds rounded down. */
  function ModifiedUnix(side: Side, mtime: int): (r: int)
    ensures side == Remote ==> r == mtime
    ensures side == Local ==> r * 1000 <= mtime < r * 1000 + 1000
  {
    if side == Remote then mtime else mtime / 1000
  }

  /** The file object built for a visited entry. */
  function EntryOf(side: Side, v: Visit): FileEntry
  {
    FileEntry(Slashed(v.path), v.attrs, ModifiedUnix(side, v.attrs.mtime))
  }

  /** The file objects for a sequence of visits, in order. */
  function Entries(side: Side, visits: seq<Visit>): (r: seq<FileEntry>)
    ensures |r| == |visits|
  {
    if visits == [] then [] else Entries(side, visits[..|visits| - 1]) + [EntryOf(side, visits[|visits| - 1])]
  }

  /** The file object at each position is built from the visit there. */
  lemma {:induction false} EntriesAt(side: Side, visits: seq<Visit>)
    ensures forall k :: 0 <= k < |visits| ==> Entries(side, visits)[k] == EntryOf(side, visits[k])
    decreases |visits|
  {
    if visits != [] {
      var init := visits[..|visits| - 1];
      EntriesAt(side, init);
      assert forall k :: 0 <= k < |init| ==> init[k] == visits[k];
    }
  }

  /** The file list of a walk that yields `visits`, or its error. */
  function EntriesOf(side: Side, visits: Result<seq<Visit>, ListError>): Result<seq<FileEntry>, ListError>
  {
    match visits
    case Ok(vs) => Ok(Entries(side, vs))
    case Err(e) => Err(e)
  }

  /** What the walk of a directory at root-relative path `prefix` pushes. */
  ghost function DirVisits(side: Side, contents: Contents, prefix: string, recursive: bool, ignore: seq<string>): Result<seq<Visit>, ListError>
    decreases contents
  {
    match contents
    case Unreadable => if side == Remote then Err(ReaddirFailed) else Ok([])
    case Children(nodes) => ChildrenVisits(side, nodes, prefix, recursive, ignore)
  }

  /** What the series over `nodes` pushes; the first error ends it. */
  ghost function ChildrenVisits(side: Side, nodes: seq<Node>, prefix: string, recursive: bool, ignore: seq<string>): Result<seq<Visit>, ListError>
    decreases nodes
  {
    if nodes == [] then Ok([])
    else
      match ChildrenVisits(side, nodes[..|nodes| - 1], prefix, recursive, ignore)
      case Err(e) => Err(e)
      case Ok(before) =>
        match ChildVisits(side, nodes[|nodes| - 1], prefix, recursive, ignore)
        case Err(e) => Err(e)
        case Ok(mine) => Ok(before + mine)
  }

  /** What the step for one entry pushes. */
  ghost function ChildVisits(side: Side, node: Node, prefix: string, recursive: bool, ignore: seq<string>): Result<seq<Visit>, ListError>
    decreases node
  {
    var path := ChildPath(prefix, node.name);
    if side == Local && node.statFails then Err(StatFailed)
    else if IsFile(node.attrs.mode) then
      if FileIgnored(path, ignore) then Ok([]) else Ok([Visit(path, node.attrs)])
    else if IsDirectory(node.attrs.mode) && recursive && !DirectoryIgnored(path, ignore) then
      match DirVisits(side, node.contents, path, recursive, ignore)
      case Ok(below) => Ok([Visit(path, node.attrs)] + below)
      case Err(_) => Ok([Visit(path, node.attrs)])
    else Ok([])
  }

  /** Every pattern of the list is in the token subset the model compiles. */
  predicate PlainList(ignore: seq<string>)
  {
    forall k :: 0 <= k < |ignore| ==> Plain(ignore[k])
  }

  /** Once the series over a prefix of the entries has failed, the series
    * over all of them fails with the same error. */
  lemma {:induction false} ErrorPersists(side: Side, nodes: seq<Node>, k: nat, prefix: string, recursive: bool, ignore: seq<string>)
    requires k <= |nodes|
    requires ChildrenVisits(side, nodes[..k], prefix, recursive, ignore).Err?
    ensures ChildrenVisits(side, nodes, prefix, recursive, ignore) == ChildrenVisits(side, nodes[..k], prefix, recursive, ignore)
    decreases |nodes| - k
  {
    if k < |nodes| {
      assert nodes[..k + 1][..k] == nodes[..k];
      ErrorPersists(side, nodes, k + 1, prefix, recursive, ignore);
    } else {
      assert nodes[..k] == nodes;
    }
  }

  /** The file objects of two consecutive runs of visits. */
  lemma {:induction false} EntriesAppend(side: Side, xs: seq<Visit>, ys: seq<Visit>)
    ensures Entries(side, xs + ys) == Entries(side, xs) + Entries(side, ys)
    decreases |ys|
  {
    if ys == [] {
      assert xs + ys == xs;
    } else {
      var ys' := ys[..|ys| - 1];
      assert (xs + ys)[..|xs + ys| - 1] == xs + ys';
      assert (xs + ys)[|xs + ys| - 1] == ys[|ys| - 1];
      EntriesAppend(side, xs, ys');
    }
  }

  /** The walk of the directory at root-relative path `prefix` (the root
    * itself when `prefix` is empty): `readdir`, whose failure ends a remote
    * walk with an error and a local one with nothing, then the series over
    * the entries. */
  method ListDirectory(side: Side, contents: Contents, prefix: string, recursive: bool, ignore: seq<string>)
    returns (r: Result<seq<FileEntry>, ListError>)
    requires PlainList(ignore)
    ensures r == EntriesOf(side, DirVisits(side, contents, prefix, recursive, ignore))
    decreases contents, 1
  {
    match contents {
      case Unreadable =>
        if side == Remote {
          return Err(ReaddirFailed);
        }
        return Ok([]);
      case Children(nodes) =>
        r := ListChildren(side, nodes, prefix, recursive, ignore);
    }
  }

  /** The series over a directory's entries: it pushes into `fileList` entry
    * by entry and returns the list, or the error that ended it. */
  method ListChildren(side: Side, nodes: seq<Node>, prefix: string, recursive: bool, ignore: seq<string>)
    returns (r: Result<seq<FileEntry>, ListError>)
    requires PlainList(ignore)
    ensures r == EntriesOf(side, ChildrenVisits(side, nodes, prefix, recursive, ignore))
    decreases nodes, 1
  {
    var fileList: seq<FileEntry> := [];
    ghost var visits: seq<Visit> := [];
    var i := 0;
    while i < |nodes|
      invariant 0 <= i <= |nodes|
      invariant ChildrenVisits(side, nodes[..i], prefix, recursive, ignore) == Ok(visits)
      invariant fileList == Entries(side, visits)
    {
      ghost var step := ChildVisits(side, nodes[i], prefix, recursive, ignore);
      var pushed := ListEntry(side, nodes[i], prefix, recursive, ignore);
      if pushed.Err? {
        ChildrenStepFails(side, nodes, i, visits, prefix, recursive, ignore);
        return Err(pushed.error);
      }
      ChildrenStep(side, nodes, i, prefix, recursive, ignore);
      EntriesAppend(side, visits, step.value);
      fileList := fileList + pushed.value;
      visits := visits + step.value;
      i := i + 1;
    }
    assert nodes[..|nodes|] == nodes;
    return Ok(fileList);
  }

  /** The step of the series for one entry: what it pushes onto the
    * directory's `fileList`, or the `fs.stat` error that ends the series. */
  method ListEntry(side: Side, node: Node, prefix: string, recursive: bool, ignore: seq<string>)
    returns (r: Result<seq<FileEntry>, ListError>)
    requires PlainList(ignore)
    ensures r == EntriesOf(side, ChildVisits(side, node, prefix, recursive, ignore))
    decreases node, 0
  {
    var path := ChildPath(prefix, node.name);
    if side == Local && node.statFails {
      return Err(StatFailed);
    }
    var fileList: seq<FileEntry> := [];
    if IsFile(node.attrs.mode) {
      var ignored := IsFileIgnored(path, ignore);
      if !ignored {
        fileList := fileList + [EntryOf(side, Visit(path, node.attrs))];
      }
    } else if IsDirectory(node.attrs.mode) && recursive {
      var ignored := IsDirectoryIgnored(path, ignore);
      if !ignored {
        fileList := fileList + [EntryOf(side, Visit(path, node.attrs))];
        var returned := ListDirectory(side, node.contents, path, recursive, ignore);
        if returned.Ok? {
          EntriesAppend(side, [Visit(path, node.attrs)], DirVisits(side, node.contents, path, recursive, ignore).value);
          fileList := fileList + returned.value;
        }
      }
    }
    return Ok(fileList);
  }

  /** A failing step ends the whole series with its error. */
  lemma ChildrenStepFails(side: Side, nodes: seq<Node>, i: nat, visits: seq<Visit>, prefix: string, recursive: bool, ignore: seq<string>)
    requires i < |nodes|
    requires ChildrenVisits(side, nodes[..i], prefix, recursive, ignore) == Ok(visits)
    requires ChildVisits(side, nodes[i], prefix, recursive, ignore).Err?
    ensures ChildrenVisits(side, nodes, prefix, recursive, ignore) == Err(ChildVisits(side, nodes[i], prefix, recursive, ignore).error)
  {
    ChildrenStep(side, nodes, i, prefix, recursive, ignore);
    ErrorPersists(side, nodes, i + 1, prefix, recursive, ignore);
  }

  // ----- the listing as a concatenation, in readdir order -----

  /** The series over a non-empty run is the series over all but its last
    * entry combined with the step for the last entry. */
  lemma ChildrenLast(side: Side, nodes: seq<Node>, prefix: string, recursive: bool, ignore: seq<string>)
    requires nodes != []
    ensures ChildrenVisits(side, nodes, prefix, recursive, ignore)
      == Combine(ChildrenVisits(side, nodes[..|nodes| - 1], prefix, recursive, ignore), ChildVisits(side, nodes[|nodes| - 1], prefix, recursive, ignore))
  {
  }

  /** One more step of the series over `nodes`. */
  lemma ChildrenStep(side: Side, nodes: seq<Node>, i: nat, prefix: string, recursive: bool, ignore: seq<string>)
    requires i < |nodes|
    ensures ChildrenVisits(side, nodes[..i + 1], prefix, recursive, ignore)
      == Combine(ChildrenVisits(side, nodes[..i], prefix, recursive, ignore), ChildVisits(side, nodes[i], prefix, recursive, ignore))
  {
    assert nodes[..i + 1][..i] == nodes[..i];
    ChildrenLast(side, nodes[..i + 1], prefix, recursive, ignore);
  }


  /** Combining the results of two consecutive runs of the series. */
  function Combine(a: Result<seq<Visit>, ListError>, b: Result<seq<Visit>, ListError>): Result<seq<Visit>, ListError>
  {
    match a
    case Err(e) => Err(e)
    case Ok(x) =>
      match b
      case Err(e) => Err(e)
      case Ok(y) => Ok(x + y)
  }

  /** The listing of consecutive runs of entries is the listing of the first
    * followed by the listing of the second: entries appear in readdir order. */
  lemma {:induction false} ChildrenAppend(side: Side, xs: seq<Node>, ys: seq<Node>, prefix: string, recursive: bool, ignore: seq<string>)
    ensures ChildrenVisits(side, xs + ys, prefix, recursive, ignore)
      == Combine(ChildrenVisits(side, xs, prefix, recursive, ignore), ChildrenVisits(side, ys, prefix, recursive, ignore))
    decreases |ys|
  {
    var a := ChildrenVisits(side, xs, prefix, recursive, ignore);
    if ys == [] {
      assert xs + ys == xs;
      CombineEmpty(a);
    } else {
      var zs := xs + ys;
      var ys' := ys[..|ys| - 1];
      assert zs[..|zs| - 1] == xs + ys';
      assert zs[|zs| - 1] == ys[|ys| - 1];
      ChildrenLast(side, zs, prefix, recursive, ignore);
      ChildrenLast(side, ys, prefix, recursive, ignore);
      ChildrenAppend(side, xs, ys', prefix, recursive, ignore);
      CombineAssociative(a, ChildrenVisits(side, ys', prefix, recursive, ignore), ChildVisits(side, ys[|ys| - 1], prefix, recursive, ignore));
    }
  }

  /** Combining with the empty series changes nothing. */
  lemma CombineEmpty(a: Result<seq<Visit>, ListError>)
    ensures Combine(a, Ok([])) == a
  {
    if a.Ok? {
      assert a.value + [] == a.value;
    }
  }

  /** Combining is associative. */
  lemma CombineAssociative(a: Result<seq<Visit>, ListError>, b: Result<seq<Visit>, ListError>, c: Result<seq<Visit>, ListError>)
    ensures Combine(Combine(a, b), c) == Combine(a, Combine(b, c))
  {
    if a.Ok? && b.Ok? && c.Ok? {
      assert a.value + b.value + c.value == a.value + (b.value + c.value);
    }
  }

  /** `path` lies inside the directory at root-relative path `prefix`. */
  predicate Under(prefix: string, path: string)
  {
    prefix == [] || (|prefix| < |path| && path[..|prefix| + 1] == prefix + "/")
  }

  /** A child's path lies under its directory, and so does everything under it. */
  lemma UnderChild(prefix: string, name: string, path: string)
    ensures Under(prefix, ChildPath(prefix, name))
    ensures Under(ChildPath(prefix, name), path) ==> Under(prefix, path)
  {
    var q := ChildPath(prefix, name);
    if prefix != [] {
      assert q[..|prefix| + 1] == prefix + "/";
      if Under(q, path) {
        assert path[..|prefix| + 1] == path[..|q| + 1][..|prefix| + 1];
      }
    }
  }

  /** What the walk may push for the directory at `prefix`: entries under it,
    * files only when no pattern ignores them, directories only when the
    * session is recursive and no pattern names them. */
  ghost predicate Listed(prefix: string, v: Visit, recursive: bool, ignore: seq<string>)
  {
    && Under(prefix, v.path)
    && (IsFile(v.attrs.mode) ==> !FileIgnored(v.path, ignore))
    && (!IsFile(v.attrs.mode) ==> IsDirectory(v.attrs.mode) && recursive && !DirectoryIgnored(v.path, ignore))
  }

  /** Everything a directory's walk pushes is `Listed`. */
  lemma {:induction false} DirVisitsListed(side: Side, contents: Contents, prefix: string, recursive: bool, ignore: seq<string>)
    ensures DirVisits(side, contents, prefix, recursive, ignore).Ok? ==>
      forall v :: v in DirVisits(side, contents, prefix, recursive, ignore).value ==> Listed(prefix, v, recursive, ignore)
    decreases contents
  {
    if contents.Children? {
      ChildrenVisitsListed(side, contents.nodes, prefix, recursive, ignore);
    }
  }

  lemma {:induction false} ChildrenVisitsListed(side: Side, nodes: seq<Node>, prefix: string, recursive: bool, ignore: seq<string>)
    ensures ChildrenVisits(side, nodes, prefix, recursive, ignore).Ok? ==>
      forall v :: v in ChildrenVisits(side, nodes, prefix, recursive, ignore).value ==> Listed(prefix, v, recursive, ignore)
    decreases nodes
  {
    if nodes != [] {
      ChildrenVisitsListed(side, nodes[..|nodes| - 1], prefix, recursive, ignore);
      ChildVisitsListed(side, nodes[|nodes| - 1], prefix, recursive, ignore);
    }
  }

  lemma {:induction false} ChildVisitsListed(side: Side, node: Node, prefix: string, recursive: bool, ignore: seq<string>)
    ensures ChildVisits(side, node, prefix, recursive, ignore).Ok? ==>
      forall v :: v in ChildVisits(side, node, prefix, recursive, ignore).value ==> Listed(prefix, v, recursive, ignore)
    decreases node
  {
    var path := ChildPath(prefix, node.name);
    UnderChild(prefix, node.name, path);
    if !(side == Local && node.statFails) && !IsFile(node.attrs.mode)
      && IsDirectory(node.attrs.mode) && recursive && !DirectoryIgnored(path, ignore)
    {
      DirVisitsListed(side, node.contents, path, recursive, ignore);
      var r := DirVisits(side, node.contents, path, recursive, ignore);
      if r.Ok? {
        forall v | v in r.value ensures Listed(prefix, v, recursive, ignore) {
          UnderChild(prefix, node.name, v.path);
        }
      }
    }
  }

  /** A directory's step pushes the directory's own entry first and then only
    * entries under it, so its subtree follows it contiguously; the step of a
    * directory that a pattern names pushes nothing at all. */
  lemma DirectoryBlock(side: Side, node: Node, prefix: string, recursive: bool, ignore: seq<string>)
    requires !(side == Local && node.statFails)
    requires IsDirectory(node.attrs.mode)
    ensures var path := ChildPath(prefix, node.name);
      var r := ChildVisits(side, node, prefix, recursive, ignore);
      && r.Ok?
      && (DirectoryIgnored(path, ignore) || !recursive ==> r.value == [])
      && (!DirectoryIgnored(path, ignore) && recursive ==>
           && |r.value| >= 1
           && r.value[0] == Visit(path, node.attrs)
           && forall k :: 1 <= k < |r.value| ==> Under(path, r.value[k].path))
  {
    var path := ChildPath(prefix, node.name);
    ModeClassification(node.attrs.mode, node.attrs.mode);
    if !DirectoryIgnored(path, ignore) && recursive {
      DirVisitsListed(side, node.contents, path, recursive, ignore);
      var r := ChildVisits(side, node, prefix, recursive, ignore);
      forall k | 1 <= k < |r.value| ensures Under(path, r.value[k].path) {
        var below := DirVisits(side, node.contents, path, recursive, ignore);
        assert below.Ok?;
        assert r.value[k] == below.value[k - 1];
        assert r.value[k] in below.value;
      }
    }
  }

  /** A subdirectory whose own walk fails contributes its entry and nothing
    * below it; the walk of its parent carries on. */
  lemma SubtreeFailureDropped(side: Side, node: Node, prefix: string, recursive: bool, ignore: seq<string>)
    requires !(side == Local && node.statFails)
    requires IsDirectory(node.attrs.mode) && recursive
    requires !DirectoryIgnored(ChildPath(prefix, node.name), ignore)
    requires DirVisits(side, node.contents, ChildPath(prefix, node.name), recursive, ignore).Err?
    ensures ChildVisits(side, node, prefix, recursive, ignore) == Ok([Visit(ChildPath(prefix, node.name), node.attrs)])
  {
    ModeClassification(node.attrs.mode, node.attrs.mode);
  }

  // ----- the non-recursive listing -----

  /** The reference for a non-recursive walk: the regular files directly in
    * the directory that no pattern ignores, in readdir order. */
  ghost function TopFiles(nodes: seq<Node>, prefix: string, ignore: seq<string>): seq<Visit>
    decreases nodes
  {
    if nodes == [] then []
    else
      var node := nodes[|nodes| - 1];
      var path := ChildPath(prefix, node.name);
      TopFiles(nodes[..|nodes| - 1], prefix, ignore)
        + (if IsFile(node.attrs.mode) && !FileIgnored(path, ignore) then [Visit(path, node.attrs)] else [])
  }

  /** No entry of the directory fails to stat (on the side that stats). */
  predicate AllStat(side: Side, nodes: seq<Node>)
  {
    side == Remote || forall k :: 0 <= k < |nodes| ==> !nodes[k].statFails
  }

  /** On the local side the walk of a directory fails exactly when one of
    * its entries cannot be stat'ed, and then with that error; on the remote
    * side the series over the entries never fails. */
  lemma {:induction false} StatFailureFailsDirectory(side: Side, nodes: seq<Node>, prefix: string, recursive: bool, ignore: seq<string>)
    ensures ChildrenVisits(side, nodes, prefix, recursive, ignore).Err? <==> !AllStat(side, nodes)
    ensures ChildrenVisits(side, nodes, prefix, recursive, ignore).Err? ==> ChildrenVisits(side, nodes, prefix, recursive, ignore) == Err(StatFailed)
    decreases nodes
  {
    if nodes != [] {
      var init := nodes[..|nodes| - 1];
      StatFailureFailsDirectory(side, init, prefix, recursive, ignore);
      if side == Local {
        assert forall k :: 0 <= k < |init| ==> init[k] == nodes[k];
        if !AllStat(side, nodes) && AllStat(side, init) {
          var k :| 0 <= k < |nodes| && nodes[k].statFails;
          assert k == |nodes| - 1;
        }
      }
    }
  }

  /** When the session is not recursive the walk lists exactly the top-level
    * files, unless an entry cannot be stat'ed. */
  lemma {:induction false} NonRecursiveListsTopFiles(side: Side, nodes: seq<Node>, prefix: string, ignore: seq<string>)
    requires AllStat(side, nodes)
    ensures ChildrenVisits(side, nodes, prefix, false, ignore) == Ok(TopFiles(nodes, prefix, ignore))
    decreases nodes
  {
    if nodes != [] {
      var init := nodes[..|nodes| - 1];
      assert AllStat(side, init) by {
        if side == Local {
          forall k | 0 <= k < |init| ensures !init[k].statFails { assert init[k] == nodes[k]; }
        }
      }
      NonRecursiveListsTopFiles(side, init, prefix, ignore);
      ModeClassification(nodes[|nodes| - 1].attrs.mode, nodes[|nodes| - 1].attrs.mode);
    }
  }

  /** The reference holds only regular files, each directly in the directory. */
  lemma {:induction false} TopFilesAreFiles(nodes: seq<Node>, prefix: string, ignore: seq<string>)
    ensures forall v :: v in TopFiles(nodes, prefix, ignore) ==>
      IsFile(v.attrs.mode) && !IsDirectory(v.attrs.mode) && !FileIgnored(v.path, ignore)
      && exists k :: 0 <= k < |nodes| && v.path == ChildPath(prefix, nodes[k].name)
    decreases nodes
  {
    if nodes != [] {
      var init := nodes[..|nodes| - 1];
      TopFilesAreFiles(init, prefix, ignore);
      forall v | v in TopFiles(nodes, prefix, ignore)
        ensures exists k :: 0 <= k < |nodes| && v.path == ChildPath(prefix, nodes[k].name)
      {
        if v in TopFiles(init, prefix, ignore) {
          var k :| 0 <= k < |init| && v.path == ChildPath(prefix, init[k].name);
          assert nodes[k] == init[k];
        } else {
          assert v.path == ChildPath(prefix, nodes[|nodes| - 1].name);
        }
      }
    }
  }

  // ----- the file objects -----

  /** Every file object has a slash-only filename taken from its entry's
    * path; a remote entry's `modifiedUnix` is its `mtime`, a local one's is
    * its `mtime` in whole seconds. */
  lemma EntriesFacts(side: Side, visits: seq<Visit>)
    ensures forall k :: 0 <= k < |visits| ==>
      var e := Entries(side, visits)[k];
      && '\\' !in e.filename
      && e.attrs == visits[k].attrs
      && (side == Remote ==> e.modifiedUnix == e.attrs.mtime)
      && (side == Local ==> e.modifiedUnix * 1000 <= e.attrs.mtime < e.modifiedUnix * 1000 + 1000)
      && ('\\' !in visits[k].path ==> e.filename == visits[k].path)
  {
    EntriesAt(side, visits);
    forall k | 0 <= k < |visits| ensures '\\' !in Entries(side, visits)[k].filename {
      SlashedProperties(visits[k].path);
    }
    forall k | 0 <= k < |visits| && '\\' !in visits[k].path ensures Entries(side, visits)[k].filename == visits[k].path {
      SlashedProperties(visits[k].path);
    }
  }
}
