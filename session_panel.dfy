/**
  * The `mySession` directive of src/controllers/MainWindowController.js:
  * the per-session panel with its two sets of filter files, the list of
  * files offered for a push or a pull with their `send` flags, and the
  * decision the `sessionConfig` watcher takes on a change.
  */
module SessionDirective {
  import opened Wrappers
  import opened Records
  import Sync

  /** An entry of `scope.files`: the file and whether it is to be sent. */
  datatype Candidate = Candidate(filename: string, send: bool)

  /** The entries a push or a pull passes on: `files.filter(file => file.send)`. */
  function Sendable(files: seq<Candidate>): seq<Candidate>
  {
    if files == [] then []
    else Sendable(files[..|files| - 1]) + (if files[|files| - 1].send then [files[|files| - 1]] else [])
  }

  /** The filter passes on exactly the marked entries, and no more entries
    * than it was given. */
  lemma {:induction false} SendableMembers(files: seq<Candidate>)
    ensures |Sendable(files)| <= |files|
    ensures forall c :: c in Sendable(files) <==> c in files && c.send
    decreases |files|
  {
    if files != [] {
      var init := files[..|files| - 1];
      SendableMembers(init);
      assert files == init + [files[|files| - 1]];
    }
  }

  /** The filter keeps the order of the list: filtering a concatenation is
    * concatenating the filtered parts. */
  lemma {:induction false} SendableAppend(xs: seq<Candidate>, ys: seq<Candidate>)
    ensures Sendable(xs + ys) == Sendable(xs) + Sendable(ys)
    decreases |ys|
  {
    if ys == [] {
      assert xs + ys == xs;
    } else {
      var ys' := ys[..|ys| - 1];
      assert (xs + ys)[..|xs + ys| - 1] == xs + ys';
      assert (xs + ys)[|xs + ys| - 1] == ys[|ys| - 1];
      SendableAppend(xs, ys');
    }
  }

  /** Filtering twice is filtering once. */
  lemma {:induction false} SendableIdempotent(files: seq<Candidate>)
    ensures Sendable(Sendable(files)) == Sendable(files)
    decreases |files|
  {
    if files != [] {
      var init := files[..|files| - 1];
      var last := files[|files| - 1];
      var tail := if last.send then [last] else [];
      SendableIdempotent(init);
      SendableAppend(Sendable(init), tail);
      assert Sendable(tail) == tail by {
        if last.send {
          assert tail[..0] == [];
        }
      }
    }
  }

  /** A list whose entries are all marked is passed on whole. */
  lemma {:induction false} SendableAllMarked(files: seq<Candidate>)
    requires forall k :: 0 <= k < |files| ==> files[k].send
    ensures Sendable(files) == files
    decreases |files|
  {
    if files != [] {
      var init := files[..|files| - 1];
      assert forall k :: 0 <= k < |init| ==> init[k] == files[k];
      SendableAllMarked(init);
      assert files == init + [files[|files| - 1]];
    }
  }

  /** The watcher's verdict on a change of `sessionConfig`. */
  datatype WatchAction = NoAction | Reconnect | Refresh | Throws

  /** A watched value: undefined (`None`), null, or a session with its target. */
  datatype Slot = Null | Loaded(config: SessionConfig)

  /** What connecting depends on: the target id, and the target's host,
    * user name, password and key file path. */
  function ConnectionKey(c: SessionConfig): (string, string, string, Option<string>, Option<string>)
    requires c.target.Some?
  {
    var t := c.target.value.fields;
    (c.session.fields.targetId, t.host, t.username, t.password, t.keyfilePath)
  }

  /** The watcher: nothing when either value is undefined or null or both are
    * the same object; otherwise reconnect when the target id differs, or else
    * when host, user name, password or key file path differs, and refresh
    * the file lists when none does.  Comparing the targets' fields throws
    * when either target is null. */
  function Watch(newData: Option<Slot>, oldData: Option<Slot>, sameObject: bool): WatchAction
  {
    if newData.None? || newData.value.Null? || oldData.None? || oldData.value.Null? then NoAction
    else if sameObject then NoAction
    else
      var n := newData.value.config;
      var o := oldData.value.config;
      if n.session.fields.targetId != o.session.fields.targetId then Reconnect
      else if n.target.None? || o.target.None? then Throws
      else
        var nt := n.target.value.fields;
        var ot := o.target.value.fields;
        if nt.host != ot.host || nt.username != ot.username || nt.password != ot.password || nt.keyfilePath != ot.keyfilePath
        then Reconnect
        else Refresh
  }

  /** The watcher reconnects exactly when what connecting depends on
    * differs, and refreshes otherwise; a change of target id reconnects even
    * when a target is missing. */
  lemma WatchReconnectsIffKeyDiffers(n: SessionConfig, o: SessionConfig)
    ensures n.target.Some? && o.target.Some? ==>
      (Watch(Some(Loaded(n)), Some(Loaded(o)), false) == Reconnect <==> ConnectionKey(n) != ConnectionKey(o))
      && (Watch(Some(Loaded(n)), Some(Loaded(o)), false) == Refresh <==> ConnectionKey(n) == ConnectionKey(o))
    ensures n.session.fields.targetId != o.session.fields.targetId ==> Watch(Some(Loaded(n)), Some(Loaded(o)), false) == Reconnect
    ensures n.session.fields.targetId == o.session.fields.targetId && (n.target.None? || o.target.None?) ==>
      Watch(Some(Loaded(n)), Some(Loaded(o)), false) == Throws
  {
  }

  /** Skipping the reconnection loses nothing: when the watcher only
    * refreshes the lists, both targets are present, the target id is the
    * same, and `init` would connect with the same options as before. */
  lemma RefreshKeepsConnection(newData: Option<Slot>, oldData: Option<Slot>, sameObject: bool)
    ensures Watch(newData, oldData, sameObject) == Refresh ==>
      && newData.Some? && newData.value.Loaded? && oldData.Some? && oldData.value.Loaded?
      && var n := newData.value.config; var o := oldData.value.config;
         && n.session.fields.targetId == o.session.fields.targetId
         && n.target.Some? && o.target.Some?
         && Sync.ConnectOptionsFor(n.target.value) == Sync.ConnectOptionsFor(o.target.value)
  {
  }

  /** Undefined or null values, and an unchanged object, are ignored. */
  lemma WatchIgnoresMissing(newData: Option<Slot>, oldData: Option<Slot>, sameObject: bool)
    ensures newData.None? || oldData.None? || newData == Some(Null) || oldData == Some(Null) || sameObject
      ==> Watch(newData, oldData, sameObject) == NoAction
    ensures Watch(newData, oldData, sameObject) != NoAction ==> newData.Some? && oldData.Some? && !sameObject
  {
  }

  class SessionPanel {
    var localFilterFiles: set<string>
    var remoteFilterFiles: set<string>
    var files: seq<Candidate>
    var selectall: bool
    var push: bool
    var showProgress: bool
    var progress: nat

    constructor ()
      ensures localFilterFiles == {} && remoteFilterFiles == {} && files == [] && !showProgress
    {
      localFilterFiles := {};
      remoteFilterFiles := {};
      files := [];
      selectall := false;
      push := false;
      showProgress := false;
      progress := 0;
    }

    /** `selectLocalFilterFile`: add the node's file name to the local filter
      * set when it is selected, delete it when it is deselected. */
    method SelectLocalFilterFile(filename: string, selected: bool)
      modifies this`localFilterFiles
      ensures localFilterFiles == if selected then old(localFilterFiles) + {filename} else old(localFilterFiles) - {filename}
      ensures filename in localFilterFiles <==> selected
      ensures forall f :: f != filename ==> (f in localFilterFiles <==> f in old(localFilterFiles))
    {
      if selected {
        localFilterFiles := localFilterFiles + {filename};
      } else {
        localFilterFiles := localFilterFiles - {filename};
      }
    }

    /** `selectRemoteFilterFile`: the same on the remote filter set. */
    method SelectRemoteFilterFile(filename: string, selected: bool)
      modifies this`remoteFilterFiles
      ensures remoteFilterFiles == if selected then old(remoteFilterFiles) + {filename} else old(remoteFilterFiles) - {filename}
      ensures filename in remoteFilterFiles <==> selected
      ensures forall f :: f != filename ==> (f in remoteFilterFiles <==> f in old(remoteFilterFiles))
    {
      if selected {
        remoteFilterFiles := remoteFilterFiles + {filename};
      } else {
        remoteFilterFiles := remoteFilterFiles - {filename};
      }
    }

    /** The loop shared by `selectAll` and the list callbacks: set every
      * entry's `send` flag to `value`, leaving the entries otherwise alone. */
    method MarkAll(value: bool)
      modifies this`files
      ensures |files| == |old(files)|
      ensures forall k :: 0 <= k < |files| ==> files[k] == old(files)[k].(send := value)
    {
      var i := 0;
      while i < |files|
        invariant 0 <= i <= |files| && |files| == |old(files)|
        invariant forall k :: 0 <= k < i ==> files[k] == old(files)[k].(send := value)
        invariant forall k :: i <= k < |files| ==> files[k] == old(files)[k]
      {
        files := files[i := files[i].(send := value)];
        i := i + 1;
      }
    }

    /** `selectAll`: every entry's `send` becomes the current `selectall`. */
    method SelectAll()
      modifies this`files
      ensures |files| == |old(files)|
      ensures forall k :: 0 <= k < |files| ==> files[k] == old(files)[k].(send := selectall)
    {
      MarkAll(selectall);
    }

    /** `getListOfFilesToPush` with the list the generator produced: mark
      * the panel as pushing, select everything and offer every entry. */
    method GetListOfFilesToPush(generated: seq<Candidate>)
      modifies this`push, this`selectall, this`files
      ensures push && selectall
      ensures |files| == |generated|
      ensures forall k :: 0 <= k < |files| ==> files[k] == generated[k].(send := true)
      ensures Sendable(files) == files
    {
      push := true;
      selectall := true;
      files := generated;
      MarkAll(true);
      SendableAllMarked(files);
    }

    /** `getListOfFilesToPull`: the same, marking the panel as pulling. */
    method GetListOfFilesToPull(generated: seq<Candidate>)
      modifies this`push, this`selectall, this`files
      ensures !push && selectall
      ensures |files| == |generated|
      ensures forall k :: 0 <= k < |files| ==> files[k] == generated[k].(send := true)
      ensures Sendable(files) == files
    {
      push := false;
      selectall := true;
      files := generated;
      MarkAll(true);
      SendableAllMarked(files);
    }

    /** `pushFiles`: show the progress bar at zero and hand on the marked
      * entries, in order. */
    method PushFiles(offered: seq<Candidate>) returns (toPush: seq<Candidate>)
      modifies this`showProgress, this`progress
      ensures showProgress && progress == 0
      ensures toPush == Sendable(offered)
    {
      toPush := Sendable(offered);
      showProgress := true;
      progress := 0;
    }

    /** `pullFiles`: the same for a pull. */
    method PullFiles(offered: seq<Candidate>) returns (toPull: seq<Candidate>)
      modifies this`showProgress, this`progress
      ensures showProgress && progress == 0
      ensures toPull == Sendable(offered)
    {
      toPull := Sendable(offered);
      showProgress := true;
      progress := 0;
    }
  }
}
