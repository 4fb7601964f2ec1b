/**
  * The controller of src/controllers/MainWindowController.js: the map of
  * active sessions, `endSession`, `getSessionConfig` and the handler of the
  * main process's messages.  The sessions and targets come from the main
  * process's store (src/utils/storage.js), reached through Electron's
  * `remote` module: a lookup answers in a callback that runs after the
  * handler has returned.
  */
module MainWindow {
  import opened Wrappers
  import opened Text
  import opened Records
  import opened SessionDirective
  import UtilsStorage

  /** What `getSessionConfig(id)` stores under `id`: the session with its
    * target attached, or null when the store has no such session. */
  function ConfigFor(sessions: seq<Session>, targets: seq<Target>, id: string): (s: Slot)
    ensures s.Null? <==> id !in Ids(sessions)
    ensures s.Loaded? ==> s.config.session.id == id && s.config.session in sessions
    ensures s.Loaded? ==> s.config.target == FindOne(targets, s.config.session.fields.targetId)
  {
    match FindOne(sessions, id)
    case None => Null
    case Some(session) => Loaded(SessionConfig(session, FindOne(targets, session.fields.targetId)))
  }

  /** The slot belongs to a session of target `x`; an absent token matches
    * no session. */
  predicate OfTarget(slot: Slot, x: Option<string>)
  {
    slot.Loaded? && x.Some? && slot.config.session.fields.targetId == x.value
  }

  /** No key occurs twice. */
  predicate Distinct(keys: seq<string>)
  {
    forall i, j :: 0 <= i < j < |keys| ==> keys[i] != keys[j]
  }

  /** `keys` lists distinct keys, all in `active`. */
  predicate KeysOf(active: map<string, Slot>, keys: seq<string>)
  {
    (forall k :: k in keys ==> k in active) && Distinct(keys)
  }

  /** What the `target-changed x` loop leaves behind: the map once every
    * lookup it started has answered, whether the loop itself threw (on
    * reading `targetId` of a null slot), and whether some lookup threw in
    * its own callback (a session gone from the store: its slot becomes null
    * and reading its `targetId` throws). */
  datatype Reload = Reload(active: map<string, Slot>, stopped: bool, failed: bool)

  /** The `target-changed x` loop over the keys from the first.  The store
    * answers through Electron's `remote` module, so every callback runs
    * after the loop; since the loop reads each key once and each callback
    * writes only its own key, applying each lookup where the loop starts it
    * gives the same final map. */
  function ReloadMatching(active: map<string, Slot>, keys: seq<string>, x: Option<string>,
                          sessions: seq<Session>, targets: seq<Target>): (r: Reload)
    requires forall k :: k in keys ==> k in active
    ensures r.active.Keys == active.Keys
    decreases |keys|
  {
    if keys == [] then Reload(active, false, false)
    else
      var k := keys[0];
      assert k in active;
      if active[k].Null? then Reload(active, true, false)
      else if OfTarget(active[k], x) then
        var s := ConfigFor(sessions, targets, k);
        var rest := ReloadMatching(active[k := s], keys[1..], x, sessions, targets);
        rest.(failed := rest.failed || s.Null?)
      else ReloadMatching(active, keys[1..], x, sessions, targets)
  }

  /** Whatever happens, a slot that does not belong to target `x` is left as it was. */
  lemma {:induction false} ReloadMatchingFrame(active: map<string, Slot>, keys: seq<string>, x: Option<string>,
                                               sessions: seq<Session>, targets: seq<Target>)
    requires forall k :: k in keys ==> k in active
    ensures forall k :: k in active && !OfTarget(active[k], x) ==> ReloadMatching(active, keys, x, sessions, targets).active[k] == active[k]
    decreases |keys|
  {
    if keys != [] {
      var k0 := keys[0];
      if OfTarget(active[k0], x) {
        ReloadMatchingFrame(active[k0 := ConfigFor(sessions, targets, k0)], keys[1..], x, sessions, targets);
      } else if active[k0].Loaded? {
        ReloadMatchingFrame(active, keys[1..], x, sessions, targets);
      }
    }
  }

  /** With `n` the position of the first null slot (or the number of keys
    * when there is none), the loop throws exactly when there is a null
    * slot, some lookup throws exactly when a session of target `x` before
    * it is gone from the store, and exactly the sessions of target `x`
    * before it are reloaded. */
  lemma ReloadMatchingExact(active: map<string, Slot>, keys: seq<string>, n: nat, x: Option<string>,
                            sessions: seq<Session>, targets: seq<Target>)
    requires KeysOf(active, keys) && n <= |keys|
    requires forall j :: 0 <= j < n ==> active[keys[j]].Loaded?
    requires n < |keys| ==> active[keys[n]].Null?
    ensures var r := ReloadMatching(active, keys, x, sessions, targets);
      && (r.stopped <==> n < |keys|)
      && (r.failed <==> exists k :: k in keys[..n] && OfTarget(active[k], x) && k !in Ids(sessions))
      && forall k :: k in active ==>
           r.active[k] == (if k in keys[..n] && OfTarget(active[k], x) then ConfigFor(sessions, targets, k) else active[k])
  {
    ReloadStops(active, keys, n, x, sessions, targets);
    ReloadFails(active, keys, n, x, sessions, targets);
    ReloadReloads(active, keys, n, x, sessions, targets);
  }

  /** The slot the turn at `keys[0]` leaves under `keys[0]`. */
  function Turn(active: map<string, Slot>, k: string, x: Option<string>,
                sessions: seq<Session>, targets: seq<Target>): (r: map<string, Slot>)
    requires k in active
    ensures r.Keys == active.Keys && forall k' :: k' in active && k' != k ==> r[k'] == active[k']
  {
    if OfTarget(active[k], x) then active[k := ConfigFor(sessions, targets, k)] else active
  }

  /** The keys after the first are distinct keys of the map the first turn
    * leaves, and hold the slots they held before it. */
  lemma TailKeys(active: map<string, Slot>, keys: seq<string>, x: Option<string>,
                 sessions: seq<Session>, targets: seq<Target>)
    requires KeysOf(active, keys) && keys != []
    ensures var active' := Turn(active, keys[0], x, sessions, targets);
      && KeysOf(active', keys[1..])
      && forall j :: 0 <= j < |keys| - 1 ==> keys[1..][j] == keys[j + 1] && active'[keys[j + 1]] == active[keys[j + 1]]
  {
    var rest := keys[1..];
    forall j | 0 <= j < |rest| ensures rest[j] != keys[0] {
      assert rest[j] == keys[j + 1];
    }
    forall i, j | 0 <= i < j < |rest| ensures rest[i] != rest[j] {
      assert rest[i] == keys[i + 1] && rest[j] == keys[j + 1];
    }
  }

  /** The turn at a loaded first slot, then the loop over the other keys. */
  lemma ReloadHead(active: map<string, Slot>, keys: seq<string>, x: Option<string>,
                   sessions: seq<Session>, targets: seq<Target>)
    requires KeysOf(active, keys) && keys != [] && active[keys[0]].Loaded?
    ensures var k := keys[0];
      var r := ReloadMatching(active, keys, x, sessions, targets);
      var r' := ReloadMatching(Turn(active, k, x, sessions, targets), keys[1..], x, sessions, targets);
      r == r'.(failed := r'.failed || (OfTarget(active[k], x) && k !in Ids(sessions)))
  {
    TailKeys(active, keys, x, sessions, targets);
  }

  lemma {:induction false} ReloadStops(active: map<string, Slot>, keys: seq<string>, n: nat, x: Option<string>,
                                       sessions: seq<Session>, targets: seq<Target>)
    requires KeysOf(active, keys) && n <= |keys|
    requires forall j :: 0 <= j < n ==> active[keys[j]].Loaded?
    requires n < |keys| ==> active[keys[n]].Null?
    ensures ReloadMatching(active, keys, x, sessions, targets).stopped <==> n < |keys|
    decreases |keys|
  {
    if keys != [] && n > 0 {
      TailKeys(active, keys, x, sessions, targets);
      ReloadHead(active, keys, x, sessions, targets);
      ReloadStops(Turn(active, keys[0], x, sessions, targets), keys[1..], n - 1, x, sessions, targets);
    }
  }

  lemma {:induction false} ReloadFails(active: map<string, Slot>, keys: seq<string>, n: nat, x: Option<string>,
                                       sessions: seq<Session>, targets: seq<Target>)
    requires KeysOf(active, keys) && n <= |keys|
    requires forall j :: 0 <= j < n ==> active[keys[j]].Loaded?
    requires n < |keys| ==> active[keys[n]].Null?
    ensures ReloadMatching(active, keys, x, sessions, targets).failed
        <==> exists k :: k in keys[..n] && OfTarget(active[k], x) && k !in Ids(sessions)
    decreases |keys|
  {
    if keys != [] && n > 0 {
      var k0 := keys[0];
      var active' := Turn(active, k0, x, sessions, targets);
      var rest := keys[1..];
      TailKeys(active, keys, x, sessions, targets);
      ReloadHead(active, keys, x, sessions, targets);
      ReloadFails(active', rest, n - 1, x, sessions, targets);
      PrefixCons(keys, n);
      assert forall k :: k in rest[..n - 1] ==> k in rest && k != k0 && active'[k] == active[k];
    }
  }

  lemma {:induction false} ReloadReloads(active: map<string, Slot>, keys: seq<string>, n: nat, x: Option<string>,
                                         sessions: seq<Session>, targets: seq<Target>)
    requires KeysOf(active, keys) && n <= |keys|
    requires forall j :: 0 <= j < n ==> active[keys[j]].Loaded?
    requires n < |keys| ==> active[keys[n]].Null?
    ensures var r := ReloadMatching(active, keys, x, sessions, targets);
      forall k :: k in active ==>
        r.active[k] == (if k in keys[..n] && OfTarget(active[k], x) then ConfigFor(sessions, targets, k) else active[k])
    decreases |keys|
  {
    if keys != [] && n > 0 {
      var k0 := keys[0];
      var active' := Turn(active, k0, x, sessions, targets);
      var rest := keys[1..];
      TailKeys(active, keys, x, sessions, targets);
      ReloadHead(active, keys, x, sessions, targets);
      ReloadReloads(active', rest, n - 1, x, sessions, targets);
      PrefixCons(keys, n);
      var r' := ReloadMatching(active', rest, x, sessions, targets);
      forall k | k in active
        ensures r'.active[k] == (if k in keys[..n] && OfTarget(active[k], x) then ConfigFor(sessions, targets, k) else active[k])
      {
        if k == k0 {
          assert k !in rest;
        } else {
          assert active'[k] == active[k];
        }
      }
    }
  }

  /** The first `n` keys are the first key and the next `n - 1`. */
  lemma PrefixCons(keys: seq<string>, n: nat)
    requires 0 < n <= |keys|
    ensures keys[..n] == [keys[0]] + keys[1..][..n - 1]
  {
  }

  /** One turn of the `target-changed` loop, at the key `keys[i]`. */
  lemma ReloadStep(active: map<string, Slot>, keys: seq<string>, i: nat, x: Option<string>,
                   sessions: seq<Session>, targets: seq<Target>)
    requires i < |keys| && forall k :: k in keys ==> k in active
    ensures var k := keys[i];
      var r := ReloadMatching(active, keys[i..], x, sessions, targets);
      && (active[k].Null? ==> r == Reload(active, true, false))
      && (!OfTarget(active[k], x) && active[k].Loaded? ==> r == ReloadMatching(active, keys[i + 1..], x, sessions, targets))
      && (OfTarget(active[k], x) ==>
            var s := ConfigFor(sessions, targets, k);
            var rest := ReloadMatching(active[k := s], keys[i + 1..], x, sessions, targets);
            r == rest.(failed := rest.failed || s.Null?))
  {
    assert keys[i..][0] == keys[i];
    assert keys[i..][1..] == keys[i + 1..];
  }

  /** The key order with `key` added at the end when it is new, as a plain
    * object orders its (non-numeric) keys. */
  function AddKey(order: seq<string>, key: string): (r: seq<string>)
    ensures key in r && forall k :: k in r <==> k in order || k == key
  {
    if key in order then order else order + [key]
  }

  /** The key order without `key`. */
  function DropKey(order: seq<string>, key: string): (r: seq<string>)
    ensures forall k :: k in r <==> k in order && k != key
    decreases |order|
  {
    if order == [] then []
    else (if order[0] == key then [] else [order[0]]) + DropKey(order[1..], key)
  }

  /** The message handler's verdict: the map once every lookup it started
    * has answered, whether the handler itself threw, and whether a lookup
    * threw in its callback. */
  function Handled(active: map<string, Slot>, order: seq<string>, arg: string,
                   sessions: seq<Session>, targets: seq<Target>): (r: Reload)
    requires forall k :: k in order ==> k in active
  {
    var tokens := Split(arg, ' ');
    var key := if |tokens| > 1 then tokens[1] else "undefined";
    if tokens[0] == "start-session" || tokens[0] == "session-changed" then
      var slot := if |tokens| > 1 then ConfigFor(sessions, targets, key) else Null;
      Reload(active[key := slot], false, slot.Null?)
    else if tokens[0] == "target-changed" then
      ReloadMatching(active, order, if |tokens| > 1 then Some(tokens[1]) else None, sessions, targets)
    else Reload(active, false, false)
  }

  /** Messages other than the three commands leave the map alone. */
  lemma UnknownMessageIgnored(active: map<string, Slot>, order: seq<string>, arg: string,
                              sessions: seq<Session>, targets: seq<Target>)
    requires forall k :: k in order ==> k in active
    requires var t := Split(arg, ' ')[0]; t != "start-session" && t != "session-changed" && t != "target-changed"
    ensures Handled(active, order, arg, sessions, targets) == Reload(active, false, false)
  {
  }

  /** `start-session x` and `session-changed x` store the configuration of
    * session `x` under `x` and change no other slot. */
  lemma SessionMessageReloadsOne(active: map<string, Slot>, order: seq<string>, cmd: string, x: string,
                                 sessions: seq<Session>, targets: seq<Target>)
    requires forall k :: k in order ==> k in active
    requires cmd == "start-session" || cmd == "session-changed"
    requires ' ' !in x
    ensures var r := Handled(active, order, cmd + " " + x, sessions, targets);
      && r.active == active[x := ConfigFor(sessions, targets, x)]
      && !r.stopped
      && (r.failed <==> x !in Ids(sessions))
  {
    assert ' ' !in cmd by {
      assert cmd == "start-session" || cmd == "session-changed";
    }
    SplitFree(cmd, ' ');
    SplitFree(x, ' ');
    SplitAppend(cmd, x, ' ');
    assert cmd + " " + x == cmd + [' '] + x;
  }

  class MainWindowController {
    var activeSessions: map<string, Slot>
    /** The keys of `activeSessions` in the order a `for ... in` visits them. */
    var order: seq<string>

    ghost predicate Valid()
      reads this
    {
      KeysOf(activeSessions, order) && forall k :: k in activeSessions ==> k in order
    }

    constructor ()
      ensures Valid() && activeSessions == map[] && order == []
    {
      activeSessions := map[];
      order := [];
    }

    /** `endSession`: delete the session's slot; no other slot changes. */
    method EndSession(sessionId: string)
      requires Valid()
      modifies this
      ensures Valid()
      ensures activeSessions == old(activeSessions) - {sessionId}
      ensures order == DropKey(old(order), sessionId)
    {
      DropKeyDistinct(order, sessionId);
      activeSessions := activeSessions - {sessionId};
      order := DropKey(order, sessionId);
    }

    /** `getSessionConfig`: look the session up and store it, with its
      * target, under its id; a missing session stores null and then throws
      * on reading its `targetId`. */
    method GetSessionConfig(sessionId: string, store: UtilsStorage.Storage) returns (threw: bool)
      requires Valid()
      modifies this
      ensures Valid()
      ensures activeSessions == old(activeSessions)[sessionId := ConfigFor(store.sessions, store.targets, sessionId)]
      ensures order == AddKey(old(order), sessionId)
      ensures threw <==> sessionId !in Ids(store.sessions)
    {
      var sessionResult := store.GetSession(sessionId);
      AddKeyDistinct(order, sessionId);
      order := AddKey(order, sessionId);
      if sessionResult.None? {
        activeSessions := activeSessions[sessionId := Null];
        return true;
      }
      var targetResult := store.GetTarget(sessionResult.value.fields.targetId);
      activeSessions := activeSessions[sessionId := Loaded(SessionConfig(sessionResult.value, targetResult))];
      return false;
    }

    /** The `target-changed x` loop: start a reload of each session of
      * target `x`, in key order, until the loop ends or throws at a null
      * slot; `failed` tells whether one of the reloads threw. */
    method ReloadTarget(x: Option<string>, store: UtilsStorage.Storage) returns (stopped: bool, failed: bool)
      requires Valid()
      modifies this
      ensures Valid() && order == old(order)
      ensures Reload(activeSessions, stopped, failed) == ReloadMatching(old(activeSessions), old(order), x, store.sessions, store.targets)
    {
      var keys := order;
      var i := 0;
      failed := false;
      while i < |keys|
        invariant 0 <= i <= |keys| && order == keys && Valid()
        invariant var r := ReloadMatching(activeSessions, keys[i..], x, store.sessions, store.targets);
          r.(failed := r.failed || failed) == ReloadMatching(old(activeSessions), keys, x, store.sessions, store.targets)
      {
        var sessionId := keys[i];
        assert sessionId in order;
        ReloadStep(activeSessions, keys, i, x, store.sessions, store.targets);
        if activeSessions[sessionId].Null? {
          return true, failed;
        }
        if OfTarget(activeSessions[sessionId], x) {
          ghost var before := activeSessions;
          var threw := GetSessionConfig(sessionId, store);
          assert order == keys;
          assert activeSessions == before[sessionId := ConfigFor(store.sessions, store.targets, sessionId)];
          assert threw == ConfigFor(store.sessions, store.targets, sessionId).Null?;
          failed := failed || threw;
        }
        i := i + 1;
      }
      return false, failed;
    }

    /** The handler of `asynchronous-message`: split the message on spaces
      * and act on its first token.  `stopped` tells whether the handler
      * threw, `failed` whether a lookup it started threw in its callback. */
    method HandleMessage(arg: string, store: UtilsStorage.Storage) returns (stopped: bool, failed: bool)
      requires Valid()
      modifies this
      ensures Valid()
      ensures Reload(activeSessions, stopped, failed) == Handled(old(activeSessions), old(order), arg, store.sessions, store.targets)
      ensures var t := Split(arg, ' ');
        order == if t[0] == "start-session" || t[0] == "session-changed"
                 then AddKey(old(order), if |t| > 1 then t[1] else "undefined")
                 else old(order)
    {
      var tokens := Split(arg, ' ');
      stopped := false;
      if tokens[0] == "start-session" || tokens[0] == "session-changed" {
        if |tokens| > 1 {
          failed := GetSessionConfig(tokens[1], store);
        } else {
          AddKeyDistinct(order, "undefined");
          order := AddKey(order, "undefined");
          activeSessions := activeSessions["undefined" := Null];
          failed := true;
        }
      } else if tokens[0] == "target-changed" {
        stopped, failed := ReloadTarget(if |tokens| > 1 then Some(tokens[1]) else None, store);
      } else {
        failed := false;
      }
    }
  }

  /** Adding a key keeps the keys distinct. */
  lemma AddKeyDistinct(order: seq<string>, key: string)
    requires Distinct(order)
    ensures Distinct(AddKey(order, key))
  {
  }

  /** Dropping a key keeps the keys distinct. */
  lemma {:induction false} DropKeyDistinct(order: seq<string>, key: string)
    requires Distinct(order)
    ensures Distinct(DropKey(order, key))
    decreases |order|
  {
    if order != [] {
      var rest := order[1..];
      assert Distinct(rest) by {
        forall i, j | 0 <= i < j < |rest| ensures rest[i] != rest[j] {
          assert rest[i] == order[i + 1] && rest[j] == order[j + 1];
        }
      }
      DropKeyDistinct(rest, key);
      assert order[0] !in rest;
      var head: seq<string> := if order[0] == key then [] else [order[0]];
      var tail := DropKey(rest, key);
      var r := head + tail;
      assert r == DropKey(order, key);
      forall i, j | 0 <= i < j < |r| ensures r[i] != r[j] {
        if |head| == 1 && i == 0 {
          assert r[0] == order[0] && order[0] !in tail;
          assert r[j] == tail[j - 1] && r[j] in tail;
        } else {
          assert r[i] == tail[i - |head|] && r[j] == tail[j - |head|];
        }
      }
    }
  }
}
