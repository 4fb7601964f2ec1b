/**
  * src/common/storage.js: the renderer-side record store, with the same
  * target and session collections and the same saves and deletes as
  * src/utils/storage.js, and no settings.  The database file itself is
  * outside the model; `init` is given what loading produced.
  */
module CommonStorage {
  import opened Wrappers
  import opened Records

  /** What `db.loadDatabase` produced: an error, or the loaded collections. */
  datatype Load = LoadFailed | Loaded(targets: seq<Target>, sessions: seq<Session>)

  class Storage {
    var targets: seq<Target>
    var sessions: seq<Session>

    /** `init`: a failed load yields two empty collections; otherwise the
      * loaded collections are used as they are. */
    constructor Init(load: Load)
      ensures load.LoadFailed? ==> targets == [] && sessions == []
      ensures load.Loaded? ==> targets == load.targets && sessions == load.sessions
    {
      match load {
        case LoadFailed =>
          targets := [];
          sessions := [];
        case Loaded(t, s) =>
          targets := t;
          sessions := s;
      }
    }

    /** `saveTarget`: copy name, host, username, password and key file path
      * into the target with the same id, or insert the record. */
    method SaveTarget(newTarget: Target)
      modifies this`targets
      ensures targets == Upsert(old(targets), newTarget)
      ensures GetTarget(newTarget.id).Some? && GetTarget(newTarget.id).value.fields == newTarget.fields
      ensures forall id :: id != newTarget.id ==> GetTarget(id) == FindOne(old(targets), id)
      ensures UniqueIds(old(targets)) ==> UniqueIds(targets)
    {
      UpsertThenFind(targets, newTarget);
      if UniqueIds(targets) {
        UpsertKeepsIdsUnique(targets, newTarget);
      }
      forall id | id != newTarget.id ensures FindOne(Upsert(targets, newTarget), id) == FindOne(targets, id) {
        UpsertOtherIds(targets, newTarget, id);
      }
      targets := Upsert(targets, newTarget);
    }

    /** `getTarget({ id })`: the target with that id, or null. */
    function GetTarget(id: string): (r: Option<Target>)
      reads this
      ensures r.Some? ==> r.value.id == id && r.value in targets
      ensures r.None? <==> id !in Ids(targets)
    {
      FindOne(targets, id)
    }

    /** `deleteTarget({ id })`: remove the target with that id if there is one
      * (its callback always reports no error). */
    method DeleteTarget(id: string)
      modifies this`targets
      ensures targets == Remove(old(targets), id)
      ensures id !in Ids(old(targets)) ==> targets == old(targets)
      ensures forall other :: other != id ==> GetTarget(other) == FindOne(old(targets), other)
      ensures UniqueIds(old(targets)) ==> UniqueIds(targets) && GetTarget(id).None?
    {
      RemoveFrame(targets, id);
      forall other | other != id ensures FindOne(Remove(targets, id), other) == FindOne(targets, other) {
        RemoveOtherIds(targets, id, other);
      }
      if UniqueIds(targets) {
        RemoveKeepsIdsUnique(targets, id);
      }
      targets := Remove(targets, id);
    }

    /** `saveSession`: copy name, target id, both paths, the recursive flag and
      * the ignore text into the session with the same id, or insert the record. */
    method SaveSession(newSession: Session)
      modifies this`sessions
      ensures sessions == Upsert(old(sessions), newSession)
      ensures GetSession(newSession.id).Some? && GetSession(newSession.id).value.fields == newSession.fields
      ensures forall id :: id != newSession.id ==> GetSession(id) == FindOne(old(sessions), id)
      ensures UniqueIds(old(sessions)) ==> UniqueIds(sessions)
    {
      UpsertThenFind(sessions, newSession);
      if UniqueIds(sessions) {
        UpsertKeepsIdsUnique(sessions, newSession);
      }
      forall id | id != newSession.id ensures FindOne(Upsert(sessions, newSession), id) == FindOne(sessions, id) {
        UpsertOtherIds(sessions, newSession, id);
      }
      sessions := Upsert(sessions, newSession);
    }

    /** `getSession({ id })`: the session with that id, or null. */
    function GetSession(id: string): (r: Option<Session>)
      reads this
      ensures r.Some? ==> r.value.id == id && r.value in sessions
      ensures r.None? <==> id !in Ids(sessions)
    {
      FindOne(sessions, id)
    }

    /** `deleteSession({ id })`: remove the session with that id if there is
      * one (its callback always reports no error). */
    method DeleteSession(id: string)
      modifies this`sessions
      ensures sessions == Remove(old(sessions), id)
      ensures id !in Ids(old(sessions)) ==> sessions == old(sessions)
      ensures forall other :: other != id ==> GetSession(other) == FindOne(old(sessions), other)
      ensures UniqueIds(old(sessions)) ==> UniqueIds(sessions) && GetSession(id).None?
    {
      RemoveFrame(sessions, id);
      forall other | other != id ensures FindOne(Remove(sessions, id), other) == FindOne(sessions, other) {
        RemoveOtherIds(sessions, id, other);
      }
      if UniqueIds(sessions) {
        RemoveKeepsIdsUnique(sessions, id);
      }
      sessions := Remove(sessions, id);
    }
  }
}
