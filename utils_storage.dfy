/**
  * src/utils/storage.js: the main process's record store, with collections of
  * targets, sessions and settings.  The database file itself (load and save)
  * is outside the model; `init` is given what loading produced.
  */
module UtilsStorage {
  import opened Wrappers
  import opened Records

  /** What `db.loadDatabase` produced: an error, or the loaded collections
    * (the settings collection may be missing from an older database). */
  datatype Load = LoadFailed | Loaded(targets: seq<Target>, sessions: seq<Session>, settings: Option<seq<Settings>>)

  /** The settings record `initializeSettings` inserts. */
  const DefaultSettings: Settings := Doc("default", SettingsFields("", "%appdir%/tmp", true), map[])

  /** The settings collection after `init`: the loaded one, or a new one
    * holding only the default record. */
  function SettingsAfterLoad(load: Load): (r: seq<Settings>)
    ensures load.LoadFailed? || load.settings.None? ==>
      && r == [DefaultSettings]
      && FindOne(r, "default") == Some(DefaultSettings)
    ensures load.Loaded? && load.settings.Some? ==> r == load.settings.value
  {
    match load
    case LoadFailed => [DefaultSettings]
    case Loaded(_, _, settings) => if settings.None? then [DefaultSettings] else settings.value
  }

  class Storage {
    var targets: seq<Target>
    var sessions: seq<Session>
    var settings: seq<Settings>

    /** `init`: a failed load yields three empty collections and then the
      * default settings record; a load without settings adds the settings
      * collection and the default record; otherwise the loaded collections
      * are used as they are. */
    constructor Init(load: Load)
      ensures load.LoadFailed? ==> targets == [] && sessions == [] && settings == [DefaultSettings]
      ensures load.Loaded? ==> targets == load.targets && sessions == load.sessions
      ensures settings == SettingsAfterLoad(load)
      ensures load.LoadFailed? || load.settings.None? ==> GetSettings() == Some(DefaultSettings)
    {
      match load {
        case LoadFailed =>
          targets := [];
          sessions := [];
          settings := [DefaultSettings];
        case Loaded(t, s, st) =>
          targets := t;
          sessions := s;
          settings := SettingsAfterLoad(load);
      }
    }

    /** `saveTarget`: copy name, host, username, password and key file path
      * into the target with the same id, or insert the record. */
    method SaveTarget(newTarget: Target)
      modifies this`targets
      ensures targets == Upsert(old(targets), newTarget)
      ensures GetTarget(newTarget.id).Some? && GetTarget(newTarget.id).value.fields == newTarget.fields
      ensures forall id :: id != newTarget.id ==> GetTarget(id) == FindOne(old(targets), id)
      ensures UniqueIds(old(targets)) ==> UniqueIds(targets)
    {
      UpsertThenFind(targets, newTarget);
      if UniqueIds(targets) {
        UpsertKeepsIdsUnique(targets, newTarget);
      }
      forall id | id != newTarget.id ensures FindOne(Upsert(targets, newTarget), id) == FindOne(targets, id) {
        UpsertOtherIds(targets, newTarget, id);
      }
      targets := Upsert(targets, newTarget);
    }

    /** `getTarget({ id })`: the target with that id, or null. */
    function GetTarget(id: string): (r: Option<Target>)
      reads this
      ensures r.Some? ==> r.value.id == id && r.value in targets
      ensures r.None? <==> id !in Ids(targets)
    {
      FindOne(targets, id)
    }

    /** `deleteTarget({ id })`: remove the target with that id if there is one
      * (its callback always reports no error). */
    method DeleteTarget(id: string)
      modifies this`targets
      ensures targets == Remove(old(targets), id)
      ensures id !in Ids(old(targets)) ==> targets == old(targets)
      ensures forall other :: other != id ==> GetTarget(other) == FindOne(old(targets), other)
      ensures UniqueIds(old(targets)) ==> UniqueIds(targets) && GetTarget(id).None?
    {
      RemoveFrame(targets, id);
      forall other | other != id ensures FindOne(Remove(targets, id), other) == FindOne(targets, other) {
        RemoveOtherIds(targets, id, other);
      }
      if UniqueIds(targets) {
        RemoveKeepsIdsUnique(targets, id);
      }
      targets := Remove(targets, id);
    }

    /** `saveSession`: copy name, target id, both paths, the recursive flag and
      * the ignore text into the session with the same id, or insert the record. */
    method SaveSession(newSession: Session)
      modifies this`sessions
      ensures sessions == Upsert(old(sessions), newSession)
      ensures GetSession(newSession.id).Some? && GetSession(newSession.id).value.fields == newSession.fields
      ensures forall id :: id != newSession.id ==> GetSession(id) == FindOne(old(sessions), id)
      ensures UniqueIds(old(sessions)) ==> UniqueIds(sessions)
    {
      UpsertThenFind(sessions, newSession);
      if UniqueIds(sessions) {
        UpsertKeepsIdsUnique(sessions, newSession);
      }
      forall id | id != newSession.id ensures FindOne(Upsert(sessions, newSession), id) == FindOne(sessions, id) {
        UpsertOtherIds(sessions, newSession, id);
      }
      sessions := Upsert(sessions, newSession);
    }

    /** `getSession({ id })`: the session with that id, or null. */
    function GetSession(id: string): (r: Option<Session>)
      reads this
      ensures r.Some? ==> r.value.id == id && r.value in sessions
      ensures r.None? <==> id !in Ids(sessions)
    {
      FindOne(sessions, id)
    }

    /** `deleteSession({ id })`: remove the session with that id if there is
      * one (its callback always reports no error). */
    method DeleteSession(id: string)
      modifies this`sessions
      ensures sessions == Remove(old(sessions), id)
      ensures id !in Ids(old(sessions)) ==> sessions == old(sessions)
      ensures forall other :: other != id ==> GetSession(other) == FindOne(old(sessions), other)
      ensures UniqueIds(old(sessions)) ==> UniqueIds(sessions) && GetSession(id).None?
    {
      RemoveFrame(sessions, id);
      forall other | other != id ensures FindOne(Remove(sessions, id), other) == FindOne(sessions, other) {
        RemoveOtherIds(sessions, id, other);
      }
      if UniqueIds(sessions) {
        RemoveKeepsIdsUnique(sessions, id);
      }
      sessions := Remove(sessions, id);
    }

    /** `getSettings`: the record with id `default`, or null. */
    function GetSettings(): (r: Option<Settings>)
      reads this
      ensures r.Some? ==> r.value.id == "default" && r.value in settings
      ensures r.None? <==> "default" !in Ids(settings)
    {
      FindOne(settings, "default")
    }

    /** `saveSettings`: copy the three settings fields into the `default`
      * record, or insert the given record with its id forced to `default`. */
    method SaveSettings(newSettings: Settings)
      modifies this`settings
      ensures settings == Upsert(old(settings), newSettings.(id := "default"))
      ensures GetSettings().Some? && GetSettings().value.fields == newSettings.fields
      ensures "default" !in Ids(old(settings)) ==> GetSettings() == Some(newSettings.(id := "default"))
    {
      UpsertThenFind(settings, newSettings.(id := "default"));
      settings := Upsert(settings, newSettings.(id := "default"));
    }
  }
}
