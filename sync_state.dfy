/**
  * The module-level state of src/utils/sync.js and the operations that
  * change or read it: `init`, `readSyncIgnoreList`, `getRemoteFileList` and
  * `getLocalFileList`.  The SSH connection itself is outside the model:
  * `init` yields the options it would connect with, and what the connection
  * later reports is a parameter.
  */
module Sync {
  import opened Wrappers
  import opened Records
  import opened SyncIgnore
  import opened SyncListing

  /** How the connection authenticates: with the key read from a key file, or
    * with the password (which may be null). */
  datatype Credential = PrivateKey(keyfilePath: string) | Password(password: Option<string>)

  datatype ConnectOptions = ConnectOptions(host: string, port: nat, username: string, readyTimeout: nat, credential: Credential)

  const SshPort: nat := 22
  const ReadyTimeout: nat := 99999

  /** The options `init` connects with: the target's host and user on port
    * 22, and a private key exactly when the key file path is not null (an
    * empty path included), the password otherwise. */
  function ConnectOptionsFor(target: Target): (o: ConnectOptions)
    ensures o.host == target.fields.host && o.username == target.fields.username
    ensures o.port == 22 && o.readyTimeout == 99999
    ensures o.credential.PrivateKey? <==> target.fields.keyfilePath.Some?
    ensures o.credential.PrivateKey? ==> o.credential.keyfilePath == target.fields.keyfilePath.value
    ensures o.credential.Password? ==> o.credential.password == target.fields.password
  {
    ConnectOptions(target.fields.host, SshPort, target.fields.username, ReadyTimeout,
      match target.fields.keyfilePath
      case Some(path) => PrivateKey(path)
      case None => Password(target.fields.password))
  }

  /** What happens after `conn.connect`: no `ready` event at all, or a
    * `ready` event followed by a failed or a successful `conn.sftp`. */
  datatype SftpOutcome = NeverReady | SftpFailed | SftpOpened

  class Synchronizer {
    var connectionEstablished: bool
    /** `sftpSession` is not null. */
    var sftpOpen: bool
    var ignoreFileList: seq<string>
    var syncSession: Option<SessionConfig>

    constructor ()
      ensures !connectionEstablished && !sftpOpen && ignoreFileList == [] && syncSession == None
    {
      connectionEstablished := false;
      sftpOpen := false;
      ignoreFileList := [];
      syncSession := None;
    }

    /** `init`: drop an established connection, remember the session, and
      * connect with the options for its target; the connection counts as
      * established only once the SFTP channel is open. */
    method Init(session: SessionConfig, outcome: SftpOutcome) returns (options: ConnectOptions)
      requires session.target.Some?
      modifies this`connectionEstablished, this`sftpOpen, this`syncSession
      ensures options == ConnectOptionsFor(session.target.value)
      ensures syncSession == Some(session)
      ensures connectionEstablished <==> outcome == SftpOpened
      ensures sftpOpen == (if outcome == NeverReady then old(sftpOpen) else outcome == SftpOpened)
    {
      if connectionEstablished {
        connectionEstablished := false;
      }
      syncSession := Some(session);
      options := ConnectOptionsFor(session.target.value);
      match outcome {
        case NeverReady =>
        case SftpFailed =>
          sftpOpen := false;
        case SftpOpened =>
          sftpOpen := true;
          connectionEstablished := true;
      }
    }

    /** `readSyncIgnoreList`: replace the pattern list by the session's ignore
      * text, trimmed and split into lines, when that text is not empty. */
    method ReadSyncIgnoreList()
      requires syncSession.Some?
      modifies this`ignoreFileList
      ensures ignoreFileList == NextIgnoreList(syncSession.value.session.fields.fileIgnoreList, old(ignoreFileList))
    {
      ignoreFileList := NextIgnoreList(syncSession.value.session.fields.fileIgnoreList, ignoreFileList);
    }

    /** `getRemoteFileList`: refresh the pattern list, then walk the remote
      * tree from the session's remote root. */
    method GetRemoteFileList(remoteRoot: Contents) returns (r: Result<seq<FileEntry>, ListError>)
      requires syncSession.Some? && sftpOpen
      requires PlainList(NextIgnoreList(syncSession.value.session.fields.fileIgnoreList, ignoreFileList))
      modifies this`ignoreFileList
      ensures ignoreFileList == NextIgnoreList(syncSession.value.session.fields.fileIgnoreList, old(ignoreFileList))
      ensures r == EntriesOf(Remote, DirVisits(Remote, remoteRoot, "", syncSession.value.session.fields.recursive, ignoreFileList))
    {
      ReadSyncIgnoreList();
      r := ListDirectory(Remote, remoteRoot, "", syncSession.value.session.fields.recursive, ignoreFileList);
    }

    /** `getLocalFileList`: walk the local tree from the session's local root
      * with whatever pattern list the last remote listing left behind. */
    method GetLocalFileList(localRoot: Contents) returns (r: Result<seq<FileEntry>, ListError>)
      requires syncSession.Some?
      requires PlainList(ignoreFileList)
      ensures r == EntriesOf(Local, DirVisits(Local, localRoot, "", syncSession.value.session.fields.recursive, ignoreFileList))
    {
      r := ListDirectory(Local, localRoot, "", syncSession.value.session.fields.recursive, ignoreFileList);
    }
  }
}
