/**
 * The in-app updater: the renderer's flags, driven by the messages the
 * updater sends over IPC. "Not available" reports the latest version only
 * after a manual check; "downloaded" opens at most one dialog at a time,
 * showing the release notes split on `;`, and asks the updater to install
 * only when the dialog is confirmed.
 *
 * IPC and the dialog service are not modelled: messages are inputs, the
 * dialog's answer is an input to a second step, and what the store sends
 * or shows is recorded.
 */
module UpdateService {
  import opened Wrappers
  import opened JsString

  /** The integer fields of electron-updater's `ProgressInfo`, stored as received. */
  datatype ProgressInfo = ProgressInfo(total: nat, delta: int, transferred: nat, bytesPerSecond: nat)

  /** `UpdateInfo.releaseNotes`: a string, or anything else (an array of notes, or nothing). */
  datatype ReleaseNotes = NotesText(text: string) | NotText

  /** A `rum-updater` message: its `type` and `data`. */
  datatype UpdaterMessage =
    | UpdateNotAvailable
    | UpdateAvailable
    | UpdaterError
    | DownloadProgress(progress: ProgressInfo)
    | UpdateDownloaded(version: string, releaseNotes: ReleaseNotes)
      /** Any other `type`, for which the action table has no handler of its own. */
    | Unrecognised(typeName: string)

  /** The actions the renderer sends to the updater. */
  datatype UpdaterAction = Install | Update

  datatype DialogResult = Confirm | Cancel

  /** The "new version" dialog: the version and one paragraph per release-note line. */
  datatype UpdateDialog = UpdateDialog(version: string, lines: seq<string>)

  datatype UpdateNotice = AlreadyLatestVersion

  /**
   * The release-note paragraphs: none unless the notes are a non-empty
   * string, which is split on `;`.
   */
  function ReleaseNoteLines(notes: ReleaseNotes): (lines: seq<string>)
    ensures lines == [] <==> notes.NotText? || notes.text == ""
    ensures lines != [] ==> forall i :: 0 <= i < |lines| ==> ';' !in lines[i]
  {
    var releaseNotes := if notes.NotesText? then notes.text else "";
    if releaseNotes == "" then [] else Split(releaseNotes, ';')
  }

  /** Nothing of the notes is lost: joining the paragraphs with `;` gives back the string. */
  lemma ReleaseNoteLinesJoin(text: string)
    requires text != ""
    ensures Join(ReleaseNoteLines(NotesText(text)), ';') == text
  {
    JoinSplit(text, ';');
  }

  class UpdateStore {
    var manuallyChecking: bool
    var updating: bool
    var progress: Option<ProgressInfo>
    var updateDownloadedOpen: bool
    var notices: seq<UpdateNotice>
    /** The `rum-updater` actions sent, in order. */
    var sent: seq<UpdaterAction>
    /** The dialogs opened, in order. */
    var dialogs: seq<UpdateDialog>

    constructor ()
      ensures !manuallyChecking && !updating && progress == None && !updateDownloadedOpen
      ensures notices == [] && sent == [] && dialogs == []
    {
      manuallyChecking, updating, progress, updateDownloadedOpen := false, false, None, false;
      notices, sent, dialogs := [], [], [];
    }

    /**
     * `handleUpdate`: dispatch on the message type. For a downloaded
     * update this is the part before the dialog answers; the result says
     * whether a dialog was opened.
     */
    method HandleMessage(m: UpdaterMessage) returns (dialogOpened: bool)
      modifies this`manuallyChecking, this`progress, this`updateDownloadedOpen, this`notices, this`dialogs
      ensures dialogOpened <==> m.UpdateDownloaded? && !old(updateDownloadedOpen)
      ensures m.UpdateNotAvailable? ==>
                && !manuallyChecking
                && notices == old(notices) + (if old(manuallyChecking) then [AlreadyLatestVersion] else [])
                && unchanged(this`progress, this`updateDownloadedOpen, this`dialogs)
      ensures m.UpdateAvailable? ==>
                !manuallyChecking && unchanged(this`progress, this`updateDownloadedOpen, this`notices, this`dialogs)
      ensures m.DownloadProgress? ==>
                progress == Some(m.progress) && unchanged(this`manuallyChecking, this`updateDownloadedOpen, this`notices, this`dialogs)
      ensures m.UpdateDownloaded? ==>
                && updateDownloadedOpen
                && dialogs == old(dialogs) + (if dialogOpened then [UpdateDialog(m.version, ReleaseNoteLines(m.releaseNotes))] else [])
                && unchanged(this`manuallyChecking, this`progress, this`notices)
      ensures m.UpdaterError? || m.Unrecognised? ==>
                unchanged(this`manuallyChecking, this`progress, this`updateDownloadedOpen, this`notices, this`dialogs)
    {
      dialogOpened := false;
      match m {
        case UpdateNotAvailable =>
          if manuallyChecking {
            notices := notices + [AlreadyLatestVersion];
          }
          manuallyChecking := false;
        case UpdateAvailable =>
          manuallyChecking := false;
        case UpdaterError =>
        case DownloadProgress(p) =>
          progress := Some(p);
        case UpdateDownloaded(version, notes) =>
          if updateDownloadedOpen {
            return;
          }
          updateDownloadedOpen := true;
          dialogs := dialogs + [UpdateDialog(version, ReleaseNoteLines(notes))];
          dialogOpened := true;
        case Unrecognised(_) =>
      }
    }

    /** The rest of the downloaded handler, once its dialog answers: the flag clears; only a confirmation installs. */
    method DialogResolved(result: DialogResult)
      requires updateDownloadedOpen
      modifies this`updateDownloadedOpen, this`sent
      ensures !updateDownloadedOpen
      ensures sent == old(sent) + (if result == Confirm then [Install] else [])
    {
      updateDownloadedOpen := false;
      if result == Confirm {
        sent := sent + [Install];
      }
    }

    /** `checkUpdate`: nothing in development; otherwise mark a manual check and ask the updater to check. */
    method CheckUpdate(isDevelopment: bool)
      modifies this`manuallyChecking, this`sent
      ensures isDevelopment ==> manuallyChecking == old(manuallyChecking) && sent == old(sent)
      ensures !isDevelopment ==> manuallyChecking && sent == old(sent) + [Update]
    {
      if isDevelopment {
        return;
      }
      manuallyChecking := true;
      sent := sent + [Update];
    }
  }
}
