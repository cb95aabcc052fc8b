/**
 * The key-import wizard: a step counter (backup file, storage folder,
 * password), the import call and the routing of its error message to a
 * notice, the back link, and the storage-folder picker that prefers an
 * empty or absent `rum` folder and otherwise creates `rum-<date>-<n>`.
 *
 * The open dialogs, the file system and the import call are parameters:
 * a dialog result, a probe per path (`stat` error code, `readdir` listing),
 * whether `mkdir` succeeds, and the import reply. Paths are POSIX paths.
 */
module ImportKeyData {
  import opened Wrappers
  import opened JsString

  // The wizard steps; step 1, selecting an import mode, has no panel any more.
  const SelectBackup: nat := 2
  const SelectFolder: nat := 3
  const InputPassword: nat := 4

  /** The tooltips the wizard shows. */
  datatype Notice =
    | ImportDone
    | FailedToReadBackupFile
    | NotAValidZipFile
    | IsNotEmpty
    | IncorrectPassword
    | WritePermissionDenied
    | SomethingWrong

  // ---------------------------------------------------------------------
  // error routing

  /** The substrings looked for in an import error, in the order they are tried, with the notice each selects. */
  const ErrorRoutes: seq<(string, Notice)> := [
    ("Failed to read backup file", FailedToReadBackupFile),
    ("not a valid zip file", NotAValidZipFile),
    ("is not empty", IsNotEmpty),
    ("incorrect passphrase", IncorrectPassword),
    ("permission denied", WritePermissionDenied)
  ]

  /** Route `i` is the first whose substring occurs in `error`. */
  predicate FirstRouteAt(error: string, i: nat)
    requires i < |ErrorRoutes|
  {
    Includes(error, ErrorRoutes[i].0) && forall j :: 0 <= j < i ==> !Includes(error, ErrorRoutes[j].0)
  }

  /**
   * The notice for an import error: that of the first route whose
   * substring the message contains, and the generic notice when none does.
   */
  function ErrorNotice(error: string): (n: Notice)
    ensures n != ImportDone
    ensures n == SomethingWrong <==> forall j :: 0 <= j < |ErrorRoutes| ==> !Includes(error, ErrorRoutes[j].0)
    ensures n != SomethingWrong ==> exists i :: 0 <= i < |ErrorRoutes| && FirstRouteAt(error, i) && n == ErrorRoutes[i].1
  {
    if Includes(error, "Failed to read backup file") then
      assert FirstRouteAt(error, 0);
      FailedToReadBackupFile
    else if Includes(error, "not a valid zip file") then
      assert FirstRouteAt(error, 1);
      NotAValidZipFile
    else if Includes(error, "is not empty") then
      assert FirstRouteAt(error, 2);
      IsNotEmpty
    else if Includes(error, "incorrect passphrase") then
      assert FirstRouteAt(error, 3);
      IncorrectPassword
    else if Includes(error, "permission denied") then
      assert FirstRouteAt(error, 4);
      WritePermissionDenied
    else
      SomethingWrong
  }

  // ---------------------------------------------------------------------
  // paths

  function StripTrailingSlashes(p: string): (r: string)
    ensures |r| <= |p| && r == p[..|r|]
    ensures r == [] || r[|r| - 1] != '/'
    decreases |p|
  {
    if |p| > 0 && p[|p| - 1] == '/' then StripTrailingSlashes(p[..|p| - 1]) else p
  }

  /** Everything after the last `/`. */
  function AfterLastSlash(s: string): (r: string)
    ensures '/' !in r
    decreases |s|
  {
    if s == [] || s[|s| - 1] == '/' then [] else AfterLastSlash(s[..|s| - 1]) + [s[|s| - 1]]
  }

  /** `path.basename(p)` (POSIX): the last component, trailing slashes ignored. */
  function Basename(p: string): string {
    AfterLastSlash(StripTrailingSlashes(p))
  }

  /** `path.join(dir, name)` (POSIX) for a directory and a single component; normalisation of `.` and `..` is out of scope. */
  function JoinPath(dir: string, name: string): string {
    if dir == "" then name else StripTrailingSlashes(dir) + "/" + name
  }

  lemma {:induction false} AfterLastSlashOfJoin(a: string, b: string)
    requires '/' !in b
    ensures AfterLastSlash(a + "/" + b) == b
    decreases |b|
  {
    var s := a + "/" + b;
    if b != [] {
      var b' := b[..|b| - 1];
      assert s[..|s| - 1] == a + "/" + b';
      assert forall c :: c in b' ==> c in b;
      AfterLastSlashOfJoin(a, b');
      assert b == b' + [b[|b| - 1]];
    }
  }

  /** The base name of a joined path is the component that was joined. */
  lemma BasenameOfJoin(dir: string, name: string)
    requires name != "" && '/' !in name
    ensures Basename(JoinPath(dir, name)) == name
  {
    var p := JoinPath(dir, name);
    assert p[|p| - 1] == name[|name| - 1];
    assert name[|name| - 1] in name;
    assert StripTrailingSlashes(p) == p;
    if dir == "" {
      AfterLastSlashOfJoin("", name);
      assert "" + "/" + name == "/" + name;
      assert AfterLastSlash(name) == name by {
        AfterLastSlashNoSlash(name);
      }
    } else {
      AfterLastSlashOfJoin(StripTrailingSlashes(dir), name);
    }
  }

  lemma {:induction false} AfterLastSlashNoSlash(s: string)
    requires '/' !in s
    ensures AfterLastSlash(s) == s
    decreases |s|
  {
    if s != [] {
      assert forall c :: c in s[..|s| - 1] ==> c in s;
      AfterLastSlashNoSlash(s[..|s| - 1]);
      assert s == s[..|s| - 1] + [s[|s| - 1]];
    }
  }

  /** `/^rum(-.+)?$/` on a name: `rum`, or `rum-` and at least one more character, none a line terminator. */
  predicate RumName(name: string) {
    || name == "rum"
    || (|name| > 4 && name[..4] == "rum-" && forall k :: 4 <= k < |name| ==> !IsLineTerminator(name[k]))
  }

  /** `isRumFolder(p)` */
  predicate IsRumFolder(p: string) {
    RumName(Basename(p))
  }

  /** What the file system reports for one path. */
  datatype FsProbe = FsProbe(statError: Option<string>, listing: Option<seq<string>>)

  /** `isEmptyFolder(p)`: `stat` fails with ENOENT, or `readdir` lists nothing. */
  predicate IsEmptyFolder(probe: FsProbe) {
    probe.statError == Some("ENOENT") || (probe.listing.Some? && |probe.listing.value| == 0)
  }

  predicate Suitable(p: string, fs: string -> FsProbe) {
    IsRumFolder(p) && IsEmptyFolder(fs(p))
  }

  /** The date part of the folder names: `yyyyMMdd`. */
  predicate ValidDate(date: string) {
    |date| == 8 && AllDigits(date)
  }

  /** The three folders tried in order: the chosen one, its `rum`, and its `rum-<date>`. */
  function Candidates(selected: string, date: string): seq<string> {
    [selected, JoinPath(selected, "rum"), JoinPath(selected, "rum-" + date)]
  }

  /** The two derived candidates always pass `isRumFolder`. */
  lemma DerivedCandidatesAreRum(selected: string, date: string)
    requires ValidDate(date)
    ensures IsRumFolder(Candidates(selected, date)[1])
    ensures IsRumFolder(Candidates(selected, date)[2])
  {
    BasenameOfJoin(selected, "rum");
    var dated := "rum-" + date;
    assert forall k :: 4 <= k < |dated| ==> dated[k] == date[k - 4];
    assert '/' !in dated;
    BasenameOfJoin(selected, dated);
  }

  // ---------------------------------------------------------------------
  // the fresh folder index

  /** The number of decimal digits at the end of `s`. */
  function TrailingDigits(s: string): (n: nat)
    ensures n <= |s|
    ensures forall k :: |s| - n <= k < |s| ==> IsDigit(s[k])
    ensures n < |s| ==> !IsDigit(s[|s| - 1 - n])
    decreases |s|
  {
    if |s| > 0 && IsDigit(s[|s| - 1]) then 1 + TrailingDigits(s[..|s| - 1]) else 0
  }

  function Marker(date: string): string {
    "rum-" + date + "-"
  }

  /**
   * `new RegExp(`rum-${date}-(\\d+?)$`).exec(name)` followed by `Number`
   * of the group: the value of the digits ending the name, when the name
   * ends in `rum-<date>-` and at least one digit.
   */
  function MatchIndex(name: string, date: string): (r: Option<nat>)
    ensures r.Some? ==> exists x, e :: name == x + Marker(date) + e && e != [] && AllDigits(e) && r.value == DigitsToNat(e)
  {
    var n := TrailingDigits(name);
    var prefix := name[..|name| - n];
    var digits := name[|name| - n..];
    if n > 0 && EndsWith(prefix, Marker(date)) then
      assert name == prefix[..|prefix| - |Marker(date)|] + Marker(date) + digits;
      Some(DigitsToNat(digits))
    else None
  }

  /** Conversely, every name of that shape matches, with the value of its final digits. */
  lemma MatchIndexOfShape(x: string, date: string, e: string)
    requires e != [] && AllDigits(e)
    ensures MatchIndex(x + Marker(date) + e, date) == Some(DigitsToNat(e))
  {
    var name := x + Marker(date) + e;
    var n := TrailingDigits(name);
    assert name[|name| - 1 - |e|] == '-';
    assert n == |e|;
    assert name[|name| - n..] == e;
    assert name[..|name| - n] == x + Marker(date);
  }

  /** `files.map(match).filter(...).map(Number).reduce(Math.max, 0)` */
  function MaxIndex(files: seq<string>, date: string): nat
    decreases |files|
  {
    if files == [] then 0
    else
      var rest := MaxIndex(files[..|files| - 1], date);
      var here := MatchIndex(files[|files| - 1], date);
      if here.Some? && here.value > rest then here.value else rest
  }

  /** The maximum bounds every matching entry's index, and is 0 or one of them. */
  lemma {:induction false} MaxIndexIsMaximum(files: seq<string>, date: string)
    ensures forall i :: 0 <= i < |files| && MatchIndex(files[i], date).Some? ==> MatchIndex(files[i], date).value <= MaxIndex(files, date)
    ensures MaxIndex(files, date) == 0 || exists i :: 0 <= i < |files| && MatchIndex(files[i], date) == Some(MaxIndex(files, date))
    decreases |files|
  {
    if files != [] {
      var init := files[..|files| - 1];
      MaxIndexIsMaximum(init, date);
      assert forall i :: 0 <= i < |init| ==> init[i] == files[i];
    }
  }

  /** The name of the folder created when no candidate is usable. */
  function NewFolderName(date: string, maxIndex: nat): string {
    Marker(date) + NatToDigits(maxIndex + 1)
  }

  /** A created name matches the pattern, with the index it was made from. */
  lemma NewFolderNameMatches(date: string, maxIndex: nat)
    ensures MatchIndex(NewFolderName(date, maxIndex), date) == Some(maxIndex + 1)
  {
    var ds := NatToDigits(maxIndex + 1);
    assert NewFolderName(date, maxIndex) == "" + Marker(date) + ds;
    MatchIndexOfShape("", date, ds);
    DigitsRoundTrip(maxIndex + 1);
  }

  /** The created folder never has the name of an entry already in the directory. */
  lemma NewFolderIsFresh(files: seq<string>, date: string)
    ensures NewFolderName(date, MaxIndex(files, date)) !in files
  {
    var m := MaxIndex(files, date);
    var name := NewFolderName(date, m);
    NewFolderNameMatches(date, m);
    MaxIndexIsMaximum(files, date);
    forall i | 0 <= i < |files| ensures files[i] != name {
      assert MatchIndex(files[i], date).Some? ==> MatchIndex(files[i], date).value <= m;
    }
  }

  /** The created folder is itself a `rum` folder. */
  lemma NewFolderIsRum(selected: string, date: string, maxIndex: nat)
    requires ValidDate(date)
    ensures IsRumFolder(JoinPath(selected, NewFolderName(date, maxIndex)))
  {
    var ds := NatToDigits(maxIndex + 1);
    var tail := date + "-" + ds;
    var name := NewFolderName(date, maxIndex);
    assert name == "rum-" + tail;
    forall k | 0 <= k < |tail| ensures IsDigit(tail[k]) || tail[k] == '-' {
      if k > |date| {
        assert tail[k] == ds[k - |date| - 1];
      }
    }
    assert forall k :: 4 <= k < |name| ==> name[k] == tail[k - 4];
    assert '/' !in name;
    BasenameOfJoin(selected, name);
  }

  // ---------------------------------------------------------------------
  // the back link

  /** What the dialog body shows at a step. */
  datatype Panel = BackupPanel | FolderPanel | PasswordPanel | NoPanel

  function PanelAt(step: nat): Panel {
    if step == SelectBackup then BackupPanel
    else if step == SelectFolder then FolderPanel
    else if step == InputPassword then PasswordPanel
    else NoPanel
  }

  /** The back link is rendered when `step > 1`. */
  predicate BackLinkShown(step: nat) {
    step > 1
  }

  /** The back handler as written: one step back, floored at 1. */
  function BackStep(step: nat): (s: nat)
    ensures step > 1 ==> s == step - 1
    ensures step <= 1 ==> s == 1
  {
    if step > 1 then step - 1 else 1
  }

  /**
   * Going back from the first panel reaches step 1, which has no panel and
   * no back link; the dialog ignores backdrop clicks and Escape, so nothing
   * is left that could move on or close it.
   */
  lemma BackFromFirstPanelStrands()
    ensures PanelAt(BackStep(SelectBackup)) == NoPanel
    ensures !BackLinkShown(BackStep(SelectBackup))
  {
  }

  /** The back step as evidently intended: never below the first panel. */
  function IntendedBackStep(step: nat): (s: nat)
    ensures SelectBackup <= step ==> SelectBackup <= s <= step
    ensures SelectBackup < step ==> s == step - 1
  {
    if step > SelectBackup then step - 1 else SelectBackup
  }

  /** From every panel, the intended back step lands on a panel. */
  lemma IntendedBackKeepsAPanel(step: nat)
    requires SelectBackup <= step <= InputPassword
    ensures PanelAt(IntendedBackStep(step)) != NoPanel
  {
  }

  // ---------------------------------------------------------------------
  // the wizard

  /** What `Quorum.importKey` gives back: a reply with an optional error, or an exception. */
  datatype ImportReply = Replied(error: Option<string>) | Threw

  /** The result of `dialog.showOpenDialog`. */
  datatype OpenDialogResult = OpenDialogResult(canceled: bool, filePaths: seq<string>)

  /** `selectePath()`: the picked directory, unless the pick was cancelled, empty or the current storage path. */
  function PickedDirectory(pick: OpenDialogResult, storagePath: string): (r: Option<string>)
    ensures r.Some? <==> !pick.canceled && |pick.filePaths| > 0 && pick.filePaths[0] != storagePath
    ensures r.Some? ==> r.value == pick.filePaths[0]
  {
    if pick.canceled || |pick.filePaths| == 0 || storagePath == pick.filePaths[0] then None
    else Some(pick.filePaths[0])
  }

  class ImportKeyWizard {
    var step: nat
    var open: bool
    var loading: bool
    var done: bool
    var loadingKeyData: bool
    var backupPath: Option<string>
    var password: string
    var storagePath: string
    /** The tooltips shown, in order. */
    var notices: seq<Notice>
    /** How many times the wizard has resolved its promise (`props.rs()`). */
    var resolved: nat
    /** The folders created with `mkdir`, in order. */
    var madeDirs: seq<string>

    /** The step stays within the counter's range; an import runs only from the password step, with `done` cleared. */
    ghost predicate Valid()
      reads this
    {
      1 <= step <= InputPassword && (loading ==> step == InputPassword && !done)
    }

    constructor ()
      ensures Valid()
      ensures step == SelectBackup && !open && !loading && !done && !loadingKeyData
      ensures backupPath == None && password == "" && storagePath == ""
      ensures notices == [] && resolved == 0 && madeDirs == []
    {
      step, open, loading, done, loadingKeyData := SelectBackup, false, false, false, false;
      backupPath, password, storagePath := None, "", "";
      notices, resolved, madeDirs := [], 0, [];
    }

    /** The mount effect opens the dialog. */
    method Mount()
      modifies this`open
      ensures open
    {
      open := true;
    }

    /** `handleClose` */
    method HandleClose()
      modifies this`open, this`resolved
      ensures !open && resolved == old(resolved) + 1
    {
      open := false;
      resolved := resolved + 1;
    }

    /** The dialog's `onClose`: ignored while loading and for a backdrop click; otherwise `handleClose`. */
    method DialogClose(backdropClick: bool)
      modifies this`open, this`resolved
      ensures loading || backdropClick ==> open == old(open) && resolved == old(resolved)
      ensures !loading && !backdropClick ==> !open && resolved == old(resolved) + 1
    {
      if loading || backdropClick {
        return;
      }
      HandleClose();
    }

    /**
     * `submit()`: ignored while loading; before the password step it only
     * advances the step; at the password step it starts the import
     * (`importing`), raising `loading` and clearing `done`.
     */
    method Submit() returns (importing: bool)
      requires Valid()
      modifies this`step, this`loading, this`done
      ensures Valid()
      ensures old(loading) ==> !importing && step == old(step) && loading && done == old(done)
      ensures !old(loading) && old(step) < InputPassword ==>
                !importing && step == old(step) + 1 && !loading && done == old(done)
      ensures !old(loading) && old(step) == InputPassword ==>
                importing && step == old(step) && loading && !done
    {
      importing := false;
      if loading {
        return;
      }
      if step < InputPassword {
        step := step + 1;
        return;
      }
      if step == InputPassword {
        loading, done := true, false;
        importing := true;
      }
    }

    /**
     * The rest of `submit()` once the import answers: success (no error, or
     * an empty one) marks `done`, shows the done notice and closes; an
     * error shows the notice its message routes to; an exception the
     * generic one. `loading` drops in every outcome.
     */
    method FinishImport(reply: ImportReply)
      requires Valid() && loading
      modifies this`loading, this`done, this`notices, this`open, this`resolved
      ensures Valid() && !loading
      ensures done <==> reply.Replied? && (reply.error.None? || reply.error.value == "")
      ensures done ==> notices == old(notices) + [ImportDone] && !open && resolved == old(resolved) + 1
      ensures reply.Replied? && reply.error.Some? && reply.error.value != "" ==>
                notices == old(notices) + [ErrorNotice(reply.error.value)] && open == old(open) && resolved == old(resolved)
      ensures reply.Threw? ==> notices == old(notices) + [SomethingWrong] && open == old(open) && resolved == old(resolved)
    {
      match reply {
        case Threw =>
          notices := notices + [SomethingWrong];
        case Replied(error) =>
          if error.None? || error.value == "" {
            done := true;
            notices := notices + [ImportDone];
            HandleClose();
          } else {
            notices := notices + [ErrorNotice(error.value)];
          }
      }
      loading := false;
    }

    /**
     * `handleSelectBackup()`: the first chosen file becomes the backup
     * path unless the dialog was cancelled. An empty choice makes the
     * access to its first path throw, which is caught, so nothing changes.
     * The spinner flag is down again afterwards in every case.
     */
    method SelectBackupFile(pick: OpenDialogResult)
      modifies this`backupPath, this`loadingKeyData
      ensures !loadingKeyData
      ensures !pick.canceled && |pick.filePaths| > 0 ==> backupPath == Some(pick.filePaths[0])
      ensures pick.canceled || |pick.filePaths| == 0 ==> backupPath == old(backupPath)
    {
      loadingKeyData := true;
      if !pick.canceled && |pick.filePaths| > 0 {
        backupPath := Some(pick.filePaths[0]);
      }
      loadingKeyData := false;
    }

    /** The password field's change handler. */
    method SetPassword(value: string)
      modifies this`password
      ensures password == value
    {
      password := value;
    }

    /** The back link's handler, as written: ignored while loading, else `BackStep`. */
    method Back()
      requires Valid()
      modifies this`step
      ensures Valid()
      ensures old(loading) ==> step == old(step)
      ensures !old(loading) ==> step == BackStep(old(step))
    {
      if loading {
        return;
      }
      step := BackStep(step);
    }

    /**
     * `handleSelectDir()`: a usable pick (`PickedDirectory`, and not the
     * empty string) is tried as is, then with `rum`, then with
     * `rum-<date>`; the first that is a `rum` folder and is absent or empty
     * becomes the storage path. Otherwise, when the pick can be listed and
     * `mkdir` succeeds, a new `rum-<date>-<max+1>` folder inside it does.
     */
    method SelectDir(pick: OpenDialogResult, date: string, fs: string -> FsProbe, mkdirOk: bool)
      modifies this`storagePath, this`madeDirs
      ensures var sel := PickedDirectory(pick, old(storagePath));
              sel.None? || sel.value == "" ==> storagePath == old(storagePath) && madeDirs == old(madeDirs)
      ensures var sel := PickedDirectory(pick, old(storagePath));
              sel.Some? && sel.value != "" ==>
                var paths := Candidates(sel.value, date);
                && ((exists i :: 0 <= i < |paths| && Suitable(paths[i], fs)) ==>
                      && madeDirs == old(madeDirs)
                      && exists i :: 0 <= i < |paths| && Suitable(paths[i], fs) && storagePath == paths[i]
                                     && forall j :: 0 <= j < i ==> !Suitable(paths[j], fs))
                && ((forall i :: 0 <= i < |paths| ==> !Suitable(paths[i], fs)) ==>
                      var listing := fs(sel.value).listing;
                      if listing.Some? && mkdirOk then
                        var newPath := JoinPath(sel.value, NewFolderName(date, MaxIndex(listing.value, date)));
                        storagePath == newPath && madeDirs == old(madeDirs) + [newPath]
                      else
                        storagePath == old(storagePath) && madeDirs == old(madeDirs))
    {
      var sel := PickedDirectory(pick, storagePath);
      if sel.None? || sel.value == "" {
        return;
      }
      var paths := Candidates(sel.value, date);
      var i := 0;
      while i < |paths|
        invariant 0 <= i <= |paths|
        invariant forall j :: 0 <= j < i ==> !Suitable(paths[j], fs)
        invariant storagePath == old(storagePath) && madeDirs == old(madeDirs)
      {
        if IsRumFolder(paths[i]) && IsEmptyFolder(fs(paths[i])) {
          storagePath := paths[i];
          return;
        }
        i := i + 1;
      }
      var listing := fs(sel.value).listing;
      if listing.None? || !mkdirOk {
        return;
      }
      var newPath := JoinPath(sel.value, NewFolderName(date, MaxIndex(listing.value, date)));
      madeDirs := madeDirs + [newPath];
      storagePath := newPath;
    }
  }

  /**
   * Whatever `handleSelectDir` settles on is a `rum` folder: a candidate is
   * taken only if it is one, and the created folder is one.
   */
  lemma SelectedStorageIsRum(selected: string, date: string, fs: string -> FsProbe, files: seq<string>, p: string)
    requires ValidDate(date)
    requires (exists i :: 0 <= i < 3 && Suitable(Candidates(selected, date)[i], fs) && p == Candidates(selected, date)[i])
             || p == JoinPath(selected, NewFolderName(date, MaxIndex(files, date)))
    ensures IsRumFolder(p)
  {
    if p == JoinPath(selected, NewFolderName(date, MaxIndex(files, date))) {
      NewFolderIsRum(selected, date, MaxIndex(files, date));
    }
  }
}
