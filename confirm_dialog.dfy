/**
 * The confirm-dialog store of the older UI: `show` fills the dialog from
 * its options, with `||` defaults for the texts, flags and width and `??`
 * defaults for the test ids; `hide` closes it; `setLoading` sets the
 * spinner. The dialog's content is modelled as a string and its callbacks
 * by name.
 */
module ConfirmDialog {
  import opened Wrappers

  /** A callback passed to the dialog, identified by name. */
  datatype Handler = Handler(name: string)

  /** The texts of `lang` the store falls back to. */
  datatype Lang = Lang(cancel: string, yes: string)

  /** `IShowOptions`; an optional field that was not passed is `None`. */
  datatype ShowOptions = ShowOptions(
    content: string,
    ok: Handler,
    cancel: Option<Handler>,
    cancelText: Option<string>,
    cancelDisabled: Option<bool>,
    okText: Option<string>,
    contentClassName: Option<string>,
    isDangerous: Option<bool>,
    maxWidth: Option<int>,
    confirmTestId: Option<string>,
    cancelTestId: Option<string>)

  /** `s || d` for an optional string: the default replaces a missing or empty string. */
  function StringOr(s: Option<string>, d: string): (r: string)
    ensures s.None? ==> r == d
    ensures s.Some? ==> r == (if s.value == "" then d else s.value)
  {
    if s.Some? && s.value != "" then s.value else d
  }

  /** `n || d` for an optional number: the default replaces a missing number or 0. */
  function NumberOr(n: Option<int>, d: int): (r: int)
    ensures r == d <==> n.None? || n.value == 0 || n.value == d
    ensures n.Some? && n.value != 0 ==> r == n.value
  {
    if n.Some? && n.value != 0 then n.value else d
  }

  /** `b || false` */
  function FlagOrFalse(b: Option<bool>): (r: bool)
    ensures r <==> b == Some(true)
  {
    b.Some? && b.value
  }

  /** `||` and `??` part ways on the empty string: the first replaces it, the second keeps it. */
  lemma OrAndNullishDiffer(d: string)
    requires d != ""
    ensures StringOr(Some(""), d) == d
    ensures Some("").GetOr(d) == ""
    ensures forall s: string :: s != "" ==> StringOr(Some(s), d) == Some(s).GetOr(d)
  {
  }

  class ConfirmDialogStore {
    var open: bool
    var content: string
    var cancelText: string
    var okText: string
    var contentClassName: string
    var loading: bool
    var cancelDisabled: bool
    var isDangerous: bool
    var maxWidth: int
    var confirmTestId: string
    var cancelTestId: string
    var ok: Option<Handler>
    var cancel: Option<Handler>

    /** `createConfirmDialogStore()`; the initial `ok` is a no-op, modelled as no handler. */
    constructor ()
      ensures !open && content == "" && cancelText == "" && okText == "" && contentClassName == ""
      ensures !loading && !cancelDisabled && !isDangerous && maxWidth == 250
      ensures confirmTestId == "" && cancelTestId == "" && ok == None && cancel == None
    {
      open, content, cancelText, okText, contentClassName := false, "", "", "", "";
      loading, cancelDisabled, isDangerous, maxWidth := false, false, false, 250;
      confirmTestId, cancelTestId, ok, cancel := "", "", None, None;
    }

    /** `show(options)`: `loading` is left alone, and `cancel` is kept unless a new one is passed. */
    method Show(options: ShowOptions, lang: Lang)
      modifies this
      ensures open && content == options.content && ok == Some(options.ok)
      ensures cancelText == StringOr(options.cancelText, lang.cancel)
      ensures okText == StringOr(options.okText, lang.yes)
      ensures contentClassName == StringOr(options.contentClassName, "")
      ensures maxWidth == NumberOr(options.maxWidth, 250)
      ensures cancelDisabled == FlagOrFalse(options.cancelDisabled)
      ensures isDangerous == FlagOrFalse(options.isDangerous)
      ensures confirmTestId == options.confirmTestId.GetOr("")
      ensures cancelTestId == options.cancelTestId.GetOr("")
      ensures cancel == (if options.cancel.Some? then options.cancel else old(cancel))
      ensures loading == old(loading)
    {
      ShowTexts(options, lang);
      ShowSettings(options);
    }

    /** The texts and test ids `show` sets. */
    method ShowTexts(options: ShowOptions, lang: Lang)
      modifies this`content, this`cancelText, this`okText, this`contentClassName, this`confirmTestId, this`cancelTestId
      ensures content == options.content
      ensures cancelText == StringOr(options.cancelText, lang.cancel)
      ensures okText == StringOr(options.okText, lang.yes)
      ensures contentClassName == StringOr(options.contentClassName, "")
      ensures confirmTestId == options.confirmTestId.GetOr("")
      ensures cancelTestId == options.cancelTestId.GetOr("")
    {
      content := options.content;
      cancelText := StringOr(options.cancelText, lang.cancel);
      okText := StringOr(options.okText, lang.yes);
      contentClassName := StringOr(options.contentClassName, "");
      confirmTestId := options.confirmTestId.GetOr("");
      cancelTestId := options.cancelTestId.GetOr("");
    }

    /** The flags, width and handlers `show` sets. */
    method ShowSettings(options: ShowOptions)
      modifies this`cancelDisabled, this`maxWidth, this`open, this`ok, this`isDangerous, this`cancel
      ensures open && ok == Some(options.ok)
      ensures maxWidth == NumberOr(options.maxWidth, 250)
      ensures cancelDisabled == FlagOrFalse(options.cancelDisabled)
      ensures isDangerous == FlagOrFalse(options.isDangerous)
      ensures cancel == (if options.cancel.Some? then options.cancel else old(cancel))
    {
      cancelDisabled := FlagOrFalse(options.cancelDisabled);
      maxWidth := NumberOr(options.maxWidth, 250);
      open := true;
      ok := Some(options.ok);
      isDangerous := FlagOrFalse(options.isDangerous);
      if options.cancel.Some? {
        cancel := options.cancel;
      }
    }

    /** `hide()`: closed, not loading, no cancel handler; the rest stays for the closing animation. */
    method Hide()
      modifies this`open, this`loading, this`cancel
      ensures !open && !loading && cancel == None
    {
      open := false;
      loading := false;
      cancel := None;
    }

    /** `setLoading(status)` */
    method SetLoading(status: bool)
      modifies this`loading
      ensures loading == status
    {
      loading := status;
    }
  }
}
