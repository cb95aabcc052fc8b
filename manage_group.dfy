/**
 * The manage-group dialog: it loads a group's icon and description from
 * the group config, lets both be edited, and on save sends one config
 * change per field that differs from what was loaded. An emptied field is
 * deleted with the placeholder value `holder`; anything else is added.
 *
 * The config service, the delay before saving and the close timer are not
 * modelled; the loaded config and the outcome of the save are parameters.
 */
module ManageGroup {
  import opened Wrappers
  import NodeService

  datatype ConfigKey = GroupIcon | GroupDesc

  datatype ConfigAction = Add | Del

  /** The arguments of one `changeGroupConfig` call (its `type` is always `string`). */
  datatype ConfigChange = ConfigChange(key: ConfigKey, action: ConfigAction, value: string)

  /** The config values as the dialog reads them, already turned into strings. */
  type Config = map<ConfigKey, string>

  /** `String(config?.[key] ?? '')` */
  function Lookup(config: Config, key: ConfigKey): string {
    if key in config then config[key] else ""
  }

  /** The change sent for one field: `add` with the value, or `del` with `holder` when it is empty. */
  function ConfigRequest(key: ConfigKey, value: string): (c: ConfigChange)
    ensures c.key == key
    ensures c.action == Add <==> value != ""
    ensures c.action == Add ==> c.value == value
    ensures c.action == Del ==> c.value == "holder"
  {
    if value != "" then ConfigChange(key, Add, value) else ConfigChange(key, Del, "holder")
  }

  /** How the group config looks after one change: an `add` sets the key, a `del` removes it. */
  function ApplyChange(config: Config, c: ConfigChange): (r: Config)
    ensures forall k :: k != c.key ==> Lookup(r, k) == Lookup(config, k)
  {
    match c.action
    case Add => config[c.key := c.value]
    case Del => config - {c.key}
  }

  function ApplyChanges(config: Config, cs: seq<ConfigChange>): Config
    decreases |cs|
  {
    if cs == [] then config else ApplyChanges(ApplyChange(config, cs[0]), cs[1..])
  }

  /** Whatever value a field holds, the change sent for it makes the config read back that value. */
  lemma ConfigRequestReadsBack(config: Config, key: ConfigKey, value: string)
    ensures Lookup(ApplyChange(config, ConfigRequest(key, value)), key) == value
  {
  }

  /** The requests `handleSave` issues: the icon's if it changed, then the description's if it changed. */
  function SaveRequests(icon: string, originalIcon: string, desc: string, originalDesc: string): (rs: seq<ConfigChange>)
    ensures |rs| <= 2
    ensures (exists i :: 0 <= i < |rs| && rs[i].key == GroupIcon) <==> icon != originalIcon
    ensures (exists i :: 0 <= i < |rs| && rs[i].key == GroupDesc) <==> desc != originalDesc
    ensures forall i :: 0 <= i < |rs| ==>
              rs[i] == (if rs[i].key == GroupIcon then ConfigRequest(GroupIcon, icon) else ConfigRequest(GroupDesc, desc))
    ensures forall i, j :: 0 <= i < j < |rs| ==> rs[i].key == GroupIcon && rs[j].key == GroupDesc
  {
    var iconPart := if icon != originalIcon then [ConfigRequest(GroupIcon, icon)] else [];
    var descPart := if desc != originalDesc then [ConfigRequest(GroupDesc, desc)] else [];
    var rs := iconPart + descPart;
    assert icon != originalIcon ==> rs[0].key == GroupIcon;
    assert desc != originalDesc ==> rs[|rs| - 1].key == GroupDesc;
    rs
  }

  /**
   * Saving edits to a config loaded by `init` leaves the group config
   * reading back exactly the edited icon and description.
   */
  lemma SaveReachesEditedValues(config: Config, icon: string, desc: string)
    ensures var rs := SaveRequests(icon, Lookup(config, GroupIcon), desc, Lookup(config, GroupDesc));
            && Lookup(ApplyChanges(config, rs), GroupIcon) == icon
            && Lookup(ApplyChanges(config, rs), GroupDesc) == desc
  {
    var rs := SaveRequests(icon, Lookup(config, GroupIcon), desc, Lookup(config, GroupDesc));
    if |rs| == 2 {
      var c1 := ApplyChange(config, rs[0]);
      assert rs[1..][0] == rs[1] && rs[1..][1..] == [];
      assert ApplyChanges(config, rs) == ApplyChanges(c1, rs[1..]);
      assert ApplyChanges(c1, rs[1..]) == ApplyChange(c1, rs[1]);
    } else if |rs| == 1 {
      assert rs[1..] == [];
    }
  }

  /** `group_name.substring(0, 1)` */
  function FirstLetter(name: string): (r: string)
    ensures |r| == (if name == "" then 0 else 1)
    ensures r == name[..|r|]
  {
    if name == "" then "" else name[..1]
  }

  /** The tooltip `handleSave` shows. */
  datatype SaveNotice = SavedAndWaitForSyncing | SomethingWrong

  class ManageGroupDialog {
    var open: bool
    var initiating: bool
    var loading: bool
    var firstLetter: string
    var originalDesc: string
    var originalIcon: string
    var name: string
    var icon: string
    var desc: string
    /** The config changes sent, in order. */
    var sent: seq<ConfigChange>
    var notices: seq<SaveNotice>

    constructor ()
      ensures open && !initiating && !loading
      ensures firstLetter == "" && originalDesc == "" && originalIcon == ""
      ensures name == "" && icon == "" && desc == ""
      ensures sent == [] && notices == []
    {
      open, initiating, loading := true, false, false;
      firstLetter, originalDesc, originalIcon := "", "", "";
      name, icon, desc := "", "", "";
      sent, notices := [], [];
    }

    /** `handleClose` (the destroy timer is not modelled). */
    method HandleClose()
      modifies this`open
      ensures !open
    {
      open := false;
    }

    /**
     * `init()`: a group id missing from the group map closes the dialog;
     * otherwise the group's config is refreshed (`config`, None when
     * `updateGroupConfig` rejects, which rejects `init` before anything is
     * loaded). On success the name, its first letter, the description and
     * the icon are loaded (missing config values read as empty), and the
     * originals are set to what was loaded.
     */
    method Init(groupMap: map<string, NodeService.Group>, groupId: string, config: Option<Config>)
      modifies this`open, this`name, this`firstLetter, this`desc, this`icon, this`originalDesc, this`originalIcon
      ensures groupId !in groupMap ==> !open && unchanged(this`name, this`firstLetter, this`desc, this`icon, this`originalDesc, this`originalIcon)
      ensures groupId in groupMap && config.None? ==>
                open == old(open) && unchanged(this`name, this`firstLetter, this`desc, this`icon, this`originalDesc, this`originalIcon)
      ensures groupId in groupMap && config.Some? ==>
                && open == old(open)
                && name == groupMap[groupId].group_name && firstLetter == FirstLetter(name)
                && desc == Lookup(config.value, GroupDesc) && icon == Lookup(config.value, GroupIcon)
                && originalDesc == desc && originalIcon == icon
      ensures groupId in groupMap && config.Some? ==> SaveRequests(icon, originalIcon, desc, originalDesc) == []
    {
      if groupId !in groupMap {
        HandleClose();
        return;
      }
      if config.None? {
        return;
      }
      var group := groupMap[groupId];
      name := group.group_name;
      firstLetter := FirstLetter(group.group_name);
      desc := Lookup(config.value, GroupDesc);
      icon := Lookup(config.value, GroupIcon);
      originalDesc := desc;
      originalIcon := icon;
    }

    /** The image editor's callback. */
    method SetIcon(url: string)
      modifies this`icon
      ensures icon == url
    {
      icon := url;
    }

    /** The description field's change handler. */
    method SetDesc(value: string)
      modifies this`desc
      ensures desc == value
    {
      desc := value;
    }

    /**
     * `handleSave()`: the changed fields' requests go out together;
     * `allSucceeded` says whether every one of them resolves, so with
     * nothing changed the batch always resolves. The tooltip reports the
     * batch; the dialog then stops loading and closes, in either case.
     */
    method Save(allSucceeded: bool)
      modifies this`loading, this`sent, this`notices, this`open
      ensures sent == old(sent) + SaveRequests(icon, originalIcon, desc, originalDesc)
      ensures notices == old(notices) + [if SaveRequests(icon, originalIcon, desc, originalDesc) == [] || allSucceeded
                                         then SavedAndWaitForSyncing else SomethingWrong]
      ensures !loading && !open
    {
      loading := true;
      var rs := SaveRequests(icon, originalIcon, desc, originalDesc);
      sent := sent + rs;
      if rs == [] || allSucceeded {
        notices := notices + [SavedAndWaitForSyncing];
      } else {
        notices := notices + [SomethingWrong];
      }
      loading := false;
      HandleClose();
    }
  }
}
