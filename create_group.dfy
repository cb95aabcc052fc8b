/**
 * The create-group wizard: a two-step counter (template, then name and
 * description; the icon editor is commented out, so the icon stays
 * empty), the guards in front of the creation request, and the follow-up
 * requests sent once the group exists: allow-list rules for a
 * `follow_alw_list` group, and config changes for a non-empty icon or
 * description.
 *
 * The confirmation dialog's answer, the creation reply and whether each
 * follow-up succeeded are parameters; the close timer and scrolling are
 * not modelled.
 */
module CreateGroup {
  import opened Wrappers
  import NodeService
  import ManageGroup

  const TotalSteps: nat := 2

  /** The authorisation type the wizard starts with; the step that could change it is never shown. */
  const DefaultAuthType: string := "FOLLOW_ALW_LIST"

  /** The authorisation type for which allow-list rules are sent. */
  const AllowListAuthType: string := "follow_alw_list"

  /** `GROUP_TEMPLATE_TYPE` */
  datatype TemplateType = Epub | EpubLink

  /** The wizard's props: `type` is either `'link_group'` or absent, `name` may be absent. */
  datatype Props = Props(linkGroup: bool, name: Option<string>)

  /** The confirmation dialog's answer. */
  datatype ConfirmChoice = Confirmed | Cancelled

  datatype CreateNotice = NameRequired | Created | SomethingWrong

  /** The arguments of a `createGroup` request that the wizard chooses. */
  datatype CreateRequest = CreateRequest(group_name: string, app_key: TemplateType)

  /** The two `updateFollowingRule` calls for an allow-list group. */
  datatype FollowRule = SetPostAuthMode | AllowPoster(pubkey: string)

  /** The initial template: the link template iff the wizard was opened for a link group. */
  function InitialType(props: Props): (t: TemplateType)
    ensures t == EpubLink <==> props.linkGroup
  {
    if props.linkGroup then EpubLink else Epub
  }

  /** The allow-list rules sent after creation: both, in order, for an allow-list group, none otherwise. */
  function FollowUpRules(authType: string, pubkey: string): (rs: seq<FollowRule>)
    ensures rs != [] <==> authType == AllowListAuthType
    ensures rs != [] ==> rs == [SetPostAuthMode, AllowPoster(pubkey)]
  {
    if authType == AllowListAuthType then [SetPostAuthMode, AllowPoster(pubkey)] else []
  }

  /**
   * The rule requests actually sent when request number `failAt` throws:
   * they run one after another, so the ones after the failing one are
   * never sent.
   */
  function AttemptedRules(rules: seq<FollowRule>, failAt: Option<nat>): (r: seq<FollowRule>)
    ensures |r| <= |rules| && r == rules[..|r|]
    ensures failAt.None? || failAt.value >= |rules| ==> r == rules
    ensures failAt.Some? && failAt.value < |rules| ==> |r| == failAt.value + 1
  {
    if failAt.Some? && failAt.value < |rules| then rules[..failAt.value + 1] else rules
  }

  /** The default authorisation type differs in case from the one the follow-up compares against, so no rule is ever sent. */
  lemma DefaultSendsNoRules(pubkey: string)
    ensures FollowUpRules(DefaultAuthType, pubkey) == []
  {
    assert DefaultAuthType[0] != AllowListAuthType[0];
  }

  /** The config changes sent after creation: one `add` per non-empty field, icon first. */
  function FollowUpConfig(icon: string, desc: string): (cs: seq<ManageGroup.ConfigChange>)
    ensures |cs| == (if icon != "" then 1 else 0) + (if desc != "" then 1 else 0)
    ensures forall i :: 0 <= i < |cs| ==> cs[i].action == ManageGroup.Add && cs[i].value != ""
    ensures icon != "" ==> cs[0] == ManageGroup.ConfigChange(ManageGroup.GroupIcon, ManageGroup.Add, icon)
    ensures desc != "" ==> cs[|cs| - 1] == ManageGroup.ConfigChange(ManageGroup.GroupDesc, ManageGroup.Add, desc)
  {
    (if icon != "" then [ManageGroup.ConfigChange(ManageGroup.GroupIcon, ManageGroup.Add, icon)] else [])
    + (if desc != "" then [ManageGroup.ConfigChange(ManageGroup.GroupDesc, ManageGroup.Add, desc)] else [])
  }

  /** Setting up a new group's config sends what saving those values over an empty config would. */
  lemma FollowUpConfigIsSaveFromEmpty(icon: string, desc: string)
    ensures FollowUpConfig(icon, desc) == ManageGroup.SaveRequests(icon, "", desc, "")
  {
    var cs := FollowUpConfig(icon, desc);
    var rs := ManageGroup.SaveRequests(icon, "", desc, "");
    assert |cs| == |rs|;
    forall i | 0 <= i < |cs| ensures cs[i] == rs[i] {
      if icon != "" && i == 0 {
        assert rs[0].key == ManageGroup.GroupIcon;
      } else {
        assert rs[i].key == ManageGroup.GroupDesc;
      }
    }
  }

  /** The value the wizard resolves with: the new group's id, or nothing when none was created. */
  function ResolvedValue(newGroupId: string): (r: Option<string>)
    ensures r.None? <==> newGroupId == ""
    ensures r.Some? ==> r.value == newGroupId
  {
    if newGroupId == "" then None else Some(newGroupId)
  }

  class CreateGroupWizard {
    const linkGroup: bool
    var open: bool
    var step: nat
    var name: string
    var desc: string
    var icon: string
    var templateType: TemplateType
    var authType: string
    var creating: bool
    var newGroupId: string
    /** Whether the wizard's Escape handler is registered. */
    var escRegistered: bool
    /** What the wizard resolved with, each time `handleClose` ran. */
    var resolved: seq<Option<string>>
    var notices: seq<CreateNotice>
    var requests: seq<CreateRequest>
    var rulesSent: seq<FollowRule>
    var configSent: seq<ManageGroup.ConfigChange>
    /** The groups opened in the reader after creation. */
    var openedBooks: seq<string>

    /**
     * The step counter stays within the two steps, and neither the
     * authorisation type nor the icon is ever changed: the panels that
     * would change them are not rendered.
     */
    ghost predicate Valid()
      reads this
    {
      step < TotalSteps && authType == DefaultAuthType && icon == ""
    }

    /** The initial `state`. */
    constructor (props: Props)
      ensures Valid()
      ensures linkGroup == props.linkGroup
      ensures !open && step == 0 && name == props.name.GetOr("") && desc == "" && icon == ""
      ensures templateType == InitialType(props) && authType == DefaultAuthType
      ensures !creating && newGroupId == "" && !escRegistered
      ensures resolved == [] && notices == [] && requests == [] && rulesSent == [] && configSent == [] && openedBooks == []
    {
      linkGroup := props.linkGroup;
      open, step := false, 0;
      name, desc, icon := props.name.GetOr(""), "", "";
      templateType, authType := InitialType(props), DefaultAuthType;
      creating, newGroupId, escRegistered := false, "", false;
      resolved, notices, requests := [], [], [];
      rulesSent, configSent, openedBooks := [], [], [];
    }

    /** The mount effect: register the Escape handler and open. */
    method Mount()
      modifies this`open, this`escRegistered
      ensures open && escRegistered
    {
      escRegistered := true;
      open := true;
    }

    /** `handlePrevStep` */
    method PrevStep()
      requires Valid()
      modifies this`step
      ensures Valid()
      ensures old(step) == 0 ==> step == 0
      ensures old(step) > 0 ==> step == old(step) - 1
    {
      if step == 0 {
        return;
      }
      step := step - 1;
    }

    /** `handleClose`: close, drop the Escape handler and resolve with the new group's id, if any. */
    method HandleClose()
      modifies this`open, this`escRegistered, this`resolved
      ensures !open && !escRegistered
      ensures resolved == old(resolved) + [ResolvedValue(newGroupId)]
    {
      open := false;
      escRegistered := false;
      resolved := resolved + [ResolvedValue(newGroupId)];
    }

    /**
     * The part of `handleConfirm` before the creation reply: ignored while
     * creating; an empty name only shows a notice; a cancelled
     * confirmation stops; otherwise the request goes out and `creating`
     * is raised.
     */
    method BeginConfirm(choice: ConfirmChoice) returns (started: bool)
      requires Valid()
      modifies this`notices, this`requests, this`creating
      ensures Valid()
      ensures started <==> !old(creating) && name != "" && choice == Confirmed
      ensures started ==> creating && requests == old(requests) + [CreateRequest(name, templateType)] && notices == old(notices)
      ensures !started ==> creating == old(creating) && requests == old(requests)
      ensures !old(creating) && name == "" ==> notices == old(notices) + [NameRequired]
      ensures (old(creating) || name != "") && !started ==> notices == old(notices)
    {
      started := false;
      if creating {
        return;
      }
      if name == "" {
        notices := notices + [NameRequired];
        return;
      }
      if choice == Cancelled {
        return;
      }
      requests := requests + [CreateRequest(name, templateType)];
      creating := true;
      started := true;
    }

    /**
     * `handleNextStep`: advance while a step is left; on the last step,
     * `handleConfirm` runs, with the effects `BeginConfirm` states.
     */
    method NextStep(choice: ConfirmChoice) returns (started: bool)
      requires Valid()
      modifies this`step, this`notices, this`requests, this`creating
      ensures Valid()
      ensures old(step) < TotalSteps - 1 ==> step == old(step) + 1 && !started && unchanged(this`notices, this`requests, this`creating)
      ensures old(step) >= TotalSteps - 1 ==> step == old(step) && (started <==> !old(creating) && name != "" && choice == Confirmed)
      ensures old(step) >= TotalSteps - 1 && started ==>
                creating && requests == old(requests) + [CreateRequest(name, templateType)] && notices == old(notices)
      ensures old(step) >= TotalSteps - 1 && !started ==> creating == old(creating) && requests == old(requests)
      ensures old(step) >= TotalSteps - 1 && !old(creating) && name == "" ==> notices == old(notices) + [NameRequired]
      ensures old(step) >= TotalSteps - 1 && (old(creating) || name != "") && !started ==> notices == old(notices)
    {
      if step < TotalSteps - 1 {
        step := step + 1;
        started := false;
      } else {
        started := BeginConfirm(choice);
      }
    }

    /**
     * The rest of `handleConfirm`: a failed creation shows a notice; a
     * created group is remembered, opened in the reader unless this is a
     * link group, the wizard closes, and the follow-up requests go out,
     * each failure of which shows a notice.
     */
    method FinishCreate(reply: Result<NodeService.Group, NodeService.NodeError>, rulesFailAt: Option<nat>, configOk: bool)
      requires creating
      modifies this`creating, this`notices, this`newGroupId, this`openedBooks, this`open, this`escRegistered,
               this`resolved, this`rulesSent, this`configSent
      ensures !creating
      ensures reply.Err? ==>
                && notices == old(notices) + [SomethingWrong]
                && unchanged(this`newGroupId, this`openedBooks, this`open, this`escRegistered, this`resolved, this`rulesSent, this`configSent)
      ensures reply.Ok? ==>
                var g := reply.value;
                var rules := FollowUpRules(authType, g.user_pubkey);
                var config := FollowUpConfig(icon, desc);
                && newGroupId == g.group_id
                && openedBooks == old(openedBooks) + (if linkGroup then [] else [g.group_id])
                && !open && !escRegistered && resolved == old(resolved) + [ResolvedValue(g.group_id)]
                && rulesSent == old(rulesSent) + AttemptedRules(rules, rulesFailAt)
                && configSent == old(configSent) + config
                && notices == old(notices) + [Created]
                                 + (if rulesFailAt.Some? && rulesFailAt.value < |rules| then [SomethingWrong] else [])
                                 + (if config != [] && !configOk then [SomethingWrong] else [])
    {
      creating := false;
      if reply.Err? {
        notices := notices + [SomethingWrong];
        return;
      }
      var g := reply.value;
      notices := notices + [Created];
      newGroupId := g.group_id;
      if !linkGroup {
        openedBooks := openedBooks + [g.group_id];
      }
      HandleClose();
      SendFollowUps(g.user_pubkey, rulesFailAt, configOk);
    }

    /**
     * The follow-up requests after creation: the rule requests in order
     * until one throws (`rulesFailAt`), the config changes together; one
     * notice for a failed rule sequence and one for a failed config batch.
     */
    method SendFollowUps(pubkey: string, rulesFailAt: Option<nat>, configOk: bool)
      modifies this`rulesSent, this`configSent, this`notices
      ensures var rules := FollowUpRules(authType, pubkey);
              var config := FollowUpConfig(icon, desc);
              && rulesSent == old(rulesSent) + AttemptedRules(rules, rulesFailAt)
              && configSent == old(configSent) + config
              && notices == old(notices)
                            + (if rulesFailAt.Some? && rulesFailAt.value < |rules| then [SomethingWrong] else [])
                            + (if config != [] && !configOk then [SomethingWrong] else [])
    {
      var rules := FollowUpRules(authType, pubkey);
      rulesSent := rulesSent + AttemptedRules(rules, rulesFailAt);
      var config := FollowUpConfig(icon, desc);
      configSent := configSent + config;
      if rulesFailAt.Some? && rulesFailAt.value < |rules| {
        notices := notices + [SomethingWrong];
      }
      if config != [] && !configOk {
        notices := notices + [SomethingWrong];
      }
    }

    /** `handleChangeType` */
    method ChangeType(t: TemplateType)
      modifies this`templateType
      ensures templateType == t
    {
      templateType := t;
    }

    method SetName(value: string)
      modifies this`name
      ensures name == value
    {
      name := value;
    }

    method SetDesc(value: string)
      modifies this`desc
      ensures desc == value
    {
      desc := value;
    }

  }

  /** The initial authorisation type as evidently intended: the allow-list value the panel offers and the follow-up tests for. */
  const IntendedDefaultAuthType: string := "follow_alw_list"

  /** With the intended default, a created group gets both allow-list rules, its creator's key allowed to post. */
  lemma IntendedDefaultSendsRules(pubkey: string)
    ensures FollowUpRules(IntendedDefaultAuthType, pubkey) == [SetPostAuthMode, AllowPoster(pubkey)]
  {
  }

  /**
   * The follow-ups a wizard sends while its invariant holds: no allow-list
   * rule, and at most the description's config change, never an icon.
   */
  lemma ValidWizardFollowUps(authType: string, icon: string, desc: string, pubkey: string)
    requires authType == DefaultAuthType && icon == ""
    ensures FollowUpRules(authType, pubkey) == []
    ensures FollowUpConfig(icon, desc) == (if desc == "" then [] else [ManageGroup.ConfigChange(ManageGroup.GroupDesc, ManageGroup.Add, desc)])
    ensures forall i :: 0 <= i < |FollowUpConfig(icon, desc)| ==> FollowUpConfig(icon, desc)[i].key != ManageGroup.GroupIcon
  {
    DefaultSendsNoRules(pubkey);
  }
}
