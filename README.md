# epub-app core, modelled in Dafny

This project models the core of an Electron desktop reader for EPUB books
that are published in, and read from, groups held by a peer-to-peer node.

- **Node service.** The node service keeps the sorted list of joined groups and the active group. It leaves and switches groups, runs the polling timers, and waits for a new group to appear.
- **EPUB service.**
  - It keeps one upload record per group.
  - It uploads a book as a file description, then each segment in order, while tracking a status per entry.
  - After the upload it polls for the published book.
  - It stores highlights and reading progress in the local database.
- **Dialogs.** Five dialogs and stores are modelled:
  - the key-import wizard (steps, error routing, the storage-folder picker);
  - the create-group wizard (guards, creation, follow-up rules and config);
  - the manage-group dialog (load, edit, save only what changed);
  - the chapter list of the reader;
  - the updater store and the confirm-dialog store.

Stores whose fields the code updates in place are classes; their handlers
are methods over those fields. Pure computations are functions with
lemmas about them. Requests to the node, the file system, the open
dialogs, the import call, the clock and the IPC channel are not executed.
Their results are method parameters. What a store sends or shows (requests,
tooltips, created folders, resolved promises) is recorded in sequence
fields.

Modules, one per file:

- `Wrappers`: `Option` and `Result`.
- `JsString`: the JavaScript string behaviour the code relies on.
- `NodeService`, `EpubService`, `ImportKeyData`, `CreateGroup`,
  `ManageGroup`, `EpubChapters`, `UpdateService`, `ConfirmDialog`: one per
  core source file.

## Model

| member | source | states |
|---|---|---|
| JsString.IncludesAt | src/standaloneModals/importKeyData/index.tsx:97-131 | an occurrence of the substring at any position makes `includes` true |
| JsString.IncludesWitness | src/standaloneModals/importKeyData/index.tsx:97-131 | when `includes` is true the substring occurs at some position |
| JsString.StrLtIrreflexive | src/service/node/index.ts:53-58 | no string is below itself under `<` |
| JsString.StrLtAsymmetric | src/service/node/index.ts:53-58 | `a < b` excludes `b < a` |
| JsString.StrLtTrichotomy | src/service/node/index.ts:53-58 | of two strings one is below the other or they are equal |
| JsString.StrLtTransitive | src/service/node/index.ts:53-58 | `<` on strings is transitive |
| JsString.Trim | src/views/Content/GroupView/EpubView/EpubChaptersButton.tsx:139 | the trimmed label neither starts nor ends with white space or a line terminator |
| JsString.TrimSpec | src/views/Content/GroupView/EpubView/EpubChaptersButton.tsx:139 | `trim` keeps a middle slice and cuts off only trimmable characters on both sides |
| JsString.TrimIdempotent | src/views/Content/GroupView/EpubView/EpubChaptersButton.tsx:139 | trimming twice is trimming once |
| JsString.Split | src/service/update/index.tsx:48 | `split` on one character gives at least one part and no part holds the separator |
| JsString.JoinSplit | src/service/update/index.tsx:48 | joining the parts of a split with the separator gives back the string |
| JsString.SplitJoin | src/service/update/index.tsx:48 | splitting a join of separator-free parts gives back the parts |
| JsString.NatToDigits | src/standaloneModals/importKeyData/index.tsx:238 | the decimal form of a number is non-empty, all digits, without a leading zero |
| JsString.DigitsRoundTrip | src/standaloneModals/importKeyData/index.tsx:236-238 | reading back the decimal form of `n` gives `n` |
| NodeService.FindIndex | src/service/node/index.ts:146 | `findIndex` is -1 exactly when no group has the id, else the first position that has it |
| NodeService.FindById | src/service/node/index.ts:39 | `find` is null exactly when no group has the id, else the first group that has it |
| NodeService.EntriesById | src/service/node/index.ts:42-44 | the map's keys are exactly the ids of the list, and an id maps to its last group |
| NodeService.EntriesAgreeWithFind | src/service/node/index.ts:38-44 | with distinct ids, `groupMap` and `activeGroup`'s `find` return the same group |
| NodeService.CompareMeansNameThenId | src/service/node/index.ts:53-58 | the comparator orders by name, then by id, and is 0 only for equal name and id |
| NodeService.CompareAntisymmetric | src/service/node/index.ts:53-58 | swapping the arguments negates the comparator |
| NodeService.CompareTransitive | src/service/node/index.ts:53-58 | the comparator is transitive, so the sort is well defined |
| NodeService.SortGroups | src/service/node/index.ts:53-59 | the sorted list is a permutation of the fetched one |
| NodeService.SortGroupsSorted | src/service/node/index.ts:53-59 | the sorted list is ordered by name then id and is a permutation of its input |
| NodeService.RemoveFirstWhenAbsent | src/service/node/index.ts:139-148 | removing an id no group has leaves the list as it is |
| NodeService.RemoveFirstRemovesOne | src/service/node/index.ts:139-148 | removing a present id takes away exactly one copy of its first group |
| NodeService.RemoveFirstAt | src/service/node/index.ts:145-148 | removing the first group with an id cuts the list around that group's position |
| NodeService.SpliceAtFindIndex | src/service/node/index.ts:145-148 | with the id present, `splice(findIndex(...), 1)` removes exactly its first group |
| NodeService.SpliceWhenAbsent | src/service/node/index.ts:145-148 | with the id absent, the splice drops the last group, which is not what removing the id does |
| NodeService.LeaveAfterRacingPoll | src/service/node/index.ts:143-148 | a concrete list where leaving a group that a refresh already dropped removes an unrelated group |
| NodeService.InitActiveId | src/service/node/index.ts:61-63 | the first group's id on a non-empty list, and a thrown TypeError on an empty one |
| NodeService.InitActiveIdAgreesWhenNonEmpty | src/service/node/index.ts:61-63 | the written access and the guarded one agree on every non-empty list and differ on the empty one |
| NodeService.FirstIdOrEmpty | src/service/node/index.ts:150 | the first group's id, or `''` when the list is empty |
| NodeService.Timers | src/service/node/index.ts:181-186 | exactly the four timers, numbered in order, one per refresh task |
| NodeService.NodeStore.constructor | src/service/node/index.ts:17-47 | no groups, no active group, no timers |
| NodeService.NodeStore.ActiveGroup | src/service/node/index.ts:38-40 | null exactly when no group has the active id, else the first listed group with that id |
| NodeService.NodeStore.GroupMap | src/service/node/index.ts:42-44 | the ids the map holds are exactly those of the list |
| NodeService.NodeStore.UpdateGroups | src/service/node/index.ts:49-65 | a rejected fetch changes nothing; otherwise the sorted permutation of the fetched list (missing means empty) replaces the list; with `init` the first id becomes active, and an empty list throws after the replacement |
| NodeService.NodeStore.LeaveGroup | src/service/node/index.ts:134-153 | an absent id throws and changes nothing; otherwise the group at `findIndex` of the possibly refreshed list is spliced out, and a leaving active group hands over to the first group or none; with no refresh in between, exactly the group is removed |
| NodeService.NodeStore.ChangeActiveGroup | src/service/node/index.ts:155-164 | an unknown id throws and changes nothing; a known one becomes active and `activeGroup` finds it |
| NodeService.NodeStore.StopPolling | src/service/node/index.ts:189-192 | every disposer is called once, in order, and the list is emptied |
| NodeService.NodeStore.StartPolling | src/service/node/index.ts:168-187 | a second start without restart throws and changes nothing; otherwise a restart stops the old timers first, the four refreshes run once and exactly four new timers are registered |
| NodeService.WaitForGroup | src/service/node/index.ts:104-115 | at most 100 checks, stopping at the first snapshot holding the id; the result is that snapshot's group, or the not-found error after all 100 |
| NodeService.CreateGroup | src/service/node/index.ts:102-116 | a failed request fails; a result is always the created group's id; not found means none of the 100 snapshots held it |
| NodeService.JoinGroup | src/service/node/index.ts:118-132 | as `createGroup`, for the joined group |
| EpubService.UploadNames | src/service/epub/index.ts:52-58 | `fileinfo` first, then every segment id in order |
| EpubService.InitialSegments | src/service/epub/index.ts:52-58 | one pending entry per upload name, in order |
| EpubService.FirstNamedSpec | src/service/epub/index.ts:98 | the searched position is -1 exactly when no entry has the name, else the first entry with it |
| EpubService.SetStatusEffect | src/service/epub/index.ts:97-99 | `changeStatus` keeps every name, sets only the first entry with the name and leaves the rest alone |
| EpubService.PostedSameNames | src/service/epub/index.ts:101-127 | posting never renames, adds or drops an entry |
| EpubService.UploadOutcomeSameNames | src/service/epub/index.ts:101-127 | however the upload ends, the entries keep their names |
| EpubService.PostedMarksPrefixDone | src/service/epub/index.ts:101-127 | on distinct names in upload order, posting the first `k` names makes exactly those entries done |
| EpubService.UploadOutcomeStatuses | src/service/epub/index.ts:101-127 | a complete upload leaves every entry done; one that throws at post `f` leaves the earlier entries done, entry `f` uploading and the later ones as they were |
| EpubService.SetStatusMissesLaterCopy | src/service/epub/index.ts:97-99 | `changeStatus` never touches an entry whose name an earlier entry already has |
| EpubService.PostedMissesLaterCopy | src/service/epub/index.ts:97-127 | no number of posts ever changes such a later copy |
| EpubService.RepeatedIdStaysPending | src/service/epub/index.ts:97-127 | with a name repeated in the upload list, the later copy keeps its status however the upload ends, because `find` only reaches the first |
| EpubService.InitialSegmentsEntry | src/service/epub/index.ts:52-58 | the pending list is named after the upload list, and segment `k` is entry `k + 1`, pending |
| EpubService.FindBook | src/service/epub/index.ts:130 | null exactly when no book has the transaction id, else a listed book with it |
| EpubService.FindBookIsFirst | src/service/epub/index.ts:130 | the book found is the first in the list with the transaction id |
| EpubService.UploadEntry.constructor | src/service/epub/index.ts:33-40 | a fresh record, keeping only the previous record's recent book |
| EpubService.UploadEntry.Select | src/service/epub/index.ts:49-58 | the verified book is chosen, not done, every entry pending and named after it |
| EpubService.UploadEntry.ChangeStatus | src/service/epub/index.ts:97-99 | the first entry with the name gets the status |
| EpubService.UploadEntry.PostEntries | src/service/epub/index.ts:101-127 | the entries end as the upload outcome says, and the run completes exactly when no post throws |
| EpubService.UploadEntry.PostInOrder | src/service/epub/index.ts:101-127 | the loop leaves the list as the specified outcome of the same posts, names intact |
| EpubService.UploadEntry.PostOne | src/service/epub/index.ts:123-126 | one name goes uploading and, unless its post throws, done |
| EpubService.EpubStore.constructor | src/service/epub/index.ts:24-28 | no upload records and no parsed books |
| EpubService.EpubStore.GetOrInit | src/service/epub/index.ts:30-44 | the existing record untouched, or with `reset` or none a fresh one that keeps only the recent book |
| EpubService.EpubStore.SelectFile | src/service/epub/index.ts:46-60 | a verified book replaces the record's book with every entry pending, keeping its `uploading`, `fileinfo` and recent book; a failed verification changes an existing record not at all; an absent group gets a fresh record; no other group's record changes |
| EpubService.EpubStore.DoUpload | src/service/epub/index.ts:62-72 | nothing starts while uploading or without a book; otherwise only the record's `uploading` rises; an absent group gets a fresh record and nothing starts; no other group's record changes |
| EpubService.EpubStore.RunUpload | src/service/epub/index.ts:70-142 | the entries end as the upload outcome says and `uploading` drops; a failed post skips the poll; after a complete upload a successful last parse makes the record done with the first matching book, found within 30 polls or none after all 30, while a rejected parse leaves `uploadDone`, the recent book and the book map as the last successful parse left them |
| EpubService.EpubStore.PollForBook | src/service/epub/index.ts:128-135 | at most 30 parses, stopping at the first that holds the book or the first that rejects; each successful parse replaces the group's books, and a rejected one yields no book |
| EpubService.Without | src/service/epub/index.ts:174-180 | every record except the deleted triple, and no new one |
| EpubService.HighlightsOf | src/service/epub/index.ts:150-156 | exactly the records of that group and book |
| EpubService.SaveHighlightProperties | src/service/epub/index.ts:158-172 | saving is idempotent, adds the triple, keeps every other record and never creates a duplicate |
| EpubService.DeleteUndoesSave | src/service/epub/index.ts:158-180 | deleting after saving leaves exactly the other records |
| EpubService.LastProgress | src/service/epub/index.ts:182-188 | null exactly when no record matches, else the last matching record |
| EpubService.OtherProgress | src/service/epub/index.ts:192-195 | exactly the records of other groups or books |
| EpubService.SavedProgressReadBack | src/service/epub/index.ts:190-202 | after saving there is one record for the book, it is last and holds the value, and reading back with or without the book gives it |
| EpubService.SavedProgressKeepsOthers | src/service/epub/index.ts:190-202 | saving one book's progress leaves every other record |
| EpubService.Database.constructor | src/service/epub/index.ts:150-202 | both tables start empty |
| EpubService.Database.GetHighlights | src/service/epub/index.ts:150-156 | exactly the stored highlights of that group and book |
| EpubService.Database.SaveHighlight | src/service/epub/index.ts:158-172 | a record is added only when no equal triple exists, so no duplicates arise |
| EpubService.Database.DeleteHighlight | src/service/epub/index.ts:174-180 | every record with the triple is gone and nothing else, and a table without duplicates stays without |
| EpubService.WithoutKeepsNoRepeats | src/service/epub/index.ts:174-180 | deleting from a table without duplicates leaves none |
| EpubService.Database.GetReadingProgress | src/service/epub/index.ts:182-188 | the last record of the group, and of the book when one is given |
| EpubService.Database.SaveReadingProgress | src/service/epub/index.ts:190-202 | the book's old records are replaced by the new one, which reads back |
| ImportKeyData.ErrorNotice | src/standaloneModals/importKeyData/index.tsx:97-135 | the notice of the first listed substring the error contains, and the generic notice exactly when it contains none |
| ImportKeyData.BasenameOfJoin | src/standaloneModals/importKeyData/index.tsx:173-176 | the base name of a joined path is the joined component |
| ImportKeyData.DerivedCandidatesAreRum | src/standaloneModals/importKeyData/index.tsx:216-220 | the `rum` and `rum-<date>` candidates always pass `isRumFolder` |
| ImportKeyData.MatchIndex | src/standaloneModals/importKeyData/index.tsx:234-236 | a match means the name ends in `rum-<date>-` and digits, and gives their value |
| ImportKeyData.MatchIndexOfShape | src/standaloneModals/importKeyData/index.tsx:234-236 | every name ending in `rum-<date>-` and digits matches with their value |
| ImportKeyData.MaxIndexIsMaximum | src/standaloneModals/importKeyData/index.tsx:233-237 | the maximum bounds every matched index and is 0 or one of them |
| ImportKeyData.NewFolderNameMatches | src/standaloneModals/importKeyData/index.tsx:238 | the new folder's name matches the pattern with index `max + 1` |
| ImportKeyData.NewFolderIsFresh | src/standaloneModals/importKeyData/index.tsx:231-238 | the new folder's name is not that of any entry in the directory |
| ImportKeyData.NewFolderIsRum | src/standaloneModals/importKeyData/index.tsx:238 | the new folder passes `isRumFolder` |
| ImportKeyData.BackStep | src/standaloneModals/importKeyData/index.tsx:430 | one step back, floored at 1 |
| ImportKeyData.BackFromFirstPanelStrands | src/standaloneModals/importKeyData/index.tsx:418-431 | back from the backup step reaches step 1, which has no panel and no back link |
| ImportKeyData.IntendedBackStep | src/standaloneModals/importKeyData/index.tsx:425-431 | one step back, never below the first panel |
| ImportKeyData.IntendedBackKeepsAPanel | src/standaloneModals/importKeyData/index.tsx:425-431 | from every panel the intended back step lands on a panel |
| ImportKeyData.PickedDirectory | src/standaloneModals/importKeyData/index.tsx:199-208 | the first picked path, unless the pick was cancelled, empty or the current storage path |
| ImportKeyData.ImportKeyWizard.constructor | src/standaloneModals/importKeyData/index.tsx:58-68 | the backup step, closed, nothing chosen |
| ImportKeyData.ImportKeyWizard.Mount | src/standaloneModals/importKeyData/index.tsx:260-264 | the dialog opens |
| ImportKeyData.ImportKeyWizard.HandleClose | src/standaloneModals/importKeyData/index.tsx:253-256 | the dialog closes and resolves once more |
| ImportKeyData.ImportKeyWizard.DialogClose | src/standaloneModals/importKeyData/index.tsx:273-278 | ignored while loading or for a backdrop click, otherwise it closes |
| ImportKeyData.ImportKeyWizard.Submit | src/standaloneModals/importKeyData/index.tsx:70-80 | ignored while loading; before the password step it advances one step; at it the import starts with `done` cleared |
| ImportKeyData.ImportKeyWizard.FinishImport | src/standaloneModals/importKeyData/index.tsx:81-146 | done and closed exactly on a reply without error; an error shows its routed notice, an exception the generic one; `loading` always drops |
| ImportKeyData.ImportKeyWizard.SelectBackupFile | src/standaloneModals/importKeyData/index.tsx:150-170 | the first chosen file becomes the backup unless the choice was cancelled or empty; the spinner ends down |
| ImportKeyData.ImportKeyWizard.SetPassword | src/standaloneModals/importKeyData/index.tsx:399 | the password is the field's value |
| ImportKeyData.ImportKeyWizard.Back | src/standaloneModals/importKeyData/index.tsx:425-431 | ignored while loading, otherwise the written back step |
| ImportKeyData.ImportKeyWizard.SelectDir | src/standaloneModals/importKeyData/index.tsx:172-243 | no usable pick changes nothing; otherwise the first suitable candidate, in order, becomes the storage path; with none, a new `rum-<date>-<max+1>` folder is made and chosen |
| ImportKeyData.SelectedStorageIsRum | src/standaloneModals/importKeyData/index.tsx:222-242 | whatever folder is chosen passes `isRumFolder` |
| ManageGroup.ConfigRequest | src/standaloneModals/manageGroup/ManageGroup.tsx:50-63 | a field's change is an `add` of its value exactly when the value is non-empty, otherwise a `del` with `holder` |
| ManageGroup.ConfigRequestReadsBack | src/standaloneModals/manageGroup/ManageGroup.tsx:50-63 | applying a field's change makes the config read back the field's value |
| ManageGroup.SaveRequests | src/standaloneModals/manageGroup/ManageGroup.tsx:49-64 | at most two changes: one for the icon exactly when it changed, one for the description exactly when it changed, each the field's change, the icon's first |
| ManageGroup.SaveReachesEditedValues | src/standaloneModals/manageGroup/ManageGroup.tsx:49-64 | saving edits to the loaded config leaves it reading back exactly the edited icon and description |
| ManageGroup.FirstLetter | src/standaloneModals/manageGroup/ManageGroup.tsx:102 | the name's first character, or empty for an empty name |
| ManageGroup.ManageGroupDialog.constructor | src/standaloneModals/manageGroup/ManageGroup.tsx:24-36 | open, not loading, all fields empty |
| ManageGroup.ManageGroupDialog.HandleClose | src/standaloneModals/manageGroup/ManageGroup.tsx:80-83 | the dialog closes |
| ManageGroup.ManageGroupDialog.Init | src/standaloneModals/manageGroup/ManageGroup.tsx:85-111 | an unknown group closes the dialog; a rejected config refresh leaves every field as it was and the dialog open; otherwise the name, first letter, description and icon load with originals equal, so a save right away sends nothing |
| ManageGroup.ManageGroupDialog.SetIcon | src/standaloneModals/manageGroup/ManageGroup.tsx:143-145 | the icon is the editor's URL |
| ManageGroup.ManageGroupDialog.SetDesc | src/standaloneModals/manageGroup/ManageGroup.tsx:179 | the description is the field's value |
| ManageGroup.ManageGroupDialog.Save | src/standaloneModals/manageGroup/ManageGroup.tsx:40-78 | the changed fields' requests are sent; the tooltip reports success when nothing changed or every request succeeded, failure otherwise; the dialog stops loading and closes |
| CreateGroup.InitialType | src/standaloneModals/createGroup/CreateGroup.tsx:50-52 | the link template exactly for a link group |
| CreateGroup.FollowUpRules | src/standaloneModals/createGroup/CreateGroup.tsx:153-178 | both rules, in order, exactly for an allow-list group |
| CreateGroup.AttemptedRules | src/standaloneModals/createGroup/CreateGroup.tsx:155-174 | the rules sent are a prefix ending at the one that throws, or all of them |
| CreateGroup.DefaultSendsNoRules | src/standaloneModals/createGroup/CreateGroup.tsx:53-155 | the initial authorisation type never passes the allow-list test |
| CreateGroup.IntendedDefaultSendsRules | src/standaloneModals/createGroup/CreateGroup.tsx:153-178 | with the lower-case default, both allow-list rules go out for the creator's key |
| CreateGroup.ValidWizardFollowUps | src/standaloneModals/createGroup/CreateGroup.tsx:153-200 | with the initial authorisation type and the empty icon the wizard keeps, a created group gets no allow-list rule and at most the description's config change, never an icon |
| CreateGroup.FollowUpConfig | src/standaloneModals/createGroup/CreateGroup.tsx:179-200 | one `add` per non-empty field, icon first |
| CreateGroup.FollowUpConfigIsSaveFromEmpty | src/standaloneModals/createGroup/CreateGroup.tsx:179-200 | the config a new group gets is what the manage dialog would save over an empty config |
| CreateGroup.ResolvedValue | src/standaloneModals/createGroup/CreateGroup.tsx:224 | the new group's id, or nothing when none was created |
| CreateGroup.CreateGroupWizard.constructor | src/standaloneModals/createGroup/CreateGroup.tsx:43-61 | step 0, the given name, the template for the props, the default authorisation type |
| CreateGroup.CreateGroupWizard.Mount | src/standaloneModals/createGroup/CreateGroup.tsx:237-242 | open with the Escape handler registered |
| CreateGroup.CreateGroupWizard.PrevStep | src/standaloneModals/createGroup/CreateGroup.tsx:73-76 | one step back, not below 0 |
| CreateGroup.CreateGroupWizard.HandleClose | src/standaloneModals/createGroup/CreateGroup.tsx:221-226 | closed, Escape handler dropped, resolved with the new group's id or nothing |
| CreateGroup.CreateGroupWizard.BeginConfirm | src/standaloneModals/createGroup/CreateGroup.tsx:86-130 | creation starts exactly when not already creating, the name is non-empty and the dialog is confirmed; an empty name shows a notice |
| CreateGroup.CreateGroupWizard.NextStep | src/standaloneModals/createGroup/CreateGroup.tsx:78-130 | advances while a step is left; on the last step it confirms: creation starts exactly when not already creating, the name is non-empty and the dialog is confirmed, the request is appended and `creating` raised, and an empty name shows a notice |
| CreateGroup.CreateGroupWizard.FinishCreate | src/standaloneModals/createGroup/CreateGroup.tsx:132-218 | a failed creation shows a notice; a created group is remembered, opened unless a link group, the wizard closes, and the follow-ups go out with a notice per failed kind |
| CreateGroup.CreateGroupWizard.SendFollowUps | src/standaloneModals/createGroup/CreateGroup.tsx:153-218 | the rules up to the failing one, all config changes, a notice for a failed rule and for a failed config batch |
| CreateGroup.CreateGroupWizard.ChangeType | src/standaloneModals/createGroup/CreateGroup.tsx:65-67 | the template is the chosen one |
| CreateGroup.CreateGroupWizard.SetName | src/standaloneModals/createGroup/CreateGroup.tsx:458 | the name is the field's value |
| CreateGroup.CreateGroupWizard.SetDesc | src/standaloneModals/createGroup/CreateGroup.tsx:469 | the description is the field's value |
| EpubChapters.StripFragmentSpec | src/views/Content/GroupView/EpubView/EpubChaptersButton.tsx:124 | without `#` the `href` is kept; otherwise exactly the first `#` and the rest of its line are removed |
| EpubChapters.StripFragmentOfOneLine | src/views/Content/GroupView/EpubView/EpubChaptersButton.tsx:124 | for a one-line `href` the current test compares the part before the `#` |
| EpubChapters.ItemsCount | src/views/Content/GroupView/EpubView/EpubChaptersButton.tsx:123-153 | one row per chapter of a list, nested ones included |
| EpubChapters.ItemCount | src/views/Content/GroupView/EpubView/EpubChaptersButton.tsx:126-152 | one row for a chapter plus one per nested chapter |
| EpubChapters.ItemsGood | src/views/Content/GroupView/EpubView/EpubChaptersButton.tsx:123-153 | every row below a list is a chapter row indented at least as deep as the list by a multiple of 20 pixels, with a trimmed label and the current mark exactly when its `href` without the fragment is the current location |
| EpubChapters.ItemGood | src/views/Content/GroupView/EpubView/EpubChaptersButton.tsx:126-152 | the same for the rows of one chapter |
| EpubChapters.PlaceholderOnlyForEmptyRoot | src/views/Content/GroupView/EpubView/EpubChaptersButton.tsx:118-122 | the placeholder is drawn exactly for an empty root list, and then alone |
| EpubChapters.SiblingsInOrder | src/views/Content/GroupView/EpubView/EpubChaptersButton.tsx:123 | the rows of two runs of siblings are the rows of each, in order |
| EpubChapters.ChapterBeforeItsSubitems | src/views/Content/GroupView/EpubView/EpubChaptersButton.tsx:126-152 | a chapter's own row comes first, with its full `href` and its list's indent, followed by its subitems' rows |
| EpubChapters.ChaptersButton.constructor | src/views/Content/GroupView/EpubView/EpubChaptersButton.tsx:18-20 | closed, nothing clicked |
| EpubChapters.ChaptersButton.Open | src/views/Content/GroupView/EpubView/EpubChaptersButton.tsx:39 | the popover opens |
| EpubChapters.ChaptersButton.Close | src/views/Content/GroupView/EpubView/EpubChaptersButton.tsx:28-30 | the popover closes |
| EpubChapters.ChaptersButton.ChapterClick | src/views/Content/GroupView/EpubView/EpubChaptersButton.tsx:23-26 | the row's full `href` goes to the handler when there is one, and the popover closes |
| UpdateService.ReleaseNoteLines | src/service/update/index.tsx:37-54 | no paragraphs unless the notes are a non-empty string, and no paragraph holds `;` |
| UpdateService.ReleaseNoteLinesJoin | src/service/update/index.tsx:46-54 | the paragraphs joined with `;` give back the notes |
| UpdateService.UpdateStore.constructor | src/service/update/index.tsx:9-14 | no check running, no progress, no dialog open |
| UpdateService.UpdateStore.HandleMessage | src/service/update/index.tsx:16-75 | "not available" reports the latest version only after a manual check; "available" ends the check; progress is stored; "downloaded" opens a dialog exactly when none is open; errors and unknown types change nothing |
| UpdateService.UpdateStore.DialogResolved | src/service/update/index.tsx:60-65 | the dialog flag clears, and only a confirmation asks to install |
| UpdateService.UpdateStore.CheckUpdate | src/service/update/index.tsx:83-91 | nothing in development; otherwise a manual check starts and the updater is asked once |
| ConfirmDialog.StringOr | old/store/confirmDialog.ts:35 | a missing or empty text falls back to the default |
| ConfirmDialog.NumberOr | old/store/confirmDialog.ts:39 | the width falls back to 250 exactly when missing or 0, and is the given width otherwise |
| ConfirmDialog.FlagOrFalse | old/store/confirmDialog.ts:36 | a flag is set exactly when passed as true |
| ConfirmDialog.OrAndNullishDiffer | old/store/confirmDialog.ts:35-41 | `||` replaces an empty text while `??` keeps it, and they agree on non-empty texts |
| ConfirmDialog.ConfirmDialogStore.constructor | old/store/confirmDialog.ts:19-32 | closed, empty texts, width 250, no cancel handler |
| ConfirmDialog.ConfirmDialogStore.Show | old/store/confirmDialog.ts:33-48 | open with the options' texts and flags under their defaults; `loading` alone and the cancel handler kept unless a new one is passed |
| ConfirmDialog.ConfirmDialogStore.ShowTexts | old/store/confirmDialog.ts:34-41 | the content, texts and test ids under their defaults |
| ConfirmDialog.ConfirmDialogStore.ShowSettings | old/store/confirmDialog.ts:36-47 | the flags, width and handlers |
| ConfirmDialog.ConfirmDialogStore.Hide | old/store/confirmDialog.ts:49-53 | closed, not loading, no cancel handler |
| ConfirmDialog.ConfirmDialogStore.SetLoading | old/store/confirmDialog.ts:54-56 | the spinner takes the given status |

## Left out

- Rendering: layout, styling, dividers, scrolling, the scroll-into-view effect, the tooltips' texts (only their kind is kept) and the close and unmount timers.
- Requests to the node (`fetchMyGroups`, `createGroup`, `joinGroup`, `leaveGroup`, `postNote`, `checkTrx`, `getAllEpubs`, `changeGroupConfig`, `updateFollowingRule`), the import call, `verifyEpub`, the file system and the open dialogs: their outcomes are parameters.
- `sleep` and the interval timers: polling is a sequence of snapshots, and each timer is a numbered disposer.
- Interleavings of handlers that await are not modelled, except the refresh that `LeaveGroup` takes as a parameter. An example is a `selectFile` or a reset while an upload runs.
- `runLoading`, which is not part of this model, is taken to raise its flag, await the work and lower the flag in every outcome.
- JsString: `<` on JavaScript strings compares UTF-16 code units. The model compares Unicode scalar values, which order differently only for characters above U+FFFF against U+E000–U+FFFF.
- JsString.DigitsToNat: `Number` on a long digit string loses precision beyond 2^53. The model reads it exactly.
- ImportKeyData.JoinPath: `path.join` normalisation of `.`, `..` and repeated slashes, and Windows separators, are not modelled. Paths are POSIX.
- NodeService.SortGroups: `Array.prototype.sort` is modelled as a stable insertion sort. The comparator is proved to be a total preorder, but it is not proved that every stable sort gives this list.
- NodeService: `updateNodeInfo`, `updateNetworkInfo` and `updateAllGroupConfig` exist only as refresh names that `StartPolling` records. `updateGroupConfig` is not among those refreshes and is not modelled. `init`, which only returns `stopPolling`, is not modelled either. The node info, network info and config map are not modelled. The config the manage dialog reads is a parameter.
- NodeService.WaitForGroup: the refresh in the loop is not awaited, so each check reads whatever the last finished refresh left. `observed(i)` is that snapshot at check `i`.
- NodeService.NodeStore.GroupMap: its contract states which ids the map holds, not which group each maps to. `EntriesById` states that: the last group with the id.
- EpubService: the file description's content (the `fileinfo` field) is not modelled, and `checkTrx` failing counts as a failed post. The local database's query order is taken to be insertion order, and its transactions to be atomic.
- ImportKeyData: `backupFileContent` is never set and is not modelled. The disabled state of the submit buttons (no backup chosen, empty password) is a rendering guard that `Submit` does not repeat.
- ImportKeyData.ImportKeyWizard.SelectDir: a `readdir` of the chosen folder that throws, or a `mkdir` that fails, rejects the handler. This is modelled as no change.
- ImportKeyData.ImportKeyWizard.SelectBackupFile: a dialog that throws is treated like a cancelled one. Both leave the backup path unchanged.
- CreateGroup: the icon editor is commented out (src/standaloneModals/createGroup/CreateGroup.tsx:424-450), so nothing sets the icon. The wizard's invariant keeps it empty, and the icon's follow-up config change is modelled but never sent.
- CreateGroup: the authorisation-type panel and `handleChangeAuthType` sit at step 9, which the two-step counter never reaches. They are not modelled. The consensus and encryption types are constants passed through.
- CreateGroup.CreateGroupWizard.SendFollowUps: the two follow-up notices appear in whichever order their promises settle. The model records the rule notice first.
- ManageGroup.FirstLetter: `substring(0, 1)` takes one UTF-16 code unit. The model takes one Unicode scalar value. For a name starting above U+FFFF the source yields a lone surrogate, and the model yields the whole character.
- ManageGroup: the 400 ms delay before saving and the `initiating` spinner are not modelled. `updateGroupConfig` itself is not modelled; its outcome is the config `Init` takes, None when it rejects. Config values are taken as already converted to strings.
- UpdateService: the `updating` flag, which nothing changes, and the fractional `percent` of the progress report are not modelled. A `type` that names an inherited property such as `toString` runs no handler of the store and is treated as unrecognised.
- ConfirmDialog: the content is a string and the handlers are names. `maxWidth || 250` for `NaN` is not modelled, since widths are integers.

## Findings

| source | as written | input that shows it | evidently intended | confidence | as-written member | corrected member |
|---|---|---|---|---|---|---|
| src/service/node/index.ts:143-148 | `leaveGroup` checks the id, awaits the request, then splices at `findIndex`; if a refresh dropped the group meanwhile, `findIndex` is -1 and `splice(-1, 1)` removes the last group | groups `[a, b]`, leave `a` while a refresh returns `[b]`: `b` is removed | remove the group with the id if it is still there, and nothing else | high, not executed | NodeService.LeaveAfterRacingPoll | NodeService.RemoveFirstRemovesOne |
| src/standaloneModals/importKeyData/index.tsx:425-431 | the back link floors the step at 1, but step 1's panel is commented out and the dialog ignores Escape and the backdrop | step 2 (backup), click back: step 1 shows no panel and no back link | never go below the backup step | high, not executed | ImportKeyData.BackFromFirstPanelStrands | ImportKeyData.IntendedBackKeepsAPanel |
| src/service/node/index.ts:61-63 | `updateGroups(true)` reads `groups[0].group_id` without a guard, after the list was already replaced | a node with no groups: a TypeError, and the active id stays stale | `groups.at(0)?.group_id ?? ''`, as `leaveGroup` does | medium, not executed | NodeService.InitActiveId | NodeService.FirstIdOrEmpty |
| src/standaloneModals/createGroup/CreateGroup.tsx:53-155 | the initial authorisation type is upper case, while the panel's options and the follow-up test are lower case | any created group: no allow-list rule is ever sent | start with `follow_alw_list` | low, not executed | CreateGroup.DefaultSendsNoRules | CreateGroup.IntendedDefaultSendsRules |
