# Claude agent manager, modelled in Dafny

The agent manager is a set of terminal programs. They install Claude agent
definitions (`*.md` files) from a local collection into two places: the
user's `~/.claude/agents` directory and the current git project's
`.claude/agents` directory. The collection holds one directory per category:
`platform`, `frontend`, `backend` and `infrastructure`.

There are three programs and one demonstration script:

- `agent-manager-tree.py` shows the collection as a folding tree. Each leaf
  is an agent. The program keeps three maps keyed by the agent's path in the
  collection: `original_state`, `current_state` and `changes`. Every folder
  shows a badge like `[+2 -1]` that counts the pending changes below it.
  Saving copies or deletes files in the install directory of the current
  view.
- `agent-manager-v2.py` lists the four categories, each as a header row
  followed by its agents. Its three maps are keyed by `category/name`.
- `agent-manager.py` merges the collection, the user level and the project
  level into one sorted list. Each agent carries the place it is installed.
  The program has:
  - edit modes, which pre-select the agents installed at a level and then
    make that directory match the selection;
  - an install mode, which only adds files;
  - three ways to sync files between the two levels.
- `verify-tree.py` builds a small tree by hand. It counts the folder badges
  from each leaf's `selected` and `installed` flags, then folds and unfolds
  one folder.

The model is pure. A directory is a map from file name to content, and a
missing directory is `None`. Each program's state is an immutable record.
Each key of the main loops is a function from state to state. The file
system and the confirmation dialogs are parameters of those functions.

| file | module | models |
|---|---|---|
| `text.dfy` | `Text` | substring test, `"/".join`, `str.split`, string order, sorting, `str(n)`, ASCII `upper()` |
| `files.dfy` | `Files` | directories, the `*.md` glob, `Path.stem`, and copy/delete folded over a sequence of operations |
| `selection.dfy` | `Selection` | views, install targets, and the per-key original/current/change record shared by the tree and v2 programs |
| `sources.dfy` | `Sources` | the collection by category, and the search for an agent's source file |
| `catalog.dfy` | `Catalog` | the tree of `TreeNode`s: build, counts, flatten, expand and collapse |
| `tally.dfy` | `Tally` | the recursive folder summary, for any per-leaf rule |
| `display.dfy` | `Display` | folder labels and change badges |
| `tree_engine.dfy` | `TreeEngine` | the state engine and keys of `agent-manager-tree.py` |
| `verify_tree.dfy` | `TreeCheck` | `verify-tree.py`: its selection-based rule and its scenario |
| `categories.dfy` | `CategoryManager` | `agent-manager-v2.py` |
| `locations.dfy` | `LocationManager` | `agent-manager.py` |

## Model

| member | source | states |
|---|---|---|
| Text.SubstringOfSurrounded | agent-manager-tree.py:97-103 | a name occurs, as Python's `in` sees it, inside any string that contains it between a prefix and a suffix |
| Text.JoinEndsWithLast | agent-manager-tree.py:233 | a key printed with `/` separators ends with its last component, the agent's file name |
| Text.SortBy | agent-manager-tree.py:186 | sorting a listing by name gives a sorted permutation of it |
| Text.SortedSet | agent-manager.py:107 | the names of a set in strictly increasing order: exactly the set's members, with no duplicates |
| Text.ParseNatToString | agent-manager-tree.py:111-114 | reading back the decimal digits that `str(n)` prints gives `n` |
| Text.UpperSpec | agent-manager-tree.py:41-43 | upper-casing leaves no ASCII lower-case letter, so it is idempotent, and it changes a string exactly when the string holds one |
| Text.InsertionOrderPresent | agent-manager-tree.py:264-272 | assigning dictionary keys that are already present keeps the dictionary's key order |
| Text.SplitJoin | agent-manager-v2.py:147 | joining the pieces of `split('/')` with `/` gives the text back |
| Text.JoinSplit | agent-manager-v2.py:105 | splitting `category/name` at `/` gives back the two parts when neither contains `/` |
| Files.MdStem | agent-manager.py:66-67 | the stem of a `*.md` name: the name without `.md` when it has that suffix, and the bare name `.md` is its own stem |
| Files.StemOfFile | agent-manager.py:279 | the file `name.md` matches the glob and has `name` as its stem |
| Files.FileOfInjective | agent-manager.py:279 | different agents are installed under different file names |
| Files.StemsIff | agent-manager-tree.py:218-221 | an agent counts as installed exactly when its file is in an existing directory; the bare file `.md` also provides the stem `.md` |
| Files.EnsureSpec | agent-manager.py:276 | `mkdir(exist_ok=True)` installs no agent, and creating the directory a second time changes nothing |
| Files.MdFilesSpec | agent-manager.py:323 | the glob keeps only `*.md` files, so globbing its result again gives the same files, and it sees every agent stem the directory has |
| Files.Apply | agent-manager-tree.py:301-304 | a copy writes one file and a delete removes one; no other file changes |
| Files.RunEffect | agent-manager-tree.py:293-304 | after a loop of copies and deletes, each file is what the last operation on it left, and an untouched file keeps its content |
| Files.RunIdempotent | agent-manager-tree.py:293-304 | performing the same copies and deletes twice leaves the directory as performing them once |
| Files.RunUntouched | agent-manager-tree.py:293-304 | a file that no operation names is left as it was |
| Files.LastOnAppend | agent-manager-tree.py:293-304 | in two loops run one after the other, the last operation on a file comes from the second loop if that loop touches the file |
| Files.OpsOfSpares | agent-manager-v2.py:143-154 | a file that no item of the loop names ends with no operation on it |
| Files.OpsOfLast | agent-manager-v2.py:143-154 | when only one item of the loop names a file, the last operation on that file is that item's own |
| Selection.WithTarget | agent-manager-v2.py:140 | writing the directory of one view leaves the other view's directory unchanged |
| Selection.Classify | agent-manager-v2.py:125-130 | no change when the selection equals the installed state; an addition when selected but not installed; a removal otherwise |
| Selection.Toggled | agent-manager-v2.py:122-130 | toggling flips the current state, keeps the original, and reclassifies the change |
| Selection.ToggledTwice | agent-manager-tree.py:262-272 | toggling an agent twice gives back its record |
| Selection.Names | agent-manager-v2.py:134-135 | the summary lists name exactly the keys with that kind of change |
| Selection.PendingIff | agent-manager-v2.py:132-136 | the summary lists are non-empty exactly when some agent's selection differs from its installed state |
| Sources.AgentFiles | agent-manager-v2.py:82-84 | a category's listing is the sorted `*.md` names of its directory, and is empty when the directory is missing |
| Sources.StemPlain | agent-manager-v2.py:105 | the stem of a file name without `/` contains no `/` |
| Sources.SourceIn | agent-manager.py:285-289 | the search for a source finds nothing exactly when no category holds `name.md` |
| Sources.SourceInFirst | agent-manager.py:285-289 | the search stops at the first category, in category order, that holds `name.md` |
| Catalog.Filter | agent-manager-tree.py:186-205 | the filter keeps exactly the entries that pass, in their sorted order |
| Catalog.SubDirs | agent-manager-tree.py:186-190 | the subfolders are the visible directories of a folder, in name order |
| Catalog.AgentFiles | agent-manager-tree.py:199-200 | the agent files are the entries with the `.md` suffix, in name order |
| Catalog.LeafOf | agent-manager-tree.py:200-206 | a leaf is named by its file's stem and keyed by its file name |
| Catalog.BuildChildrenShape | agent-manager-tree.py:183-208 | an unreadable folder yields no children; each child has the next level; folders start expanded below level 2 |
| Catalog.BuildChildrenSorted | agent-manager-tree.py:183-208 | the subfolders come first in name order, then the leaves in file-name order |
| Catalog.BuildChildrenSound | agent-manager-tree.py:183-208 | every child node comes from a visible subfolder or an agent file of the directory |
| Catalog.BuildChildrenComplete | agent-manager-tree.py:183-208 | every visible subfolder and every agent file of a readable directory becomes a child node |
| Catalog.AgentCount | agent-manager-tree.py:47-58 | a folder's recursive agent count is the number of leaves below it |
| Catalog.BuildTree | agent-manager-tree.py:174-181 | the root is at level -1 with the empty path, and each top folder carries its own agent count |
| Catalog.BuildTreeWellFormed | agent-manager-tree.py:174-208 | the builder's tree obeys the level, path and expansion rules |
| Catalog.OpenCatalog | agent-manager-tree.py:184-208 | the tree program starts exactly when the collection path is a directory, and then with a well-formed catalog; a missing collection or a plain file makes listing it fail, and nothing catches that but `PermissionError` |
| Catalog.WellFormedLeavesKeyed | agent-manager-tree.py:200-206 | every leaf of a built tree is keyed by its own file name |
| Catalog.ToggleExpand | agent-manager-tree.py:60-63 | toggling flips a folder's expansion flag and nothing else, and leaves a leaf alone |
| Catalog.SetExpandedAll | agent-manager-tree.py:65-77 | expanding or collapsing all sets every folder below to the same flag and keeps the tree's shape |
| Catalog.ToggleExpandAt | agent-manager-tree.py:557-577 | folding a folder at a path keeps the tree's shape |
| Catalog.ToggleExpandAtTwice | agent-manager-tree.py:557-577 | folding the same folder twice restores the tree |
| Catalog.ToggleExpandAtFlags | agent-manager-tree.py:557-577 | folding a path inverts exactly the flags of the folders at that path |
| Catalog.ToggleExpandTwice | agent-manager-tree.py:60-63 | toggling a node twice restores it |
| Catalog.ExpandCollapseAll | agent-manager-tree.py:592-598 | the corrected '*' named in Findings: it collapses every top folder when all were expanded, and expands them all otherwise; the tree's shape is kept |
| Catalog.ExpandCollapseAllAsWrittenCounterexample | agent-manager-tree.py:592-598 | with two expanded top folders the loop as written collapses only the first one |
| Catalog.ExpandCollapseAllAsWrittenShape | agent-manager-tree.py:592-598 | '*' as written changes only expansion flags; each top folder ends up expanded or collapsed throughout, and the first one as intended |
| Catalog.FlattenSound | agent-manager-tree.py:241-255 | every row of the visible list is reached from the root through expanded folders |
| Catalog.FlattenComplete | agent-manager-tree.py:241-255 | every node reached through expanded folders is on the visible list |
| Catalog.FlattenRootShows | agent-manager-tree.py:246-255 | a node is a row exactly when some path of expanded folders leads to it from the root |
| Catalog.FlattenPreorder | agent-manager-tree.py:241-255 | the visible list is in pre-order: each row is followed directly by the visible rows of its own subtree, and an expanded folder by its children's rows |
| Catalog.FlattenFolderFlag | agent-manager-tree.py:246-255 | a visible folder is one of the tree's folders, with its own flag |
| Catalog.WellFormedLevels | agent-manager-tree.py:16-30 | each node's level is one more than its parent's |
| Catalog.ReachedLast | agent-manager-tree.py:246-255 | a node reached through expanded folders has an expanded parent, and its level is its depth |
| Tally.SumOverAppend | agent-manager-tree.py:88-94 | the count over two runs of leaves is the sum of the two counts |
| Tally.ChildSumIsLeafSum | agent-manager-tree.py:88-94 | adding up the children's summaries gives the count over every leaf below |
| Tally.Recount | agent-manager-tree.py:79-103 | a recount keeps the tree and its leaves, and leaves every folder holding the sum of the rule over its leaves |
| Tally.TalliedUnique | agent-manager-tree.py:79-103 | the summaries of a counted tree are determined by its shape and the rule |
| Tally.RecountIdempotent | agent-manager-tree.py:85 | the counters are reset first, so counting twice equals counting once |
| Tally.SkeletonWellFormed | agent-manager-tree.py:79-103 | changing only the summaries keeps a tree well formed |
| Tally.RecountAgree | agent-manager-tree.py:79-103 | two rules that agree on every leaf give the same summaries |
| Tally.RecountAllIdempotent | agent-manager-tree.py:277-280 | recounting every top folder twice equals doing it once |
| Tally.TalliedQuiet | agent-manager-tree.py:105-108 | when no leaf has a change, every folder's counts are zero |
| Tally.QuietTallied | agent-manager-tree.py:79-108 | conversely, a tree showing no counts is counted correctly when no leaf has a change |
| Tally.SameShapeKeeps | agent-manager-tree.py:60-77 | folding keeps a tree's leaves, its well-formedness and its counts |
| Display.Arrow | agent-manager-tree.py:34-38 | the folding arrow is one glyph followed by a space |
| Display.DisplayShowsExpansion | agent-manager-tree.py:34-43 | a folder's label tells whether the folder is expanded |
| Display.ToggleChangesOnlyArrow | agent-manager-tree.py:60-63 | folding changes only the arrow of the label |
| Display.BadgeParts | agent-manager-tree.py:110-114 | the badge has one part for each non-zero count |
| Display.ChangesDisplay | agent-manager-tree.py:105-116 | the badge is empty exactly for a leaf or a folder with nothing pending; otherwise it is bracketed |
| Display.ChangesDisplayRoundTrip | agent-manager-tree.py:105-116 | the counts of a folder can be read back from its badge |
| TreeCheck.Unit | verify-tree.py:54-57 | a leaf adds one to its folder's additions if it is selected and not installed, and one to the removals in the reverse case |
| TreeCheck.SelectionRuleClassifies | verify-tree.py:54-57 | the script's rule counts exactly the change the tree program would record for that leaf |
| TreeCheck.SumOverCounts | verify-tree.py:47-57 | a folder's counts are the numbers of leaves to add and to remove |
| TreeCheck.FolderCounts | verify-tree.py:41-57 | the recount of any folder gives the numbers of leaves below it that will be added and removed |
| TreeCheck.KeyContainsName | agent-manager-tree.py:97-103 | a leaf's own key contains its name |
| TreeCheck.MatchingSplits | agent-manager-tree.py:97-103 | the substring count of a leaf is its own change plus every other pending key whose text contains its name |
| TreeCheck.LeafRulesAgreeIff | agent-manager-tree.py:97-103 | the substring rule and the selection rule agree on a leaf exactly when no other pending key contains its name; otherwise the substring rule counts more |
| TreeCheck.RulesAgree | agent-manager-tree.py:97-103 | when no pending key contains another leaf's name, the two programs show the same badges |
| TreeCheck.SubstringOvercount | agent-manager-tree.py:97-103 | pending keys `django.md` and `go.md` give the leaf `go` two additions where one is pending |
| TreeCheck.SampleCounts | verify-tree.py:119-126 | after both agents are selected, platform shows nothing and frontend and backend each show one addition |
| TreeCheck.Scenario | verify-tree.py:116-137 | the script's badges are "", " [+1]" and " [+1]"; folding the API folder twice restores the tree |
| TreeEngine.SettledRuleZero | agent-manager-tree.py:97-103 | with nothing pending no leaf adds to any folder count |
| TreeEngine.Mark | agent-manager-tree.py:228-236 | a leaf is loaded selected exactly when it is installed, with no change |
| TreeEngine.MarkInstalled | agent-manager-tree.py:226-239 | starting from settled maps, every record after the installation pass is settled: its selection equals its installed flag and nothing is pending |
| TreeEngine.MarkInstalledKeys | agent-manager-tree.py:226-239 | the installation pass adds exactly the visited keys to the maps |
| TreeEngine.MarkInstalledKeeps | agent-manager-tree.py:226-239 | an entry the pass does not visit keeps its record |
| TreeEngine.MarkInstalledValues | agent-manager-tree.py:226-239 | each visited key ends with its leaf's loaded record |
| TreeEngine.LoadSpec | agent-manager-tree.py:210-239 | after a load the maps hold exactly the leaves' keys; each leaf is selected iff installed; nothing is pending |
| TreeEngine.LoadKeys | agent-manager-tree.py:210-239 | after a load the maps hold a key exactly when it is the key of a leaf of the catalog |
| TreeEngine.LoadValues | agent-manager-tree.py:210-239 | after a load every leaf's record says whether its file is installed, with the selection equal to it |
| TreeEngine.InstalledIff | agent-manager-tree.py:218-229 | a leaf counts as installed exactly when the view's directory exists and holds its file |
| TreeEngine.RecountAllKeepsTree | agent-manager-tree.py:277-280 | recounting keeps the catalog and its leaves and counts every top folder |
| TreeEngine.CatalogLeaves | agent-manager-tree.py:233 | every leaf key of the catalog ends in a `.md` file name |
| TreeEngine.ReloadSpec | agent-manager-tree.py:210-224 | the corrected reload named in Findings, which recounts after loading: a valid session with nothing pending and every badge empty, keeping the view and the cursor |
| TreeEngine.ReloadAsWrittenSpec | agent-manager-tree.py:210-224 | a reload as written leaves a valid session with each leaf selected exactly when installed and nothing pending; the tree and its badges are kept, so they fit the new maps exactly when they showed nothing |
| TreeEngine.ReloadTwice | agent-manager-tree.py:210-224 | with the corrected reload, reloading a second time gives the same session as reloading once |
| TreeEngine.ToggleSelection | agent-manager-tree.py:257-275 | toggling a leaf flips its selection and reclassifies its change; other keys are kept and the badges are recounted; a folder is ignored |
| TreeEngine.ToggleKeepsInv | agent-manager-tree.py:257-275 | toggling keeps the session valid and its badges current |
| TreeEngine.ToggleTwice | agent-manager-tree.py:257-275 | toggling the same leaf twice restores the session when its badges are current |
| TreeEngine.SetSelectedClassifies | agent-manager-tree.py:628-663 | the branches of the 'a' and 'n' keys give the same record as toggling to the wanted state |
| TreeEngine.GroupFold | agent-manager-tree.py:628-663 | 'a' and 'n' set exactly the visible leaves beside the cursor to the wanted state |
| TreeEngine.GroupFoldIdempotent | agent-manager-tree.py:628-663 | selecting or deselecting a group twice equals doing it once |
| TreeEngine.SelectGroup | agent-manager-tree.py:628-663 | the group keys change only the leaves of the cursor's group, and recount the badges |
| TreeEngine.SelectGroupKeepsInv | agent-manager-tree.py:628-663 | the group keys keep the session valid |
| TreeEngine.TargetName | agent-manager-tree.py:298-299 | `stem + ".md"` of a leaf key is the key's own file name |
| TreeEngine.OpsFor | agent-manager-tree.py:293-304 | a key with no change asks for no operation, and every operation of a key names its file |
| TreeEngine.SaveOpsUntargeted | agent-manager-tree.py:293-304 | a file that no pending key installs is not touched by the save loop |
| TreeEngine.SaveOpsLast | agent-manager-tree.py:293-304 | a key whose file no other pending key shares decides that file |
| TreeEngine.SaveFiles | agent-manager-tree.py:288-308 | for a key whose file no other pending key shares, save copies an addition that has a source and deletes a removal; files no pending key names are left alone, and only the current view's directory changes |
| TreeEngine.SaveNothingPending | agent-manager-tree.py:288-305 | with nothing pending, save only creates the directory |
| TreeEngine.SaveReloads | agent-manager-tree.py:288-308 | after a save nothing is pending and the tree, badges included, is kept as it was; for a key whose file no other pending key shares, a saved addition shows as installed and a removal as not installed |
| TreeEngine.SaveRecountsBadges | agent-manager-tree.py:288-308 | with the corrected reload named in Findings, a save leaves nothing pending and every badge empty |
| TreeEngine.SaveTwice | agent-manager-tree.py:288-308 | saving again right after a save changes nothing |
| TreeEngine.HasPendingIff | agent-manager-tree.py:282-286 | the summary lists are non-empty exactly when some agent's selection differs from its installed state |
| TreeEngine.SaveKeySpec | agent-manager-tree.py:623-625 | 's' keeps the session valid on the same view and row; changes are pending afterwards exactly when they were and the user refused |
| TreeEngine.QuitSpec | agent-manager-tree.py:666-673 | 'q' ends the loop exactly when nothing is pending or the user confirms, and then nothing is pending; on refusal the session and the directories are kept |
| TreeEngine.StaleBadgeAfterSave | agent-manager-tree.py:306-308 | one toggled leaf, once saved, leaves nothing pending, yet its folder still shows " [+1]"; the corrected save shows "" |
| TreeEngine.StaleBadgeAfterCancel | agent-manager-tree.py:676-678 | one toggled leaf, after ESC, is no longer pending, yet its folder still shows " [+1]"; the corrected reload shows "" |
| TreeEngine.CursorKeys | agent-manager-tree.py:549-555 | up and down move by one row within the list and undo each other |
| TreeEngine.FindFolder | agent-manager-tree.py:568-574 | the parent search finds the first folder row with the parent's path, or reports that none exists |
| TreeEngine.FoldingKeys | agent-manager-tree.py:557-589 | Space folds the folder under the cursor and toggles a leaf; Right expands only a collapsed folder; Left collapses an expanded folder |
| TreeEngine.LeftFindsParent | agent-manager-tree.py:565-577 | Left on a row that is not an expanded folder moves the cursor to its parent folder |
| TreeEngine.MoveKeysKeepInv | agent-manager-tree.py:549-598 | the movement and folding keys keep the session valid and its badges current |
| TreeEngine.SelectionKeysKeepInv | agent-manager-tree.py:580-663 | Space and the group keys keep the session valid |
| TreeEngine.ViewKeysKeepInv | agent-manager-tree.py:601-613 | switching view and ESC keep the session valid |
| TreeEngine.SwitchViewSpec | agent-manager-tree.py:601-613 | '2' without a project and the current view's own key do nothing; otherwise the other view is loaded on its first row, each leaf selected exactly when that view installs it and nothing pending, with the tree and badges kept, so the badges fit exactly when they showed nothing |
| TreeEngine.CancelUndoesToggle | agent-manager-tree.py:676-678 | ESC after a toggle gives the maps ESC gives without it, but keeps the badges the toggle counted |
| TreeEngine.CancelUndoesGroup | agent-manager-tree.py:676-678 | ESC after 'a' or 'n' gives the maps ESC gives without it, but keeps the badges the key counted |
| TreeEngine.CancelIgnoresRecount | agent-manager-tree.py:676-678 | ESC forgets the maps it is given and keeps the tree, badges included |
| TreeEngine.ReloadUndoesToggle | agent-manager-tree.py:676-678 | with the corrected reload named in Findings, ESC after a toggle gives the session ESC gives without it |
| TreeEngine.ReloadUndoesGroup | agent-manager-tree.py:676-678 | with the corrected reload, ESC after 'a' or 'n' gives the session ESC gives without it |
| TreeEngine.ReloadIgnoresRecount | agent-manager-tree.py:676-678 | the corrected reload depends neither on the maps nor on the badges it is given |
| CategoryManager.AgentNamesIff | agent-manager-v2.py:82-85 | a name is an agent of a category exactly when the category's directory holds `name.md` |
| CategoryManager.CategoryRowsShape | agent-manager-v2.py:112-115 | a non-empty category shows its header first, then each of its agents |
| CategoryManager.RowsLead | agent-manager-v2.py:110-115 | the list starts with a header, and every agent row follows its own header |
| CategoryManager.RowsSound | agent-manager-v2.py:110-115 | every row belongs to a listed category, and every agent row to an agent of that category |
| CategoryManager.RowsComplete | agent-manager-v2.py:110-115 | every agent of every category has a row |
| CategoryManager.KeyParts | agent-manager-v2.py:105 | the key `category/name` splits back into its category and name |
| CategoryManager.KeyRoundTrip | agent-manager-v2.py:147 | a key of two pieces is rebuilt from its parts |
| CategoryManager.AgentKeyInjective | agent-manager-v2.py:105 | different agents have different keys |
| CategoryManager.RowKeys | agent-manager-v2.py:105-108 | the keys of the agent rows are exactly the keys the load writes |
| CategoryManager.Loaded | agent-manager-v2.py:88-108 | a loaded agent is selected exactly when the view's directory holds its file, with no change |
| CategoryManager.LoadRowsSpec | agent-manager-v2.py:81-108 | the load writes exactly the keys of the listed agents and keeps the entries of other keys |
| CategoryManager.LoadSpec | agent-manager-v2.py:68-115 | after a load the screen is valid and every agent's record is its loaded state |
| CategoryManager.StartSpec | agent-manager-v2.py:19-34 | at start-up the general view is loaded with the cursor on the first row |
| CategoryManager.LoadForgets | agent-manager-v2.py:68-115 | a load does not depend on the selection it is given |
| CategoryManager.LoadIdempotent | agent-manager-v2.py:68-115 | loading twice equals loading once, and the key order is kept |
| CategoryManager.ToggleAgent | agent-manager-v2.py:117-130 | toggling flips one agent's selection and reclassifies its change; the rest of the screen is kept |
| CategoryManager.ToggleAgentKeepsInv | agent-manager-v2.py:117-130 | toggling keeps the screen valid |
| CategoryManager.ToggleAgentTwice | agent-manager-v2.py:117-130 | toggling the same agent twice restores the screen |
| CategoryManager.SpaceTwice | agent-manager-v2.py:419-422 | Space keeps the screen valid, and pressing it twice on the same row gives the screen back |
| CategoryManager.HasPendingIff | agent-manager-v2.py:132-136 | the summary lists are non-empty exactly when some agent's selection differs from its installed state |
| CategoryManager.SummaryOverlap | agent-manager-v2.py:132-136 | a name in both summary lists belongs to two agents of different categories, one added and one removed |
| CategoryManager.OpsFor | agent-manager-v2.py:143-154 | a key with no change asks for no operation, and every operation of a key names its agent's file |
| CategoryManager.SaveUntouched | agent-manager-v2.py:138-155 | a file that no pending agent installs is left as it was |
| CategoryManager.SaveOfKey | agent-manager-v2.py:143-154 | for an agent whose file no other pending agent shares, an addition copies the category's file when it exists, a removal deletes the file, and no change leaves it alone |
| CategoryManager.SaveReloads | agent-manager-v2.py:138-157 | after a save every agent's record is loaded from the saved directory, and the other view's directory is unchanged |
| CategoryManager.SaveTwice | agent-manager-v2.py:138-157 | saving again right after a save changes nothing |
| CategoryManager.NothingPendingNoOps | agent-manager-v2.py:143-145 | with nothing pending the save loop performs no operation |
| CategoryManager.Up | agent-manager-v2.py:402-408 | up moves to an earlier agent row, skipping headers, or stops on the first row |
| CategoryManager.UpFrom | agent-manager-v2.py:402-408 | the upward scan stops on the nearest earlier agent row, passing only headers, or on the first row |
| CategoryManager.Down | agent-manager-v2.py:410-416 | down moves to a later agent row, skipping headers, or stays on the last row |
| CategoryManager.DownFrom | agent-manager-v2.py:410-416 | the downward scan stops on the nearest later agent row, passing only headers, or stays on the last row |
| CategoryManager.SwitchViewSpec | agent-manager-v2.py:425-445 | '2' without a project and the current view's own key do nothing; otherwise the other view is loaded with the cursor on top |
| CategoryManager.ReloadUndoesToggle | agent-manager-v2.py:460-481 | reloading (R or ESC) after a toggle gives the screen a reload gives without it |
| CategoryManager.SaveKeySpec | agent-manager-v2.py:454-457 | 's' keeps the screen valid on the same view and row; changes are pending afterwards exactly when they were and the user refused |
| CategoryManager.QuitSpec | agent-manager-v2.py:469-476 | 'q' ends the loop exactly when nothing is pending or the user confirms, and then nothing is pending; on refusal the screen and the directories are kept |
| LocationManager.Listing | agent-manager.py:77 | a listing holds exactly the `*.md` names of the directory |
| LocationManager.PassSpec | agent-manager.py:77-104 | one pass over a directory adds each agent it finds and updates that agent's location; other entries are kept |
| LocationManager.AgentFileStems | agent-manager.py:63-66 | the agents listed for a category are the stems of its files, and none when it is missing |
| LocationManager.CollectionStemsIff | agent-manager.py:63-66 | an agent is in the collection exactly when some category holds its file |
| LocationManager.CollectionPassSpec | agent-manager.py:62-73 | the collection loop makes every collection agent available and keeps the other entries |
| LocationManager.UserPassSpec | agent-manager.py:75-87 | after the user loop, exactly the agents found at the user level are at the user level |
| LocationManager.ProjectFilesPass | agent-manager.py:89-104 | the project loop turns the user level into both and available into project, and adds unknown agents at the project level |
| LocationManager.ProjectPassSpec | agent-manager.py:89-104 | after the project loop, each agent's location records whether it is at the user level and whether it is at the project level |
| LocationManager.LocationsSpec | agent-manager.py:57-104 | the merged list holds the agents of the collection and of both levels; each location records the levels that have the agent |
| LocationManager.Agents | agent-manager.py:57-107 | the agent list is sorted by name without duplicates and holds exactly the merged agents with their locations |
| LocationManager.Defaults | agent-manager.py:109-112 | agents new to `selected` start unselected, and existing entries are kept |
| LocationManager.Clamp | agent-manager.py:199-208 | the cursor is kept on the list, or at 0 when the list is empty; a cursor already on the list is unchanged |
| LocationManager.LoadSpec | agent-manager.py:57-112 | the corrected load named in Findings: the manager is valid, lists the merged agents, and keeps the selection and any cursor that is still on the list |
| LocationManager.LoadAsWrittenSpec | agent-manager.py:57-112 | the load as written lists the merged agents sorted, keeps earlier selections and leaves new agents unselected, and keeps the cursor: the manager is valid exactly when the cursor is still on the list or at 0, and then the load is the corrected one |
| LocationManager.AgentsGrow | agent-manager.py:57-107 | when neither level loses an agent file, the list gets no shorter |
| LocationManager.GrowKeepsInv | agent-manager.py:57-112 | reloading a valid manager after the levels only gained files keeps the cursor on the list |
| LocationManager.StartSpec | agent-manager.py:20-32 | at start-up the manager is valid and lists the agents the directories give, in overview mode, on the first row, with nothing selected |
| LocationManager.EditFold | agent-manager.py:261-267 | the edit-mode loop writes one entry per listed agent and keeps every other entry |
| LocationManager.EditFoldAgent | agent-manager.py:263-267 | each listed agent is selected exactly when its location includes the level being edited |
| LocationManager.EditModeSelectsInstalled | agent-manager.py:261-267 | entering an edit mode selects exactly the agents installed at that level |
| LocationManager.EditModeKeepsInv | agent-manager.py:261-267 | entering an edit mode keeps the manager valid |
| LocationManager.Put | agent-manager.py:278-293 | one agent's step of the save loop changes only that agent's file |
| LocationManager.ForEachOther | agent-manager.py:278-293 | a file that is no listed agent's own is left as it was |
| LocationManager.ForEachAgent | agent-manager.py:278-293 | each agent's file ends as that agent's own step leaves it |
| LocationManager.SaveChangesSpec | agent-manager.py:269-295 | after a save a selected agent's file is kept, or copied from the first category that has it; an unselected agent's file is deleted; other files and the other level are unchanged |
| LocationManager.InstallSelectedSpec | agent-manager.py:297-316 | install never deletes a file, so neither level loses an agent; it copies exactly the selected agents that are only available and have a source; other files and the other level are unchanged |
| LocationManager.CopyAllSpec | agent-manager.py:323-324 | after the copy loop each copied file holds the source's content and every other file is kept |
| LocationManager.CopyGlob | agent-manager.py:323-324 | copying every `*.md` file overlays them on the destination |
| LocationManager.Bidirectional | agent-manager.py:332-333 | the two-way sync does nothing unless both directories exist |
| LocationManager.BothWays | agent-manager.py:334-341 | after the two copies both levels agree on every `*.md` file: the user's content where the user has the file, the project's otherwise; other files are untouched |
| LocationManager.BidirectionalSpec | agent-manager.py:332-343 | a two-way sync of two existing directories makes them agree on every `*.md` file, with user content winning |
| LocationManager.BidirectionalIdempotent | agent-manager.py:332-343 | syncing both ways a second time changes nothing |
| LocationManager.OneWaySpec | agent-manager.py:318-331 | a one-way sync does nothing without its source; otherwise it overwrites each `*.md` file of the destination with the source's copy and keeps the destination's other files |
| LocationManager.SyncGrows | agent-manager.py:318-343 | every sync only copies files in, so neither level loses an agent |
| LocationManager.SetAll | agent-manager.py:417-439 | 'a', 'n' and entering install mode set every entry of the selection to the same value |
| LocationManager.CursorKeys | agent-manager.py:380-386 | up and down change only the cursor, keep it on a non-empty list, and undo each other away from the ends |
| LocationManager.SpaceSpec | agent-manager.py:389-392 | Space flips the selection of the agent under the cursor; on an empty list in a selecting mode it fails with an index error |
| LocationManager.SpaceTwice | agent-manager.py:389-392 | Space twice restores the selection |
| LocationManager.MovesKeepInv | agent-manager.py:380-439 | the cursor keys, Space, select-all and '4' keep the manager valid and its list as the directories give it |
| LocationManager.EscapeSpec | agent-manager.py:372-377 | ESC outside the overview returns to it with nothing selected and the list reloaded, valid when it was valid and up to date; in the overview it does nothing |
| LocationManager.KeyOneKeepsInv | agent-manager.py:395-404 | '1' keeps a sound manager sound: valid, listing what the directories give, in a mode the project allows |
| LocationManager.KeyTwoKeepsInv | agent-manager.py:406-415 | '2' keeps a sound manager sound |
| LocationManager.KeyThreeKeepsInv | agent-manager.py:417-424 | '3' keeps a sound manager sound |
| LocationManager.SaveKeySpec | agent-manager.py:442-448 | 's' in an edit mode saves, reloads the sorted list with every agent selectable and returns to the overview with the cursor kept, which leaves the manager valid exactly when the cursor is still on the list; other modes ignore the key |
| LocationManager.ExampleAgents | agent-manager.py:57-107 | a collection agent `a` and a user-level agent `zz` are listed as `a` available, then `zz` at the user level |
| LocationManager.ExampleStart | agent-manager.py:20-32 | at start-up on that example both agents are listed unselected with the cursor on the first |
| LocationManager.ExampleSave | agent-manager.py:269-295 | saving the user level with nothing selected deletes `zz.md` and leaves the directory empty |
| LocationManager.CursorPastEnd | agent-manager.py:199-208 | the example's save as written leaves the cursor one past the end of the list; the corrected load keeps it on the list |

## Left out

- Drawing: the curses screens, colours, scrolling, messages and the help text are not modelled. The keys are modelled as state changes.
- Viewing a file in an editor (`view_agent_file`) is not modelled. It only reads the file and runs an external program.
- Finding the project root (`detect_project`) is not modelled: it walks the working directory. The project directory is a parameter that may be absent.
- The `CLAUDE_AGENT_COLLECTION` environment variable and the script directory are not modelled: the collection is a parameter.
- Agent descriptions, the "new" marker (file age under 48 hours) and `get_agent_info` are not modelled. They need the clock and file contents, and they decide nothing the model states.
- `relative_path` in `update_changes_summary` (agent-manager-tree.py:97) is not modelled: the program computes it and never uses it.
- `shutil.copy2` copies the file's metadata as well; the model copies its content only.
- A `PermissionError` while listing a folder is modelled as a folder whose children are not listed (an unreadable entry).
- Catalog.BuildTree: requires the collection to be an existing directory. In any other case the tree program stops at start-up: listing the path raises an error that only a `PermissionError` handler could catch (agent-manager-tree.py:186, 207), and `main` prints it and exits with status 1 (agent-manager-tree.py:687-691). `Catalog.OpenCatalog` models that failure as `None`; the message and the exit status are not modelled. The other two programs skip a missing category instead.
- The order of `glob` results is not modelled. The tree and v2 programs sort them; v1 sorts the merged list; the model lists directories in name order.
- The confirmation dialogs are a `confirmed` parameter of the keys that ask.
- The helper scripts, the launcher, the package initialiser and `test-tree.py` are not part of this model.
- LocationManager.SaveKey: requires a project directory when saving in the project edit mode. The program only enters that mode when a project root exists (agent-manager.py:406-415), and `ModeFits` states this.
- LocationManager.SaveChangesSpec: assumes every listed agent has an entry in `selected`. The program would raise `KeyError` otherwise; `Inv` shows the load always adds the entries.
- CategoryManager.SummaryOverlap: the two summary lists of agent-manager-v2.py are disjoint only per key. The same agent name in two categories can appear in both lists, and the lemma states exactly when.
- TreeEngine.SaveReloads: states a removed agent as uninstalled only when its name is not `.md`. A bare `.md` file in the directory would still provide that stem.
- TreeEngine.SaveFiles, TreeEngine.SaveReloads and CategoryManager.SaveOfKey: state the effect of a key only when no other pending key names the same file. Two folders or categories can hold agents with the same file name; then the later key in dictionary order decides that file, which `Files.RunEffect` and `TreeEngine.SaveOpsLast` state.
- TreeEngine.ToggleTwice: promised only for a session whose badges match its maps. After ESC, a view switch or a save as written the badges can be stale, and the first toggle recounts them, so two toggles then give back the maps but not the stale badges.
- Bidirectional sync follows the code: the user-to-project copy runs first, so where both levels have a file the user's content ends up on both. A description that says the project wins does not match the code.
- The `'r'` key of agent-manager-v2.py is modelled together with ESC by `CategoryManager.Reload`, since both only reload.
- Text.UpperSpec: `Text.Upper` maps ASCII letters only. Python's `str.upper` maps every cased Unicode letter and can change the length (`ß` becomes `SS`).
- Display.DisplayName: a top folder's name is upper-cased with `Text.Upper`, so the label matches the program's only for ASCII names.

## Findings

| source | as written | input that shows it | evidently intended | confidence | as-written member | corrected member |
|---|---|---|---|---|---|---|
| agent-manager-tree.py:592-598 | '*' re-evaluates `all(child.expanded ...)` inside the loop, after each top folder it has already changed | two top folders, both expanded: the first collapses, then the test is false and the second stays expanded | collapse every top folder when all are expanded, expand them all otherwise | high (not executed) | Catalog.ExpandCollapseAllAsWrittenCounterexample | Catalog.ExpandCollapseAll |
| agent-manager-tree.py:306-308 | after a save the maps are reloaded but the folder badges are not recounted | toggle one uninstalled leaf, then save: nothing is pending, yet its folder still shows " [+1]" | the badges reflect the reloaded maps | high (not executed) | TreeEngine.StaleBadgeAfterSave | TreeEngine.SaveRecountsBadges |
| agent-manager-tree.py:676-678 | ESC reloads the maps but does not recount the folder badges; the view switch at 601-613 does the same | toggle one uninstalled leaf, then ESC: nothing is pending, yet its folder still shows " [+1]" | the badges reflect the reloaded maps | high (not executed) | TreeEngine.StaleBadgeAfterCancel | TreeEngine.ReloadUndoesToggle |
| agent-manager.py:199-208 | `save_changes` reloads a shorter list but keeps `current_index`, and `draw_details` indexes the list with it | collection agent `a`, user-level agent `zz`; press '1', Down, Space, 's': the list shrinks to one and the cursor is 1 | the cursor is kept on the list after a reload | high (not executed) | LocationManager.CursorPastEnd | LocationManager.LoadSpec |
