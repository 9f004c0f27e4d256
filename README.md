# Task tree provider and status-bar command line, modelled in Dafny

The extension shows a project's tasks in a tree view. It also lets the user
launch them from a Vim-style command line typed into the status bar.
`TaskTreeDataProvider` (in `src/taskProvider.ts`) owns both parts:

- **Command line.** `putTaskCmd` shows "/", appends it to the buffer (so it
  is the first entry when the buffer was empty), sets the `inCmdlineMode` context key and registers a `type` handler
  that takes every keystroke from the editor.
  - A keystroke other than a newline is appended to the buffer, and the status
    bar shows the joined buffer.
  - A newline drops the first entry. It then looks the joined rest up by exact
    name among all fetched tasks and executes the first match. If there is no
    match, the status bar is left showing `-- UNDEFINED TASK --`.
  - `backTaskCmd` pops the last entry but never the "/".
  - `exitTaskCmd` disposes the handler, clears the key, the buffer and the
    text.
- **Tab completion.** `tabTaskCmd` scans the project's own tasks (source
  `"Workspace"`) for names that start with the typed partial.
  - With one match, the buffer becomes "/" and the name's characters.
  - With two or more, it clears the key and shows one label per match in a
    quick pick. In a multi-root workspace the label is `name (folder)`. The
    picked label is parsed back into a name and a folder, looked up by exact
    name (and folder) among the re-fetched tasks, and executed.
- **Tree.** `getChildren` builds one `TreeTask` per project task. Each tree
  task takes its `hide` flag from the folders' task configurations: in each
  folder's list the first entry with the task's label decides, and later
  folders override earlier ones.
  - Hidden tasks are skipped unless `unhide` has been toggled.
  - Tasks in a folder are gathered under one group per folder, which is
    created at the folder's first task. Other tasks stay at the top level.
  - The top level is sorted: groups first, then by label.

The model has five modules:

| module | file | what it models |
|---|---|---|
| `Strings` | `strings.dfy` | the JavaScript operations the command line uses: `join("")`, `split("")`, `replace(c, "")` (first occurrence only) and `split(" ")` |
| `Tasks` | `tasks.dfy` | the task records and the `"Workspace"` filter |
| `Matcher` | `matcher.dfy` | the tab-completion scan (a loop), the labels, the parsing of a picked label and the exact lookups |
| `Tree` | `tree.dfy` | the hide search of the tree task's constructor (nested loops), the grouping the `getChildren` loop computes, and the comparator and sort |
| `Provider` | `provider.dfy` | the class `TaskTreeDataProvider` and the `getChildren` loop itself |

The class has these fields:

- `buffer`
- `statusText`
- `intercepting`: whether the `type` handler is registered.
- `cmdlineMode`: the context key.
- `unhide`
- `executed`: the tasks handed to the host's executor.

Its methods change these fields as the source does.

Each operation is tied to a specification function or to a state predicate:

- **A session is being typed** (`Composing`). The handler is registered, "/"
  comes first in the buffer, and the status bar shows the joined buffer.
  Keystrokes, backspace and tab completion keep this true. Exit and execution
  end in `Idle`.
- **The scan** returns exactly the prefix matches, in order, with their count
  and labels.
- **A qualified label** parses back to its name and folder if and only if
  neither holds a space and removing the first ")" from the folder followed
  by ")" gives the folder back. In particular it does whenever the folder
  holds no ")". A folder ")a" comes back as "a)", while "a)" comes back
  unchanged.
- **The `getChildren` loop** builds `Layout` of the visible tree tasks.
  `Layout` is proved to:
  - group every folder's visible tasks, in order, under exactly one group;
  - keep the other visible tasks at the top level, in order;
  - hold every visible task exactly once.
- **The sort** yields a sorted permutation under the comparator. The
  comparator is proved to be a total preorder, and every group precedes every
  task.

Three things are parameters:

- the task lists the host returns (each fetch separately);
- the quick pick's answer;
- whether more than one workspace folder is open.

The folders' parsed task configurations are taken as input lists.

The model follows the code in these behaviours, which a reader might expect otherwise:

- A newline executes the first task with the typed name when at least one
  has it, not only when exactly one does.
- In a multi-root workspace every label is qualified, not only ambiguous
  ones.
- The count of matches counts tasks, not distinct names.
- Dismissing the quick pick leaves the session as it is: the buffer, the text
  and the registered handler stay, and only `inCmdlineMode` has been
  cleared. It does not exit.
- In a multi-root workspace, the lookup after a pick compares the folder of
  each candidate. A task outside every folder has no folder, so picking its
  label never runs that task itself. As written, its label "build (undefined)"
  parses to the folder "undefined". The pick then runs the "build" task of a
  folder named "undefined" if there is one, and otherwise ends on the
  undefined-task message. The corrected label "build ()" does not make the
  task pickable either: it parses to the empty folder name, and the lookup
  still passes over the task.

## Model

| member | source | states |
|---|---|---|
| Tasks.FolderName | src/taskProvider.ts:295-301 | a tree task's workspace is the folder's name exactly for a folder scope, and none for the other scopes |
| Tasks.WorkspaceTasks | src/taskProvider.ts:114 | the filtered tasks are exactly the fetched tasks whose source is "Workspace", and there are no more of them than fetched; WorkspaceTasksCounts and WorkspaceTasksAppend add that each is kept as often as fetched, in fetch order |
| Tasks.WorkspaceTasksCounts | src/taskProvider.ts:114 | each fetched "Workspace" task is kept as often as it was fetched, and every other task is dropped, so the count at lines 121-128 counts every project task that matches |
| Tasks.WorkspaceTasksAppend | src/taskProvider.ts:114 | the filter keeps fetch order: filtering two runs of tasks gives the two filtered runs one after the other |
| Strings.Join | src/taskProvider.ts:73 | `join("")`, the buffer's entries concatenated in order (reference definition; its facts are JoinCons and JoinChars) |
| Strings.Chars | src/taskProvider.ts:149 | `split("")`, one single-character entry per character (reference definition; JoinChars is its inverse) |
| Strings.RemoveFirst | src/taskProvider.ts:115 | `replace(c, "")` leaves a string without `c` alone, otherwise drops exactly one character, and introduces no character; which character is dropped is RemoveFirstMeans |
| Strings.RemoveFirstMeans | src/taskProvider.ts:115 | `replace(c, "")` drops exactly the first occurrence of `c`: the one at `i` when none stands before it |
| Strings.RemoveFirstAtFront | src/taskProvider.ts:169 | removing a character that stands at the front drops the front |
| Strings.Split | src/taskProvider.ts:167-169 | `split(" ")` always yields at least one piece; the first piece is a space-free prefix; a string without a space splits into itself, and a string with one splits into at least two pieces |
| Strings.JoinChars | src/taskProvider.ts:149-150 | joining `name.split("")` gives back `name` |
| Strings.JoinCons | src/taskProvider.ts:77-79 | joining a buffer is its first entry followed by the join of the rest |
| Strings.SplitAtFirst | src/taskProvider.ts:167-169 | splitting at a space splits at the first space: the part before it is the first piece |
| Strings.RemoveFirstSkips | src/taskProvider.ts:169 | removing a character absent from a prefix removes it from the suffix only |
| Provider.Shift | src/taskProvider.ts:77 | `buffer.shift()`, what remains after the first entry (reference definition; ActiveBuffer relates it to the text) |
| Provider.Partial | src/taskProvider.ts:115 | the partial `join("").replace("/", "")` (reference definition; ActiveBuffer shows it is the buffer after "/") |
| Matcher.Matching | src/taskProvider.ts:121-122 | the matches are exactly the tasks whose name starts with the partial, and there are no more of them than tasks |
| Matcher.QualifiedLabel | src/taskProvider.ts:141 | the label `name (ws)` (reference definition; QualifiedLabelParts gives its shape) |
| Matcher.Label | src/taskProvider.ts:131-144 | the label pushed for a task, with the corrected qualifier: qualified in a multi-root workspace, the bare name otherwise (reference definition; see QualifierIsFolder) |
| Matcher.Qualifier | src/taskProvider.ts:135-139 | the corrected workspace qualifier: the folder's name, or "" for a task outside every folder (reference definition; see QualifierIsFolder) |
| Matcher.QualifierAsWritten | src/taskProvider.ts:135-139 | the qualifier as the code computes it, "undefined" for the numeric non-folder scopes (reference definition; see UndefinedQualifier) |
| Matcher.Labels | src/taskProvider.ts:119-143 | the `_matches` array with the corrected qualifier, one label per task in order (reference definition; see LabelsAgree) |
| Matcher.LabelsAsWritten | src/taskProvider.ts:119-143 | the `_matches` array as the code builds it, one label per task in order (reference definition; see LabelsAgree) |
| Matcher.LabelAsWritten | src/taskProvider.ts:131-144 | the label the code pushes, with "undefined" as the qualifier of a task outside every folder (reference definition; see UndefinedQualifier) |
| Matcher.LabelsAgree | src/taskProvider.ts:131-144 | the scan's labels equal the labels as written outside a multi-root workspace, and in one whenever every task is scoped to a folder |
| Matcher.ScanMatches | src/taskProvider.ts:118-146 | the loop's count is the number of matches; the first name is present exactly when some task matches and is the first match's name; one label per match, in order |
| Matcher.EmptyPartialMatchesAll | src/taskProvider.ts:115-122 | the empty partial (a buffer holding only "/") matches every task, in order |
| Matcher.MatchingCounts | src/taskProvider.ts:121-128 | every task whose name starts with the partial is counted as often as it occurs, and no other task is counted |
| Matcher.QualifiedLabelParts | src/taskProvider.ts:141 | a qualified label is the name, a space and the parenthesised qualifier, so it holds both parentheses |
| Matcher.ParsePick | src/taskProvider.ts:162-173 | the parse fails (the source's TypeError) exactly when the label holds both parentheses and no space; a label without both parentheses is both name and folder; a parsed name is a space-free prefix of the label |
| Matcher.SplitSpaceFreeLabel | src/taskProvider.ts:167-168 | a space-free qualified label splits into the name and the parenthesised qualifier |
| Matcher.ParseSpaceFreeLabel | src/taskProvider.ts:164-170 | a space-free qualified label parses to its name and to the qualifier followed by ")" with the first ")" removed |
| Matcher.LabelRoundTripExactly | src/taskProvider.ts:141-170 | a label `name (ws)` parses back to `name` and `ws` if and only if neither holds a space and `RemoveFirst(ws + ")", ')') == ws` |
| Matcher.LabelRoundTrip | src/taskProvider.ts:141-170 | a label `name (ws)` parses back to `name` and `ws` when neither holds a space and `ws` holds no ")" |
| Matcher.LabelRoundTripNeedsNoSpace | src/taskProvider.ts:141-170 | conversely, a label that parses back to its own name and qualifier has no space in either |
| Matcher.ParenInQualifierBreaksRoundTrip | src/taskProvider.ts:167-169 | with qualifier ")a" the parsed qualifier is "a)": the first ")" removed is the qualifier's own |
| Matcher.ParenInQualifierCanRoundTrip | src/taskProvider.ts:167-169 | the qualifier "a)" parses back unchanged, so a ")" in the qualifier does not always break the round trip |
| Matcher.UndefinedQualifier | src/taskProvider.ts:135-141 | as written, a task outside every folder is labelled `name (undefined)` in a multi-root workspace |
| Matcher.UndefinedQualifierPicksFolder | src/taskProvider.ts:135-199 | as written, picking "build (undefined)" looks for the folder "undefined" and runs that folder's "build" when it exists |
| Matcher.QualifierIsFolder | src/taskProvider.ts:135-141 | as intended, the qualifier is the task's folder, and empty for a task outside every folder; for folder tasks this agrees with the code |
| Matcher.Fits | src/taskProvider.ts:187-196 | the filter's test: the exact name and, in a multi-root workspace, the task's folder named as picked (reference definition; FirstFit finds the first task that passes) |
| Matcher.NonFolderNeverPicked | src/taskProvider.ts:187-191 | the lookup with a folder never lands on a task outside every folder |
| Matcher.CorrectedLabelStillUnpicked | src/taskProvider.ts:135-191 | the corrected label "name ()" of a task outside every folder parses back to the empty folder name, and the lookup still never lands on that task |
| Matcher.FirstFit | src/taskProvider.ts:182-199 | the lookup's `[0]` is the first task that fits the name (and folder); no earlier task fits, and the end stands for "none fits" |
| Matcher.PickFindsTask | src/taskProvider.ts:131-199 | picking the label of a folder task with no space in its name or folder, and no ")" in its folder, parses and leads the lookup to a task with that name and folder, no later than the task itself |
| Tree.FirstEntry | src/taskProvider.ts:344-357 | the inner loop stops at the first entry whose label matches; no earlier entry matches |
| Tree.HideSetting | src/taskProvider.ts:305-359 | the hidden flag a tree task ends with (reference definition; HideSettingMeans characterises it, ResolveHide computes it) |
| Tree.HideValue | src/taskProvider.ts:346 | `hide ?? false`: an entry's `hide` setting, or false when it has none (reference definition used by HideSetting) |
| Tree.ResolveHide | src/taskProvider.ts:305-359 | the nested search over the folders' lists yields `HideSetting` |
| Tree.HideSettingMeans | src/taskProvider.ts:305-359 | a task is hidden exactly when the last folder whose list has an entry for it marks that first entry `hide: true` |
| Tree.ToTreeTask | src/taskProvider.ts:225-239 | the tree task built for a task: its type, name, hidden flag, folder name and tooltip (reference definition) |
| Tree.Visible | src/taskProvider.ts:224-241 | the shown tree tasks are the tree tasks of the project's tasks that are not hidden, or all of them when `unhide` is on; VisibleCounts and VisibleAppend add that each is kept as often as fetched, in fetch order |
| Tree.Shown | src/taskProvider.ts:241 | `!hide \|\| unhide`: a tree task is shown when it is not hidden or hidden tasks are shown (reference definition used by Visible) |
| Tree.VisibleCounts | src/taskProvider.ts:224-241 | each shown task's tree task occurs as often as the task was fetched, and a hidden one not at all, so LayoutCoversOnce covers every shown project task exactly as often as fetched |
| Tree.VisibleAppend | src/taskProvider.ts:224-241 | the shown tree tasks keep fetch order: those of two runs of tasks are those of each run, one after the other |
| Tree.GroupIndex | src/taskProvider.ts:243-247 | the group found for a folder is the first group with that folder's name; the end stands for "not created yet" |
| Tree.InFolder | src/taskProvider.ts:248 | a folder's visible tasks are exactly the visible tasks whose workspace is that folder |
| Tree.Layout | src/taskProvider.ts:241-252 | the elements the loop builds before sorting (reference definition; LayoutGroups and LayoutCoversOnce state what it promises, BuildElements computes it) |
| Tree.LayoutGroups | src/taskProvider.ts:241-252 | each group holds its folder's visible tasks, in order, and is never empty; no two groups share a folder; every folder with a visible task has a group; the top-level tasks are the visible tasks outside every folder, in order |
| Tree.LayoutCoversOnce | src/taskProvider.ts:241-252 | every visible task appears in the tree exactly as often as it is visible |
| Tree.LabelCompare | src/taskProvider.ts:262-268 | the label order standing in for `localeCompare` (reference definition; LabelCompareFlip and LabelCompareTrans state its properties) |
| Tree.Compare | src/taskProvider.ts:256-269 | the comparator: groups first, then by label (reference definition; CompareTotal, CompareTrans and GroupsFirst state its properties) |
| Tree.LabelCompareFlip | src/taskProvider.ts:262-268 | the label order is antisymmetric and 0 exactly on equal labels |
| Tree.LabelCompareTrans | src/taskProvider.ts:262-268 | the label order is transitive |
| Tree.CompareTotal | src/taskProvider.ts:256-269 | any two elements are ordered one way or the other by the comparator |
| Tree.CompareTrans | src/taskProvider.ts:256-269 | the comparator is transitive |
| Tree.Insert | src/taskProvider.ts:256 | one insertion step of the sort (reference definition; InsertSorted states its properties) |
| Tree.SortNodes | src/taskProvider.ts:256-269 | the sort of the top level (reference definition; SortNodesSorts states its properties) |
| Tree.InsertSorted | src/taskProvider.ts:256 | inserting into a sorted top level keeps it sorted and adds exactly that element |
| Tree.SortNodesSorts | src/taskProvider.ts:256-269 | the sort yields a sorted permutation of the elements |
| Tree.GroupsFirst | src/taskProvider.ts:257-261 | in a sorted top level every group precedes every task, and elements of the same kind are in label order |
| Tree.ZetaBeforeAlpha | src/taskProvider.ts:256-269 | a group labelled "Zeta" sorts before a task labelled "Alpha" |
| Provider.ActiveBuffer | src/taskProvider.ts:70-80 | on a buffer that starts with "/", the text is "/" and the rest, the tab partial is the rest, and the newline lookup uses the rest |
| Provider.ReplacedBuffer | src/taskProvider.ts:149-180 | a buffer replaced by "/" and a name's characters shows "/" + name and executes that name |
| Provider.FileTask | src/taskProvider.ts:242-252 | filing one visible tree task (into its folder's group, created first when missing, or at the top level) extends the layout by that task and keeps the dictionary pointing at each folder's group |
| Provider.BuildElements | src/taskProvider.ts:221-253 | the loop of `getChildren` builds exactly `Layout` of the visible tree tasks |
| Provider.TaskTreeDataProvider.constructor | src/taskProvider.ts:22-32 | a new provider has an empty buffer, a blank status bar, no handler, the key off, `unhide` off and nothing executed |
| Provider.TaskTreeDataProvider.Unhide | src/taskProvider.ts:49-52 | toggles whether hidden tasks are shown and changes nothing else |
| Provider.TaskTreeDataProvider.PutTaskCmd | src/taskProvider.ts:54-91 | appends "/" to the buffer, shows "/", sets the key and registers the handler; from `Idle` it starts a session |
| Provider.TaskTreeDataProvider.Type | src/taskProvider.ts:68-90 | with no handler nothing changes; a keystroke is appended and the text is the joined buffer, keeping a session; a newline drops the first entry, executes the first task with the rest as its name (or shows the undefined-task message) and ends `Idle`; the text shown before the newline is "/" + the executed name |
| Provider.TaskTreeDataProvider.ExitTaskCmd | src/taskProvider.ts:93-103 | removes the handler, clears the key, the buffer and the text, and ends `Idle`; nothing is executed |
| Provider.TaskTreeDataProvider.BackTaskCmd | src/taskProvider.ts:105-110 | pops the last entry and updates the text only when more than one entry is left, so a session keeps its "/" |
| Provider.TaskTreeDataProvider.RunFirstFit | src/taskProvider.ts:199-205 | executes the first task that fits and exits with a blank text, or exits showing the undefined-task message; ends `Idle` |
| Provider.TaskTreeDataProvider.TabTaskCmd | src/taskProvider.ts:112-208 | no match changes nothing; one match replaces the buffer with "/" and the name; two or more clear the key and act on the pick; a session stays a session or ends `Idle` |
| Provider.TaskTreeDataProvider.Pick | src/taskProvider.ts:161-205 | a dismissed pick, or a label that cannot be parsed, changes nothing; a parsed pick executes the first re-fetched task with that name (and folder, in a multi-root workspace), or shows the undefined-task message, and exits |
| Provider.TaskTreeDataProvider.GetChildren | src/taskProvider.ts:210-272 | a group yields its children; otherwise the top level is a sorted permutation of `Layout` of the visible project tasks |
| Provider.ExitTwice | src/taskProvider.ts:93-103 | exit is idempotent |
| Provider.TabThenRun | src/taskProvider.ts:68-151 | with tasks "build" and "test", typing "b", tab and newline executes "build" and leaves the session `Idle` |
| Provider.TabWithoutMatch | src/taskProvider.ts:121-151 | typing "x" and tab with no task starting with "x" leaves the buffer ["/","x"], the text "/x" and the session running |
| Provider.ListAcrossFolders | src/taskProvider.ts:121-146 | two folders A and B that each define "build" are listed as "build (A)" and "build (B)" |
| Provider.PickAcrossFolders | src/taskProvider.ts:152-205 | picking "build (B)" executes B's "build", not A's |

## Left out

- VS Code plumbing is not modelled: the status-bar item's `show`, the tree-change event (`refresh`, `fire`) and `getTreeItem`. The tree item's command, collapsible state and icon (`ThemeIcon`) are left out too. `console.log` is left out. The `autorefresh` setting is read in the constructor and never used in the core, so it is left out as well.
- `setContext` is modelled as the `cmdlineMode` flag, and command registration as the `intercepting` flag.
- `async`/`await` interleaving is not modelled: each command runs to completion. `fetchTasks` and `showQuickPick` results are parameters.
- `executeTask` is fire-and-forget in the source. The model records the task in `executed` and does not model the run.
- Reading `tasks.json` and the `.code-workspace` file is not modelled: file existence checks, JSON5 parsing and the concatenation of both files' task lists. The model takes each folder's resulting list of entries as input.
- Tasks whose configuration entries are not a list, and a folder without a readable `tasks.json`, are not modelled. The source throws there.
- Tree.LabelCompare: `localeCompare` is replaced by the order of character codes, because locale collation is outside the model. The proved facts (groups first, a total preorder) do not depend on this choice.
- Tree.SortNodes: `Array.prototype.sort` is modelled as an insertion sort on a sequence. The engine's algorithm, its tie order and its in-place update are not modelled. What is proved, a sorted permutation, holds for any correct sort.
- Matcher.ScanMatches: the labels are built with the corrected qualifier (`Label`), so a task outside every folder in a multi-root workspace is listed as "name ()" where the code lists "name (undefined)". The code's labels are `LabelAsWritten`, and LabelsAgree shows the two agree whenever every matching task is in a folder. The difference is recorded under Findings.
- Provider.BuildElements: `taskFolders` is a plain object. A folder named after an `Object.prototype` member, such as "constructor", "toString" or "__proto__", already reads as defined, so no group is created for it. `taskFolders[w].children.push` then throws a TypeError and `getChildren` fails. The model treats every folder name as an ordinary key and builds a group.
- Provider.BuildElements: the dictionary from folder name to group object is modelled as a map from folder name to the group's position in the element list. Pushing onto the shared group object becomes an update at that position. Object aliasing itself is not modelled.
- Calling `putTaskCmd` while a session is active registers a second `type` handler and drops the first without disposing it. The model keeps a single `intercepting` flag.
- Tasks.Scope: the host's `Task.scope` may also be `undefined`, for instance on a task from some other provider. The lookup at line 190 reads `.name` of it and throws a TypeError when such a task has the picked name. The model's scopes are always a folder or one of the two numeric scopes, so this error path is not modelled.
- Strings are sequences of characters. JavaScript's UTF-16 code units and surrogate pairs are not modelled.
- Matcher.ParsePick: `None` stands for the `TypeError` raised when a label with both parentheses has no space. The model does not continue past the error: the state is left as it was, except that `inCmdlineMode` has already been cleared.
- The TreeTask label normalisation `${this.label}` is the identity on the string labels modelled here.

## Findings

| source | as written | input that shows it | evidently intended | confidence | as-written member | corrected member |
|---|---|---|---|---|---|---|
| src/taskProvider.ts:135-141 | `typeof _task.scope !== "string"` always holds, because the host's non-folder scopes are numbers. For such a task, `(scope as WorkspaceFolder).name` reads a missing property, and the label becomes `name (undefined)` | a task scoped to the whole workspace, named "build", with two folders open: label "build (undefined)" | the qualifier defaults to the initialised "" for tasks outside every folder: "build ()" | medium, not executed | Matcher.UndefinedQualifier | Matcher.QualifierIsFolder |
