/** The tree view: the hidden flag each tree task takes from the project's task
    configuration, the grouping of the visible tasks by workspace folder, and
    the order of the top level (groups first, then by label). */
module Tree {
  import opened Tasks

  /** One task entry of a folder's parsed task configuration: its label and
      its optional `hide` setting (field `hidden`). */
  datatype ConfigEntry = ConfigEntry(taskLabel: string, hidden: Option<bool>)

  /** `hide ?? false`, the entry's `hide` setting or false. */
  function HideValue(e: ConfigEntry): bool
  {
    match e.hidden
    case Some(b) => b
    case None => false
  }

  /** The position of the first entry labelled `name` in one folder's list,
      or `|entries|` when there is none. */
  function FirstEntry(entries: seq<ConfigEntry>, name: string): (k: nat)
    ensures k <= |entries|
    ensures forall j :: 0 <= j < k ==> entries[j].taskLabel != name
    ensures k < |entries| ==> entries[k].taskLabel == name
  {
    if entries == [] then 0
    else if entries[0].taskLabel == name then 0
    else 1 + FirstEntry(entries[1..], name)
  }

  /** The hidden flag a tree task ends with: the folders' lists are searched in
      turn, and in each list the first entry labelled `name` sets the flag,
      overriding what earlier folders set; false when no list has one. */
  function HideSetting(configs: seq<seq<ConfigEntry>>, name: string): bool
  {
    if configs == [] then false
    else
      var entries := configs[|configs| - 1];
      var k := FirstEntry(entries, name);
      if k < |entries| then HideValue(entries[k]) else HideSetting(configs[..|configs| - 1], name)
  }

  /** The search of the tree task's constructor: for every folder, walk its
      entries and stop at the first one whose label matches. */
  method ResolveHide(configs: seq<seq<ConfigEntry>>, name: string) returns (hidden: bool)
    ensures hidden == HideSetting(configs, name)
  {
    hidden := false;
    for i := 0 to |configs|
      invariant hidden == HideSetting(configs[..i], name)
    {
      var entries := configs[i];
      assert configs[..i + 1][..i] == configs[..i];
      var j := 0;
      while j < |entries|
        invariant j <= |entries|
        invariant forall m :: 0 <= m < j ==> entries[m].taskLabel != name
        invariant hidden == HideSetting(configs[..i], name)
      {
        if entries[j].taskLabel == name {
          hidden := HideValue(entries[j]);
          break;
        }
        j := j + 1;
      }
    }
    assert configs[..|configs|] == configs;
  }

  /** Whether one folder's list has an entry labelled `name`. */
  predicate HasEntry(entries: seq<ConfigEntry>, name: string)
  {
    FirstEntry(entries, name) < |entries|
  }

  /** Whether folder `i` is the last one whose list has an entry labelled `name`. */
  predicate LastWithEntry(configs: seq<seq<ConfigEntry>>, i: int, name: string)
  {
    0 <= i < |configs| && HasEntry(configs[i], name)
    && forall j :: i < j < |configs| ==> !HasEntry(configs[j], name)
  }

  /** A task is hidden exactly when the last folder whose list has an entry for
      it has `hide` true in its first such entry. */
  lemma {:induction false} HideSettingMeans(configs: seq<seq<ConfigEntry>>, name: string)
    ensures HideSetting(configs, name) <==>
      exists i :: LastWithEntry(configs, i, name) && HideValue(configs[i][FirstEntry(configs[i], name)])
  {
    if configs != [] {
      var n := |configs| - 1;
      var init := configs[..n];
      if HasEntry(configs[n], name) {
        assert LastWithEntry(configs, n, name);
        forall i | LastWithEntry(configs, i, name) ensures i == n { }
      } else {
        HideSettingMeans(init, name);
        forall i ensures LastWithEntry(configs, i, name) <==> LastWithEntry(init, i, name) {
          if 0 <= i < n {
            assert configs[i] == init[i];
            assert forall j :: i < j < n ==> configs[j] == init[j];
          }
        }
        forall i | 0 <= i < n ensures configs[i] == init[i] { }
      }
    }
  }

  /** A tree task: the task's type and name, the hidden flag, the workspace
      folder it is grouped under (none for tasks outside every folder), its
      tooltip and the task it executes. */
  datatype TreeTask = TreeTask(taskType: string, name: string, hidden: bool,
                               workspace: Option<string>, tooltip: Option<string>, task: Task)

  /** The tree task built for `t`. */
  function ToTreeTask(t: Task, configs: seq<seq<ConfigEntry>>): TreeTask
  {
    TreeTask(t.taskType, t.name, HideSetting(configs, t.name), FolderName(t.scope), t.detail, t)
  }

  predicate Shown(tt: TreeTask, unhide: bool)
  {
    !tt.hidden || unhide
  }

  /** The tree tasks of the tasks that are shown, in order. */
  function Visible(tasks: seq<Task>, configs: seq<seq<ConfigEntry>>, unhide: bool): (r: seq<TreeTask>)
    ensures forall tt :: tt in r ==> tt.task in tasks && tt == ToTreeTask(tt.task, configs) && Shown(tt, unhide)
    ensures forall t :: t in tasks && Shown(ToTreeTask(t, configs), unhide) ==> ToTreeTask(t, configs) in r
    ensures unhide ==> |r| == |tasks|
  {
    if tasks == [] then []
    else
      var init := Visible(tasks[..|tasks| - 1], configs, unhide);
      var tt := ToTreeTask(tasks[|tasks| - 1], configs);
      assert tasks == tasks[..|tasks| - 1] + [tasks[|tasks| - 1]];
      if Shown(tt, unhide) then init + [tt] else init
  }

  lemma VisibleSnoc(tasks: seq<Task>, t: Task, configs: seq<seq<ConfigEntry>>, unhide: bool)
    ensures var tt := ToTreeTask(t, configs);
      Visible(tasks + [t], configs, unhide)
        == Visible(tasks, configs, unhide) + (if Shown(tt, unhide) then [tt] else [])
  {
    assert (tasks + [t])[..|tasks|] == tasks;
  }

  /** Each shown task's tree task occurs as often as the task was fetched,
      and a hidden one not at all. */
  lemma {:induction false} VisibleCounts(tasks: seq<Task>, configs: seq<seq<ConfigEntry>>, unhide: bool, t: Task)
    ensures var tt := ToTreeTask(t, configs);
      multiset(Visible(tasks, configs, unhide))[tt] == if Shown(tt, unhide) then multiset(tasks)[t] else 0
  {
    if tasks != [] {
      var init := tasks[..|tasks| - 1];
      var u := tasks[|tasks| - 1];
      VisibleCounts(init, configs, unhide, t);
      assert tasks == init + [u];
      VisibleSnoc(init, u, configs, unhide);
      assert multiset(tasks) == multiset(init) + multiset{u};
      var tu := ToTreeTask(u, configs);
      if Shown(tu, unhide) {
        assert multiset(Visible(tasks, configs, unhide)) == multiset(Visible(init, configs, unhide)) + multiset{tu};
        assert tu == ToTreeTask(t, configs) <==> u == t;
      }
    }
  }

  /** The shown tasks keep fetch order: the tree tasks of two runs of tasks are
      those of each run, one after the other. */
  lemma {:induction false} VisibleAppend(a: seq<Task>, b: seq<Task>, configs: seq<seq<ConfigEntry>>, unhide: bool)
    ensures Visible(a + b, configs, unhide) == Visible(a, configs, unhide) + Visible(b, configs, unhide)
  {
    if b == [] {
      assert a + b == a;
    } else {
      var init := b[..|b| - 1];
      var u := b[|b| - 1];
      assert b == init + [u];
      assert a + b == (a + init) + [u];
      VisibleSnoc(a + init, u, configs, unhide);
      VisibleSnoc(init, u, configs, unhide);
      VisibleAppend(a, init, configs, unhide);
      var va, vi := Visible(a, configs, unhide), Visible(init, configs, unhide);
      var tu := ToTreeTask(u, configs);
      if Shown(tu, unhide) {
        assert Visible(b, configs, unhide) == vi + [tu];
        assert Visible(a + b, configs, unhide) == (va + vi) + [tu] == va + (vi + [tu]);
      } else {
        assert Visible(b, configs, unhide) == vi;
        assert Visible(a + b, configs, unhide) == va + vi;
      }
    }
  }

  /** A top-level element of the tree: a workspace folder holding its tasks,
      or a task outside every folder. */
  datatype Node = Group(name: string, children: seq<TreeTask>) | Item(tree: TreeTask)
  {
    function Label(): string
    {
      match this
      case Group(n, _) => n
      case Item(t) => t.name
    }

    /** The tree tasks this element holds: a group's children, or the task itself. */
    function Members(): seq<TreeTask>
    {
      match this
      case Group(_, c) => c
      case Item(t) => [t]
    }
  }

  /** The position of the group for folder `w`, or `|nodes|` when there is none. */
  function GroupIndex(nodes: seq<Node>, w: string): (k: nat)
    ensures k <= |nodes|
    ensures forall j :: 0 <= j < k ==> !(nodes[j].Group? && nodes[j].name == w)
    ensures k < |nodes| ==> nodes[k].Group? && nodes[k].name == w
  {
    if nodes == [] then 0
    else if nodes[0].Group? && nodes[0].name == w then 0
    else 1 + GroupIndex(nodes[1..], w)
  }

  /** The elements `getChildren` builds from the visible tree tasks, before
      sorting: a task in a folder goes to that folder's group, which is
      appended at the first task of the folder; any other task is appended
      as it is. */
  function Layout(vs: seq<TreeTask>): seq<Node>
  {
    if vs == [] then []
    else
      var prev := Layout(vs[..|vs| - 1]);
      var t := vs[|vs| - 1];
      match t.workspace
      case None => prev + [Item(t)]
      case Some(w) =>
        var k := GroupIndex(prev, w);
        if k < |prev| then prev[k := Group(w, prev[k].children + [t])]
        else prev + [Group(w, [t])]
  }

  lemma LayoutSnoc(vs: seq<TreeTask>, t: TreeTask)
    ensures Layout(vs + [t]) ==
      match t.workspace
      case None => Layout(vs) + [Item(t)]
      case Some(w) =>
        var k := GroupIndex(Layout(vs), w);
        if k < |Layout(vs)| then Layout(vs)[k := Group(w, Layout(vs)[k].children + [t])]
        else Layout(vs) + [Group(w, [t])]
  {
    assert (vs + [t])[..|vs|] == vs;
  }

  /** The visible tasks of folder `w`, in order. */
  function InFolder(vs: seq<TreeTask>, w: string): (r: seq<TreeTask>)
    ensures forall t :: t in r <==> t in vs && t.workspace == Some(w)
  {
    if vs == [] then []
    else
      var t := vs[|vs| - 1];
      assert vs == vs[..|vs| - 1] + [t];
      InFolder(vs[..|vs| - 1], w) + (if t.workspace == Some(w) then [t] else [])
  }

  /** The visible tasks outside every folder, in order. */
  function Standalone(vs: seq<TreeTask>): seq<TreeTask>
  {
    if vs == [] then []
    else
      var t := vs[|vs| - 1];
      Standalone(vs[..|vs| - 1]) + (if t.workspace.None? then [t] else [])
  }

  /** The tasks that stand at the top level, in order. */
  function Items(nodes: seq<Node>): seq<TreeTask>
  {
    if nodes == [] then []
    else
      var n := nodes[|nodes| - 1];
      Items(nodes[..|nodes| - 1]) + (if n.Item? then [n.tree] else [])
  }

  /** Every tree task of the tree: a group's children, a top-level task itself. */
  function Flatten(nodes: seq<Node>): seq<TreeTask>
  {
    if nodes == [] then []
    else
      var n := nodes[|nodes| - 1];
      Flatten(nodes[..|nodes| - 1]) + n.Members()
  }

  /** A group's children are the visible tasks of its folder, in order, and never none. */
  ghost predicate GroupsHoldFolders(nodes: seq<Node>, vs: seq<TreeTask>)
  {
    forall k :: 0 <= k < |nodes| && nodes[k].Group? ==>
      nodes[k].children == InFolder(vs, nodes[k].name) && nodes[k].children != []
  }

  /** No two groups share a folder. */
  ghost predicate GroupsDistinct(nodes: seq<Node>)
  {
    forall i, j :: 0 <= i < j < |nodes| && nodes[i].Group? && nodes[j].Group? ==>
      nodes[i].name != nodes[j].name
  }

  /** Every folder of a visible task has a group. */
  ghost predicate FoldersHaveGroups(nodes: seq<Node>, vs: seq<TreeTask>)
  {
    forall t :: t in vs && t.workspace.Some? ==> GroupIndex(nodes, t.workspace.value) < |nodes|
  }

  /** What grouping promises of the elements `nodes` built from `vs`; besides
      the three above, the top-level tasks are the visible tasks outside every
      folder, in order. */
  ghost predicate GroupedBy(nodes: seq<Node>, vs: seq<TreeTask>)
  {
    GroupsHoldFolders(nodes, vs) && GroupsDistinct(nodes) && FoldersHaveGroups(nodes, vs)
    && Items(nodes) == Standalone(vs)
  }

  lemma InFolderSnoc(vs: seq<TreeTask>, t: TreeTask, w: string)
    ensures InFolder(vs + [t], w) == InFolder(vs, w) + (if t.workspace == Some(w) then [t] else [])
  {
    assert (vs + [t])[..|vs|] == vs;
  }

  lemma InFolderNone(vs: seq<TreeTask>, w: string)
    requires forall u :: u in vs ==> u.workspace != Some(w)
    ensures InFolder(vs, w) == []
  {
    if InFolder(vs, w) != [] {
      assert InFolder(vs, w)[0] in InFolder(vs, w);
    }
  }

  lemma StandaloneSnoc(vs: seq<TreeTask>, t: TreeTask)
    ensures Standalone(vs + [t]) == Standalone(vs) + (if t.workspace.None? then [t] else [])
  {
    assert (vs + [t])[..|vs|] == vs;
  }

  lemma ItemsSnoc(nodes: seq<Node>, x: Node)
    ensures Items(nodes + [x]) == Items(nodes) + (if x.Item? then [x.tree] else [])
  {
    assert (nodes + [x])[..|nodes|] == nodes;
  }

  lemma {:induction false} GroupIndexAppend(nodes: seq<Node>, x: Node, w: string)
    requires GroupIndex(nodes, w) < |nodes|
    ensures GroupIndex(nodes + [x], w) == GroupIndex(nodes, w)
  {
    if nodes[0].Group? && nodes[0].name == w {
    } else {
      assert (nodes + [x])[1..] == nodes[1..] + [x];
      GroupIndexAppend(nodes[1..], x, w);
    }
  }

  lemma {:induction false} GroupIndexUpdate(nodes: seq<Node>, k: nat, g: Node, w: string)
    requires k < |nodes| && nodes[k].Group? && g.Group? && g.name == nodes[k].name
    ensures GroupIndex(nodes[k := g], w) == GroupIndex(nodes, w)
  {
    if k > 0 && !(nodes[0].Group? && nodes[0].name == w) {
      assert nodes[k := g][1..] == nodes[1..][k - 1 := g];
      GroupIndexUpdate(nodes[1..], k - 1, g, w);
    }
  }

  lemma {:induction false} ItemsUpdate(nodes: seq<Node>, k: nat, g: Node)
    requires k < |nodes| && nodes[k].Group? && g.Group?
    ensures Items(nodes[k := g]) == Items(nodes)
  {
    var n := |nodes| - 1;
    var init := nodes[..n];
    assert nodes == init + [nodes[n]];
    ItemsSnoc(init, nodes[n]);
    if k < n {
      assert nodes[k := g] == init[k := g] + [nodes[n]];
      ItemsSnoc(init[k := g], nodes[n]);
      ItemsUpdate(init, k, g);
    } else {
      assert nodes[k := g] == init + [g];
      ItemsSnoc(init, g);
    }
  }

  /** Flatten splits at the last element. */
  lemma FlattenSnoc(init: seq<Node>, x: Node)
    ensures Flatten(init + [x]) == Flatten(init) + x.Members()
  {
    assert (init + [x])[..|init|] == init;
  }

  /** Flatten distributes over concatenation. */
  lemma {:induction false} FlattenAppend(a: seq<Node>, b: seq<Node>)
    ensures Flatten(a + b) == Flatten(a) + Flatten(b)
  {
    if b == [] {
      assert a + b == a;
    } else {
      var init := b[..|b| - 1];
      var x := b[|b| - 1];
      assert b == init + [x];
      calc {
        Flatten(a + b);
        { assert a + b == (a + init) + [x]; }
        Flatten((a + init) + [x]);
        { FlattenSnoc(a + init, x); }
        Flatten(a + init) + x.Members();
        { FlattenAppend(a, init); }
        (Flatten(a) + Flatten(init)) + x.Members();
        Flatten(a) + (Flatten(init) + x.Members());
        { FlattenSnoc(init, x); }
        Flatten(a) + Flatten(b);
      }
    }
  }

  lemma FlattenUpdate(nodes: seq<Node>, k: nat, t: TreeTask)
    requires k < |nodes| && nodes[k].Group?
    ensures multiset(Flatten(nodes[k := Group(nodes[k].name, nodes[k].children + [t])]))
         == multiset(Flatten(nodes)) + multiset{t}
  {
    var g := Group(nodes[k].name, nodes[k].children + [t]);
    var front, back := nodes[..k], nodes[k + 1..];
    assert nodes == (front + [nodes[k]]) + back;
    assert nodes[k := g] == (front + [g]) + back;
    FlattenAppend(front + [nodes[k]], back);
    FlattenAppend(front + [g], back);
    FlattenSnoc(front, nodes[k]);
    FlattenSnoc(front, g);
  }

  /** The step of an unscoped task: it is appended to the top level. */
  lemma GroupedByItem(prev: seq<Node>, vs: seq<TreeTask>, t: TreeTask)
    requires GroupedBy(prev, vs) && t.workspace.None?
    ensures GroupedBy(prev + [Item(t)], vs + [t])
  {
    var nodes := prev + [Item(t)];
    var vs' := vs + [t];
    forall k | 0 <= k < |nodes| && nodes[k].Group?
      ensures nodes[k].children == InFolder(vs', nodes[k].name) && nodes[k].children != []
    {
      InFolderSnoc(vs, t, nodes[k].name);
    }
    forall u | u in vs' && u.workspace.Some?
      ensures GroupIndex(nodes, u.workspace.value) < |nodes|
    {
      GroupIndexAppend(prev, Item(t), u.workspace.value);
    }
    ItemsSnoc(prev, Item(t));
    StandaloneSnoc(vs, t);
  }

  /** The step of a task whose folder has no group yet: a new group holding it
      is appended. */
  lemma GroupedByNewGroup(prev: seq<Node>, vs: seq<TreeTask>, t: TreeTask, w: string)
    requires GroupedBy(prev, vs) && t.workspace == Some(w) && GroupIndex(prev, w) == |prev|
    ensures GroupedBy(prev + [Group(w, [t])], vs + [t])
  {
    var g := Group(w, [t]);
    var nodes := prev + [g];
    var vs' := vs + [t];
    assert forall u :: u in vs ==> u.workspace != Some(w);
    InFolderNone(vs, w);
    assert GroupsHoldFolders(nodes, vs') by {
      forall k | 0 <= k < |nodes| && nodes[k].Group?
        ensures nodes[k].children == InFolder(vs', nodes[k].name) && nodes[k].children != []
      {
        InFolderSnoc(vs, t, nodes[k].name);
        if k < |prev| {
          assert nodes[k] == prev[k];
        }
      }
    }
    assert GroupsDistinct(nodes) by {
      forall i, j | 0 <= i < j < |nodes| && nodes[i].Group? && nodes[j].Group?
        ensures nodes[i].name != nodes[j].name
      {
        assert nodes[i] == prev[i];
        if j < |prev| { assert nodes[j] == prev[j]; }
      }
    }
    assert FoldersHaveGroups(nodes, vs') by {
      forall u | u in vs' && u.workspace.Some?
        ensures GroupIndex(nodes, u.workspace.value) < |nodes|
      {
        if u in vs {
          GroupIndexAppend(prev, g, u.workspace.value);
        } else {
          assert nodes[|prev|] == g;
        }
      }
    }
    ItemsSnoc(prev, g);
    StandaloneSnoc(vs, t);
  }

  /** The step of a task whose folder has its group at `k`: the task joins
      that group's children. */
  lemma GroupedByJoin(prev: seq<Node>, vs: seq<TreeTask>, t: TreeTask, w: string, k: nat)
    requires GroupedBy(prev, vs) && t.workspace == Some(w) && k == GroupIndex(prev, w) < |prev|
    ensures GroupedBy(prev[k := Group(w, prev[k].children + [t])], vs + [t])
  {
    var g := Group(w, prev[k].children + [t]);
    var nodes := prev[k := g];
    var vs' := vs + [t];
    assert GroupsHoldFolders(nodes, vs') by {
      forall m | 0 <= m < |nodes| && nodes[m].Group?
        ensures nodes[m].children == InFolder(vs', nodes[m].name) && nodes[m].children != []
      {
        InFolderSnoc(vs, t, nodes[m].name);
        if m != k {
          assert nodes[m] == prev[m];
          assert prev[m].name != w by {
            if m > k { assert prev[k].Group? && prev[m].Group?; }
          }
        }
      }
    }
    assert GroupsDistinct(nodes) by {
      forall i, j | 0 <= i < j < |nodes| && nodes[i].Group? && nodes[j].Group?
        ensures nodes[i].name != nodes[j].name
      {
        assert prev[i].Group? && prev[j].Group?;
        assert nodes[i].name == prev[i].name && nodes[j].name == prev[j].name;
      }
    }
    assert FoldersHaveGroups(nodes, vs') by {
      forall u | u in vs' && u.workspace.Some?
        ensures GroupIndex(nodes, u.workspace.value) < |nodes|
      {
        GroupIndexUpdate(prev, k, g, u.workspace.value);
      }
    }
    ItemsUpdate(prev, k, g);
    StandaloneSnoc(vs, t);
  }

  /** Grouping is correct: the elements built from the visible tasks satisfy `GroupedBy`. */
  lemma {:induction false} LayoutGroups(vs: seq<TreeTask>)
    ensures GroupedBy(Layout(vs), vs)
  {
    if vs != [] {
      var init := vs[..|vs| - 1];
      var t := vs[|vs| - 1];
      assert vs == init + [t];
      LayoutGroups(init);
      var prev := Layout(init);
      match t.workspace
      case None => GroupedByItem(prev, init, t);
      case Some(w) =>
        var k := GroupIndex(prev, w);
        if k < |prev| {
          GroupedByJoin(prev, init, t, w, k);
        } else {
          GroupedByNewGroup(prev, init, t, w);
        }
    }
  }

  /** Every visible task appears in the tree exactly as often as it is visible:
      in its folder's group or at the top level. */
  lemma {:induction false} LayoutCoversOnce(vs: seq<TreeTask>)
    ensures multiset(Flatten(Layout(vs))) == multiset(vs)
  {
    if vs != [] {
      var init := vs[..|vs| - 1];
      var t := vs[|vs| - 1];
      assert vs == init + [t];
      LayoutCoversOnce(init);
      var prev := Layout(init);
      match t.workspace
      case None =>
        assert (prev + [Item(t)])[..|prev|] == prev;
      case Some(w) =>
        var k := GroupIndex(prev, w);
        if k < |prev| {
          FlattenUpdate(prev, k, t);
        } else {
          assert (prev + [Group(w, [t])])[..|prev|] == prev;
        }
    }
  }

  /** `localeCompare` stood in for by the order of character codes: negative,
      zero or positive as `a` sorts before, with or after `b`. */
  function LabelCompare(a: string, b: string): int
  {
    if a == [] && b == [] then 0
    else if a == [] then -1
    else if b == [] then 1
    else if a[0] < b[0] then -1
    else if a[0] > b[0] then 1
    else LabelCompare(a[1..], b[1..])
  }

  /** The comparator of `getChildren`: groups before tasks, then by label. */
  function Compare(a: Node, b: Node): int
  {
    if a.Group? && !b.Group? then -1
    else if !a.Group? && b.Group? then 1
    else LabelCompare(a.Label(), b.Label())
  }

  lemma {:induction false} LabelCompareFlip(a: string, b: string)
    ensures LabelCompare(a, b) == -LabelCompare(b, a)
    ensures LabelCompare(a, b) == 0 <==> a == b
  {
    if a != [] && b != [] && a[0] == b[0] {
      LabelCompareFlip(a[1..], b[1..]);
      assert a == [a[0]] + a[1..] && b == [b[0]] + b[1..];
    }
  }

  lemma {:induction false} LabelCompareTrans(a: string, b: string, c: string)
    requires LabelCompare(a, b) <= 0 && LabelCompare(b, c) <= 0
    ensures LabelCompare(a, c) <= 0
  {
    if a != [] && b != [] && c != [] && a[0] == b[0] == c[0] {
      LabelCompareTrans(a[1..], b[1..], c[1..]);
    }
  }

  lemma CompareTotal(a: Node, b: Node)
    ensures Compare(a, b) <= 0 || Compare(b, a) <= 0
  {
    LabelCompareFlip(a.Label(), b.Label());
  }

  lemma CompareTrans(a: Node, b: Node, c: Node)
    requires Compare(a, b) <= 0 && Compare(b, c) <= 0
    ensures Compare(a, c) <= 0
  {
    if a.Group? == b.Group? == c.Group? {
      LabelCompareTrans(a.Label(), b.Label(), c.Label());
    }
  }

  /** Every element sorts no later than every element after it. */
  ghost predicate Sorted(nodes: seq<Node>)
  {
    forall i, j :: 0 <= i < j < |nodes| ==> Compare(nodes[i], nodes[j]) <= 0
  }

  /** `n` placed before the first element it does not sort after. */
  function Insert(n: Node, sorted: seq<Node>): seq<Node>
  {
    if sorted == [] then [n]
    else if Compare(n, sorted[0]) <= 0 then [n] + sorted
    else [sorted[0]] + Insert(n, sorted[1..])
  }

  /** The in-place `sort` of the top level by the comparator, written as an
      insertion sort. */
  function SortNodes(nodes: seq<Node>): seq<Node>
  {
    if nodes == [] then [] else Insert(nodes[0], SortNodes(nodes[1..]))
  }

  lemma {:induction false} InsertCounts(n: Node, s: seq<Node>)
    ensures multiset(Insert(n, s)) == multiset(s) + multiset{n}
  {
    if s != [] && Compare(n, s[0]) > 0 {
      InsertCounts(n, s[1..]);
      assert s == [s[0]] + s[1..];
    }
  }

  lemma SortedTail(s: seq<Node>)
    requires Sorted(s) && s != []
    ensures Sorted(s[1..])
  {
    forall i, j | 0 <= i < j < |s| - 1 ensures Compare(s[1..][i], s[1..][j]) <= 0 {
      assert s[1..][i] == s[i + 1] && s[1..][j] == s[j + 1];
    }
  }

  /** An element that sorts no later than every element of a sorted sequence
      can be put in front of it. */
  lemma SortedCons(x: Node, s: seq<Node>)
    requires Sorted(s) && forall y :: y in s ==> Compare(x, y) <= 0
    ensures Sorted([x] + s)
  {
    forall i, j | 0 <= i < j < |s| + 1 ensures Compare(([x] + s)[i], ([x] + s)[j]) <= 0 {
      assert ([x] + s)[j] == s[j - 1];
      if i > 0 { assert ([x] + s)[i] == s[i - 1]; }
    }
  }

  lemma {:induction false} InsertSorted(n: Node, s: seq<Node>)
    requires Sorted(s)
    ensures Sorted(Insert(n, s))
    ensures multiset(Insert(n, s)) == multiset(s) + multiset{n}
  {
    InsertCounts(n, s);
    if s == [] {
    } else if Compare(n, s[0]) <= 0 {
      forall y | y in s ensures Compare(n, y) <= 0 {
        var j :| 0 <= j < |s| && s[j] == y;
        if j > 0 { CompareTrans(n, s[0], s[j]); }
      }
      SortedCons(n, s);
    } else {
      SortedTail(s);
      InsertSorted(n, s[1..]);
      var r := Insert(n, s[1..]);
      CompareTotal(n, s[0]);
      forall x | x in r ensures Compare(s[0], x) <= 0 {
        assert x in multiset(r);
        if x != n {
          assert x in multiset(s[1..]);
          var j :| 0 <= j < |s| - 1 && s[1..][j] == x;
          assert s[j + 1] == x;
        }
      }
      SortedCons(s[0], r);
    }
  }

  /** The sort yields a sorted permutation of its input. */
  lemma {:induction false} SortNodesSorts(nodes: seq<Node>)
    ensures Sorted(SortNodes(nodes))
    ensures multiset(SortNodes(nodes)) == multiset(nodes)
  {
    if nodes != [] {
      SortNodesSorts(nodes[1..]);
      InsertSorted(nodes[0], SortNodes(nodes[1..]));
      assert nodes == [nodes[0]] + nodes[1..];
    }
  }

  /** In a sorted top level, every group precedes every task, whatever the labels. */
  lemma GroupsFirst(nodes: seq<Node>)
    requires Sorted(nodes)
    ensures forall i, j :: 0 <= i < j < |nodes| && nodes[j].Group? ==> nodes[i].Group?
    ensures forall i, j :: 0 <= i < j < |nodes| && nodes[i].Group? == nodes[j].Group? ==>
      LabelCompare(nodes[i].Label(), nodes[j].Label()) <= 0
  {
  }

  /** A group labelled "Zeta" still precedes a task labelled "Alpha". */
  lemma ZetaBeforeAlpha(alpha: TreeTask, zeta: seq<TreeTask>)
    requires alpha.name == "Alpha"
    ensures SortNodes([Item(alpha), Group("Zeta", zeta)]) == [Group("Zeta", zeta), Item(alpha)]
  {
    var g := Group("Zeta", zeta);
    assert [Item(alpha), g][1..] == [g];
    assert [g][1..] == [];
    assert SortNodes([g]) == [g];
    assert Compare(Item(alpha), g) == 1;
    assert Insert(Item(alpha), [g]) == [g] + Insert(Item(alpha), []);
  }
}
