/** `TaskTreeDataProvider`: the Vim-style command line typed into the status
    bar (activation, keystrokes, backspace, tab completion, execution, exit),
    the toggle for hidden tasks and the top level of the tree view. */
module Provider {
  import opened Tasks
  import opened Strings
  import opened Matcher
  import opened Tree

  /** The first entry of an active buffer. */
  const Sentinel: string := "/"
  const Newline: string := "\n"
  /** What the status bar shows after a name that no task carries. */
  const UndefinedTask: string := "-- UNDEFINED TASK --"

  /** `buffer.shift()`, keeping what remains: drops the first entry, if any. */
  function Shift(buffer: seq<string>): seq<string>
  {
    if buffer == [] then [] else buffer[1..]
  }

  /** The partial name tab completion matches: the joined buffer without its first "/". */
  function Partial(buffer: seq<string>): string
  {
    RemoveFirst(Join(buffer), '/')
  }

  /** On an active buffer the partial is the status-bar text after the "/",
      and it is also the name a newline looks up. */
  lemma ActiveBuffer(buffer: seq<string>)
    requires |buffer| >= 1 && buffer[0] == Sentinel
    ensures Join(buffer) == Sentinel + Join(Shift(buffer))
    ensures Partial(buffer) == Join(Shift(buffer))
  {
    assert buffer == [Sentinel] + buffer[1..];
    JoinCons(Sentinel, buffer[1..]);
    RemoveFirstAtFront('/', Join(buffer[1..]));
  }

  /** A buffer holding "/" and then the characters of `name` shows "/" + `name`
      and executes `name`. */
  lemma ReplacedBuffer(name: string)
    ensures Join([Sentinel] + Chars(name)) == Sentinel + name
    ensures Join(Shift([Sentinel] + Chars(name))) == name
  {
    JoinCons(Sentinel, Chars(name));
    JoinChars(name);
    assert ([Sentinel] + Chars(name))[1..] == Chars(name);
  }

  /** The position of the group for `w` recorded for every folder that has one. */
  ghost predicate Tracks(folders: map<string, nat>, elements: seq<Node>)
  {
    && (forall w :: w in folders <==> GroupIndex(elements, w) < |elements|)
    && (forall w :: w in folders ==> folders[w] == GroupIndex(elements, w))
  }

  lemma {:induction false} GroupIndexMissing(nodes: seq<Node>, x: Node, w: string)
    requires GroupIndex(nodes, w) == |nodes| && !(x.Group? && x.name == w)
    ensures GroupIndex(nodes + [x], w) == |nodes| + 1
  {
    if nodes == [] {
      assert [x][1..] == [];
    } else {
      assert (nodes + [x])[1..] == nodes[1..] + [x];
      GroupIndexMissing(nodes[1..], x, w);
    }
  }

  lemma TracksAppend(folders: map<string, nat>, elements: seq<Node>, x: Node)
    requires Tracks(folders, elements) && !(x.Group? && x.name in folders)
    ensures Tracks(if x.Group? then folders[x.name := |elements|] else folders, elements + [x])
  {
    forall w ensures GroupIndex(elements + [x], w) ==
      (if w in folders then folders[w] else if x.Group? && x.name == w then |elements| else |elements| + 1)
    {
      if w in folders {
        GroupIndexAppend(elements, x, w);
      } else if x.Group? && x.name == w {
        assert (elements + [x])[|elements|] == x;
      } else {
        GroupIndexMissing(elements, x, w);
      }
    }
  }

  lemma TracksUpdate(folders: map<string, nat>, elements: seq<Node>, k: nat, g: Node)
    requires Tracks(folders, elements) && k < |elements| && elements[k].Group?
    requires g.Group? && g.name == elements[k].name
    ensures Tracks(folders, elements[k := g])
  {
    forall w ensures GroupIndex(elements[k := g], w) == GroupIndex(elements, w) {
      GroupIndexUpdate(elements, k, g, w);
    }
  }

  /** One visible tree task filed by the loop of `getChildren`: into its
      folder's group, creating and appending the group first when the folder
      has none yet, or at the top level. */
  method FileTask(folders: map<string, nat>, elements: seq<Node>, tt: TreeTask, ghost vs: seq<TreeTask>)
    returns (folders': map<string, nat>, elements': seq<Node>)
    requires elements == Layout(vs) && Tracks(folders, elements)
    ensures elements' == Layout(vs + [tt]) && Tracks(folders', elements')
  {
    LayoutSnoc(vs, tt);
    match tt.workspace {
      case Some(w) =>
        folders', elements' := folders, elements;
        if w !in folders' {
          TracksAppend(folders', elements', Group(w, []));
          folders' := folders'[w := |elements'|];
          elements' := elements' + [Group(w, [])];
        }
        var k := folders'[w];
        TracksUpdate(folders', elements', k, Group(w, elements'[k].children + [tt]));
        if w in folders {
          assert k == GroupIndex(Layout(vs), w) < |Layout(vs)|;
        } else {
          assert k == |elements| == GroupIndex(Layout(vs), w);
          assert elements'[k].children + [tt] == [tt];
          assert elements'[k := Group(w, [tt])] == elements + [Group(w, [tt])];
        }
        elements' := elements'[k := Group(w, elements'[k].children + [tt])];
      case None =>
        TracksAppend(folders, elements, Item(tt));
        folders', elements' := folders, elements + [Item(tt)];
    }
  }

  /** One more task of the loop: its tree task is visible or not. */
  lemma VisiblePrefix(tasks: seq<Task>, i: nat, configs: seq<seq<ConfigEntry>>, unhide: bool)
    requires i < |tasks|
    ensures var tt := ToTreeTask(tasks[i], configs);
      Visible(tasks[..i + 1], configs, unhide)
        == Visible(tasks[..i], configs, unhide) + (if Shown(tt, unhide) then [tt] else [])
  {
    assert tasks[..i + 1] == tasks[..i] + [tasks[i]];
    VisibleSnoc(tasks[..i], tasks[i], configs, unhide);
  }

  /** The loop of `getChildren`: builds a tree task per task, skips the
      hidden ones unless `unhide`, and files each visible one under its
      folder's group (created and appended at the folder's first task, found
      again through a dictionary from folder name to group) or appends it to
      the top level. */
  method BuildElements(tasks: seq<Task>, configs: seq<seq<ConfigEntry>>, unhide: bool)
    returns (elements: seq<Node>)
    ensures elements == Layout(Visible(tasks, configs, unhide))
  {
    elements := [];
    var folders: map<string, nat> := map[];
    for i := 0 to |tasks|
      invariant elements == Layout(Visible(tasks[..i], configs, unhide))
      invariant Tracks(folders, elements)
    {
      var t := tasks[i];
      var hidden := ResolveHide(configs, t.name);
      var tt := TreeTask(t.taskType, t.name, hidden, FolderName(t.scope), t.detail, t);
      ghost var vs := Visible(tasks[..i], configs, unhide);
      assert tt == ToTreeTask(t, configs);
      VisiblePrefix(tasks, i, configs, unhide);
      if !tt.hidden || unhide {
        folders, elements := FileTask(folders, elements, tt, vs);
        assert Visible(tasks[..i + 1], configs, unhide) == vs + [tt];
      } else {
        assert Visible(tasks[..i + 1], configs, unhide) == vs;
      }
    }
    assert tasks[..|tasks|] == tasks;
  }

  class TaskTreeDataProvider {
    /** Whether hidden tasks are shown as well. */
    var unhide: bool
    /** The command buffer: one entry per keystroke, "/" first while active. */
    var buffer: seq<string>
    /** The status-bar text. */
    var statusText: string
    /** Whether the "type" command is registered, so that keystrokes come here
        instead of going to the editor. */
    var intercepting: bool
    /** The `inCmdlineMode` context key the key bindings look at. */
    var cmdlineMode: bool
    /** The tasks handed to the host's executor, in order. */
    var executed: seq<Task>

    constructor ()
      ensures !unhide && buffer == [] && statusText == "" && !intercepting && !cmdlineMode && executed == []
    {
      unhide, buffer, statusText := false, [], "";
      intercepting, cmdlineMode, executed := false, false, [];
    }

    /** A session being typed: keystrokes come here, the buffer starts with
        the sentinel and the status bar shows the whole buffer. */
    ghost predicate Composing()
      reads this
    {
      intercepting && |buffer| >= 1 && buffer[0] == Sentinel && statusText == Join(buffer)
    }

    /** No session: keystrokes go to the editor, the buffer is empty and the
        status bar is blank or reports an undefined task. */
    ghost predicate Idle()
      reads this
    {
      !intercepting && !cmdlineMode && buffer == [] && (statusText == "" || statusText == UndefinedTask)
    }

    /** Toggles whether hidden tasks are shown. */
    method Unhide()
      modifies this`unhide
      ensures unhide == !old(unhide)
    {
      unhide := !unhide;
    }

    /** Activation: shows "/", pushes the sentinel, sets `inCmdlineMode` and
        registers the keystroke handler. */
    method PutTaskCmd()
      modifies this
      ensures buffer == old(buffer) + [Sentinel] && statusText == Sentinel
      ensures intercepting && cmdlineMode
      ensures unhide == old(unhide) && executed == old(executed)
      ensures old(Idle()) ==> Composing()
    {
      statusText := Sentinel;
      buffer := buffer + [Sentinel];
      cmdlineMode := true;
      intercepting := true;
      assert old(Idle()) ==> buffer == [Sentinel];
    }

    /** Exit: disposes the handler, clears `inCmdlineMode`, the buffer and the text. */
    method ExitTaskCmd()
      modifies this
      ensures buffer == [] && statusText == "" && !intercepting && !cmdlineMode
      ensures unhide == old(unhide) && executed == old(executed)
      ensures Idle()
    {
      intercepting := false;
      cmdlineMode := false;
      buffer := [];
      statusText := "";
    }

    /** Backspace: pops the last entry unless only one is left. */
    method BackTaskCmd()
      modifies this`buffer, this`statusText
      ensures |old(buffer)| > 1 ==> buffer == old(buffer)[..|old(buffer)| - 1] && statusText == Join(buffer)
      ensures |old(buffer)| <= 1 ==> buffer == old(buffer) && statusText == old(statusText)
      ensures old(Composing()) ==> Composing()
    {
      if |buffer| > 1 {
        buffer := buffer[..|buffer| - 1];
        statusText := Join(buffer);
      }
    }

    /** Executes the first of `tasks` that `Fits` the lookup, if any, and exits;
        when none fits, the status bar is left showing the undefined-task message. */
    method RunFirstFit(tasks: seq<Task>, name: string, folder: Option<string>)
      modifies this
      ensures var k := FirstFit(tasks, name, folder);
        && executed == old(executed) + (if k < |tasks| then [tasks[k]] else [])
        && statusText == (if k < |tasks| then "" else UndefinedTask)
      ensures buffer == [] && !intercepting && !cmdlineMode && unhide == old(unhide)
      ensures Idle()
    {
      var k := FirstFit(tasks, name, folder);
      if k < |tasks| {
        executed := executed + [tasks[k]];
        ExitTaskCmd();
      } else {
        ExitTaskCmd();
        statusText := UndefinedTask;
      }
    }

    /** The keystroke handler registered by activation; `fetched` stands for
        the tasks fetched when the keystroke is a newline. A keystroke that
        arrives with no handler registered goes to the editor. */
    method Type(text: string, fetched: seq<Task>)
      modifies this
      ensures !old(intercepting) ==> unchanged(this)
      ensures old(intercepting) && text != Newline ==>
        && buffer == old(buffer) + [text] && statusText == Join(buffer)
        && intercepting && cmdlineMode == old(cmdlineMode) && executed == old(executed)
      ensures old(intercepting) && text == Newline ==>
        var k := FirstFit(fetched, Join(Shift(old(buffer))), None);
        && buffer == [] && !intercepting && !cmdlineMode
        && executed == old(executed) + (if k < |fetched| then [fetched[k]] else [])
        && statusText == (if k < |fetched| then "" else UndefinedTask)
      ensures old(Composing()) && text == Newline ==> old(statusText) == Sentinel + Join(Shift(old(buffer)))
      ensures unhide == old(unhide)
      ensures old(Composing()) ==> if text == Newline then Idle() else Composing()
    {
      if !intercepting {
        return;
      }
      if text != Newline {
        buffer := buffer + [text];
        statusText := Join(buffer);
        assert old(Composing()) ==> buffer[0] == Sentinel;
      } else {
        if old(Composing()) { ActiveBuffer(buffer); }
        buffer := Shift(buffer);
        RunFirstFit(fetched, Join(buffer), None);
      }
    }

    /** Tab completion. `fetched` and `refetched` stand for the tasks fetched
        before the scan and after a pick, `multiRoot` for "more than one
        workspace folder is open" and `pick` for the quick pick's answer
        (None when it is dismissed). */
    method TabTaskCmd(fetched: seq<Task>, multiRoot: bool, pick: Option<string>, refetched: seq<Task>)
      modifies this
      ensures var m := Matching(WorkspaceTasks(fetched), Partial(old(buffer)));
        && (|m| == 0 ==> unchanged(this))
        && (|m| == 1 ==>
              && buffer == [Sentinel] + Chars(m[0].name) && statusText == Sentinel + m[0].name
              && intercepting == old(intercepting) && cmdlineMode == old(cmdlineMode)
              && executed == old(executed))
        && (|m| >= 2 && (pick.None? || ParsePick(pick.value).None?) ==>
              && buffer == old(buffer) && statusText == old(statusText) && !cmdlineMode
              && intercepting == old(intercepting) && executed == old(executed))
        && (|m| >= 2 && pick.Some? && ParsePick(pick.value).Some? ==>
              var p := ParsePick(pick.value).value;
              var k := FirstFit(refetched, p.rawTask, if multiRoot then Some(p.workspace) else None);
              && buffer == [] && !intercepting && !cmdlineMode
              && executed == old(executed) + (if k < |refetched| then [refetched[k]] else [])
              && statusText == (if k < |refetched| then "" else UndefinedTask))
      ensures unhide == old(unhide)
      ensures old(Composing()) ==> Composing() || Idle()
    {
      var tasks := WorkspaceTasks(fetched);
      var part := Partial(buffer);
      var first, count, labels := ScanMatches(tasks, part, multiRoot);
      ghost var m := Matching(tasks, part);
      if first.Some? && count == 1 {
        assert first.value == m[0].name;
        buffer := [Sentinel] + Chars(first.value);
        statusText := Join(buffer);
        ReplacedBuffer(first.value);
      } else if count >= 2 {
        assert |m| >= 2;
        cmdlineMode := false;
        Pick(pick, multiRoot, refetched);
      }
    }

    /** The quick pick's answer acted on: a parsed label is put in the buffer,
        then looked up by name (and folder, in a multi-root workspace) among
        `refetched` and executed. A dismissed pick, or a label that does not
        parse, changes nothing. */
    method Pick(pick: Option<string>, multiRoot: bool, refetched: seq<Task>)
      modifies this
      ensures pick.None? || ParsePick(pick.value).None? ==> unchanged(this)
      ensures pick.Some? && ParsePick(pick.value).Some? ==>
        var p := ParsePick(pick.value).value;
        var k := FirstFit(refetched, p.rawTask, if multiRoot then Some(p.workspace) else None);
        && buffer == [] && !intercepting && !cmdlineMode
        && executed == old(executed) + (if k < |refetched| then [refetched[k]] else [])
        && statusText == (if k < |refetched| then "" else UndefinedTask)
      ensures unhide == old(unhide)
    {
      if pick.Some? {
        var parsed := ParsePick(pick.value);
        if parsed.Some? {
          var p := parsed.value;
          buffer := [Sentinel] + Chars(p.rawTask);
          statusText := Join(buffer);
          ReplacedBuffer(p.rawTask);
          buffer := Shift(buffer);
          RunFirstFit(refetched, Join(buffer), if multiRoot then Some(p.workspace) else None);
        }
      }
    }

    /** The children of a tree element: a group's tasks; for anything else,
        the top level built from `fetched` and the folders' task
        configurations `configs`. */
    method GetChildren(element: Option<Node>, fetched: seq<Task>, configs: seq<seq<ConfigEntry>>)
      returns (nodes: seq<Node>)
      ensures element.Some? && element.value.Group? ==>
        nodes == seq(|element.value.children|, i requires 0 <= i < |element.value.children| =>
                       Item(element.value.children[i]))
      ensures !(element.Some? && element.value.Group?) ==>
        var vs := Visible(WorkspaceTasks(fetched), configs, unhide);
        Sorted(nodes) && multiset(nodes) == multiset(Layout(vs))
    {
      if element.Some? && element.value.Group? {
        var c := element.value.children;
        return seq(|c|, i requires 0 <= i < |c| => Item(c[i]));
      }
      var elements := BuildElements(WorkspaceTasks(fetched), configs, unhide);
      nodes := SortNodes(elements);
      SortNodesSorts(elements);
    }
  }

  /** Exit is idempotent: a second exit leaves the state of the first. */
  method ExitTwice(p: TaskTreeDataProvider)
    modifies p
    ensures p.buffer == [] && p.statusText == "" && !p.intercepting && !p.cmdlineMode
    ensures p.unhide == old(p.unhide) && p.executed == old(p.executed)
  {
    p.ExitTaskCmd();
    ghost var once := (p.buffer, p.statusText, p.intercepting, p.cmdlineMode, p.unhide, p.executed);
    p.ExitTaskCmd();
    assert (p.buffer, p.statusText, p.intercepting, p.cmdlineMode, p.unhide, p.executed) == once;
  }

  const Build := Task("build", WorkspaceSource, "shell", WorkspaceWide, None)
  const Test := Task("test", WorkspaceSource, "shell", WorkspaceWide, None)

  /** Of "build" and "test", both are the project's own and only "build" starts with "b". */
  lemma BuildTestMatches()
    ensures WorkspaceTasks([Build, Test]) == [Build, Test]
    ensures Matching([Build, Test], "b") == [Build]
  {
    assert [Build, Test][..1] == [Build] && [Build][..0] == [];
    assert Build.name == "build" && Test.name == "test";
    assert "b" <= "build";
    assert "test"[0] != "b"[0];
  }

  /** No task starts with "x". */
  lemma NothingMatchesX()
    ensures WorkspaceTasks([Build]) == [Build]
    ensures Matching([Build], "x") == []
    ensures Partial([Sentinel, "x"]) == "x"
  {
    assert [Build][..0] == [];
    assert Build.name == "build" && "build"[0] != "x"[0];
    ActiveBuffer([Sentinel, "x"]);
    assert Shift([Sentinel, "x"]) == ["x"] && ["x"][..0] == [];
  }

  /** Typing "b", tab and newline with the tasks "build" and "test" runs "build". */
  method TabThenRun() returns (p: TaskTreeDataProvider)
    ensures p.executed == [Build]
    ensures p.Idle() && p.statusText == ""
  {
    var tasks := [Build, Test];
    BuildTestMatches();
    TypedB();
    p := new TaskTreeDataProvider();
    p.PutTaskCmd();
    p.Type("b", tasks);
    assert p.buffer == [Sentinel, "b"];
    p.TabTaskCmd(tasks, false, None, tasks);
    assert p.buffer == [Sentinel] + Chars("build");
    ReplacedBuffer("build");
    assert FirstFit(tasks, "build", None) == 0;
    p.Type(Newline, tasks);
  }

  /** Typing "x" and tab where no task starts with "x" changes nothing. */
  method TabWithoutMatch() returns (p: TaskTreeDataProvider)
    ensures p.buffer == [Sentinel, "x"] && p.statusText == "/x" && p.executed == []
    ensures p.Composing()
  {
    NothingMatchesX();
    p := new TaskTreeDataProvider();
    p.PutTaskCmd();
    p.Type("x", [Build]);
    assert p.buffer == [Sentinel, "x"];
    ActiveBuffer(p.buffer);
    p.TabTaskCmd([Build], false, None, [Build]);
  }

  /** Two folders define a task of the same name: tab completion lists both,
      each qualified by its folder. */
  method ListAcrossFolders() returns (labels: seq<string>)
    ensures labels == ["build (A)", "build (B)"]
  {
    var a := Task("build", WorkspaceSource, "shell", Folder("A"), None);
    var b := Task("build", WorkspaceSource, "shell", Folder("B"), None);
    var tasks := [a, b];
    assert tasks[..1] == [a] && [a][..0] == [];
    assert Matching(tasks, "b") == tasks;
    var first, count;
    first, count, labels := ScanMatches(tasks, "b", true);
    assert |labels| == 2;
    assert Label(a, true) == "build (A)";
    assert Label(b, true) == "build (B)";
  }

  const TaskA := Task("build", WorkspaceSource, "shell", Folder("A"), None)
  const TaskB := Task("build", WorkspaceSource, "shell", Folder("B"), None)

  /** Both folders' tasks are the project's own and both match "b". */
  lemma TwoFolderMatches()
    ensures WorkspaceTasks([TaskA, TaskB]) == [TaskA, TaskB]
    ensures Matching([TaskA, TaskB], "b") == [TaskA, TaskB]
  {
    assert [TaskA, TaskB][..1] == [TaskA] && [TaskA][..0] == [];
  }

  /** B's label parses back to B's name and folder. */
  lemma PickedB()
    ensures ParsePick("build (B)") == Some(Picked("build", "B"))
  {
    assert QualifiedLabel("build", "B") == "build (B)";
    LabelRoundTrip("build", "B");
  }

  /** The lookup for B's name and folder skips A's task. */
  lemma LookupSkipsA()
    ensures FirstFit([TaskA, TaskB], "build", Some("B")) == 1
  {
    assert [TaskA, TaskB][1..] == [TaskB];
  }

  /** After "/" and "b" the partial is "b". */
  lemma TypedB()
    ensures Partial([Sentinel, "b"]) == "b"
  {
    ActiveBuffer([Sentinel, "b"]);
    assert Shift([Sentinel, "b"]) == ["b"] && ["b"][..0] == [];
  }

  /** Picking the second folder's label executes that folder's task, not the
      first task of the same name. */
  method PickAcrossFolders() returns (p: TaskTreeDataProvider)
    ensures p.executed == [TaskB]
    ensures p.Idle()
  {
    var tasks := [TaskA, TaskB];
    TwoFolderMatches();
    PickedB();
    LookupSkipsA();
    TypedB();
    p := new TaskTreeDataProvider();
    p.PutTaskCmd();
    p.Type("b", tasks);
    assert p.buffer == [Sentinel, "b"];
    p.TabTaskCmd(tasks, true, Some("build (B)"), tasks);
  }
}
