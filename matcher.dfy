/** Tab completion: the prefix scan over the project's tasks, the labels shown
    in the quick pick, the parsing of a picked label, and the exact-name lookups
    that decide which task is executed. */
module Matcher {
  import opened Tasks
  import opened Strings

  /** The tasks whose name starts with `part`, in their original order. */
  function Matching(tasks: seq<Task>, part: string): (r: seq<Task>)
    ensures |r| <= |tasks|
    ensures forall t :: t in r <==> t in tasks && part <= t.name
  {
    if tasks == [] then []
    else
      var init := Matching(tasks[..|tasks| - 1], part);
      var t := tasks[|tasks| - 1];
      assert tasks == tasks[..|tasks| - 1] + [t];
      if part <= t.name then init + [t] else init
  }

  /** The workspace qualifier of a label: the folder's name, or "" for a task
      that is not scoped to a folder. */
  function Qualifier(scope: Scope): string
  {
    match scope
    case Folder(n) => n
    case _ => ""
  }

  /** The qualifier as the source computes it: the `typeof scope !== "string"`
      guard always holds for the host's scopes (the non-folder scopes are
      numbers), so a non-folder scope yields the name of a missing property,
      which a template string renders as "undefined". */
  function QualifierAsWritten(scope: Scope): string
  {
    match scope
    case Folder(n) => n
    case _ => "undefined"
  }

  /** `name (ws)`, the label of a task in a multi-root workspace. */
  function QualifiedLabel(name: string, ws: string): string
  {
    name + " (" + ws + ")"
  }

  /** The label tab completion shows for a task. */
  function Label(t: Task, multiRoot: bool): string
  {
    if multiRoot then QualifiedLabel(t.name, Qualifier(t.scope)) else t.name
  }

  function LabelAsWritten(t: Task, multiRoot: bool): string
  {
    if multiRoot then QualifiedLabel(t.name, QualifierAsWritten(t.scope)) else t.name
  }

  /** One label per task, in order. */
  function Labels(tasks: seq<Task>, multiRoot: bool): (r: seq<string>)
  {
    seq(|tasks|, i requires 0 <= i < |tasks| => Label(tasks[i], multiRoot))
  }

  /** The labels as written, one per task. */
  function LabelsAsWritten(tasks: seq<Task>, multiRoot: bool): (r: seq<string>)
  {
    seq(|tasks|, i requires 0 <= i < |tasks| => LabelAsWritten(tasks[i], multiRoot))
  }

  /** The scan's labels agree with the labels as written whenever every
      matching task is scoped to a folder, and outside a multi-root workspace. */
  lemma LabelsAgree(tasks: seq<Task>, multiRoot: bool)
    requires !multiRoot || forall t :: t in tasks ==> t.scope.Folder?
    ensures Labels(tasks, multiRoot) == LabelsAsWritten(tasks, multiRoot)
  {
    forall i | 0 <= i < |tasks| ensures Label(tasks[i], multiRoot) == LabelAsWritten(tasks[i], multiRoot) {
      if multiRoot { assert tasks[i] in tasks; }
    }
  }

  lemma LabelsSnoc(ts: seq<Task>, t: Task, multiRoot: bool)
    ensures Labels(ts + [t], multiRoot) == Labels(ts, multiRoot) + [Label(t, multiRoot)]
  {
  }

  lemma MatchingPrefix(tasks: seq<Task>, i: nat, part: string)
    requires i < |tasks|
    ensures Matching(tasks[..i + 1], part)
         == Matching(tasks[..i], part) + (if part <= tasks[i].name then [tasks[i]] else [])
  {
    assert tasks[..i + 1][..i] == tasks[..i];
  }

  /** The scan of `tabTaskCmd`: the first matching name, the number of matches
      and one label per match. */
  method ScanMatches(tasks: seq<Task>, part: string, multiRoot: bool)
    returns (first: Option<string>, count: nat, labels: seq<string>)
    ensures count == |Matching(tasks, part)|
    ensures first.None? <==> count == 0
    ensures first.Some? ==> first.value == Matching(tasks, part)[0].name
    ensures |labels| == count
    ensures forall i :: 0 <= i < count ==> labels[i] == Label(Matching(tasks, part)[i], multiRoot)
  {
    first, count, labels := None, 0, [];
    for i := 0 to |tasks|
      invariant count == |Matching(tasks[..i], part)|
      invariant first.None? <==> count == 0
      invariant first.Some? ==> first.value == Matching(tasks[..i], part)[0].name
      invariant labels == Labels(Matching(tasks[..i], part), multiRoot)
    {
      var t := tasks[i];
      ghost var m := Matching(tasks[..i], part);
      MatchingPrefix(tasks, i, part);
      if part <= t.name {
        if first.None? {
          first := Some(t.name);
          assert m == [];
        } else {
          assert (m + [t])[0] == m[0];
        }
        count := count + 1;
        labels := labels + [Label(t, multiRoot)];
        assert Matching(tasks[..i + 1], part) == m + [t];
        LabelsSnoc(m, t, multiRoot);
      } else {
        assert Matching(tasks[..i + 1], part) == m;
      }
    }
    assert tasks[..|tasks|] == tasks;
  }

  /** The empty partial (a buffer holding only "/") matches every task. */
  lemma {:induction false} EmptyPartialMatchesAll(tasks: seq<Task>)
    ensures Matching(tasks, "") == tasks
  {
    if tasks != [] {
      EmptyPartialMatchesAll(tasks[..|tasks| - 1]);
      assert tasks == tasks[..|tasks| - 1] + [tasks[|tasks| - 1]];
    }
  }

  /** The count of matches is exact: every task whose name starts with the
      partial is kept as often as it occurs, and no other task is. */
  lemma {:induction false} MatchingCounts(tasks: seq<Task>, part: string, t: Task)
    ensures multiset(Matching(tasks, part))[t] == if part <= t.name then multiset(tasks)[t] else 0
  {
    if tasks != [] {
      var init := tasks[..|tasks| - 1];
      var u := tasks[|tasks| - 1];
      MatchingCounts(init, part, t);
      assert tasks == init + [u];
      assert multiset(tasks) == multiset(init) + multiset{u};
      if part <= u.name {
        assert Matching(tasks, part) == Matching(init, part) + [u];
        assert multiset(Matching(tasks, part)) == multiset(Matching(init, part)) + multiset{u};
      } else {
        assert Matching(tasks, part) == Matching(init, part);
      }
    }
  }

  /** What the quick pick's answer is split into: the raw task name and the
      workspace qualifier. */
  datatype Picked = Picked(rawTask: string, workspace: string)

  /** The parsing of a picked label. A label holding both "(" and ")" is split
      at spaces: the first piece is the task name, the second, with its first
      "(" and first ")" removed, the workspace. Any other label is both the task
      name and the workspace. None stands for the TypeError the source raises
      when a label with parentheses has no space to split at. */
  function ParsePick(pick: string): (r: Option<Picked>)
    ensures r.None? <==> '(' in pick && ')' in pick && ' ' !in pick
    ensures !('(' in pick && ')' in pick) ==> r == Some(Picked(pick, pick))
    ensures r.Some? && '(' in pick && ')' in pick ==> ' ' !in r.value.rawTask && r.value.rawTask <= pick
  {
    if '(' in pick && ')' in pick then
      var parts := Split(pick, ' ');
      if |parts| >= 2 then Some(Picked(parts[0], RemoveFirst(RemoveFirst(parts[1], '('), ')')))
      else None
    else Some(Picked(pick, pick))
  }

  /** A qualified label is the name, a space and the parenthesised qualifier,
      so it holds both parentheses. */
  lemma QualifiedLabelParts(name: string, ws: string)
    ensures QualifiedLabel(name, ws) == name + [' '] + ("(" + ws + ")")
    ensures '(' in QualifiedLabel(name, ws) && ')' in QualifiedLabel(name, ws)
  {
    var lbl := QualifiedLabel(name, ws);
    assert lbl == name + [' '] + ("(" + ws + ")");
    assert lbl[|name| + 1] == '(';
    assert lbl[|lbl| - 1] == ')';
  }

  /** A qualified label parses back to its name and qualifier when neither holds
      a space and the qualifier holds no ")". */
  lemma LabelRoundTrip(name: string, ws: string)
    requires ' ' !in name && ' ' !in ws && ')' !in ws
    ensures ParsePick(QualifiedLabel(name, ws)) == Some(Picked(name, ws))
  {
    var lbl := QualifiedLabel(name, ws);
    var tail := "(" + ws + ")";
    QualifiedLabelParts(name, ws);
    SplitAtFirst(name, ' ', tail);
    assert ' ' !in tail;
    assert Split(lbl, ' ') == [name, tail];
    RemoveFirstAtFront('(', ws + ")");
    assert tail == ['('] + (ws + ")");
    RemoveFirstSkips(ws, ')', ")");
    assert ws + RemoveFirst(")", ')') == ws;
  }

  /** Conversely, a qualified label parses back to its parts only when neither
      holds a space. */
  lemma LabelRoundTripNeedsNoSpace(name: string, ws: string)
    requires ParsePick(QualifiedLabel(name, ws)) == Some(Picked(name, ws))
    ensures ' ' !in name && ' ' !in ws
  {
    var lbl := QualifiedLabel(name, ws);
    var tail := "(" + ws + ")";
    QualifiedLabelParts(name, ws);
    var parts := Split(lbl, ' ');
    assert |parts| >= 2 && parts[0] == name;
    SplitAtFirst(name, ' ', tail);
    assert parts[1] == Split(tail, ' ')[0];
    assert ws == RemoveFirst(RemoveFirst(parts[1], '('), ')');
  }

  /** Without spaces, a qualified label splits into the name and the
      parenthesised qualifier. */
  lemma SplitSpaceFreeLabel(name: string, ws: string)
    requires ' ' !in name && ' ' !in ws
    ensures Split(QualifiedLabel(name, ws), ' ') == [name, "(" + ws + ")"]
  {
    var tail := "(" + ws + ")";
    QualifiedLabelParts(name, ws);
    SplitAtFirst(name, ' ', tail);
    assert ' ' !in tail by {
      forall k | 0 <= k < |tail| ensures tail[k] != ' ' {
        if 0 < k < |tail| - 1 { assert tail[k] == ws[k - 1]; }
      }
    }
  }

  /** Without spaces, a qualified label parses to its name and to the
      qualifier followed by ")" with its first ")" removed. */
  lemma ParseSpaceFreeLabel(name: string, ws: string)
    requires ' ' !in name && ' ' !in ws
    ensures ParsePick(QualifiedLabel(name, ws)) == Some(Picked(name, RemoveFirst(ws + ")", ')')))
  {
    var lbl := QualifiedLabel(name, ws);
    QualifiedLabelParts(name, ws);
    SplitSpaceFreeLabel(name, ws);
    var parts := Split(lbl, ' ');
    assert |parts| >= 2 && parts[0] == name && parts[1] == "(" + ws + ")";
    assert ParsePick(lbl) == Some(Picked(parts[0], RemoveFirst(RemoveFirst(parts[1], '('), ')')));
    assert "(" + ws + ")" == ['('] + (ws + ")");
    RemoveFirstAtFront('(', ws + ")");
  }

  /** The exact condition: a qualified label parses back to its name and
      qualifier if and only if neither holds a space and removing the first ")"
      from the qualifier followed by ")" leaves the qualifier. */
  lemma LabelRoundTripExactly(name: string, ws: string)
    ensures ParsePick(QualifiedLabel(name, ws)) == Some(Picked(name, ws))
        <==> ' ' !in name && ' ' !in ws && RemoveFirst(ws + ")", ')') == ws
  {
    if ParsePick(QualifiedLabel(name, ws)) == Some(Picked(name, ws)) {
      LabelRoundTripNeedsNoSpace(name, ws);
    }
    if ' ' !in name && ' ' !in ws {
      ParseSpaceFreeLabel(name, ws);
    }
  }

  /** A qualifier holding ")" can still round-trip: "a)" parses back. */
  lemma ParenInQualifierCanRoundTrip()
    ensures ParsePick(QualifiedLabel("build", "a)")) == Some(Picked("build", "a)"))
  {
    ParseSpaceFreeLabel("build", "a)");
    assert "a)" + ")" == "a" + "))";
    RemoveFirstSkips("a", ')', "))");
    assert "))" == [')'] + ")";
    RemoveFirstAtFront(')', ")");
    assert RemoveFirst("a)" + ")", ')') == "a" + ")" == "a)";
  }

  /** A ")" inside the qualifier breaks the round trip: the first ")" removed is
      the qualifier's own. */
  lemma ParenInQualifierBreaksRoundTrip()
    ensures ParsePick(QualifiedLabel("build", ")a")) == Some(Picked("build", "a)"))
  {
    ParseSpaceFreeLabel("build", ")a");
    assert ")a" + ")" == [')'] + "a)";
    RemoveFirstAtFront(')', "a)");
  }

  /** As written, a task that is not scoped to a folder is labelled, in a
      multi-root workspace, with the qualifier "undefined". */
  lemma UndefinedQualifier(t: Task)
    requires !t.scope.Folder?
    ensures LabelAsWritten(t, true) == t.name + " (undefined)"
  {
  }

  /** As written, picking such a label looks for a folder named "undefined":
      with a folder of that name defining a task of the same name, that
      folder's task is the one executed. */
  lemma UndefinedQualifierPicksFolder(w: Task, u: Task)
    requires w.name == "build" && !w.scope.Folder?
    requires u.name == "build" && u.scope == Folder("undefined")
    ensures ParsePick(LabelAsWritten(w, true)) == Some(Picked("build", "undefined"))
    ensures FirstFit([w, u], "build", Some("undefined")) == 1
  {
    assert LabelAsWritten(w, true) == QualifiedLabel("build", "undefined");
    UndefinedLabelParses();
    assert [w, u][1..] == [u];
  }

  lemma UndefinedLabelParses()
    ensures ParsePick(QualifiedLabel("build", "undefined")) == Some(Picked("build", "undefined"))
  {
    LabelRoundTrip("build", "undefined");
  }

  /** As written, a task outside every folder is never the one its picked
      label leads to in a multi-root workspace: the lookup requires a folder. */
  lemma NonFolderNeverPicked(tasks: seq<Task>, i: nat, folder: string)
    requires i < |tasks| && !tasks[i].scope.Folder?
    ensures FirstFit(tasks, tasks[i].name, Some(folder)) != i
  {
  }

  /** The corrected label alone does not make a task outside every folder
      pickable: "name ()" parses back to the empty folder name, and the lookup
      still passes over the task. */
  lemma CorrectedLabelStillUnpicked(tasks: seq<Task>, i: nat)
    requires i < |tasks| && !tasks[i].scope.Folder? && ' ' !in tasks[i].name
    ensures ParsePick(Label(tasks[i], true)) == Some(Picked(tasks[i].name, ""))
    ensures FirstFit(tasks, tasks[i].name, Some("")) != i
  {
    var w := tasks[i];
    assert Label(w, true) == QualifiedLabel(w.name, "");
    ParseSpaceFreeLabel(w.name, "");
    assert "" + ")" == [')'] + "";
    RemoveFirstAtFront(')', "");
    NonFolderNeverPicked(tasks, i, "");
  }

  /** As intended, the qualifier is the task's folder, and empty for a task
      outside every folder; for folder tasks both readings agree. */
  lemma QualifierIsFolder(t: Task)
    ensures FolderName(t.scope).Some? ==> Label(t, true) == QualifiedLabel(t.name, FolderName(t.scope).value)
    ensures FolderName(t.scope).None? ==> Label(t, true) == t.name + " ()"
    ensures t.scope.Folder? ==> Label(t, true) == LabelAsWritten(t, true)
  {
  }

  /** Whether the exact lookup accepts `t`: the same name and, when a folder is
      required, scoped to exactly that folder. A task outside every folder has
      no folder name, so it never meets a folder requirement. */
  predicate Fits(t: Task, name: string, folder: Option<string>)
  {
    t.name == name && (folder.None? || FolderName(t.scope) == folder)
  }

  /** The position of `tasks.filter(...)[0]`: the first task the lookup
      accepts, or `|tasks|` when there is none. */
  function FirstFit(tasks: seq<Task>, name: string, folder: Option<string>): (k: nat)
    ensures k <= |tasks|
    ensures forall j :: 0 <= j < k ==> !Fits(tasks[j], name, folder)
    ensures k < |tasks| ==> Fits(tasks[k], name, folder)
  {
    if tasks == [] then 0
    else if Fits(tasks[0], name, folder) then 0
    else 1 + FirstFit(tasks[1..], name, folder)
  }

  /** When the picked label is the qualified label of a folder task whose name
      and folder hold no space or ")", the follow-up lookup finds a task with
      that name in that folder, no later than the task itself. */
  lemma PickFindsTask(tasks: seq<Task>, i: nat)
    requires i < |tasks| && tasks[i].scope.Folder?
    requires ' ' !in tasks[i].name && ' ' !in tasks[i].scope.name && ')' !in tasks[i].scope.name
    ensures ParsePick(Label(tasks[i], true)).Some?
    ensures var p := ParsePick(Label(tasks[i], true)).value;
      var k := FirstFit(tasks, p.rawTask, Some(p.workspace));
      k <= i && tasks[k].name == tasks[i].name && tasks[k].scope == tasks[i].scope
  {
    LabelRoundTrip(tasks[i].name, tasks[i].scope.name);
  }
}
