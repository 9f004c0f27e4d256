/** The task records the host hands to the provider, reduced to the fields the
    provider reads. */
module Tasks {

  datatype Option<T> = None | Some(value: T)

  /** Where a task is defined: one folder of the workspace, or one of the two
      scopes that are not a folder (the host's global and whole-workspace scopes). */
  datatype Scope = Folder(name: string) | Global | WorkspaceWide

  /** A task as fetched from the host: its name, the provider it comes from
      (`"Workspace"` for tasks defined by the project itself), its definition
      type, its scope and its optional description. */
  datatype Task = Task(name: string, source: string, taskType: string, scope: Scope, detail: Option<string>)

  const WorkspaceSource: string := "Workspace"

  /** The folder's name for a folder scope; nothing for the other scopes. */
  function FolderName(scope: Scope): (r: Option<string>)
    ensures r.Some? <==> scope.Folder?
    ensures r.Some? ==> r.value == scope.name
  {
    match scope
    case Folder(n) => Some(n)
    case _ => None
  }

  /** The tasks defined by the project itself (source `"Workspace"`), in the order fetched. */
  function WorkspaceTasks(tasks: seq<Task>): (r: seq<Task>)
    ensures |r| <= |tasks|
    ensures forall t :: t in r <==> t in tasks && t.source == WorkspaceSource
  {
    if tasks == [] then []
    else
      var init := WorkspaceTasks(tasks[..|tasks| - 1]);
      var t := tasks[|tasks| - 1];
      assert tasks == tasks[..|tasks| - 1] + [t];
      if t.source == WorkspaceSource then init + [t] else init
  }

  /** Each project task is kept as often as it was fetched, and no other task is kept. */
  lemma {:induction false} WorkspaceTasksCounts(tasks: seq<Task>, t: Task)
    ensures multiset(WorkspaceTasks(tasks))[t] == if t.source == WorkspaceSource then multiset(tasks)[t] else 0
  {
    if tasks != [] {
      var init := tasks[..|tasks| - 1];
      var u := tasks[|tasks| - 1];
      WorkspaceTasksCounts(init, t);
      assert tasks == init + [u];
      assert multiset(tasks) == multiset(init) + multiset{u};
      if u.source == WorkspaceSource {
        assert multiset(WorkspaceTasks(tasks)) == multiset(WorkspaceTasks(init)) + multiset{u};
      }
    }
  }

  /** Filtering one more task adds it at the end exactly when it is the project's own. */
  lemma WorkspaceTasksSnoc(tasks: seq<Task>, t: Task)
    ensures WorkspaceTasks(tasks + [t])
      == WorkspaceTasks(tasks) + (if t.source == WorkspaceSource then [t] else [])
  {
    assert (tasks + [t])[..|tasks|] == tasks;
  }

  /** The filter keeps fetch order: filtering two runs of tasks one after the
      other is filtering each run and putting the results one after the other. */
  lemma {:induction false} WorkspaceTasksAppend(a: seq<Task>, b: seq<Task>)
    ensures WorkspaceTasks(a + b) == WorkspaceTasks(a) + WorkspaceTasks(b)
  {
    if b == [] {
      assert a + b == a;
    } else {
      var init := b[..|b| - 1];
      var u := b[|b| - 1];
      assert b == init + [u];
      assert a + b == (a + init) + [u];
      WorkspaceTasksSnoc(a + init, u);
      WorkspaceTasksSnoc(init, u);
      WorkspaceTasksAppend(a, init);
      var wa, wi := WorkspaceTasks(a), WorkspaceTasks(init);
      if u.source == WorkspaceSource {
        assert WorkspaceTasks(a + b) == (wa + wi) + [u] == wa + (wi + [u]);
      } else {
        assert WorkspaceTasks(a + b) == wa + wi;
      }
    }
  }
}
