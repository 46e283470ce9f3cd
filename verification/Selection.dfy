/** Choosing the ILLink task to reproduce (Create.cs, `Run`): the tasks found
    in the build log are narrowed by project and by target, and one of the
    remaining tasks is picked, preferring a failed one. */
module Selection {
  import opened Wrappers
  import opened Paths

  /** The project a target belongs to. */
  datatype ProjectNode = ProjectNode(name: string, directory: string)

  /** The target an ILLink task runs under. */
  datatype TargetNode = TargetNode(name: string, project: ProjectNode)

  /** An ILLink task of the log: its parent if that is a target (`None` when
      the parent is anything else), whether it has an "Errors" child, and
      its command line. */
  datatype IllinkTask = IllinkTask(parent: Option<TargetNode>, hasErrors: bool, commandLine: string)

  /** What selection ends in. The first three make `Run` return -1;
      `NotUnderTarget` stands for the exception thrown when a task whose
      parent is not a target has its target or project looked up. */
  datatype Selection =
    | NoTasks
    | NoProjectTask
    | NoTargetTask
    | NotUnderTarget
    | Chosen(task: IllinkTask)

  /** `Run`'s return value for the outcomes that return one. */
  function ExitCode(s: Selection): Option<int>
  {
    match s
    case NoTasks => Some(-1)
    case NoProjectTask => Some(-1)
    case NoTargetTask => Some(-1)
    case NotUnderTarget => None
    case Chosen(_) => Some(0)
  }

  // ---------------------------------------------------------------------
  // Filtering and finding, in log order

  /** The elements of `s` that satisfy `f`, in their order (LINQ `Where`). */
  function Keep<T(==,!new)>(s: seq<T>, f: T -> bool): (r: seq<T>)
    ensures |r| <= |s|
    ensures forall x :: x in r ==> x in s && f(x)
  {
    if |s| == 0 then []
    else (if f(s[0]) then [s[0]] else []) + Keep(s[1..], f)
  }

  /** Filtering keeps every occurrence of an element that passes and
      none of one that does not. */
  lemma {:induction false} KeepCounts<T(!new)>(s: seq<T>, f: T -> bool)
    ensures forall x :: multiset(Keep(s, f))[x] == if f(x) then multiset(s)[x] else 0
    decreases |s|
  {
    if |s| > 0 {
      KeepCounts(s[1..], f);
      assert s == [s[0]] + s[1..];
    }
  }

  /** The first element of `s` that satisfies `f` (LINQ `FirstOrDefault`). */
  function First<T(==)>(s: seq<T>, f: T -> bool): (r: Option<T>)
    ensures r.None? <==> forall k :: 0 <= k < |s| ==> !f(s[k])
    ensures r.Some? ==> exists i :: 0 <= i < |s| && s[i] == r.value && f(r.value) &&
                                    forall k :: 0 <= k < i ==> !f(s[k])
  {
    if |s| == 0 then None
    else if f(s[0]) then Some(s[0])
    else
      var r := First(s[1..], f);
      assert forall k :: 1 <= k < |s| ==> s[k] == s[1..][k - 1];
      if r.Some? then
        var i :| 0 <= i < |s[1..]| && s[1..][i] == r.value && f(r.value) &&
                 forall k :: 0 <= k < i ==> !f(s[1..][k]);
        assert s[i + 1] == r.value;
        r
      else r
  }

  /** Filtering distributes over concatenation, so it keeps log order. */
  lemma {:induction false} KeepAppend<T(!new)>(a: seq<T>, b: seq<T>, f: T -> bool)
    ensures Keep(a + b, f) == Keep(a, f) + Keep(b, f)
    decreases |a|
  {
    if |a| == 0 {
      assert a + b == b;
    } else {
      assert (a + b)[1..] == a[1..] + b;
      KeepAppend(a[1..], b, f);
    }
  }

  /** A filter every element passes keeps everything. */
  lemma {:induction false} KeepAll<T(!new)>(s: seq<T>, f: T -> bool)
    requires forall x :: x in s ==> f(x)
    ensures Keep(s, f) == s
    decreases |s|
  {
    if |s| > 0 {
      KeepAll(s[1..], f);
    }
  }

  /** Filtering twice is filtering once by both conditions. */
  lemma {:induction false} KeepKeep<T(!new)>(s: seq<T>, f: T -> bool, g: T -> bool, h: T -> bool)
    requires forall x :: h(x) == (f(x) && g(x))
    ensures Keep(Keep(s, f), g) == Keep(s, h)
    decreases |s|
  {
    if |s| > 0 {
      KeepKeep(s[1..], f, g, h);
      var rest := Keep(s[1..], f);
      if f(s[0]) {
        var kept := Keep(s, f);
        assert kept == [s[0]] + rest;
        assert kept[0] == s[0] && kept[1..] == rest;
        assert Keep(kept, g) == (if g(s[0]) then [s[0]] else []) + Keep(rest, g);
      } else {
        assert Keep(s, f) == rest;
      }
      assert Keep(s, h) == (if h(s[0]) then [s[0]] else []) + Keep(s[1..], h);
    }
  }

  /** The first element of a filtered sequence meeting a second condition
      is the first element of the whole sequence meeting both. */
  lemma {:induction false} FirstOfKeep<T(!new)>(s: seq<T>, f: T -> bool, g: T -> bool, h: T -> bool)
    requires forall x :: h(x) == (f(x) && g(x))
    ensures First(Keep(s, f), g) == First(s, h)
    decreases |s|
  {
    if |s| > 0 {
      FirstOfKeep(s[1..], f, g, h);
      var rest := Keep(s[1..], f);
      if f(s[0]) {
        var kept := Keep(s, f);
        assert kept == [s[0]] + rest;
        assert kept[0] == s[0] && kept[1..] == rest;
      } else {
        assert Keep(s, f) == rest;
      }
    }
  }

  // ---------------------------------------------------------------------
  // The filters and the pick

  /** The project filter: the task's target belongs to a project named
      `project`, or whose name without its extension is `project`. A task
      not under a target has no project name and never matches. */
  predicate InProject(t: IllinkTask, project: string)
  {
    t.parent.Some? &&
    (t.parent.value.project.name == project || GetFileNameWithoutExtension(t.parent.value.project.name) == project)
  }

  /** The target filter: the task runs under a target named `target`. */
  predicate InTarget(t: IllinkTask, target: string)
  {
    t.parent.Some? && t.parent.value.name == target
  }

  /** A task passes both filters; an empty filter (null or "") is not applied. */
  predicate Matches(t: IllinkTask, project: string, target: string)
  {
    (project == "" || InProject(t, project)) && (target == "" || InTarget(t, target))
  }

  /** Among the remaining tasks: the only one; of several, the first that
      failed, or else the first. */
  function Pick(ts: seq<IllinkTask>): (t: IllinkTask)
    requires |ts| > 0
    ensures t in ts
    ensures |ts| == 1 ==> t == ts[0]
    ensures t.hasErrors <==> exists k :: 0 <= k < |ts| && ts[k].hasErrors
    ensures t.hasErrors ==> exists i :: 0 <= i < |ts| && ts[i] == t && forall k :: 0 <= k < i ==> !ts[k].hasErrors
  {
    if |ts| > 1 then
      match First(ts, (u: IllinkTask) => u.hasErrors)
      case Some(u) => u
      case None => ts[0]
    else ts[0]
  }

  /** The project filter, when a project is named. */
  function ByProject(tasks: seq<IllinkTask>, project: string): seq<IllinkTask>
  {
    if project == "" then tasks else Keep(tasks, (t: IllinkTask) => InProject(t, project))
  }

  /** The target filter, when a target is named. */
  function ByTarget(tasks: seq<IllinkTask>, target: string): seq<IllinkTask>
  {
    if target == "" then tasks else Keep(tasks, (t: IllinkTask) => InTarget(t, target))
  }

  predicate AllUnderTargets(tasks: seq<IllinkTask>)
  {
    forall k :: 0 <= k < |tasks| ==> tasks[k].parent.Some?
  }

  /** Lines 54-126 of `Run`: give up when there is no task, narrow by
      project and then by target (each giving up when nothing is left), pick
      a task, and look up its project. The target filter reads the target of
      every remaining task, and so throws when one is not under a target. */
  function SelectTask(tasks: seq<IllinkTask>, project: string, target: string): (r: Selection)
    ensures r.Chosen? ==> r.task in tasks && Matches(r.task, project, target) && r.task.parent.Some?
  {
    if |tasks| == 0 then NoTasks
    else
      var byProject := ByProject(tasks, project);
      if |byProject| == 0 then NoProjectTask
      else if target != "" && !AllUnderTargets(byProject) then NotUnderTarget
      else
        var byTarget := ByTarget(byProject, target);
        if |byTarget| == 0 then NoTargetTask
        else
          var chosen := Pick(byTarget);
          if chosen.parent.None? then NotUnderTarget else Chosen(chosen)
  }

  // ---------------------------------------------------------------------
  // What selection yields, stated on the log itself

  /** The tasks both filters let through, in log order. */
  lemma Candidates(tasks: seq<IllinkTask>, project: string, target: string)
    ensures ByTarget(ByProject(tasks, project), target) == Keep(tasks, (t: IllinkTask) => Matches(t, project, target))
  {
    var m := (t: IllinkTask) => Matches(t, project, target);
    var p := (t: IllinkTask) => InProject(t, project);
    var q := (t: IllinkTask) => InTarget(t, target);
    if project == "" && target == "" {
      KeepAll(tasks, m);
    } else if project == "" {
      var all := (t: IllinkTask) => true;
      KeepAll(tasks, all);
      KeepKeep(tasks, all, q, m);
    } else if target == "" {
      var all := (t: IllinkTask) => true;
      KeepKeep(tasks, p, all, m);
      KeepAll(Keep(tasks, p), all);
    } else {
      KeepKeep(tasks, p, q, m);
    }
  }

  /** The task the policy prefers, read off the log directly: the first
      matching task that failed, or else the first matching task. */
  function Preferred(tasks: seq<IllinkTask>, project: string, target: string): Option<IllinkTask>
  {
    match First(tasks, (t: IllinkTask) => Matches(t, project, target) && t.hasErrors)
    case Some(f) => Some(f)
    case None => First(tasks, (t: IllinkTask) => Matches(t, project, target))
  }

  /** Picking among the filtered tasks yields the preferred task. */
  lemma PickIsPreferred(tasks: seq<IllinkTask>, project: string, target: string)
    requires |Keep(tasks, (t: IllinkTask) => Matches(t, project, target))| > 0
    ensures Preferred(tasks, project, target) == Some(Pick(Keep(tasks, (t: IllinkTask) => Matches(t, project, target))))
  {
    var m := (t: IllinkTask) => Matches(t, project, target);
    var me := (t: IllinkTask) => Matches(t, project, target) && t.hasErrors;
    var failed := (t: IllinkTask) => t.hasErrors;
    var all := (t: IllinkTask) => true;
    var c := Keep(tasks, m);
    FirstOfKeep(tasks, m, failed, me);
    FirstOfKeep(tasks, m, all, m);
    assert First(c, all) == Some(c[0]);
    var pick := Pick(c);
    if |c| > 1 {
      assert pick == match First(c, failed) case Some(u) => u case None => c[0];
    } else {
      assert First(c, failed) == if c[0].hasErrors then Some(c[0]) else None;
    }
  }

  /** A filter that lets nothing through leaves nothing, and one that lets
      some task through leaves something. */
  lemma KeepEmpty(tasks: seq<IllinkTask>, f: IllinkTask -> bool)
    ensures |Keep(tasks, f)| == 0 <==> forall k :: 0 <= k < |tasks| ==> !f(tasks[k])
  {
    var r := Keep(tasks, f);
    if |r| > 0 {
      assert r[0] in r;
    } else {
      KeepCounts(tasks, f);
      assert forall k :: 0 <= k < |tasks| ==> tasks[k] in multiset(tasks);
    }
  }

  /** Selection gives up with -1 exactly when the log has no task, when a
      project is asked for and no task is in it, or when a target is asked
      for, some task passes the project filter, every such task is under a
      target, and no task passes both filters. */
  lemma SelectionGivesUp(tasks: seq<IllinkTask>, project: string, target: string)
    ensures SelectTask(tasks, project, target) == NoTasks <==> |tasks| == 0
    ensures SelectTask(tasks, project, target) == NoProjectTask <==>
            |tasks| > 0 && project != "" && forall k :: 0 <= k < |tasks| ==> !InProject(tasks[k], project)
    ensures SelectTask(tasks, project, target) == NoTargetTask <==>
            |tasks| > 0 && target != "" &&
            (project == "" ==> AllUnderTargets(tasks)) &&
            (project != "" ==> exists k :: 0 <= k < |tasks| && InProject(tasks[k], project)) &&
            forall k :: 0 <= k < |tasks| ==> !Matches(tasks[k], project, target)
  {
    var p := (t: IllinkTask) => InProject(t, project);
    var m := (t: IllinkTask) => Matches(t, project, target);
    KeepEmpty(tasks, p);
    Candidates(tasks, project, target);
    KeepEmpty(tasks, m);
    if project != "" {
      ProjectTasksUnderTargets(tasks, project, p);
    }
  }

  /** Selection throws because a task is not under a target exactly when
      no project is asked for and either a target is asked for and some
      task of the log is not under a target, or no target is asked for and
      the task picked from the whole log is not under one. */
  lemma SelectionCrashes(tasks: seq<IllinkTask>, project: string, target: string)
    ensures SelectTask(tasks, project, target) == NotUnderTarget <==>
            |tasks| > 0 && project == "" &&
            (if target != "" then exists k :: 0 <= k < |tasks| && tasks[k].parent.None?
             else Pick(tasks).parent.None?)
  {
    if |tasks| > 0 {
      var byProject := ByProject(tasks, project);
      if project != "" {
        ProjectTasksUnderTargets(tasks, project, (t: IllinkTask) => InProject(t, project));
      }
      if target != "" && AllUnderTargets(byProject) {
        var byTarget := ByTarget(byProject, target);
        if |byTarget| > 0 {
          assert Pick(byTarget) in byTarget;
        }
      } else if target == "" && |byProject| > 0 {
        assert Pick(byProject) in byProject;
      }
    }
  }

  /** A chosen task is under a target and is the preferred one. */
  lemma ChosenIsPreferred(tasks: seq<IllinkTask>, project: string, target: string)
    requires SelectTask(tasks, project, target).Chosen?
    ensures SelectTask(tasks, project, target).task.parent.Some?
    ensures Preferred(tasks, project, target) == Some(SelectTask(tasks, project, target).task)
  {
    Candidates(tasks, project, target);
    PickIsPreferred(tasks, project, target);
  }

  /** The tasks of a named project are all under a target. */
  lemma ProjectTasksUnderTargets(tasks: seq<IllinkTask>, project: string, p: IllinkTask -> bool)
    requires forall t :: p(t) == InProject(t, project)
    ensures forall j :: 0 <= j < |Keep(tasks, p)| ==> Keep(tasks, p)[j].parent.Some?
  {
    var byProject := Keep(tasks, p);
    assert forall j :: 0 <= j < |byProject| ==> byProject[j] in byProject;
  }

  /** The preferred task, when there is one, is a matching task of the log. */
  lemma PreferredMatches(tasks: seq<IllinkTask>, project: string, target: string)
    requires Preferred(tasks, project, target).Some?
    ensures exists k :: 0 <= k < |tasks| && tasks[k] == Preferred(tasks, project, target).value &&
                        Matches(tasks[k], project, target)
  {
    var me := (t: IllinkTask) => Matches(t, project, target) && t.hasErrors;
    if First(tasks, me).Some? {
      var k :| 0 <= k < |tasks| && tasks[k] == First(tasks, me).value && me(tasks[k]);
    }
  }

  /** The preferred task is chosen whenever it is under a target and no
      task outside a target trips the target filter. */
  lemma PreferredIsChosen(tasks: seq<IllinkTask>, project: string, target: string)
    requires Preferred(tasks, project, target).Some? && Preferred(tasks, project, target).value.parent.Some?
    requires target == "" || project != "" || AllUnderTargets(tasks)
    ensures SelectTask(tasks, project, target) == Chosen(Preferred(tasks, project, target).value)
  {
    var m := (t: IllinkTask) => Matches(t, project, target);
    var p := (t: IllinkTask) => InProject(t, project);
    PreferredMatches(tasks, project, target);
    var k :| 0 <= k < |tasks| && tasks[k] == Preferred(tasks, project, target).value && m(tasks[k]);
    Candidates(tasks, project, target);
    KeepEmpty(tasks, m);
    PickIsPreferred(tasks, project, target);
    var byProject := ByProject(tasks, project);
    if project != "" {
      KeepEmpty(tasks, p);
      assert p(tasks[k]);
      ProjectTasksUnderTargets(tasks, project, p);
    }
    assert |byProject| > 0;
    assert target == "" || AllUnderTargets(byProject);
    assert Pick(ByTarget(byProject, target)) == Preferred(tasks, project, target).value;
  }

  /** Three tasks of one project, all under one target, the second and
      third of which failed: with no filter, the second is chosen. */
  lemma SecondOfThreePicked(t: TargetNode, a: string, b: string, c: string)
    ensures var tasks := [IllinkTask(Some(t), false, a), IllinkTask(Some(t), true, b), IllinkTask(Some(t), true, c)];
            SelectTask(tasks, "", "") == Chosen(IllinkTask(Some(t), true, b))
  {
    var tasks := [IllinkTask(Some(t), false, a), IllinkTask(Some(t), true, b), IllinkTask(Some(t), true, c)];
    assert tasks[1..][0] == IllinkTask(Some(t), true, b);
  }
}
