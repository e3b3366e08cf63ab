/**
 * The commands of src/ji/cli.py. Each command body is stated twice: as a
 * function on a page's task_map that says what the body computes, with its
 * properties, and inside a command method that runs the body on the resolved
 * page within a working-page session of the store.
 */
module Commands {
  import opened Wrappers
  import opened Records
  import opened Codec
  import opened Store

  /** What a command reports: the message it echoes, or the decoding error that aborts it. */
  datatype Outcome =
    | Corrupt(error: DecodeError)   // get_page raised while decoding
    | NoPage                        // "could not find page"
    | NoSuchTask                    // "task does not exist"
    | NotStaged                     // "task not currently staged"
    | NoneStaged                    // "no staged tasks"
    | Done                          // the body ran to its end
    | Updated(count: nat)           // comment and push: the number of staged tasks handled

  // ================================================================ touch (t)

  /** The task that touch creates under key id. */
  function NewTask(id: int, content: string, time: string): Task {
    Task(id, TODO, content, [], time, time)
  }

  /** touch: task_map[n] = a new TODO task with id n, where n is the number of tasks. */
  function Touched(m: TaskMap, content: string, time: string): (r: TaskMap)
    ensures Get(r, |m|) == Some(NewTask(|m|, content, time))
    ensures Keys(r) == Keys(m) + {|m|}
    ensures forall k :: k != |m| ==> Get(r, k) == Get(m, k)
    ensures WellKeyed(m) ==> WellKeyed(r)
  {
    PutKeys(m, |m|, NewTask(|m|, content, time));
    PutGet(m, |m|, NewTask(|m|, content, time));
    PutShape(m, |m|, NewTask(|m|, content, time));
    Put(m, |m|, NewTask(|m|, content, time))
  }

  /** With keys exactly 0 .. n-1, touch appends key n, and the keys become exactly 0 .. n. */
  lemma TouchGapFree(m: TaskMap, content: string, time: string)
    requires DistinctKeys(m)
    requires forall k :: k in Keys(m) <==> 0 <= k < |m|
    ensures Touched(m, content, time) == m + [Entry(|m|, NewTask(|m|, content, time))]
    ensures forall k :: k in Keys(Touched(m, content, time)) <==> 0 <= k <= |m|
  {
    PutShape(m, |m|, NewTask(|m|, content, time));
  }

  /**
   * After a removal has left a gap, key n = |task_map| can be present, and
   * touch then overwrites that task: the map keeps its size and keys, and
   * the task that was under n is gone.
   */
  lemma TouchOverwrites(m: TaskMap, content: string, time: string)
    requires DistinctKeys(m) && |m| in Keys(m)
    ensures Keys(Touched(m, content, time)) == Keys(m)
    ensures |Touched(m, content, time)| == |m|
    ensures Get(Touched(m, content, time), |m|) == Some(NewTask(|m|, content, time))
  {
    PutShape(m, |m|, NewTask(|m|, content, time));
  }

  /**
   * On a gap-free map of n >= 2 tasks, removing any task but the last and
   * then touching loses the task that was under key n - 1.
   */
  lemma RemoveThenTouchLosesTask(m: TaskMap, k: int, content: string, time: string)
    requires DistinctKeys(m)
    requires forall j :: j in Keys(m) <==> 0 <= j < |m|
    requires 0 <= k < |m| - 1
    ensures |Delete(m, k)| == |m| - 1
    ensures |Delete(m, k)| in Keys(Delete(m, k))
    ensures Get(Touched(Delete(m, k), content, time), |m| - 1) == Some(NewTask(|m| - 1, content, time))
    ensures |Touched(Delete(m, k), content, time)| == |m| - 1
  {
    var d := Delete(m, k);
    assert k in Keys(m);
    assert |m| - 1 in Keys(m);
    DeleteKeys(m, k);
    assert |d| == |m| - 1;
    assert |d| in Keys(d);
    TouchOverwrites(d, content, time);
  }

  // ================================================================ add (a)

  /** add: an existing task becomes STAGED, whatever its status was; a missing id changes nothing. */
  function Staged(m: TaskMap, id: int): (r: TaskMap)
    ensures Keys(r) == Keys(m) && |r| == |m|
    ensures Get(m, id).None? ==> r == m
    ensures Get(m, id).Some? ==> Get(r, id) == Some(Get(m, id).value.(status := STAGED))
    ensures forall k :: k != id ==> Get(r, k) == Get(m, k)
    ensures DistinctKeys(m) ==> forall i :: 0 <= i < |m| && m[i].key != id ==> r[i] == m[i]
    ensures WellKeyed(m) ==> WellKeyed(r)
  {
    match Get(m, id)
    case None => m
    case Some(t) =>
      PutKeys(m, id, t.(status := STAGED));
      PutGet(m, id, t.(status := STAGED));
      PutShape(m, id, t.(status := STAGED));
      Put(m, id, t.(status := STAGED))
  }

  // ================================================================ restore (rs)

  /** restore: only a STAGED task changes, and it becomes TODO; TODO and PUSHED tasks and missing ids are left alone. */
  function Restored(m: TaskMap, id: int): (r: TaskMap)
    ensures Keys(r) == Keys(m) && |r| == |m|
    ensures r != m ==> Get(m, id).Some? && Get(m, id).value.status == STAGED
    ensures Get(m, id).Some? && Get(m, id).value.status == STAGED ==>
      Get(r, id) == Some(Get(m, id).value.(status := TODO))
    ensures forall k :: k != id ==> Get(r, k) == Get(m, k)
    ensures DistinctKeys(m) ==> forall i :: 0 <= i < |m| && m[i].key != id ==> r[i] == m[i]
    ensures WellKeyed(m) ==> WellKeyed(r)
  {
    match Get(m, id)
    case None => m
    case Some(t) =>
      if t.status != STAGED then m
      else
        PutKeys(m, id, t.(status := TODO));
        PutGet(m, id, t.(status := TODO));
        PutShape(m, id, t.(status := TODO));
        Put(m, id, t.(status := TODO))
  }

  // ================================================================ comment (c)

  /** A staged task gains comment c at the end of its list; any other task is left as it is. */
  function WithComment(t: Task, c: Comment): Task {
    if t.status == STAGED then CommentAdded(t, c) else t
  }

  /** The task_map after comment: every task passed through WithComment, in place. */
  function Commented(m: TaskMap, c: Comment): TaskMap {
    seq(|m|, i requires 0 <= i < |m| => Entry(m[i].key, WithComment(m[i].task, c)))
  }

  /**
   * The body of comment: with no staged task it changes nothing; otherwise
   * every task of filter(STAGED), which are the map's own task objects, gets
   * one comment appended.
   */
  method AppendComment(m: TaskMap, content: string, time: string) returns (r: TaskMap, count: nat)
    ensures count == |Filter(m, STAGED)|
    ensures r == Commented(m, Comment(time, content))
  {
    var c := Comment(time, content);
    var staged := Filter(m, STAGED);
    count := |staged|;
    if count == 0 {
      NoneStagedUnchanged(m, c);
      return m, count;
    }
    r := m;
    var i := 0;
    while i < |r|
      invariant 0 <= i <= |r| == |m|
      invariant forall j :: 0 <= j < i ==> r[j] == Entry(m[j].key, WithComment(m[j].task, c))
      invariant forall j :: i <= j < |r| ==> r[j] == m[j]
    {
      var e := r[i];
      if e.task.status == STAGED {
        r := r[i := Entry(e.key, e.task.(commentList := e.task.commentList + [c]))];
      }
      i := i + 1;
    }
  }

  // ================================================================ push (p)

  function PushTask(t: Task): Task {
    if t.status == STAGED then t.(status := PUSHED) else t
  }

  /** The task_map after push: every STAGED task became PUSHED, in place. */
  function Pushed(m: TaskMap): TaskMap {
    seq(|m|, i requires 0 <= i < |m| => Entry(m[i].key, PushTask(m[i].task)))
  }

  /** The body of push: every task of filter(STAGED) is set to PUSHED. */
  method PushAll(m: TaskMap) returns (r: TaskMap, count: nat)
    ensures count == |Filter(m, STAGED)|
    ensures r == Pushed(m)
  {
    var staged := Filter(m, STAGED);
    count := |staged|;
    if count == 0 {
      NoneStagedUnchanged(m, Comment("", ""));
      return m, count;
    }
    r := m;
    var i := 0;
    while i < |r|
      invariant 0 <= i <= |r| == |m|
      invariant forall j :: 0 <= j < i ==> r[j] == Entry(m[j].key, PushTask(m[j].task))
      invariant forall j :: i <= j < |r| ==> r[j] == m[j]
    {
      var e := r[i];
      if e.task.status == STAGED {
        r := r[i := Entry(e.key, e.task.(status := PUSHED))];
      }
      i := i + 1;
    }
  }

  // ================================================================ properties of comment and push

  /** With no staged task, neither comment nor push changes any task. */
  lemma NoneStagedUnchanged(m: TaskMap, c: Comment)
    requires Filter(m, STAGED) == []
    ensures Commented(m, c) == m
    ensures Pushed(m) == m
  {
  }

  /** Two maps with the same key at every position find every key at the same position. */
  lemma {:induction false} IndexOfSameKeys(a: TaskMap, b: TaskMap, k: int)
    requires |a| == |b| && forall i :: 0 <= i < |a| ==> a[i].key == b[i].key
    ensures IndexOf(a, k) == IndexOf(b, k)
    decreases |a|
  {
    if a != [] && a[0].key != k {
      IndexOfSameKeys(a[1..], b[1..], k);
    }
  }

  /** comment, seen key by key: each staged task gains exactly c at the end of its comments; nothing else changes. */
  lemma GetCommented(m: TaskMap, c: Comment, k: int)
    ensures Keys(Commented(m, c)) == Keys(m)
    ensures |Commented(m, c)| == |m| && forall i :: 0 <= i < |m| ==> Commented(m, c)[i].key == m[i].key
    ensures Get(m, k).None? ==> Get(Commented(m, c), k).None?
    ensures Get(m, k).Some? ==> Get(Commented(m, c), k) == Some(WithComment(Get(m, k).value, c))
  {
    IndexOfSameKeys(Commented(m, c), m, k);
    var r := Commented(m, c);
    assert Keys(r) == Keys(m) by {
      forall x | x in Keys(m) ensures x in Keys(r) {
        var p :| 0 <= p < |m| && m[p].key == x;
        assert r[p].key == x;
      }
    }
  }

  /** push, seen key by key: each staged task becomes PUSHED; nothing else changes. */
  lemma GetPushed(m: TaskMap, k: int)
    ensures Keys(Pushed(m)) == Keys(m)
    ensures |Pushed(m)| == |m| && forall i :: 0 <= i < |m| ==> Pushed(m)[i].key == m[i].key
    ensures Get(m, k).None? ==> Get(Pushed(m), k).None?
    ensures Get(m, k).Some? ==> Get(Pushed(m), k) == Some(PushTask(Get(m, k).value))
  {
    IndexOfSameKeys(Pushed(m), m, k);
    var r := Pushed(m);
    assert Keys(r) == Keys(m) by {
      forall x | x in Keys(m) ensures x in Keys(r) {
        var p :| 0 <= p < |m| && m[p].key == x;
        assert r[p].key == x;
      }
    }
  }

  /**
   * After push no task is STAGED, the PUSHED tasks are the old PUSHED and
   * STAGED ones, and the TODO tasks are exactly as before.
   */
  lemma {:induction false} FilterPushed(m: TaskMap)
    ensures Filter(Pushed(m), STAGED) == []
    ensures |Filter(Pushed(m), PUSHED)| == |Filter(m, PUSHED)| + |Filter(m, STAGED)|
    ensures Filter(Pushed(m), TODO) == Filter(m, TODO)
    decreases |m|
  {
    if m != [] {
      assert Pushed(m)[1..] == Pushed(m[1..]);
      FilterPushed(m[1..]);
    }
  }

  /** A staged task with the comment c appended, as comment leaves it. */
  function CommentAdded(t: Task, c: Comment): Task {
    t.(commentList := t.commentList + [c])
  }

  /**
   * After comment the staged tasks are the same tasks, in the same order,
   * each with c appended.
   */
  lemma {:induction false} FilterCommented(m: TaskMap, c: Comment)
    ensures |Filter(Commented(m, c), STAGED)| == |Filter(m, STAGED)|
    ensures forall i :: 0 <= i < |Filter(m, STAGED)| ==>
      Filter(Commented(m, c), STAGED)[i] == CommentAdded(Filter(m, STAGED)[i], c)
    decreases |m|
  {
    if m != [] {
      var r, r', f, f' := Commented(m, c), Commented(m[1..], c), Filter(Commented(m, c), STAGED), Filter(m, STAGED);
      assert r[1..] == r';
      FilterCommented(m[1..], c);
      if m[0].task.status == STAGED {
        assert f == [CommentAdded(m[0].task, c)] + Filter(r', STAGED);
        assert f' == [m[0].task] + Filter(m[1..], STAGED);
      } else {
        assert f == Filter(r', STAGED);
        assert f' == Filter(m[1..], STAGED);
      }
    }
  }

  /** comment touches no task that is not staged: filter(TODO) and filter(PUSHED) are unchanged. */
  lemma {:induction false} FilterCommentedOthers(m: TaskMap, c: Comment)
    ensures Filter(Commented(m, c), TODO) == Filter(m, TODO)
    ensures Filter(Commented(m, c), PUSHED) == Filter(m, PUSHED)
    decreases |m|
  {
    if m != [] {
      assert Commented(m, c)[1..] == Commented(m[1..], c);
      FilterCommentedOthers(m[1..], c);
    }
  }

  // ================================================================ the commands on the store

  /** The store after a session over page cp that hands back page: that page, stamped, is what is stored and read back. */
  ghost predicate WroteBack(repo: Repo, before: map<int, PageRecord>, cp: int, page: Page)
    reads repo
  {
    repo.pages == before[cp := EncodePage(page.(lastModified := repo.eventTime))] &&
    repo.GetPage(cp) == Success(Some(page.(lastModified := repo.eventTime)))
  }

  /** n: the working pointer moves to the next page id, under which a fresh empty page is written. */
  method NewPage(repo: Repo)
    modifies repo
    ensures repo.wp == old(repo.wp) + 1
    ensures repo.pages == old(repo.pages)[repo.wp := EncodePage(EmptyPage(repo.wp, repo.eventTime))]
    ensures repo.GetPage(repo.wp) == Success(Some(EmptyPage(repo.wp, repo.eventTime)))
    ensures forall j :: j != repo.wp ==> repo.GetPage(j) == old(repo.GetPage(j))
  {
    var wp := repo.GetWp();
    repo.SetWp(wp + 1);
    repo.WritePage(wp + 1, None);
  }

  /**
   * st: shows page p as loaded; the session then writes the page back with
   * last_modified set to the event time, although nothing else changed.
   */
  method ShowStatus(repo: Repo, p: int) returns (out: Outcome, shown: Option<Page>)
    modifies repo
    ensures repo.wp == old(repo.wp)
    ensures match old(repo.GetPage(p))
      case Failure(e) => out == Corrupt(e) && shown.None? && repo.pages == old(repo.pages)
      case Success(None) => out == NoPage && shown.None? && repo.pages == old(repo.pages)
      case Success(Some(pg)) => out == Done && shown == Some(pg) && WroteBack(repo, old(repo.pages), p, pg)
  {
    var cp, loaded := repo.OpenWorkingPage(Some(p));
    if loaded.Failure? {
      return Corrupt(loaded.error), None;
    }
    var page := loaded.value;
    if page.None? {
      out, shown := NoPage, None;
    } else {
      out, shown := Done, page;
    }
    repo.CloseWorkingPage(cp, page);
  }

  /** t: adds a TODO task under key |task_map| of page p (see Touched). */
  method Touch(repo: Repo, p: int, content: string) returns (out: Outcome)
    modifies repo
    ensures repo.wp == old(repo.wp)
    ensures match old(repo.GetPage(p))
      case Failure(e) => out == Corrupt(e) && repo.pages == old(repo.pages)
      case Success(None) => out == NoPage && repo.pages == old(repo.pages)
      case Success(Some(pg)) =>
        out == Done && WroteBack(repo, old(repo.pages), p, pg.(taskMap := Touched(pg.taskMap, content, repo.eventTime)))
  {
    var cp, loaded := repo.OpenWorkingPage(Some(p));
    if loaded.Failure? {
      return Corrupt(loaded.error);
    }
    var page := loaded.value;
    if page.None? {
      out := NoPage;
    } else {
      var pg := page.value;
      var id := |pg.taskMap|;
      pg := pg.(taskMap := Put(pg.taskMap, id, Task(id, TODO, content, [], repo.eventTime, repo.eventTime)));
      assert pg.taskMap == Touched(page.value.taskMap, content, repo.eventTime);
      page, out := Some(pg), Done;
    }
    repo.CloseWorkingPage(cp, page);
  }

  /**
   * rm: deletes exactly key id from page p; an absent id leaves the task_map
   * as it was. Either way the loaded page is written back.
   */
  method Remove(repo: Repo, p: int, id: int) returns (out: Outcome)
    modifies repo
    ensures repo.wp == old(repo.wp)
    ensures match old(repo.GetPage(p))
      case Failure(e) => out == Corrupt(e) && repo.pages == old(repo.pages)
      case Success(None) => out == NoPage && repo.pages == old(repo.pages)
      case Success(Some(pg)) =>
        (out == NoSuchTask <==> id !in Keys(pg.taskMap)) && (out == NoSuchTask || out == Done) &&
        WroteBack(repo, old(repo.pages), p, pg.(taskMap := if id in Keys(pg.taskMap) then Delete(pg.taskMap, id) else pg.taskMap))
  {
    var cp, loaded := repo.OpenWorkingPage(Some(p));
    if loaded.Failure? {
      return Corrupt(loaded.error);
    }
    var page := loaded.value;
    if page.None? {
      out := NoPage;
    } else if id !in Keys(page.value.taskMap) {
      out := NoSuchTask;
    } else {
      DeleteKeys(page.value.taskMap, id);
      page, out := Some(page.value.(taskMap := Delete(page.value.taskMap, id))), Done;
    }
    repo.CloseWorkingPage(cp, page);
  }

  /** a: stages task id of page p (see Staged). */
  method Add(repo: Repo, p: int, id: int) returns (out: Outcome)
    modifies repo
    ensures repo.wp == old(repo.wp)
    ensures match old(repo.GetPage(p))
      case Failure(e) => out == Corrupt(e) && repo.pages == old(repo.pages)
      case Success(None) => out == NoPage && repo.pages == old(repo.pages)
      case Success(Some(pg)) =>
        (out == NoSuchTask <==> id !in Keys(pg.taskMap)) && (out == NoSuchTask || out == Done) &&
        WroteBack(repo, old(repo.pages), p, pg.(taskMap := Staged(pg.taskMap, id)))
  {
    var cp, loaded := repo.OpenWorkingPage(Some(p));
    if loaded.Failure? {
      return Corrupt(loaded.error);
    }
    var page := loaded.value;
    if page.None? {
      out := NoPage;
    } else {
      var pg := page.value;
      match Get(pg.taskMap, id)
      case None =>
        out := NoSuchTask;
      case Some(task) =>
        pg := pg.(taskMap := Put(pg.taskMap, id, task.(status := STAGED)));
        page, out := Some(pg), Done;
    }
    repo.CloseWorkingPage(cp, page);
  }

  /**
   * rs: restores task id of the working page (see Restored). The command
   * always works on the page the working pointer names.
   */
  method Restore(repo: Repo, id: int) returns (out: Outcome)
    modifies repo
    ensures repo.wp == old(repo.wp)
    ensures match old(repo.GetPage(repo.wp))
      case Failure(e) => out == Corrupt(e) && repo.pages == old(repo.pages)
      case Success(None) => out == NoPage && repo.pages == old(repo.pages)
      case Success(Some(pg)) =>
        (out == NoSuchTask <==> id !in Keys(pg.taskMap)) &&
        (out == NotStaged <==> id in Keys(pg.taskMap) && Get(pg.taskMap, id).value.status != STAGED) &&
        (out == NoSuchTask || out == NotStaged || out == Done) &&
        WroteBack(repo, old(repo.pages), repo.wp, pg.(taskMap := Restored(pg.taskMap, id)))
  {
    var cp, loaded := repo.OpenWorkingPage(None);
    if loaded.Failure? {
      return Corrupt(loaded.error);
    }
    var page := loaded.value;
    if page.None? {
      out := NoPage;
    } else {
      var pg := page.value;
      match Get(pg.taskMap, id)
      case None =>
        out := NoSuchTask;
      case Some(task) =>
        if task.status != STAGED {
          out := NotStaged;
        } else {
          pg := pg.(taskMap := Put(pg.taskMap, id, task.(status := TODO)));
          page, out := Some(pg), Done;
        }
    }
    repo.CloseWorkingPage(cp, page);
  }

  /** c: appends a comment to every staged task of page p (see Commented and AppendComment). */
  method CommentStaged(repo: Repo, p: int, content: string) returns (out: Outcome)
    modifies repo
    ensures repo.wp == old(repo.wp)
    ensures match old(repo.GetPage(p))
      case Failure(e) => out == Corrupt(e) && repo.pages == old(repo.pages)
      case Success(None) => out == NoPage && repo.pages == old(repo.pages)
      case Success(Some(pg)) =>
        (out == NoneStaged <==> Filter(pg.taskMap, STAGED) == []) &&
        (out == NoneStaged || out == Updated(|Filter(pg.taskMap, STAGED)|)) &&
        WroteBack(repo, old(repo.pages), p, pg.(taskMap := Commented(pg.taskMap, Comment(repo.eventTime, content))))
  {
    var cp, loaded := repo.OpenWorkingPage(Some(p));
    if loaded.Failure? {
      return Corrupt(loaded.error);
    }
    var page := loaded.value;
    if page.None? {
      out := NoPage;
    } else {
      var pg := page.value;
      var m, count := AppendComment(pg.taskMap, content, repo.eventTime);
      CommentedWellKeyed(pg.taskMap, Comment(repo.eventTime, content));
      out := if count == 0 then NoneStaged else Updated(count);
      page := Some(pg.(taskMap := m));
    }
    repo.CloseWorkingPage(cp, page);
  }

  /** p: marks every staged task of page p as pushed (see Pushed and PushAll). */
  method Push(repo: Repo, p: int) returns (out: Outcome)
    modifies repo
    ensures repo.wp == old(repo.wp)
    ensures match old(repo.GetPage(p))
      case Failure(e) => out == Corrupt(e) && repo.pages == old(repo.pages)
      case Success(None) => out == NoPage && repo.pages == old(repo.pages)
      case Success(Some(pg)) =>
        (out == NoneStaged <==> Filter(pg.taskMap, STAGED) == []) &&
        (out == NoneStaged || out == Updated(|Filter(pg.taskMap, STAGED)|)) &&
        WroteBack(repo, old(repo.pages), p, pg.(taskMap := Pushed(pg.taskMap)))
  {
    var cp, loaded := repo.OpenWorkingPage(Some(p));
    if loaded.Failure? {
      return Corrupt(loaded.error);
    }
    var page := loaded.value;
    if page.None? {
      out := NoPage;
    } else {
      var pg := page.value;
      var m, count := PushAll(pg.taskMap);
      PushedWellKeyed(pg.taskMap);
      out := if count == 0 then NoneStaged else Updated(count);
      page := Some(pg.(taskMap := m));
    }
    repo.CloseWorkingPage(cp, page);
  }

  lemma CommentedWellKeyed(m: TaskMap, c: Comment)
    requires WellKeyed(m)
    ensures WellKeyed(Commented(m, c))
  {
  }

  lemma PushedWellKeyed(m: TaskMap)
    requires WellKeyed(m)
    ensures WellKeyed(Pushed(m))
  {
  }
}
