/**
 * Clients of the model: the lifecycle of one task, a fresh store that is
 * bootstrapped, given a task and moved on to its next page, and how a
 * command's page id is resolved.
 */
module Scenario {
  import opened Wrappers
  import opened Records
  import opened Codec
  import opened Store
  import opened Commands

  /**
   * On an empty page: touch "write spec" creates task 0 as TODO; add 0 stages
   * it; comment "reviewed" gives it that one comment; push makes it PUSHED;
   * restore 0 then leaves it alone.
   */
  lemma TaskLifecycle(time: string)
    ensures var m1 := Touched([], "write spec", time);
      var m2 := Staged(m1, 0);
      var m3 := Commented(m2, Comment(time, "reviewed"));
      var m4 := Pushed(m3);
      && m1 == [Entry(0, Task(0, TODO, "write spec", [], time, time))]
      && m2 == [Entry(0, Task(0, STAGED, "write spec", [], time, time))]
      && m3 == [Entry(0, Task(0, STAGED, "write spec", [Comment(time, "reviewed")], time, time))]
      && m4 == [Entry(0, Task(0, PUSHED, "write spec", [Comment(time, "reviewed")], time, time))]
      && Restored(m4, 0) == m4
  {
    var t := Task(0, TODO, "write spec", [], time, time);
    assert Touched([], "write spec", time) == [] + [Entry(0, t)];
    assert IndexOf([Entry(0, t)], 0) == Some(0);
    var t2 := t.(status := STAGED);
    var t3 := t2.(commentList := [Comment(time, "reviewed")]);
    assert t2.commentList + [Comment(time, "reviewed")] == [Comment(time, "reviewed")];
    assert Commented([Entry(0, t2)], Comment(time, "reviewed"))[0] == Entry(0, t3);
    assert Commented([Entry(0, t2)], Comment(time, "reviewed")) == [Entry(0, t3)];
    var t4 := t3.(status := PUSHED);
    assert Pushed([Entry(0, t3)])[0] == Entry(0, t4);
    assert Pushed([Entry(0, t3)]) == [Entry(0, t4)];
    assert IndexOf([Entry(0, t4)], 0) == Some(0);
  }

  /** Bootstrap, touch on the working page, then n: page 1 is empty and current, page 0 keeps its task. */
  method FreshStore(time: string) {
    var repo := new Repo(time, None);
    assert repo.wp == 0 && repo.GetPage(0) == Success(Some(EmptyPage(0, time)));
    var out := Touch(repo, repo.wp, "write spec");
    assert out == Done;
    ghost var page0 := repo.GetPage(0);
    NewPage(repo);
    assert repo.wp == 1;
    assert repo.GetPage(1) == Success(Some(EmptyPage(1, time)));
    assert repo.GetPage(0) == page0;
  }

  /**
   * n, then a command given no -p: the id resolves to the new working page,
   * which loads as the empty page n wrote.
   */
  method NewThenResolve(repo: Repo) returns (cp: int, page: Result<Option<Page>, DecodeError>)
    modifies repo
    ensures cp == old(repo.wp) + 1
    ensures page == Success(Some(EmptyPage(cp, repo.eventTime)))
  {
    NewPage(repo);
    cp, page := repo.OpenWorkingPage(None);
  }

  /**
   * n, then a command given -p q: page q loads as n left it, which is the new
   * empty page when q is the new working page and otherwise what q held before.
   */
  method NewThenExplicit(repo: Repo, q: int) returns (cp: int, page: Result<Option<Page>, DecodeError>)
    modifies repo
    ensures cp == q && repo.wp == old(repo.wp) + 1
    ensures q == repo.wp ==> page == Success(Some(EmptyPage(q, repo.eventTime)))
    ensures q != repo.wp ==> page == old(repo.GetPage(q))
  {
    NewPage(repo);
    cp, page := repo.OpenWorkingPage(Some(q));
  }
}
