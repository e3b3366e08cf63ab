/**
 * The record types of a ji page: Status, Comment, Task and Page, with the
 * page's task_map as an insertion-ordered dictionary from integer ids to tasks.
 */
module Records {
  import opened Wrappers

  /** The three task states. */
  datatype Status = TODO | STAGED | PUSHED

  datatype Comment = Comment(createdAt: string, content: string)

  datatype Task = Task(
    id: int,
    status: Status,
    content: string,
    commentList: seq<Comment>,
    createdAt: string,
    lastModified: string)

  /** One key/value pair of a task_map. */
  datatype Entry = Entry(key: int, task: Task)

  /**
   * A task_map: the pairs in insertion order, as a dictionary keeps them.
   * Assigning to a present key replaces its value where it stands; assigning
   * to a new key appends it; deleting a key closes up the sequence.
   */
  type TaskMap = seq<Entry>

  datatype Page = Page(id: int, createdAt: string, lastModified: string, taskMap: TaskMap)

  /** The set of keys of a task_map. */
  function Keys(m: TaskMap): set<int> {
    set i | 0 <= i < |m| :: m[i].key
  }

  /** No key occurs twice: what makes a sequence of pairs a dictionary. */
  predicate DistinctKeys(m: TaskMap) {
    forall i, j :: 0 <= i < j < |m| ==> m[i].key != m[j].key
  }

  /** A decoded task_map: a dictionary whose every task carries its own key as id. */
  predicate WellKeyed(m: TaskMap) {
    DistinctKeys(m) && forall i :: 0 <= i < |m| ==> m[i].task.id == m[i].key
  }

  /** The position of key k in the map, if it is present (its first position). */
  function IndexOf(m: TaskMap, k: int): (r: Option<nat>)
    ensures r.None? <==> k !in Keys(m)
    ensures r.Some? ==> r.value < |m| && m[r.value].key == k
    ensures r.Some? ==> forall j :: 0 <= j < r.value ==> m[j].key != k
  {
    if m == [] then None
    else if m[0].key == k then Some(0)
    else
      match IndexOf(m[1..], k)
      case None =>
        assert forall i :: 1 <= i < |m| ==> m[i].key == m[1..][i - 1].key;
        None
      case Some(i) => Some(i + 1)
  }

  /** IndexOf is determined by its contract: the first position holding k. */
  lemma IndexOfFirst(m: TaskMap, k: int, i: nat)
    requires i < |m| && m[i].key == k
    requires forall j :: 0 <= j < i ==> m[j].key != k
    ensures IndexOf(m, k) == Some(i)
  {
  }

  /** In a dictionary, the position of a key is the only one holding it. */
  lemma IndexOfAt(m: TaskMap, i: nat)
    requires DistinctKeys(m) && i < |m|
    ensures IndexOf(m, m[i].key) == Some(i)
  {
    IndexOfFirst(m, m[i].key, i);
  }

  /** task_map.get(k) */
  function Get(m: TaskMap, k: int): (r: Option<Task>)
    ensures r.Some? <==> k in Keys(m)
    ensures r.Some? ==> Entry(k, r.value) in m
  {
    match IndexOf(m, k)
    case None => None
    case Some(i) => Some(m[i].task)
  }

  /** In a dictionary, looking up the key stored at a position gives the task at that position. */
  lemma GetAt(m: TaskMap, i: nat)
    requires DistinctKeys(m) && i < |m|
    ensures Get(m, m[i].key) == Some(m[i].task)
  {
    IndexOfAt(m, i);
  }

  /** task_map[k] = t: a present key keeps its place, a new key goes last. */
  function Put(m: TaskMap, k: int, t: Task): TaskMap {
    match IndexOf(m, k)
    case None => m + [Entry(k, t)]
    case Some(i) => m[i := Entry(k, t)]
  }

  /** del task_map[k] (the caller has checked that k is present). */
  function Delete(m: TaskMap, k: int): TaskMap {
    match IndexOf(m, k)
    case None => m
    case Some(i) => m[..i] + m[i + 1..]
  }

  /** After task_map[k] = t, the map's keys are its old keys and k. */
  lemma PutKeys(m: TaskMap, k: int, t: Task)
    ensures Keys(Put(m, k, t)) == Keys(m) + {k}
  {
    var r := Put(m, k, t);
    forall x | x in Keys(m) ensures x in Keys(r) {
      var p :| 0 <= p < |m| && m[p].key == x;
      assert r[p].key == x;
    }
    match IndexOf(m, k)
    case None => assert r[|m|].key == k;
    case Some(i) => assert r[i].key == k;
  }

  /** After task_map[k] = t, the map holds t under k, and every other key keeps its task. */
  lemma PutGet(m: TaskMap, k: int, t: Task)
    ensures Get(Put(m, k, t), k) == Some(t)
    ensures forall j :: j != k ==> Get(Put(m, k, t), j) == Get(m, j)
  {
    var r := Put(m, k, t);
    match IndexOf(m, k)
    case None =>
      IndexOfFirst(r, k, |m|);
      PutKeys(m, k, t);
      forall j | j != k ensures Get(r, j) == Get(m, j) {
        if IndexOf(m, j).Some? {
          IndexOfFirst(r, j, IndexOf(m, j).value);
        } else {
          assert j !in Keys(r);
        }
      }
    case Some(i) =>
      IndexOfFirst(r, k, i);
      PutKeys(m, k, t);
      forall j | j != k ensures Get(r, j) == Get(m, j) {
        if IndexOf(m, j).Some? {
          IndexOfFirst(r, j, IndexOf(m, j).value);
        } else {
          assert j !in Keys(r);
        }
      }
  }

  /** task_map[k] = t keeps the map a dictionary, and with no other change of order or length than appending a new key. */
  lemma PutShape(m: TaskMap, k: int, t: Task)
    ensures k !in Keys(m) ==> Put(m, k, t) == m + [Entry(k, t)]
    ensures k in Keys(m) ==> |Put(m, k, t)| == |m|
    ensures DistinctKeys(m) && k in Keys(m) ==>
      forall i :: 0 <= i < |m| ==> Put(m, k, t)[i] == if m[i].key == k then Entry(k, t) else m[i]
    ensures DistinctKeys(m) ==> DistinctKeys(Put(m, k, t))
    ensures WellKeyed(m) && t.id == k ==> WellKeyed(Put(m, k, t))
  {
    if DistinctKeys(m) && k in Keys(m) {
      var i :| 0 <= i < |m| && m[i].key == k;
      IndexOfAt(m, i);
    }
  }

  /** del task_map[k] closes up the sequence at k's position. */
  lemma DeleteShape(m: TaskMap, k: int, i: nat)
    requires IndexOf(m, k) == Some(i)
    ensures |Delete(m, k)| == |m| - 1
    ensures forall j :: 0 <= j < i ==> Delete(m, k)[j] == m[j]
    ensures forall j :: i <= j < |m| - 1 ==> Delete(m, k)[j] == m[j + 1]
  {
  }

  /** del task_map[k] removes exactly key k, shrinks the map by one when k was present, and keeps it a dictionary. */
  lemma DeleteKeys(m: TaskMap, k: int)
    requires DistinctKeys(m)
    ensures Keys(Delete(m, k)) == Keys(m) - {k}
    ensures DistinctKeys(Delete(m, k))
    ensures k in Keys(m) ==> |Delete(m, k)| == |m| - 1
    ensures WellKeyed(m) ==> WellKeyed(Delete(m, k))
  {
    var r := Delete(m, k);
    if IndexOf(m, k).Some? {
      var i := IndexOf(m, k).value;
      DeleteShape(m, k, i);
      forall x | x in Keys(m) - {k} ensures x in Keys(r) {
        var p :| 0 <= p < |m| && m[p].key == x;
        if p < i { assert r[p].key == x; } else { assert r[p - 1].key == x; }
      }
      forall x | x in Keys(r) ensures x in Keys(m) - {k} {
        var p :| 0 <= p < |r| && r[p].key == x;
        if p < i { assert m[p].key == x; } else { assert m[p + 1].key == x; }
      }
    }
  }

  /** del task_map[k] keeps the task of a key j other than k. */
  lemma DeleteGetOther(m: TaskMap, k: int, j: int)
    requires j != k
    ensures Get(Delete(m, k), j) == Get(m, j)
  {
    var r := Delete(m, k);
    if IndexOf(m, k).Some? {
      var i := IndexOf(m, k).value;
      DeleteShape(m, k, i);
      match IndexOf(m, j)
      case None =>
        forall t | 0 <= t < |r| ensures r[t].key != j {
          if t < i { assert r[t] == m[t]; } else { assert r[t] == m[t + 1]; }
        }
        assert j !in Keys(r);
      case Some(p) =>
        if p < i {
          assert r[p] == m[p];
          IndexOfFirst(r, j, p);
        } else {
          assert r[p - 1] == m[p];
          forall t | 0 <= t < p - 1 ensures r[t].key != j {
            if t < i { assert r[t] == m[t]; } else { assert r[t] == m[t + 1]; }
          }
          IndexOfFirst(r, j, p - 1);
        }
    }
  }

  /** del task_map[k] keeps every other key's task. */
  lemma DeleteGet(m: TaskMap, k: int)
    ensures forall j :: j != k ==> Get(Delete(m, k), j) == Get(m, j)
  {
    forall j | j != k ensures Get(Delete(m, k), j) == Get(m, j) {
      DeleteGetOther(m, k, j);
    }
  }

  /** Page.filter(s): the tasks of the map whose status is s, in map order. */
  function Filter(m: TaskMap, s: Status): seq<Task> {
    if m == [] then []
    else (if m[0].task.status == s then [m[0].task] else []) + Filter(m[1..], s)
  }

  /** Page.filter(s) lists the map's own tasks, all of status s, and every one of them. */
  lemma {:induction false} FilterSpec(m: TaskMap, s: Status)
    ensures |Filter(m, s)| <= |m|
    ensures forall t :: t in Filter(m, s) ==> t.status == s
    ensures forall i :: 0 <= i < |m| && m[i].task.status == s ==> m[i].task in Filter(m, s)
    ensures forall t :: t in Filter(m, s) ==> exists i :: 0 <= i < |m| && m[i].task == t
    decreases |m|
  {
    if m != [] {
      var rest := m[1..];
      FilterSpec(rest, s);
      assert forall i :: 1 <= i < |m| ==> m[i] == rest[i - 1];
      forall t | t in Filter(m, s) ensures exists i :: 0 <= i < |m| && m[i].task == t {
        if t !in Filter(rest, s) {
          assert m[0].task == t;
        } else {
          var j :| 0 <= j < |rest| && rest[j].task == t;
          assert m[j + 1].task == t;
        }
      }
    }
  }

  /** Filtering respects the map's order: the filter of a concatenation is the concatenation of the filters. */
  lemma {:induction false} FilterAppend(a: TaskMap, b: TaskMap, s: Status)
    ensures Filter(a + b, s) == Filter(a, s) + Filter(b, s)
  {
    if a != [] {
      var head := if a[0].task.status == s then [a[0].task] else [];
      assert (a + b)[0] == a[0];
      assert (a + b)[1..] == a[1..] + b;
      assert Filter(a + b, s) == head + Filter(a[1..] + b, s);
      assert Filter(a, s) == head + Filter(a[1..], s);
      FilterAppend(a[1..], b, s);
    } else {
      assert a + b == b;
    }
  }

  /** A fresh page as write_page builds it when given none. */
  function EmptyPage(id: int, time: string): Page {
    Page(id, time, time, [])
  }
}
