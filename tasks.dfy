/** The task tree: a task has a description, a done flag, an expanded flag and
    an ordered list of subtasks. A subtask pointer may be null (the YAML reader
    appends a null task for a list element that is not a map), so a child is a
    `Slot`, an optional task.

    Tasks are values here. A position in the tree is a path: the row of each
    step from the root down. `Lookup` reads the slot a path leads to and
    `Replace` rebuilds the tree with the task at a path swapped for another;
    every in-place update of the task model is a `Replace`. */
module Tasks {
  import opened Wrappers

  type Slot = Option<Task>

  /** The list `s` with `x` inserted at position `i`. */
  function Insert<T>(s: seq<T>, i: nat, x: T): (r: seq<T>)
    requires i <= |s|
    ensures |r| == |s| + 1
  {
    seq(|s| + 1, k requires 0 <= k <= |s| => if k < i then s[k] else if k == i then x else s[k - 1])
  }

  /** The list `s` without its element at position `i`. */
  function Remove<T>(s: seq<T>, i: nat): (r: seq<T>)
    requires i < |s|
    ensures |r| == |s| - 1
  {
    seq(|s| - 1, k requires 0 <= k < |s| - 1 => if k < i then s[k] else s[k + 1])
  }

  /** An insertion keeps the elements before `i`, puts `x` at `i` and shifts
      the rest up by one. */
  lemma InsertSlices<T>(s: seq<T>, i: nat, x: T)
    requires i <= |s|
    ensures Insert(s, i, x) == s[..i] + [x] + s[i..]
  {
    var r, q := Insert(s, i, x), s[..i] + [x] + s[i..];
    forall k | 0 <= k < |r|
      ensures r[k] == q[k]
    {
      if k > i {
        assert q[k] == s[i..][k - i - 1];
      }
    }
  }

  /** A removal keeps the elements before `i` and shifts the rest down by
      one. */
  lemma RemoveSlices<T>(s: seq<T>, i: nat)
    requires i < |s|
    ensures Remove(s, i) == s[..i] + s[i + 1..]
  {
    var r, q := Remove(s, i), s[..i] + s[i + 1..];
    forall k | 0 <= k < |r|
      ensures r[k] == q[k]
    {
      if k >= i {
        assert q[k] == s[i + 1..][k - i];
      }
    }
  }

  /** An insertion adds `x` to the elements and keeps all the others. */
  lemma InsertMultiset<T>(s: seq<T>, i: nat, x: T)
    requires i <= |s|
    ensures multiset(Insert(s, i, x)) == multiset(s) + multiset{x}
  {
    InsertSlices(s, i, x);
    assert s == s[..i] + s[i..];
  }

  /** A removal takes away the element at `i` and keeps all the others. */
  lemma RemoveMultiset<T>(s: seq<T>, i: nat)
    requires i < |s|
    ensures multiset(Remove(s, i)) + multiset{s[i]} == multiset(s)
  {
    RemoveSlices(s, i);
    assert s == s[..i] + [s[i]] + s[i + 1..];
  }

  datatype Task = Task(description: string, done: bool, expanded: bool, subtasks: seq<Slot>)
  {
    /** `insertSubtask(task, i)`: the new subtask lands at row `i`. */
    function InsertSubtask(x: Slot, i: nat): (t: Task)
      requires i <= |subtasks|
      ensures t.subtasks == Insert(subtasks, i, x)
      ensures t.description == description && t.done == done && t.expanded == expanded
    {
      this.(subtasks := Insert(subtasks, i, x))
    }

    /** `removeSubtask(i)`: drops the subtask at row `i`. */
    function RemoveSubtask(i: nat): (t: Task)
      requires i < |subtasks|
      ensures t.subtasks == Remove(subtasks, i)
      ensures t.description == description && t.done == done && t.expanded == expanded
    {
      this.(subtasks := Remove(subtasks, i))
    }

    /** `appendSubtask(task)`. */
    function AppendSubtask(x: Slot): (t: Task)
      ensures t.subtasks == subtasks + [x]
      ensures t.description == description && t.done == done && t.expanded == expanded
    {
      this.(subtasks := subtasks + [x])
    }

    /** `clear()`: drops every subtask, keeps the task's own attributes. */
    function Clear(): (t: Task)
      ensures t.subtasks == []
      ensures t.description == description && t.done == done && t.expanded == expanded
    {
      this.(subtasks := [])
    }
  }

  /** `new Task()`: empty description, not done, expanded, no subtasks. */
  function NewTask(): (t: Task)
    ensures t.description == "" && !t.done && t.expanded && t.subtasks == []
  {
    Task("", false, true, [])
  }

  /** A task and all its descendants hold no null subtask pointer. */
  predicate NoNulls(t: Task)
  {
    forall i :: 0 <= i < |t.subtasks| ==> t.subtasks[i].Some? && NoNulls(t.subtasks[i].value)
  }

  // ---------------------------------------------------------------------------
  // Paths

  /** `path` leads from `t` through non-null tasks to some slot of the tree. */
  predicate IsPath(t: Task, path: seq<nat>)
    decreases |path|
  {
    path == [] ||
    (path[0] < |t.subtasks| &&
     (|path| == 1 || (t.subtasks[path[0]].Some? && IsPath(t.subtasks[path[0]].value, path[1..]))))
  }

  /** The slot that `path` leads to; the empty path leads to `t` itself. */
  function Lookup(t: Task, path: seq<nat>): Slot
    requires IsPath(t, path)
    decreases |path|
  {
    if path == [] then Some(t)
    else if |path| == 1 then t.subtasks[path[0]]
    else Lookup(t.subtasks[path[0]].value, path[1..])
  }

  /** `path` leads to a task, not to a null pointer. */
  predicate IsTaskPath(t: Task, path: seq<nat>)
  {
    IsPath(t, path) && Lookup(t, path).Some?
  }

  /** The tree `t` with the task at `path` replaced by `n`. */
  function Replace(t: Task, path: seq<nat>, n: Task): Task
    requires IsTaskPath(t, path)
    decreases |path|
  {
    if path == [] then n
    else
      var c := t.subtasks[path[0]].value;
      t.(subtasks := t.subtasks[path[0] := Some(Replace(c, path[1..], n))])
  }

  predicate Prefix(p: seq<nat>, q: seq<nat>)
  {
    |p| <= |q| && q[..|p|] == p
  }

  /** Neither path lies on the other: they lead into disjoint subtrees. */
  predicate Apart(p: seq<nat>, q: seq<nat>)
  {
    !Prefix(p, q) && !Prefix(q, p)
  }

  /** The replaced task is found where it was put. */
  lemma {:induction false} LookupReplace(t: Task, p: seq<nat>, n: Task)
    requires IsTaskPath(t, p)
    ensures IsTaskPath(Replace(t, p, n), p) && Lookup(Replace(t, p, n), p) == Some(n)
    decreases |p|
  {
    if p != [] && |p| > 1 {
      LookupReplace(t.subtasks[p[0]].value, p[1..], n);
    }
  }

  /** Replacing a task leaves every slot outside its subtree and off its
      ancestry untouched. */
  lemma {:induction false} LookupReplaceApart(t: Task, p: seq<nat>, n: Task, q: seq<nat>)
    requires IsTaskPath(t, p) && IsPath(t, q) && Apart(p, q)
    ensures IsPath(Replace(t, p, n), q) && Lookup(Replace(t, p, n), q) == Lookup(t, q)
    decreases |p|
  {
    var t' := Replace(t, p, n);
    assert p != [] && q != [];
    if p[0] != q[0] {
      assert t'.subtasks[q[0]] == t.subtasks[q[0]];
    } else {
      var c := t.subtasks[p[0]].value;
      LookupReplaceApart(c, p[1..], n, q[1..]);
    }
  }

  /** `b` is `a` with at most its subtask slot at row `k` changed. */
  predicate ChangedBelow(a: Task, b: Task, k: nat)
  {
    b.description == a.description && b.done == a.done && b.expanded == a.expanded &&
    |b.subtasks| == |a.subtasks| &&
    forall j :: 0 <= j < |a.subtasks| && j != k ==> b.subtasks[j] == a.subtasks[j]
  }

  /** Replacing a task below `q` keeps the task at `q` in place with its own
      description and flags, and changes only its subtask on the way down. */
  lemma {:induction false} LookupReplaceAncestor(t: Task, p: seq<nat>, n: Task, q: seq<nat>)
    requires IsTaskPath(t, p) && Prefix(q, p) && |q| < |p|
    ensures IsTaskPath(t, q) && IsTaskPath(Replace(t, p, n), q)
    ensures ChangedBelow(Lookup(t, q).value, Lookup(Replace(t, p, n), q).value, p[|q|])
    decreases |p|
  {
    if q != [] {
      assert p[0] == q[0] && p[1..][..|q| - 1] == q[1..];
      LookupReplaceAncestor(t.subtasks[p[0]].value, p[1..], n, q[1..]);
    }
  }

  /** A path into the subtree of the task at `p` extends `p`. */
  lemma {:induction false} LookupConcat(t: Task, p: seq<nat>, r: seq<nat>)
    requires IsTaskPath(t, p)
    ensures IsPath(t, p + r) <==> IsPath(Lookup(t, p).value, r)
    ensures IsPath(t, p + r) ==> Lookup(t, p + r) == Lookup(Lookup(t, p).value, r)
    decreases |p|
  {
    if p == [] {
      assert p + r == r;
    } else {
      assert (p + r)[0] == p[0] && (p + r)[1..] == p[1..] + r;
      if |p| == 1 {
        assert p[1..] + r == r;
        if r != [] {
          LookupConcat(t.subtasks[p[0]].value, p[1..], r);
        }
      } else {
        LookupConcat(t.subtasks[p[0]].value, p[1..], r);
      }
    }
  }

  /** The child at `row` of the task at `p` sits at `p + [row]`. */
  lemma LookupChild(t: Task, p: seq<nat>, row: nat)
    requires IsTaskPath(t, p) && row < |Lookup(t, p).value.subtasks|
    ensures IsPath(t, p + [row]) && Lookup(t, p + [row]) == Lookup(t, p).value.subtasks[row]
  {
    LookupConcat(t, p, [row]);
  }

  /** Every proper prefix of a path leads to a task. */
  lemma PathPrefix(t: Task, p: seq<nat>, k: nat)
    requires IsPath(t, p) && k < |p|
    ensures IsTaskPath(t, p[..k])
  {
    PathPrefixFrom(t, p, k);
  }

  lemma {:induction false} PathPrefixFrom(t: Task, p: seq<nat>, k: nat)
    requires IsPath(t, p) && k < |p|
    ensures IsTaskPath(t, p[..k])
    decreases k
  {
    if k > 0 {
      PathPrefixFrom(t.subtasks[p[0]].value, p[1..], k - 1);
      assert p[..k] == [p[0]] + p[1..][..k - 1];
    }
  }

  /** A path below the replaced task now leads into the new task. */
  lemma LookupReplaceBelow(t: Task, p: seq<nat>, n: Task, r: seq<nat>)
    requires IsTaskPath(t, p) && IsPath(n, r)
    ensures IsPath(Replace(t, p, n), p + r) && Lookup(Replace(t, p, n), p + r) == Lookup(n, r)
  {
    LookupReplace(t, p, n);
    LookupConcat(Replace(t, p, n), p, r);
  }

  /** Two slots holding the same task lead to the same subtrees. */
  lemma LookupSameChild(f: Task, k: nat, g: Task, j: nat, r: seq<nat>)
    requires k < |f.subtasks| && j < |g.subtasks| && f.subtasks[k] == g.subtasks[j]
    requires IsPath(f, [k] + r)
    ensures IsPath(g, [j] + r) && Lookup(g, [j] + r) == Lookup(f, [k] + r)
  {
    assert ([k] + r)[1..] == r && ([j] + r)[1..] == r;
  }

  /** Replacements at two separate places commute. */
  lemma {:induction false} ReplaceCommute(t: Task, p: seq<nat>, a: Task, q: seq<nat>, b: Task)
    requires IsTaskPath(t, p) && IsTaskPath(t, q) && Apart(p, q)
    ensures IsTaskPath(Replace(t, p, a), q) && IsTaskPath(Replace(t, q, b), p)
    ensures Replace(Replace(t, p, a), q, b) == Replace(Replace(t, q, b), p, a)
    decreases |p|
  {
    LookupReplaceApart(t, p, a, q);
    LookupReplaceApart(t, q, b, p);
    assert p != [] && q != [];
    if p[0] == q[0] {
      var c := t.subtasks[p[0]].value;
      ReplaceCommute(c, p[1..], a, q[1..], b);
    }
  }

  /** Replacing twice at one path keeps the second task only. */
  lemma {:induction false} ReplaceReplace(t: Task, p: seq<nat>, m: Task, n: Task)
    requires IsTaskPath(t, p)
    ensures IsTaskPath(Replace(t, p, m), p)
    ensures Replace(Replace(t, p, m), p, n) == Replace(t, p, n)
    decreases |p|
  {
    LookupReplace(t, p, m);
    if p != [] {
      ReplaceReplace(t.subtasks[p[0]].value, p[1..], m, n);
    }
  }

  /** Two rounds of replacements at two separate places leave the second
      round's tasks only. */
  lemma ReplaceBothTwice(t: Task, p: seq<nat>, a: Task, q: seq<nat>, b: Task, a2: Task, b2: Task)
    requires IsTaskPath(t, p) && IsTaskPath(t, q) && Apart(p, q)
    ensures IsTaskPath(Replace(t, p, a), q) && IsTaskPath(Replace(t, p, a2), q)
    ensures var t2 := Replace(Replace(t, p, a), q, b);
      IsTaskPath(t2, p) && IsTaskPath(Replace(t2, p, a2), q) &&
      Replace(Replace(t2, p, a2), q, b2) == Replace(Replace(t, p, a2), q, b2)
  {
    var tq := Replace(t, q, b);
    ReplaceCommute(t, p, a, q, b);
    LookupReplace(t, q, b);
    LookupReplaceApart(t, q, b, p);
    ReplaceReplace(tq, p, a, a2);
    LookupReplaceApart(tq, p, a2, q);
    ReplaceCommute(tq, p, a2, q, b2);
    ReplaceReplace(t, q, b, b2);
    ReplaceCommute(t, p, a2, q, b2);
  }

  /** Putting back the task that is already there changes nothing. */
  lemma {:induction false} ReplaceSame(t: Task, p: seq<nat>)
    requires IsTaskPath(t, p)
    ensures Replace(t, p, Lookup(t, p).value) == t
    decreases |p|
  {
    if p != [] {
      var c := t.subtasks[p[0]].value;
      if |p| > 1 {
        ReplaceSame(c, p[1..]);
      }
      assert t.subtasks[p[0] := Some(c)] == t.subtasks;
    }
  }

  // ---------------------------------------------------------------------------
  // What a tree holds: every task of it, each with its subtasks dropped,
  // counted with multiplicity; null pointers hold nothing

  function AllTasks(t: Task): multiset<Task>
    decreases t
  {
    multiset{t.Clear()} + SlotsTasks(t.subtasks)
  }

  /** The tasks under a list of slots. */
  function SlotsTasks(s: seq<Slot>): multiset<Task>
    decreases s
  {
    if s == [] then multiset{} else SlotTasks(s[0]) + SlotsTasks(s[1..])
  }

  function SlotTasks(x: Slot): multiset<Task>
    decreases x
  {
    match x
    case None => multiset{}
    case Some(c) => AllTasks(c)
  }

  /** The tasks under two lists of slots add up. */
  lemma {:induction false} SlotsTasksConcat(a: seq<Slot>, b: seq<Slot>)
    ensures SlotsTasks(a + b) == SlotsTasks(a) + SlotsTasks(b)
    decreases |a|
  {
    if a == [] {
      assert a + b == b;
    } else {
      assert (a + b)[1..] == a[1..] + b;
      SlotsTasksConcat(a[1..], b);
    }
  }

  /** Inserting a subtask adds the tasks of its subtree. */
  lemma InsertTasks(t: Task, x: Slot, i: nat)
    requires i <= |t.subtasks|
    ensures AllTasks(t.InsertSubtask(x, i)) == AllTasks(t) + SlotTasks(x)
  {
    var s := t.subtasks;
    assert t.InsertSubtask(x, i).Clear() == t.Clear();
    InsertSlices(s, i, x);
    assert s == s[..i] + s[i..];
    SlotsTasksConcat(s[..i], s[i..]);
    assert SlotsTasks([x]) == SlotTasks(x) by {
      assert [x][1..] == [];
    }
    SlotsTasksConcat(s[..i] + [x], s[i..]);
    SlotsTasksConcat(s[..i], [x]);
  }

  /** Removing a subtask takes the tasks of its subtree away. */
  lemma RemoveTasks(t: Task, i: nat)
    requires i < |t.subtasks|
    ensures AllTasks(t.RemoveSubtask(i)) + SlotTasks(t.subtasks[i]) == AllTasks(t)
  {
    var s := t.subtasks;
    assert t.RemoveSubtask(i).Clear() == t.Clear();
    RemoveSlices(s, i);
    assert s == s[..i] + ([s[i]] + s[i + 1..]);
    assert SlotsTasks([s[i]]) == SlotTasks(s[i]) by {
      assert [s[i]][1..] == [];
    }
    SlotsTasksConcat([s[i]], s[i + 1..]);
    SlotsTasksConcat(s[..i], [s[i]] + s[i + 1..]);
    SlotsTasksConcat(s[..i], s[i + 1..]);
  }

  /** Overwriting one subtask slot swaps the tasks of the old subtree for
      those of the new one. */
  lemma UpdateTasks(t: Task, i: nat, x: Slot)
    requires i < |t.subtasks|
    ensures AllTasks(t.(subtasks := t.subtasks[i := x])) + SlotTasks(t.subtasks[i]) == AllTasks(t) + SlotTasks(x)
  {
    var s, rest := t.subtasks, t.subtasks[i + 1..];
    assert t.(subtasks := s[i := x]).Clear() == t.Clear();
    assert s == s[..i] + ([s[i]] + rest);
    assert s[i := x] == s[..i] + ([x] + rest);
    SlotsTasksConcat(s[..i], [s[i]] + rest);
    SlotsTasksConcat(s[..i], [x] + rest);
    SlotsTasksConcat([s[i]], rest);
    SlotsTasksConcat([x], rest);
    assert [s[i]][1..] == [] && [x][1..] == [];
  }

  /** Replacing a task swaps the tasks of the old subtree for those of the
      new one and leaves every other task of the tree in it. */
  lemma {:induction false} ReplaceTasks(t: Task, p: seq<nat>, n: Task)
    requires IsTaskPath(t, p)
    ensures AllTasks(Replace(t, p, n)) + AllTasks(Lookup(t, p).value) == AllTasks(t) + AllTasks(n)
    decreases |p|
  {
    if p != [] {
      var c := t.subtasks[p[0]].value;
      var c' := Replace(c, p[1..], n);
      ReplaceTasks(c, p[1..], n);
      UpdateTasks(t, p[0], Some(c'));
      Cancel(AllTasks(Replace(t, p, n)), AllTasks(t), AllTasks(Lookup(t, p).value), AllTasks(n), AllTasks(c), AllTasks(c'));
    }
  }

  /** Multiset bookkeeping: `a` and `b` differ as `y` and `x` do, and `x`
      and `y` as `c` and `d`. */
  lemma Cancel<T>(a: multiset<T>, b: multiset<T>, c: multiset<T>, d: multiset<T>, x: multiset<T>, y: multiset<T>)
    requires a + x == b + y && y + c == x + d
    ensures a + c == b + d
  {
    forall e
      ensures (a + c)[e] == (b + d)[e]
    {
      assert (a + x)[e] == (b + y)[e] && (y + c)[e] == (x + d)[e];
    }
  }
}
