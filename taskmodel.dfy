/** The task model: the item model a tree view drives. It owns the root task
    and answers index-addressed queries and edits.

    A model index (`QModelIndex`) is either invalid, which every operation
    reads as the root, or a cell: the path of rows from the root down to a
    task, and a column. */
module TaskModels {
  import opened Wrappers
  import opened Tasks
  import Yaml

  datatype ModelIndex = Invalid | Cell(path: seq<nat>, column: int)

  /** The path of the task an index stands for; the root's is empty. */
  function PathOf(index: ModelIndex): seq<nat>
  {
    if index.Invalid? then [] else index.path
  }

  /** The item data roles the model knows; any other role is `OtherRole`. */
  datatype Role =
    | DisplayRole
    | EditRole
    | TaskDescriptionRole
    | TaskDoneRole
    | TaskExpandedRole
    | OtherRole(code: int)

  /** A `QVariant` as the model hands it out and takes it in: invalid, a
      string, a boolean or an integer. */
  datatype Variant = NoValue | Text(text: string) | Flag(flag: bool) | Number(number: int)

  function AsciiLower(c: char): char
  {
    if 'A' <= c <= 'Z' then (c as int + 32) as char else c
  }

  /** `QVariant::toString`; an integer is written in decimal, with a minus
      sign when it is negative. */
  function VariantToString(v: Variant): (s: string)
    ensures v.NoValue? ==> s == ""
    ensures v.Text? ==> s == v.text
    ensures v.Flag? ==> s == if v.flag then "true" else "false"
    ensures v.Number? && v.number >= 0 ==>
      |s| > 0 && (|s| > 1 ==> s[0] != '0') && Yaml.IsDecimal(s) && Yaml.DecimalValue(s) == v.number
    ensures v.Number? && v.number < 0 ==>
      |s| > 1 && s[0] == '-' && (|s| > 2 ==> s[1] != '0') &&
      Yaml.IsDecimal(s[1..]) && Yaml.DecimalValue(s[1..]) == -v.number
  {
    match v
    case NoValue => ""
    case Text(s) => s
    case Flag(b) => if b then "true" else "false"
    case Number(n) =>
      if n < 0 then
        var s := "-" + Yaml.NatToString(-n);
        assert s[1..] == Yaml.NatToString(-n);
        s
      else Yaml.NatToString(n)
  }

  /** The text with every ASCII capital letter made lower-case. */
  function AsciiLowered(s: string): (r: string)
  {
    seq(|s|, i requires 0 <= i < |s| => AsciiLower(s[i]))
  }

  /** `QVariant::toBool`: a string is false when it is empty, "0" or "false"
      in any letter case. */
  function VariantToBool(v: Variant): (b: bool)
    ensures v.NoValue? ==> !b
    ensures v.Flag? ==> b == v.flag
    ensures v.Number? ==> (b <==> v.number != 0)
    ensures v.Text? ==> (!b <==> v.text == "" || v.text == "0" || AsciiLowered(v.text) == "false")
  {
    match v
    case NoValue => false
    case Text(s) => !(s == "" || s == "0" || (|s| == 5 && forall i :: 0 <= i < 5 ==> AsciiLower(s[i]) == "false"[i]))
    case Flag(b) => b
    case Number(n) => n != 0
  }

  datatype DropAction = CopyAction | MoveAction | LinkAction | TargetMoveAction | IgnoreAction

  /** The roles `setData` accepts. */
  predicate IsEditRole(role: Role)
  {
    role.EditRole? || role.TaskDescriptionRole? || role.TaskDoneRole? || role.TaskExpandedRole?
  }

  /** The attribute update `setData` makes on a task for `role`; nothing for
      a role it does not accept. */
  function SetAttribute(t: Task, role: Role, value: Variant): (r: Option<Task>)
    ensures r.Some? <==> IsEditRole(role)
    ensures r.Some? ==> r.value.subtasks == t.subtasks
  {
    match role
    case EditRole => Some(t.(description := VariantToString(value)))
    case TaskDescriptionRole => Some(t.(description := VariantToString(value)))
    case TaskDoneRole => Some(t.(done := VariantToBool(value)))
    case TaskExpandedRole => Some(t.(expanded := VariantToBool(value)))
    case _ => None
  }

  /** The roles for which `data` reads the task behind a valid index. */
  predicate ReadsTask(column: int, role: Role)
  {
    ((role.DisplayRole? || role.EditRole?) && column == 0) ||
    role.TaskDescriptionRole? || role.TaskDoneRole? || role.TaskExpandedRole?
  }

  /** What `data` answers for a task in `column` and `role`. */
  function TaskData(t: Task, column: int, role: Role): (v: Variant)
    ensures v != NoValue <==> ReadsTask(column, role)
  {
    match role
    case DisplayRole => if column == 0 then Text(if t.description == "" then "(empty)" else t.description) else NoValue
    case EditRole => if column == 0 then Text(t.description) else NoValue
    case TaskDescriptionRole => Text(t.description)
    case TaskDoneRole => Flag(t.done)
    case TaskExpandedRole => Flag(t.expanded)
    case OtherRole(_) => NoValue
  }

  /** Reading back an attribute after `setData` wrote it gives the written
      value, and the other attributes read as before. */
  lemma {:induction false} DataAfterSetData(t: Task, role: Role, value: Variant, column: int, other: Role)
    requires IsEditRole(role)
    ensures var t' := SetAttribute(t, role, value).value;
      (role.EditRole? || role.TaskDescriptionRole? ==>
        TaskData(t', column, TaskDescriptionRole) == Text(VariantToString(value)) &&
        TaskData(t', 0, EditRole) == Text(VariantToString(value)) &&
        TaskData(t', 0, DisplayRole) == Text(if VariantToString(value) == "" then "(empty)" else VariantToString(value))) &&
      (role.TaskDoneRole? ==> TaskData(t', column, TaskDoneRole) == Flag(VariantToBool(value))) &&
      (role.TaskExpandedRole? ==> TaskData(t', column, TaskExpandedRole) == Flag(VariantToBool(value))) &&
      (Touches(role) != Touches(other) ==> TaskData(t', column, other) == TaskData(t, column, other))
  {
    match role
    case EditRole =>
    case TaskDescriptionRole =>
    case TaskDoneRole =>
    case TaskExpandedRole =>
  }

  /** The task attributes a role can read or write. */
  datatype Attribute = Description | Done | Expanded | NoAttribute

  /** The attribute a role reads or writes. */
  function Touches(role: Role): Attribute
  {
    match role
    case DisplayRole => Description
    case EditRole => Description
    case TaskDescriptionRole => Description
    case TaskDoneRole => Done
    case TaskExpandedRole => Expanded
    case OtherRole(_) => NoAttribute
  }

  // ---------------------------------------------------------------------------
  // The moveRows loop on the whole tree

  /** Where the task at `q` is once the subtask at row `r` of the task at
      `p` is removed: below a later row of `p` it moves up a row. The two
      paths are walked together while they agree. */
  function ShiftOut(q: seq<nat>, p: seq<nat>, r: nat): seq<nat>
    decreases |p|
  {
    if q == [] then q
    else if p == [] then (if q[0] > r then [q[0] - 1] + q[1..] else q)
    else if q[0] != p[0] then q
    else [q[0]] + ShiftOut(q[1..], p[1..], r)
  }

  /** Where the task at `p` is once a subtask is inserted at row `d` of the
      task at `q`: below row `d` or a later row of `q` it moves down a row. */
  function ShiftIn(p: seq<nat>, q: seq<nat>, d: nat): seq<nat>
    decreases |q|
  {
    if p == [] then p
    else if q == [] then (if p[0] >= d then [p[0] + 1] + p[1..] else p)
    else if p[0] != q[0] then p
    else [p[0]] + ShiftIn(p[1..], q[1..], d)
  }

  /** Below `p`, only the row taken right under `p` is renumbered. */
  lemma {:induction false} ShiftOutBelow(p: seq<nat>, k: nat, rest: seq<nat>, r: nat)
    ensures ShiftOut(p + ([k] + rest), p, r) == p + ([if k > r then k - 1 else k] + rest)
    decreases |p|
  {
    var q := p + ([k] + rest);
    if p == [] {
      assert q == [k] + rest && q[1..] == rest;
    } else {
      assert q[0] == p[0] && q[1..] == p[1..] + ([k] + rest);
      ShiftOutBelow(p[1..], k, rest, r);
    }
  }

  /** A path that does not lie strictly below `p` is not renumbered. */
  lemma {:induction false} ShiftOutOff(q: seq<nat>, p: seq<nat>, r: nat)
    requires !(Prefix(p, q) && |p| < |q|)
    ensures ShiftOut(q, p, r) == q
    decreases |p|
  {
    if q != [] && p != [] && q[0] == p[0] {
      ShiftOutOff(q[1..], p[1..], r);
    }
  }

  /** Below `q`, only the row right under `q` is renumbered. */
  lemma {:induction false} ShiftInBelow(q: seq<nat>, k: nat, rest: seq<nat>, d: nat)
    ensures ShiftIn(q + ([k] + rest), q, d) == q + ([if k >= d then k + 1 else k] + rest)
    decreases |q|
  {
    var p := q + ([k] + rest);
    if q == [] {
      assert p == [k] + rest && p[1..] == rest;
    } else {
      assert p[0] == q[0] && p[1..] == q[1..] + ([k] + rest);
      ShiftInBelow(q[1..], k, rest, d);
    }
  }

  /** A path that does not lie strictly below `q` is not renumbered. */
  lemma {:induction false} ShiftInOff(p: seq<nat>, q: seq<nat>, d: nat)
    requires !(Prefix(q, p) && |q| < |p|)
    ensures ShiftIn(p, q, d) == p
    decreases |q|
  {
    if p != [] && q != [] && p[0] == q[0] {
      ShiftInOff(p[1..], q[1..], d);
    }
  }

  /** After row `r` of the task at `p` is removed, the task that was at
      `q` is found at the shifted path: unchanged when it lies off the
      ancestry of `p`, with the row gone when it is the task at `p`, and with
      only its subtask towards `p` changed when it is an ancestor. */
  lemma {:induction false} RemoveKeepsPath(t: Task, p: seq<nat>, r: nat, q: seq<nat>)
    requires IsTaskPath(t, p) && r < |Lookup(t, p).value.subtasks|
    requires IsTaskPath(t, q) && !Prefix(p + [r], q)
    ensures IsTaskPath(Replace(t, p, Lookup(t, p).value.RemoveSubtask(r)), ShiftOut(q, p, r))
    ensures !Prefix(q, p) ==>
      Lookup(Replace(t, p, Lookup(t, p).value.RemoveSubtask(r)), ShiftOut(q, p, r)) == Lookup(t, q)
    ensures Prefix(q, p) ==> ShiftOut(q, p, r) == q
    ensures q == p ==> Lookup(Replace(t, p, Lookup(t, p).value.RemoveSubtask(r)), q) == Some(Lookup(t, p).value.RemoveSubtask(r))
    ensures Prefix(q, p) && |q| < |p| ==>
      ChangedBelow(Lookup(t, q).value, Lookup(Replace(t, p, Lookup(t, p).value.RemoveSubtask(r)), q).value, p[|q|])
  {
    var f := Lookup(t, p).value;
    var f' := f.RemoveSubtask(r);
    if Prefix(p, q) && |q| > |p| {
      var k := q[|p|];
      assert q[..|p| + 1] == p + [k];
      var rest := q[|p| + 1..];
      assert q == p + ([k] + rest);
      RemoveKeepsPathBelow(t, p, r, k, rest);
    } else if Prefix(q, p) {
      ShiftOutOff(q, p, r);
      if |q| < |p| {
        LookupReplaceAncestor(t, p, f', q);
      } else {
        assert q == p;
        LookupReplace(t, p, f');
      }
    } else {
      ShiftOutOff(q, p, r);
      LookupReplaceApart(t, p, f', q);
    }
  }

  /** A path below another row of the task at `p` still leads to a task
      once row `r` is removed, renumbered when that row came later. */
  lemma RemoveKeepsPathBelow(t: Task, p: seq<nat>, r: nat, k: nat, rest: seq<nat>)
    requires IsTaskPath(t, p) && r < |Lookup(t, p).value.subtasks| && k != r
    requires IsTaskPath(t, p + ([k] + rest))
    ensures IsTaskPath(Replace(t, p, Lookup(t, p).value.RemoveSubtask(r)), ShiftOut(p + ([k] + rest), p, r))
    ensures Lookup(Replace(t, p, Lookup(t, p).value.RemoveSubtask(r)), ShiftOut(p + ([k] + rest), p, r)) ==
      Lookup(t, p + ([k] + rest))
  {
    var f := Lookup(t, p).value;
    var f' := f.RemoveSubtask(r);
    RemoveSlices(f.subtasks, r);
    LookupConcat(t, p, [k] + rest);
    var k' := if k > r then k - 1 else k;
    assert f'.subtasks[k'] == f.subtasks[k];
    LookupSameChild(f, k, f', k', rest);
    LookupReplaceBelow(t, p, f', [k'] + rest);
    ShiftOutBelow(p, k, rest, r);
  }

  /** After `x` is inserted at row `d` of the task at `q`, the task that
      was at `p` is found at the shifted path: unchanged when it lies off the
      ancestry of `q`, with `x` inserted when it is the task at `q`, and with
      only its subtask towards `q` changed when it is an ancestor. */
  lemma {:induction false} InsertKeepsPath(t: Task, q: seq<nat>, d: nat, x: Slot, p: seq<nat>)
    requires IsTaskPath(t, q) && d <= |Lookup(t, q).value.subtasks| && IsTaskPath(t, p)
    ensures IsTaskPath(Replace(t, q, Lookup(t, q).value.InsertSubtask(x, d)), ShiftIn(p, q, d))
    ensures !Prefix(p, q) ==>
      Lookup(Replace(t, q, Lookup(t, q).value.InsertSubtask(x, d)), ShiftIn(p, q, d)) == Lookup(t, p)
    ensures Prefix(p, q) ==> ShiftIn(p, q, d) == p
    ensures p == q ==> Lookup(Replace(t, q, Lookup(t, q).value.InsertSubtask(x, d)), p) == Some(Lookup(t, q).value.InsertSubtask(x, d))
    ensures Prefix(p, q) && |p| < |q| ==>
      ChangedBelow(Lookup(t, p).value, Lookup(Replace(t, q, Lookup(t, q).value.InsertSubtask(x, d)), p).value, q[|p|])
  {
    var g := Lookup(t, q).value;
    var g' := g.InsertSubtask(x, d);
    if Prefix(q, p) && |p| > |q| {
      var k := p[|q|];
      assert p[..|q| + 1] == q + [k];
      var rest := p[|q| + 1..];
      assert p == q + ([k] + rest);
      InsertKeepsPathBelow(t, q, d, x, k, rest);
    } else if Prefix(p, q) {
      ShiftInOff(p, q, d);
      if |p| < |q| {
        LookupReplaceAncestor(t, q, g', p);
      } else {
        assert p == q;
        LookupReplace(t, q, g');
      }
    } else {
      ShiftInOff(p, q, d);
      LookupReplaceApart(t, q, g', p);
    }
  }

  /** A path below a row of the task at `q` still leads to a task once a
      subtask is inserted at row `d`, renumbered from row `d` on. */
  lemma InsertKeepsPathBelow(t: Task, q: seq<nat>, d: nat, x: Slot, k: nat, rest: seq<nat>)
    requires IsTaskPath(t, q) && d <= |Lookup(t, q).value.subtasks|
    requires IsTaskPath(t, q + ([k] + rest))
    ensures IsTaskPath(Replace(t, q, Lookup(t, q).value.InsertSubtask(x, d)), ShiftIn(q + ([k] + rest), q, d))
    ensures Lookup(Replace(t, q, Lookup(t, q).value.InsertSubtask(x, d)), ShiftIn(q + ([k] + rest), q, d)) ==
      Lookup(t, q + ([k] + rest))
  {
    var g := Lookup(t, q).value;
    var g' := g.InsertSubtask(x, d);
    InsertSlices(g.subtasks, d, x);
    LookupConcat(t, q, [k] + rest);
    var k' := if k >= d then k + 1 else k;
    assert g'.subtasks[k'] == g.subtasks[k];
    LookupSameChild(g, k, g', k', rest);
    LookupReplaceBelow(t, q, g', [k'] + rest);
    ShiftInBelow(q, k, rest, d);
  }

  /** The tree and the paths of the two parents between passes of the loop. */
  datatype MoveState = MoveState(tree: Task, from: seq<nat>, to: seq<nat>)

  /** One pass of the body of the `moveRows` loop: the subtask at row
      `sourceRow` of the task at `from` is removed and inserted at row
      `destinationChild` of the task at `to`. Nothing where the source reads
      outside a subtask list or would hang a task below itself. */
  function MoveStep(t: Task, from: seq<nat>, sourceRow: int, to: seq<nat>, destinationChild: int): (r: Option<MoveState>)
    requires IsTaskPath(t, from) && IsTaskPath(t, to)
    ensures r.Some? ==> IsTaskPath(r.value.tree, r.value.from) && IsTaskPath(r.value.tree, r.value.to)
  {
    var f := Lookup(t, from).value;
    if !(0 <= sourceRow < |f.subtasks|) || Prefix(from + [sourceRow], to) then None
    else
      var current := f.subtasks[sourceRow];
      var t1 := Replace(t, from, f.RemoveSubtask(sourceRow));
      RemoveKeepsPath(t, from, sourceRow, to);
      LookupReplace(t, from, f.RemoveSubtask(sourceRow));
      var to1 := ShiftOut(to, from, sourceRow);
      var g := Lookup(t1, to1).value;
      if !(0 <= destinationChild <= |g.subtasks|) then None
      else
        InsertKeepsPath(t1, to1, destinationChild, current, from);
        LookupReplace(t1, to1, g.InsertSubtask(current, destinationChild));
        Some(MoveState(Replace(t1, to1, g.InsertSubtask(current, destinationChild)),
                       ShiftIn(from, to1, destinationChild), to1))
  }

  /** The whole `moveRows` loop: `count` passes, the rows advancing by one
      after each. Nothing when a pass is undefined. */
  function MoveSteps(t: Task, from: seq<nat>, sourceRow: int, count: int, to: seq<nat>, destinationChild: int): (r: Option<Task>)
    requires IsTaskPath(t, from) && IsTaskPath(t, to)
    ensures count <= 0 ==> r == Some(t)
    ensures r.Some? ==> AllTasks(r.value) == AllTasks(t)
    decreases count
  {
    if count <= 0 then Some(t)
    else match MoveStep(t, from, sourceRow, to, destinationChild)
      case None => None
      case Some(s) =>
        MoveStepKeepsTasks(t, from, sourceRow, to, destinationChild, s);
        MoveSteps(s.tree, s.from, sourceRow + 1, count - 1, s.to, destinationChild + 1)
  }


  /** The first pass of a defined loop, written out. */
  lemma MoveStepUnfold(t: Task, from: seq<nat>, sourceRow: int, count: int, to: seq<nat>, destinationChild: int)
    returns (s: MoveState)
    requires IsTaskPath(t, from) && IsTaskPath(t, to) && count > 0
    requires MoveSteps(t, from, sourceRow, count, to, destinationChild).Some?
    ensures MoveStep(t, from, sourceRow, to, destinationChild) == Some(s)
    ensures IsTaskPath(s.tree, s.from) && IsTaskPath(s.tree, s.to)
    ensures MoveSteps(t, from, sourceRow, count, to, destinationChild) ==
      MoveSteps(s.tree, s.from, sourceRow + 1, count - 1, s.to, destinationChild + 1)
  {
    s := MoveStep(t, from, sourceRow, to, destinationChild).value;
  }

  /** Pass `k` of the loop leads from `trace[k]` to `trace[k + 1]`. */
  predicate PassInTrace(trace: seq<MoveState>, k: nat, sourceRow: int, destinationChild: int)
    requires k + 1 < |trace|
  {
    IsTaskPath(trace[k].tree, trace[k].from) && IsTaskPath(trace[k].tree, trace[k].to) &&
    MoveStep(trace[k].tree, trace[k].from, sourceRow + k, trace[k].to, destinationChild + k) == Some(trace[k + 1])
  }

  /** The states a defined loop passes through: `trace[k]` is the tree and
      the two parents' paths before pass `k`, and the last one holds the
      loop's result. */
  lemma {:induction false} MoveTrace(t: Task, from: seq<nat>, sourceRow: int, count: int, to: seq<nat>, destinationChild: int)
    returns (trace: seq<MoveState>)
    requires IsTaskPath(t, from) && IsTaskPath(t, to)
    requires MoveSteps(t, from, sourceRow, count, to, destinationChild).Some?
    ensures |trace| == (if count < 0 then 0 else count) + 1
    ensures trace[0] == MoveState(t, from, to)
    ensures forall k :: 0 <= k < |trace| - 1 ==> PassInTrace(trace, k, sourceRow, destinationChild)
    ensures MoveSteps(t, from, sourceRow, count, to, destinationChild) == Some(trace[|trace| - 1].tree)
    decreases count
  {
    if count <= 0 {
      trace := [MoveState(t, from, to)];
    } else {
      var s := MoveStepUnfold(t, from, sourceRow, count, to, destinationChild);
      var rest := MoveTrace(s.tree, s.from, sourceRow + 1, count - 1, s.to, destinationChild + 1);
      TraceCons(MoveState(t, from, to), rest, sourceRow, destinationChild, sourceRow + 1, destinationChild + 1);
      trace := [MoveState(t, from, to)] + rest;
      assert trace[|trace| - 1] == rest[|rest| - 1];
    }
  }

  /** A pass followed by a trace of the later passes is a trace. */
  lemma TraceCons(first: MoveState, rest: seq<MoveState>, sourceRow: int, destinationChild: int,
                  nextRow: int, nextChild: int)
    requires |rest| > 0 && nextRow == sourceRow + 1 && nextChild == destinationChild + 1
    requires IsTaskPath(first.tree, first.from) && IsTaskPath(first.tree, first.to)
    requires MoveStep(first.tree, first.from, sourceRow, first.to, destinationChild) == Some(rest[0])
    requires forall k :: 0 <= k < |rest| - 1 ==> PassInTrace(rest, k, nextRow, nextChild)
    ensures forall k :: 0 <= k < |rest| ==> PassInTrace([first] + rest, k, sourceRow, destinationChild)
  {
    var trace := [first] + rest;
    forall k | 0 <= k < |rest|
      ensures PassInTrace(trace, k, sourceRow, destinationChild)
    {
      if k > 0 {
        assert PassInTrace(rest, k - 1, nextRow, nextChild);
        assert trace[k] == rest[k - 1] && trace[k + 1] == rest[k];
      }
    }
  }

  /** One pass keeps the tasks of the tree: the task taken out is put back,
      with all its subtasks, and no task is lost or duplicated. */
  lemma MoveStepKeepsTasks(t: Task, from: seq<nat>, sourceRow: int, to: seq<nat>, destinationChild: int, s: MoveState)
    requires IsTaskPath(t, from) && IsTaskPath(t, to)
    requires MoveStep(t, from, sourceRow, to, destinationChild) == Some(s)
    ensures AllTasks(s.tree) == AllTasks(t)
  {
    var f := Lookup(t, from).value;
    var f' := f.RemoveSubtask(sourceRow);
    var current := f.subtasks[sourceRow];
    var t1 := Replace(t, from, f');
    RemoveKeepsPath(t, from, sourceRow, to);
    var to1 := ShiftOut(to, from, sourceRow);
    var g := Lookup(t1, to1).value;
    var g' := g.InsertSubtask(current, destinationChild);
    ReplaceTasks(t, from, f');
    RemoveTasks(f, sourceRow);
    ReplaceTasks(t1, to1, g');
    InsertTasks(g, current, destinationChild);
    assert s.tree == Replace(t1, to1, g');
    assert AllTasks(f') + SlotTasks(current) == AllTasks(f) + multiset{};
    Cancel(AllTasks(t1), AllTasks(t), SlotTasks(current), multiset{}, AllTasks(f), AllTasks(f'));
    assert AllTasks(g') + multiset{} == AllTasks(g) + SlotTasks(current);
    Cancel(AllTasks(s.tree), AllTasks(t1), multiset{}, SlotTasks(current), AllTasks(g), AllTasks(g'));
    assert AllTasks(s.tree) + multiset{} == AllTasks(s.tree);
  }

  /** After one pass, the task taken out of the source parent is found at
      the destination row of the destination parent. */
  lemma MoveStepMovesOne(t: Task, from: seq<nat>, sourceRow: int, to: seq<nat>, destinationChild: int, s: MoveState)
    requires IsTaskPath(t, from) && IsTaskPath(t, to)
    requires MoveStep(t, from, sourceRow, to, destinationChild) == Some(s)
    ensures destinationChild >= 0 && IsPath(s.tree, s.to + [destinationChild]) &&
      Lookup(s.tree, s.to + [destinationChild]) == Lookup(t, from).value.subtasks[sourceRow]
  {
    var f := Lookup(t, from).value;
    var t1 := Replace(t, from, f.RemoveSubtask(sourceRow));
    RemoveKeepsPath(t, from, sourceRow, to);
    var to1 := ShiftOut(to, from, sourceRow);
    var g := Lookup(t1, to1).value;
    InsertSlices(g.subtasks, destinationChild, f.subtasks[sourceRow]);
    LookupReplaceBelow(t1, to1, g.InsertSubtask(f.subtasks[sourceRow], destinationChild), [destinationChild]);
  }

  /** After one pass, the task at the source parent's shifted path is the
      source parent with row `sourceRow` removed, and the task at the
      destination parent's shifted path is the destination parent with the
      moved task inserted at `destinationChild`. When one parent lies above
      the other, the upper one also has its subtask on the way to the lower
      one changed, and nothing else. */
  lemma MoveStepParents(t: Task, from: seq<nat>, sourceRow: int, to: seq<nat>, destinationChild: int, s: MoveState)
    requires IsTaskPath(t, from) && IsTaskPath(t, to)
    requires MoveStep(t, from, sourceRow, to, destinationChild) == Some(s)
    ensures 0 <= sourceRow < |Lookup(t, from).value.subtasks| && 0 <= destinationChild <= |Lookup(t, to).value.subtasks|
    ensures !Prefix(to, from) ==>
      var f, g := Lookup(t, from).value, Lookup(t, to).value;
      Lookup(s.tree, s.to) == Some(g.InsertSubtask(f.subtasks[sourceRow], destinationChild))
    ensures !Prefix(from, to) ==>
      Lookup(s.tree, s.from) == Some(Lookup(t, from).value.RemoveSubtask(sourceRow))
    ensures from == to ==>
      var f := Lookup(t, from).value;
      destinationChild < |f.subtasks| && s.from == s.to &&
      Lookup(s.tree, s.to) == Some(f.(subtasks := MoveOne(f.subtasks, sourceRow, destinationChild)))
    ensures Prefix(to, from) && |to| < |from| ==>
      var f, g, k := Lookup(t, from).value, Lookup(t, to).value, from[|to|];
      s.to == to &&
      ChangedBelow(g.InsertSubtask(f.subtasks[sourceRow], destinationChild), Lookup(s.tree, to).value,
                   if k < destinationChild then k else k + 1)
    ensures Prefix(from, to) && |from| < |to| ==>
      var f, k := Lookup(t, from).value, to[|from|];
      s.from == from &&
      ChangedBelow(f.RemoveSubtask(sourceRow), Lookup(s.tree, from).value, if k > sourceRow then k - 1 else k)
  {
    var t1, to1, g1 := MoveStepShape(t, from, sourceRow, to, destinationChild, s);
    MoveStepTo(t, from, sourceRow, to, destinationChild, s, t1, to1, g1);
    MoveStepFrom(t, from, sourceRow, to, destinationChild, s, t1, to1, g1);
  }

  /** The intermediate states of one pass: the tree `t1` after the removal,
      the destination parent's path `to1` in it, and the destination parent
      `g1` after the insertion. */
  lemma MoveStepShape(t: Task, from: seq<nat>, sourceRow: int, to: seq<nat>, destinationChild: int, s: MoveState)
    returns (t1: Task, to1: seq<nat>, g1: Task)
    requires IsTaskPath(t, from) && IsTaskPath(t, to)
    requires MoveStep(t, from, sourceRow, to, destinationChild) == Some(s)
    ensures 0 <= sourceRow < |Lookup(t, from).value.subtasks| && !Prefix(from + [sourceRow], to)
    ensures t1 == Replace(t, from, Lookup(t, from).value.RemoveSubtask(sourceRow)) && to1 == ShiftOut(to, from, sourceRow)
    ensures IsTaskPath(t1, from) && Lookup(t1, from) == Some(Lookup(t, from).value.RemoveSubtask(sourceRow))
    ensures IsTaskPath(t1, to1) && 0 <= destinationChild <= |Lookup(t1, to1).value.subtasks|
    ensures g1 == Lookup(t1, to1).value.InsertSubtask(Lookup(t, from).value.subtasks[sourceRow], destinationChild)
    ensures s == MoveState(Replace(t1, to1, g1), ShiftIn(from, to1, destinationChild), to1)
  {
    var f := Lookup(t, from).value;
    t1 := Replace(t, from, f.RemoveSubtask(sourceRow));
    RemoveKeepsPath(t, from, sourceRow, to);
    LookupReplace(t, from, f.RemoveSubtask(sourceRow));
    to1 := ShiftOut(to, from, sourceRow);
    g1 := Lookup(t1, to1).value.InsertSubtask(f.subtasks[sourceRow], destinationChild);
  }

  /** The destination side of `MoveStepParents`. */
  lemma MoveStepTo(t: Task, from: seq<nat>, sourceRow: int, to: seq<nat>, destinationChild: int, s: MoveState,
                   t1: Task, to1: seq<nat>, g1: Task)
    requires IsTaskPath(t, from) && IsTaskPath(t, to)
    requires 0 <= sourceRow < |Lookup(t, from).value.subtasks| && !Prefix(from + [sourceRow], to)
    requires t1 == Replace(t, from, Lookup(t, from).value.RemoveSubtask(sourceRow)) && to1 == ShiftOut(to, from, sourceRow)
    requires IsTaskPath(t1, to1) && 0 <= destinationChild <= |Lookup(t1, to1).value.subtasks|
    requires g1 == Lookup(t1, to1).value.InsertSubtask(Lookup(t, from).value.subtasks[sourceRow], destinationChild)
    requires s == MoveState(Replace(t1, to1, g1), ShiftIn(from, to1, destinationChild), to1)
    ensures IsTaskPath(s.tree, s.to) && destinationChild <= |Lookup(t, to).value.subtasks|
    ensures !Prefix(to, from) ==>
      var f, g := Lookup(t, from).value, Lookup(t, to).value;
      Lookup(s.tree, s.to) == Some(g.InsertSubtask(f.subtasks[sourceRow], destinationChild))
    ensures from == to ==>
      var f := Lookup(t, from).value;
      destinationChild < |f.subtasks| &&
      Lookup(s.tree, s.to) == Some(f.(subtasks := MoveOne(f.subtasks, sourceRow, destinationChild)))
    ensures Prefix(to, from) && |to| < |from| ==>
      var f, g, k := Lookup(t, from).value, Lookup(t, to).value, from[|to|];
      s.to == to &&
      ChangedBelow(g.InsertSubtask(f.subtasks[sourceRow], destinationChild), Lookup(s.tree, to).value,
                   if k < destinationChild then k else k + 1)
  {
    var f := Lookup(t, from).value;
    RemoveKeepsPath(t, from, sourceRow, to);
    LookupReplace(t1, to1, g1);
    if !Prefix(to, from) {
      assert Lookup(t1, to1) == Lookup(t, to);
    } else if from == to {
      assert to[..|to|] == to;
      assert to1 == to && Lookup(t1, to) == Some(f.RemoveSubtask(sourceRow));
    } else if |to| < |from| {
      assert to1 == to;
      ChangedBelowInsert(Lookup(t, to).value, Lookup(t1, to).value, from[|to|], f.subtasks[sourceRow], destinationChild);
    }
  }

  /** The source side of `MoveStepParents`. */
  lemma MoveStepFrom(t: Task, from: seq<nat>, sourceRow: int, to: seq<nat>, destinationChild: int, s: MoveState,
                     t1: Task, to1: seq<nat>, g1: Task)
    requires IsTaskPath(t, from) && IsTaskPath(t, to)
    requires 0 <= sourceRow < |Lookup(t, from).value.subtasks| && !Prefix(from + [sourceRow], to)
    requires t1 == Replace(t, from, Lookup(t, from).value.RemoveSubtask(sourceRow)) && to1 == ShiftOut(to, from, sourceRow)
    requires IsTaskPath(t1, from) && Lookup(t1, from) == Some(Lookup(t, from).value.RemoveSubtask(sourceRow))
    requires IsTaskPath(t1, to1) && 0 <= destinationChild <= |Lookup(t1, to1).value.subtasks|
    requires g1 == Lookup(t1, to1).value.InsertSubtask(Lookup(t, from).value.subtasks[sourceRow], destinationChild)
    requires s == MoveState(Replace(t1, to1, g1), ShiftIn(from, to1, destinationChild), to1)
    ensures IsTaskPath(s.tree, s.from)
    ensures !Prefix(from, to) ==>
      Lookup(s.tree, s.from) == Some(Lookup(t, from).value.RemoveSubtask(sourceRow))
    ensures from == to ==> s.from == s.to
    ensures Prefix(from, to) && |from| < |to| ==>
      var f, k := Lookup(t, from).value, to[|from|];
      s.from == from &&
      ChangedBelow(f.RemoveSubtask(sourceRow), Lookup(s.tree, from).value, if k > sourceRow then k - 1 else k)
  {
    ShiftOutPrefix(to, from, sourceRow);
    InsertKeepsPath(t1, to1, destinationChild, Lookup(t, from).value.subtasks[sourceRow], from);
  }

  /** Inserting the same slot at the same row into two tasks that differ at
      most at row `k` gives tasks that differ at most at `k`'s new row. */
  lemma ChangedBelowInsert(a: Task, b: Task, k: nat, x: Slot, d: nat)
    requires ChangedBelow(a, b, k) && d <= |a.subtasks|
    ensures ChangedBelow(a.InsertSubtask(x, d), b.InsertSubtask(x, d), if k < d then k else k + 1)
  {
  }

  /** Removing row `r` of the task at `p` renumbers a path below `p` only
      in the row right under `p`, and leaves every other path alone. */
  lemma ShiftOutPrefix(q: seq<nat>, p: seq<nat>, r: nat)
    ensures Prefix(p, q) && |p| < |q| ==>
      var q' := ShiftOut(q, p, r);
      Prefix(p, q') && |q'| == |q| && q'[|p|] == (if q[|p|] > r then q[|p|] - 1 else q[|p|])
    ensures !(Prefix(p, q) && |p| < |q|) ==> ShiftOut(q, p, r) == q
  {
    if Prefix(p, q) && |p| < |q| {
      var k := q[|p|];
      assert q[..|p| + 1] == p + [k];
      var rest := q[|p| + 1..];
      assert q == p + ([k] + rest);
      ShiftOutBelow(p, k, rest, r);
      var q' := p + ([if k > r then k - 1 else k] + rest);
      assert q'[..|p|] == p;
    } else {
      ShiftOutOff(q, p, r);
    }
  }

  // ---------------------------------------------------------------------------
  // The moveRows loop on subtask lists

  /** The loop on two different subtask lists. */
  function MoveBetween<T>(from: seq<T>, sourceRow: int, count: int, to: seq<T>, destinationChild: int): (r: (seq<T>, seq<T>))
    requires BetweenDefined(|from|, sourceRow, count, |to|, destinationChild)
    ensures |r.0| + |r.1| == |from| + |to|
    decreases count
  {
    if count <= 0 then (from, to)
    else
      MoveBetween(Remove(from, sourceRow), sourceRow + 1, count - 1,
                  Insert(to, destinationChild, from[sourceRow]), destinationChild + 1)
  }

  /** Every pass of the loop on two lists stays inside both lists: the
      source rows read are `sourceRow`, `sourceRow + 2`, ... of the original. */
  predicate BetweenDefined(fromLength: int, sourceRow: int, count: int, toLength: int, destinationChild: int)
  {
    count <= 0 || (0 <= sourceRow && sourceRow + 2 * (count - 1) < fromLength && 0 <= destinationChild <= toLength)
  }

  /** Every other element of `s` from `i` on, `n` of them. */
  function Stride<T>(s: seq<T>, i: nat, n: nat): (r: seq<T>)
    requires n == 0 || i + 2 * (n - 1) < |s|
    ensures |r| == n && forall k :: 0 <= k < n ==> r[k] == s[i + 2 * k]
  {
    seq(n, k requires 0 <= k < n => s[i + 2 * k])
  }

  /** The list `s` with the block `xs` inserted at position `i`. */
  function InsertBlock<T>(s: seq<T>, i: nat, xs: seq<T>): (r: seq<T>)
    requires i <= |s|
    ensures |r| == |s| + |xs|
    decreases i
  {
    if i == 0 then xs + s else [s[0]] + InsertBlock(s[1..], i - 1, xs)
  }

  /** What `moveRows` does between two different parents: because the source
      row advances after each removal, the tasks moved are the ones
      originally at `sourceRow`, `sourceRow + 2`, ..., and they land as one
      block at `destinationChild`; the ones in between stay behind. */
  lemma MoveBetweenStride<T>(from: seq<T>, sourceRow: nat, count: nat, to: seq<T>, destinationChild: nat)
    requires count > 0 && BetweenDefined(|from|, sourceRow, count, |to|, destinationChild)
    ensures MoveBetween(from, sourceRow, count, to, destinationChild).1 ==
      to[..destinationChild] + Stride(from, sourceRow, count) + to[destinationChild..]
    ensures MoveBetween(from, sourceRow, count, to, destinationChild).0 ==
      from[..sourceRow] + Stride(from, sourceRow + 1, count - 1) + from[sourceRow + 2 * count - 1..]
  {
    MoveBetweenTo(from, sourceRow, count, to, destinationChild);
    InsertBlockSlices(to, destinationChild, Stride(from, sourceRow, count));
    MoveBetweenFrom(from, sourceRow, count, to, destinationChild);
  }

  /** The destination side of `MoveBetweenStride`. */
  lemma {:induction false} MoveBetweenTo<T>(from: seq<T>, sourceRow: nat, count: nat, to: seq<T>, destinationChild: nat)
    requires destinationChild <= |to| && BetweenDefined(|from|, sourceRow, count, |to|, destinationChild)
    ensures MoveBetween(from, sourceRow, count, to, destinationChild).1 ==
      InsertBlock(to, destinationChild, Stride(from, sourceRow, count))
    decreases count
  {
    if count == 0 {
      InsertBlockEmpty(to, destinationChild);
    } else {
      var from1, to1 := MoveBetweenNextTo(from, sourceRow, count, to, destinationChild);
      MoveBetweenTo(from1, sourceRow + 1, count - 1, to1, destinationChild + 1);
    }
  }

  /** The first pass between two lists, destination side: the loop is that
      pass followed by the others, and the block the others insert after the
      moved task completes the block of all of them. */
  lemma MoveBetweenNextTo<T>(from: seq<T>, sourceRow: nat, count: nat, to: seq<T>, destinationChild: nat)
    returns (from1: seq<T>, to1: seq<T>)
    requires count > 0 && BetweenDefined(|from|, sourceRow, count, |to|, destinationChild)
    ensures destinationChild + 1 <= |to1|
    ensures BetweenDefined(|from1|, sourceRow + 1, count - 1, |to1|, destinationChild + 1)
    ensures MoveBetween(from, sourceRow, count, to, destinationChild) ==
      MoveBetween(from1, sourceRow + 1, count - 1, to1, destinationChild + 1)
    ensures InsertBlock(to1, destinationChild + 1, Stride(from1, sourceRow + 1, count - 1)) ==
      InsertBlock(to, destinationChild, Stride(from, sourceRow, count))
  {
    from1 := Remove(from, sourceRow);
    to1 := Insert(to, destinationChild, from[sourceRow]);
    StrideRemove(from, sourceRow, sourceRow + 1, count - 1);
    StrideCons(from, sourceRow, count);
    InsertBlockCons(to, destinationChild, from[sourceRow], Stride(from, sourceRow + 2, count - 1));
  }

  /** The source side of `MoveBetweenStride`. */
  lemma {:induction false} MoveBetweenFrom<T>(from: seq<T>, sourceRow: nat, count: nat, to: seq<T>, destinationChild: nat)
    requires count > 0 && BetweenDefined(|from|, sourceRow, count, |to|, destinationChild)
    ensures MoveBetween(from, sourceRow, count, to, destinationChild).0 ==
      from[..sourceRow] + Stride(from, sourceRow + 1, count - 1) + from[sourceRow + 2 * count - 1..]
    decreases count, 1
  {
    if count == 1 {
      RemoveSlices(from, sourceRow);
    } else {
      MoveBetweenFromStep(from, sourceRow, count, to, destinationChild);
    }
  }

  /** The inductive step of `MoveBetweenFrom`. */
  lemma {:induction false} MoveBetweenFromStep<T>(from: seq<T>, sourceRow: nat, count: nat, to: seq<T>, destinationChild: nat)
    requires count > 1 && BetweenDefined(|from|, sourceRow, count, |to|, destinationChild)
    ensures MoveBetween(from, sourceRow, count, to, destinationChild).0 ==
      from[..sourceRow] + Stride(from, sourceRow + 1, count - 1) + from[sourceRow + 2 * count - 1..]
    decreases count, 0
  {
    var from1, to1 := MoveBetweenNextFrom(from, sourceRow, count, to, destinationChild);
    MoveBetweenFrom(from1, sourceRow + 1, count - 1, to1, destinationChild + 1);
  }

  /** The first of several passes between two lists, source side: what the
      later passes keep of the source list after the first removal is what
      all of them keep of the original. */
  lemma MoveBetweenNextFrom<T>(from: seq<T>, sourceRow: nat, count: nat, to: seq<T>, destinationChild: nat)
    returns (from1: seq<T>, to1: seq<T>)
    requires count > 1 && BetweenDefined(|from|, sourceRow, count, |to|, destinationChild)
    ensures BetweenDefined(|from1|, sourceRow + 1, count - 1, |to1|, destinationChild + 1)
    ensures MoveBetween(from, sourceRow, count, to, destinationChild) ==
      MoveBetween(from1, sourceRow + 1, count - 1, to1, destinationChild + 1)
    ensures from1[..sourceRow + 1] + Stride(from1, sourceRow + 2, count - 2) + from1[(sourceRow + 1) + 2 * (count - 1) - 1..] ==
      from[..sourceRow] + Stride(from, sourceRow + 1, count - 1) + from[sourceRow + 2 * count - 1..]
  {
    from1 := Remove(from, sourceRow);
    to1 := Insert(to, destinationChild, from[sourceRow]);
    RemoveSlices(from, sourceRow);
    assert from1[..sourceRow + 1] == from[..sourceRow] + [from[sourceRow + 1]];
    assert from1[(sourceRow + 1) + 2 * (count - 1) - 1..] == from[sourceRow + 2 * count - 1..];
    StrideRemove(from, sourceRow, sourceRow + 2, count - 2);
    StrideCons(from, sourceRow + 1, count - 1);
  }

  /** A block insertion keeps the elements before `i`, puts the block at `i`
      and shifts the rest up by its length. */
  lemma {:induction false} InsertBlockSlices<T>(s: seq<T>, i: nat, xs: seq<T>)
    requires i <= |s|
    ensures InsertBlock(s, i, xs) == s[..i] + xs + s[i..]
    decreases i
  {
    if i > 0 {
      InsertBlockSlices(s[1..], i - 1, xs);
      assert s[..i] == [s[0]] + s[1..][..i - 1];
      assert s[i..] == s[1..][i - 1..];
    }
  }

  /** Inserting an empty block changes nothing. */
  lemma {:induction false} InsertBlockEmpty<T>(s: seq<T>, i: nat)
    requires i <= |s|
    ensures InsertBlock(s, i, []) == s
    decreases i
  {
    if i > 0 {
      InsertBlockEmpty(s[1..], i - 1);
    }
  }

  /** Inserting `x` at `i` and then a block right after it is inserting the
      block with `x` in front. */
  lemma {:induction false} InsertBlockCons<T>(s: seq<T>, i: nat, x: T, xs: seq<T>)
    requires i <= |s|
    ensures InsertBlock(Insert(s, i, x), i + 1, xs) == InsertBlock(s, i, [x] + xs)
    decreases i
  {
    var s1 := Insert(s, i, x);
    if i == 0 {
      assert s1[1..] == s;
    } else {
      assert s1[1..] == Insert(s[1..], i - 1, x);
      InsertBlockCons(s[1..], i - 1, x, xs);
    }
  }

  /** Between two lists the loop loses no task and duplicates none: the two
      lists together hold the same tasks before and after. */
  lemma {:induction false} MoveBetweenPermutes<T>(from: seq<T>, sourceRow: int, count: int, to: seq<T>, destinationChild: int)
    requires BetweenDefined(|from|, sourceRow, count, |to|, destinationChild)
    ensures var r := MoveBetween(from, sourceRow, count, to, destinationChild);
      multiset(r.0) + multiset(r.1) == multiset(from) + multiset(to)
    decreases count
  {
    if count > 0 {
      var from1, to1 := MoveBetweenNextPermutes(from, sourceRow, count, to, destinationChild);
      MoveBetweenPermutes(from1, sourceRow + 1, count - 1, to1, destinationChild + 1);
    }
  }

  /** The first pass between two lists moves one task from one list to the
      other. */
  lemma MoveBetweenNextPermutes<T>(from: seq<T>, sourceRow: int, count: int, to: seq<T>, destinationChild: int)
    returns (from1: seq<T>, to1: seq<T>)
    requires count > 0 && BetweenDefined(|from|, sourceRow, count, |to|, destinationChild)
    ensures BetweenDefined(|from1|, sourceRow + 1, count - 1, |to1|, destinationChild + 1)
    ensures MoveBetween(from, sourceRow, count, to, destinationChild) ==
      MoveBetween(from1, sourceRow + 1, count - 1, to1, destinationChild + 1)
    ensures multiset(from1) + multiset(to1) == multiset(from) + multiset(to)
  {
    from1 := Remove(from, sourceRow);
    to1 := Insert(to, destinationChild, from[sourceRow]);
    RemoveMultiset(from, sourceRow);
    InsertMultiset(to, destinationChild, from[sourceRow]);
  }

  /** Dropping an element at or before `i` shifts the strided elements from
      `i` on down by one. */
  lemma StrideRemove<T>(s: seq<T>, j: nat, i: nat, n: nat)
    requires j < |s| && j <= i && (n == 0 || i + 1 + 2 * (n - 1) < |s|)
    ensures Stride(Remove(s, j), i, n) == Stride(s, i + 1, n)
  {
    var r := Remove(s, j);
    RemoveSlices(s, j);
    forall k | 0 <= k < n
      ensures r[i + 2 * k] == s[i + 1 + 2 * k]
    {
    }
  }

  /** A stride is its first element followed by the stride two further on. */
  lemma StrideCons<T>(s: seq<T>, i: nat, n: nat)
    requires n > 0 && i + 2 * (n - 1) < |s|
    ensures Stride(s, i, n) == [s[i]] + Stride(s, i + 2, n - 1)
  {
    var a, b := Stride(s, i, n), [s[i]] + Stride(s, i + 2, n - 1);
    forall k | 0 <= k < n
      ensures a[k] == b[k]
    {
      if k > 0 {
        assert b[k] == Stride(s, i + 2, n - 1)[k - 1];
      }
    }
  }

  /** The loop on one subtask list, when source and destination parent are
      the same task. */
  function MoveWithin<T>(s: seq<T>, sourceRow: int, count: int, destinationChild: int): (r: seq<T>)
    requires WithinDefined(|s|, sourceRow, count, destinationChild)
    ensures |r| == |s|
    decreases count
  {
    if count <= 0 then s
    else MoveWithin(MoveOne(s, sourceRow, destinationChild), sourceRow + 1, count - 1, destinationChild + 1)
  }

  /** One pass of the loop on one list: the element at `sourceRow` is taken
      out and put back at `destinationChild`. */
  function MoveOne<T>(s: seq<T>, sourceRow: nat, destinationChild: nat): (r: seq<T>)
    requires sourceRow < |s| && destinationChild < |s|
    ensures |r| == |s|
  {
    Insert(Remove(s, sourceRow), destinationChild, s[sourceRow])
  }

  /** One pass within one list only reorders it. */
  lemma MoveOnePermutes<T>(s: seq<T>, sourceRow: nat, destinationChild: nat)
    requires sourceRow < |s| && destinationChild < |s|
    ensures multiset(MoveOne(s, sourceRow, destinationChild)) == multiset(s)
  {
    RemoveMultiset(s, sourceRow);
    InsertMultiset(Remove(s, sourceRow), destinationChild, s[sourceRow]);
  }

  /** Every pass of the loop on one list stays inside it. */
  predicate WithinDefined(length: int, sourceRow: int, count: int, destinationChild: int)
  {
    count <= 0 || (0 <= sourceRow && sourceRow + count <= length && 0 <= destinationChild && destinationChild + count <= length)
  }

  /** Within one parent the loop only reorders the subtasks. */
  lemma {:induction false} MoveWithinPermutes<T>(s: seq<T>, sourceRow: int, count: int, destinationChild: int)
    requires WithinDefined(|s|, sourceRow, count, destinationChild)
    ensures multiset(MoveWithin(s, sourceRow, count, destinationChild)) == multiset(s)
    decreases count
  {
    if count > 0 {
      var s1 := MoveWithinNext(s, sourceRow, count, destinationChild);
      MoveWithinPermutes(s1, sourceRow + 1, count - 1, destinationChild + 1);
    }
  }

  /** The first pass of the loop on one list: the loop is that pass followed
      by the others, and the pass only reorders. */
  lemma MoveWithinNext<T>(s: seq<T>, sourceRow: int, count: int, destinationChild: int) returns (s1: seq<T>)
    requires count > 0 && WithinDefined(|s|, sourceRow, count, destinationChild)
    ensures WithinDefined(|s1|, sourceRow + 1, count - 1, destinationChild + 1)
    ensures MoveWithin(s, sourceRow, count, destinationChild) == MoveWithin(s1, sourceRow + 1, count - 1, destinationChild + 1)
    ensures multiset(s1) == multiset(s)
  {
    s1 := MoveOne(s, sourceRow, destinationChild);
    MoveOnePermutes(s, sourceRow, destinationChild);
  }

  /** One pass moving a row up within one parent. */
  lemma MoveUpOnce<T>(s: seq<T>, sourceRow: nat, destinationChild: nat)
    requires destinationChild <= sourceRow < |s|
    ensures MoveOne(s, sourceRow, destinationChild) ==
        s[..destinationChild] + [s[sourceRow]] + s[destinationChild..sourceRow] + s[sourceRow + 1..]
  {
    var s1 := Remove(s, sourceRow);
    RemoveSlices(s, sourceRow);
    InsertSlices(s1, destinationChild, s[sourceRow]);
    assert s1[..destinationChild] == s[..destinationChild];
    assert s1[destinationChild..] == s[destinationChild..sourceRow] + s[sourceRow + 1..];
  }

  /** The run `[sourceRow, sourceRow + count)` of `s` moved in front of
      position `destinationChild`. */
  function RunMovedUp<T>(s: seq<T>, sourceRow: nat, count: nat, destinationChild: nat): seq<T>
    requires destinationChild <= sourceRow && sourceRow + count <= |s|
  {
    s[..destinationChild] + s[sourceRow..sourceRow + count] + s[destinationChild..sourceRow] + s[sourceRow + count..]
  }

  /** Moving rows up within one parent moves the contiguous run
      `[sourceRow, sourceRow + count)` in front of `destinationChild`. */
  lemma {:induction false} MoveWithinUp<T>(s: seq<T>, sourceRow: nat, count: nat, destinationChild: nat)
    requires destinationChild <= sourceRow && sourceRow + count <= |s|
    ensures WithinDefined(|s|, sourceRow, count, destinationChild)
    ensures MoveWithin(s, sourceRow, count, destinationChild) == RunMovedUp(s, sourceRow, count, destinationChild)
    decreases count
  {
    if count == 0 {
      RunMovedUpEmpty(s, sourceRow, destinationChild);
    } else {
      var s2 := MoveOne(s, sourceRow, destinationChild);
      MoveUpOnce(s, sourceRow, destinationChild);
      MoveWithinUp(s2, sourceRow + 1, count - 1, destinationChild + 1);
      JoinRun(s, s2, sourceRow, count, destinationChild);
    }
  }

  lemma RunMovedUpEmpty<T>(s: seq<T>, sourceRow: nat, destinationChild: nat)
    requires destinationChild <= sourceRow <= |s|
    ensures RunMovedUp(s, sourceRow, 0, destinationChild) == s
  {
    assert s == s[..destinationChild] + s[destinationChild..sourceRow] + s[sourceRow..];
  }

  /** The sequence bookkeeping closing the inductive step of `MoveWithinUp`. */
  lemma JoinRun<T>(s: seq<T>, s2: seq<T>, sourceRow: nat, count: nat, destinationChild: nat)
    requires 0 < count && destinationChild <= sourceRow && sourceRow + count <= |s|
    requires s2 == s[..destinationChild] + [s[sourceRow]] + s[destinationChild..sourceRow] + s[sourceRow + 1..]
    ensures RunMovedUp(s2, sourceRow + 1, count - 1, destinationChild + 1) == RunMovedUp(s, sourceRow, count, destinationChild)
  {
    assert s2[..destinationChild + 1] == s[..destinationChild] + [s[sourceRow]];
    assert s2[sourceRow + 1..sourceRow + count] == s[sourceRow + 1..sourceRow + count];
    assert s2[destinationChild + 1..sourceRow + 1] == s[destinationChild..sourceRow];
    assert s2[sourceRow + count..] == s[sourceRow + count..];
    assert [s[sourceRow]] + s[sourceRow + 1..sourceRow + count] == s[sourceRow..sourceRow + count];
  }

  /** One pass between two parents in separate subtrees touches only
      those two tasks, and both paths stay where they are. */
  lemma MoveStepApart(t: Task, from: seq<nat>, sourceRow: int, to: seq<nat>, destinationChild: int)
    requires IsTaskPath(t, from) && IsTaskPath(t, to) && Apart(from, to)
    requires 0 <= sourceRow < |Lookup(t, from).value.subtasks|
    requires 0 <= destinationChild <= |Lookup(t, to).value.subtasks|
    ensures var f, g := Lookup(t, from).value, Lookup(t, to).value;
      var f1, g1 := f.RemoveSubtask(sourceRow), g.InsertSubtask(f.subtasks[sourceRow], destinationChild);
      IsTaskPath(Replace(t, from, f1), to) &&
      var t2 := Replace(Replace(t, from, f1), to, g1);
      MoveStep(t, from, sourceRow, to, destinationChild) == Some(MoveState(t2, from, to)) &&
      Lookup(t2, from) == Some(f1) && Lookup(t2, to) == Some(g1)
  {
    var f, g := Lookup(t, from).value, Lookup(t, to).value;
    var f1 := f.RemoveSubtask(sourceRow);
    var g1 := g.InsertSubtask(f.subtasks[sourceRow], destinationChild);
    assert !Prefix(from + [sourceRow], to) by {
      if |from + [sourceRow]| <= |to| {
        assert (from + [sourceRow])[..|from|] == from;
        assert to[..|from + [sourceRow]|][..|from|] == to[..|from|];
      }
    }
    var t1 := Replace(t, from, f1);
    LookupReplace(t, from, f1);
    LookupReplaceApart(t, from, f1, to);
    ShiftOutOff(to, from, sourceRow);
    LookupReplace(t1, to, g1);
    LookupReplaceApart(t1, to, g1, from);
    ShiftInOff(from, to, destinationChild);
  }

  /** The list-level result of the loop between the parents at `from` and
      `to`, written back into the tree. */
  function ApartResult(t: Task, from: seq<nat>, sourceRow: int, count: int, to: seq<nat>, destinationChild: int): Task
    requires IsTaskPath(t, from) && IsTaskPath(t, to) && Apart(from, to)
    requires BetweenDefined(|Lookup(t, from).value.subtasks|, sourceRow, count, |Lookup(t, to).value.subtasks|, destinationChild)
  {
    var f, g := Lookup(t, from).value, Lookup(t, to).value;
    var r := MoveBetween(f.subtasks, sourceRow, count, g.subtasks, destinationChild);
    LookupReplaceApart(t, from, f.(subtasks := r.0), to);
    Replace(Replace(t, from, f.(subtasks := r.0)), to, g.(subtasks := r.1))
  }

  /** Between two parents in separate subtrees, the tree-wide loop is the
      loop on their two subtask lists, and nothing else in the tree changes. */
  lemma {:induction false} MoveApart(t: Task, from: seq<nat>, sourceRow: int, count: int, to: seq<nat>, destinationChild: int)
    requires IsTaskPath(t, from) && IsTaskPath(t, to) && Apart(from, to)
    requires BetweenDefined(|Lookup(t, from).value.subtasks|, sourceRow, count, |Lookup(t, to).value.subtasks|, destinationChild)
    ensures MoveSteps(t, from, sourceRow, count, to, destinationChild) == Some(ApartResult(t, from, sourceRow, count, to, destinationChild))
    decreases count
  {
    if count <= 0 {
      var f, g := Lookup(t, from).value, Lookup(t, to).value;
      LookupReplaceApart(t, from, f, to);
      ReplaceSame(t, from);
      ReplaceSame(t, to);
    } else {
      var t2 := MoveApartStep(t, from, sourceRow, count, to, destinationChild);
      MoveApart(t2, from, sourceRow + 1, count - 1, to, destinationChild + 1);
    }
  }

  /** The inductive step of `MoveApart`: after the first pass, the loop
      and the list-level result are those of the remaining passes. */
  lemma MoveApartStep(t: Task, from: seq<nat>, sourceRow: int, count: int, to: seq<nat>, destinationChild: int) returns (t2: Task)
    requires IsTaskPath(t, from) && IsTaskPath(t, to) && Apart(from, to) && count > 0
    requires BetweenDefined(|Lookup(t, from).value.subtasks|, sourceRow, count, |Lookup(t, to).value.subtasks|, destinationChild)
    ensures IsTaskPath(t2, from) && IsTaskPath(t2, to)
    ensures BetweenDefined(|Lookup(t2, from).value.subtasks|, sourceRow + 1, count - 1, |Lookup(t2, to).value.subtasks|, destinationChild + 1)
    ensures MoveSteps(t, from, sourceRow, count, to, destinationChild) == MoveSteps(t2, from, sourceRow + 1, count - 1, to, destinationChild + 1)
    ensures ApartResult(t2, from, sourceRow + 1, count - 1, to, destinationChild + 1) == ApartResult(t, from, sourceRow, count, to, destinationChild)
  {
    t2 := MoveApartFirst(t, from, sourceRow, count, to, destinationChild);
    MoveApartJoin(t, from, sourceRow, count, to, destinationChild, t2);
  }

  /** The first pass of `MoveApart`'s induction. */
  lemma MoveApartFirst(t: Task, from: seq<nat>, sourceRow: int, count: int, to: seq<nat>, destinationChild: int) returns (t2: Task)
    requires IsTaskPath(t, from) && IsTaskPath(t, to) && Apart(from, to) && count > 0
    requires BetweenDefined(|Lookup(t, from).value.subtasks|, sourceRow, count, |Lookup(t, to).value.subtasks|, destinationChild)
    ensures IsTaskPath(t2, from) && IsTaskPath(t2, to)
    ensures MoveSteps(t, from, sourceRow, count, to, destinationChild) == MoveSteps(t2, from, sourceRow + 1, count - 1, to, destinationChild + 1)
    ensures var f, g := Lookup(t, from).value, Lookup(t, to).value;
      var f1, g1 := f.RemoveSubtask(sourceRow), g.InsertSubtask(f.subtasks[sourceRow], destinationChild);
      IsTaskPath(Replace(t, from, f1), to) &&
      t2 == Replace(Replace(t, from, f1), to, g1) &&
      Lookup(t2, from) == Some(f1) && Lookup(t2, to) == Some(g1)
    ensures BetweenDefined(|Lookup(t2, from).value.subtasks|, sourceRow + 1, count - 1, |Lookup(t2, to).value.subtasks|, destinationChild + 1)
  {
    var f, g := Lookup(t, from).value, Lookup(t, to).value;
    var f1 := f.RemoveSubtask(sourceRow);
    var g1 := g.InsertSubtask(f.subtasks[sourceRow], destinationChild);
    MoveStepApart(t, from, sourceRow, to, destinationChild);
    t2 := Replace(Replace(t, from, f1), to, g1);
  }

  /** The closing step of `MoveApart`'s induction. */
  lemma MoveApartJoin(t: Task, from: seq<nat>, sourceRow: int, count: int, to: seq<nat>, destinationChild: int, t2: Task)
    requires IsTaskPath(t, from) && IsTaskPath(t, to) && Apart(from, to) && count > 0
    requires BetweenDefined(|Lookup(t, from).value.subtasks|, sourceRow, count, |Lookup(t, to).value.subtasks|, destinationChild)
    requires IsTaskPath(t2, from) && IsTaskPath(t2, to)
    requires var f, g := Lookup(t, from).value, Lookup(t, to).value;
      var f1, g1 := f.RemoveSubtask(sourceRow), g.InsertSubtask(f.subtasks[sourceRow], destinationChild);
      IsTaskPath(Replace(t, from, f1), to) &&
      t2 == Replace(Replace(t, from, f1), to, g1) &&
      Lookup(t2, from) == Some(f1) && Lookup(t2, to) == Some(g1)
    requires BetweenDefined(|Lookup(t2, from).value.subtasks|, sourceRow + 1, count - 1, |Lookup(t2, to).value.subtasks|, destinationChild + 1)
    ensures ApartResult(t2, from, sourceRow + 1, count - 1, to, destinationChild + 1) == ApartResult(t, from, sourceRow, count, to, destinationChild)
  {
    var f, g := Lookup(t, from).value, Lookup(t, to).value;
    var f1 := f.RemoveSubtask(sourceRow);
    var g1 := g.InsertSubtask(f.subtasks[sourceRow], destinationChild);
    var r := MoveBetween(f.subtasks, sourceRow, count, g.subtasks, destinationChild);
    assert r == MoveBetween(f1.subtasks, sourceRow + 1, count - 1, g1.subtasks, destinationChild + 1);
    var F, G := f.(subtasks := r.0), g.(subtasks := r.1);
    assert f1.(subtasks := r.0) == F && g1.(subtasks := r.1) == G;
    ReplaceBothTwice(t, from, f1, to, g1, F, G);
  }

  /** One pass within a single parent: the task at `p` gets its subtask
      list with one element moved, and the path stays where it is. */
  lemma MoveStepSame(t: Task, p: seq<nat>, sourceRow: int, destinationChild: int)
    requires IsTaskPath(t, p)
    requires 0 <= sourceRow < |Lookup(t, p).value.subtasks| && 0 <= destinationChild < |Lookup(t, p).value.subtasks|
    ensures var f := Lookup(t, p).value;
      var t2 := Replace(t, p, f.(subtasks := MoveOne(f.subtasks, sourceRow, destinationChild)));
      MoveStep(t, p, sourceRow, p, destinationChild) == Some(MoveState(t2, p, p)) &&
      Lookup(t2, p) == Some(f.(subtasks := MoveOne(f.subtasks, sourceRow, destinationChild)))
  {
    var f := Lookup(t, p).value;
    var f1 := f.RemoveSubtask(sourceRow);
    var f2 := f1.InsertSubtask(f.subtasks[sourceRow], destinationChild);
    assert !Prefix(p + [sourceRow], p);
    ShiftOutOff(p, p, sourceRow);
    ShiftInOff(p, p, destinationChild);
    LookupReplace(t, p, f1);
    ReplaceReplace(t, p, f1, f2);
    assert f2 == f.(subtasks := MoveOne(f.subtasks, sourceRow, destinationChild));
    LookupReplace(t, p, f2);
  }

  /** Within a single parent, the tree-wide loop is the loop on that
      parent's subtask list, and nothing else in the tree changes. */
  lemma {:induction false} MoveSame(t: Task, p: seq<nat>, sourceRow: int, count: int, destinationChild: int)
    requires IsTaskPath(t, p)
    requires WithinDefined(|Lookup(t, p).value.subtasks|, sourceRow, count, destinationChild)
    ensures var f := Lookup(t, p).value;
      MoveSteps(t, p, sourceRow, count, p, destinationChild) ==
        Some(Replace(t, p, f.(subtasks := MoveWithin(f.subtasks, sourceRow, count, destinationChild))))
    decreases count, 1
  {
    if count <= 0 {
      ReplaceSame(t, p);
    } else {
      MoveSameInd(t, p, sourceRow, count, destinationChild);
    }
  }

  /** `MoveSame` for at least one pass. */
  lemma {:induction false} MoveSameInd(t: Task, p: seq<nat>, sourceRow: int, count: int, destinationChild: int)
    requires IsTaskPath(t, p) && count > 0
    requires WithinDefined(|Lookup(t, p).value.subtasks|, sourceRow, count, destinationChild)
    ensures var f := Lookup(t, p).value;
      MoveSteps(t, p, sourceRow, count, p, destinationChild) ==
        Some(Replace(t, p, f.(subtasks := MoveWithin(f.subtasks, sourceRow, count, destinationChild))))
    decreases count, 0
  {
    var t2 := MoveSameStep(t, p, sourceRow, count, destinationChild);
    MoveSame(t2, p, sourceRow + 1, count - 1, destinationChild + 1);
  }

  /** The inductive step of `MoveSame`: after the first pass, the loop and
      the list-level result are those of the remaining passes. */
  lemma MoveSameStep(t: Task, p: seq<nat>, sourceRow: int, count: int, destinationChild: int) returns (t2: Task)
    requires IsTaskPath(t, p) && count > 0
    requires WithinDefined(|Lookup(t, p).value.subtasks|, sourceRow, count, destinationChild)
    ensures IsTaskPath(t2, p)
    ensures WithinDefined(|Lookup(t2, p).value.subtasks|, sourceRow + 1, count - 1, destinationChild + 1)
    ensures MoveSteps(t, p, sourceRow, count, p, destinationChild) == MoveSteps(t2, p, sourceRow + 1, count - 1, p, destinationChild + 1)
    ensures var f, f2 := Lookup(t, p).value, Lookup(t2, p).value;
      Replace(t2, p, f2.(subtasks := MoveWithin(f2.subtasks, sourceRow + 1, count - 1, destinationChild + 1))) ==
        Replace(t, p, f.(subtasks := MoveWithin(f.subtasks, sourceRow, count, destinationChild)))
  {
    var f := Lookup(t, p).value;
    var f2 := f.(subtasks := MoveOne(f.subtasks, sourceRow, destinationChild));
    t2 := Replace(t, p, f2);
    MoveStepSame(t, p, sourceRow, destinationChild);
    var r := MoveWithin(f.subtasks, sourceRow, count, destinationChild);
    assert f2.(subtasks := r) == f.(subtasks := r);
    ReplaceReplace(t, p, f2, f.(subtasks := r));
  }

  /** A concrete instance of the stride: moving two rows from the start of
      `[a, b, c]` to another parent takes `a` and `c` and leaves `b`. */
  lemma StrideExample()
    ensures MoveBetween([1, 2, 3], 0, 2, [], 0) == ([2], [1, 3])
  {
    var from: seq<int>, to: seq<int> := [1, 2, 3], [];
    MoveBetweenStride(from, 0, 2, to, 0);
    assert Stride(from, 0, 2) == [1, 3];
    assert Stride(from, 1, 1) == [2] && from[..0] + [2] + from[3..] == [2];
    assert to[..0] + [1, 3] + to[0..] == [1, 3];
  }

  /** A concrete instance of a move down within one parent: moving the
      first two of six rows to row 4 puts the first row after the fifth and
      the third row last, because the source row advances past a row that
      has not moved. */
  lemma MoveDownExample()
    ensures MoveWithin([1, 2, 3, 4, 5, 6], 0, 2, 4) == [2, 4, 5, 1, 6, 3]
  {
    var s1 := MoveOne([1, 2, 3, 4, 5, 6], 0, 4);
    assert Remove([1, 2, 3, 4, 5, 6], 0) == [2, 3, 4, 5, 6];
    assert s1 == [2, 3, 4, 5, 1, 6];
    assert Remove(s1, 1) == [2, 4, 5, 1, 6];
    assert MoveOne(s1, 1, 5) == [2, 4, 5, 1, 6, 3];
  }

  /** A move `beginMoveRows` accepts that the loop cannot carry out: the
      first of three rows is moved to the end of its own parent. After the
      removal the list has two rows, and row 3 is past its end. */
  lemma MoveToEndExample(a: Task, b: Task, c: Task)
    ensures MoveSteps(NewTask().(subtasks := [Some(a), Some(b), Some(c)]), [], 0, 1, [], 3) == None
  {
    var t := NewTask().(subtasks := [Some(a), Some(b), Some(c)]);
    assert t.RemoveSubtask(0) == NewTask().(subtasks := [Some(b), Some(c)]);
    assert ShiftOut([], [], 0) == [];
  }

  /** A move `beginMoveRows` accepts that the loop cannot carry out: the
      first two of three top-level rows are moved into the third. The first
      pass puts the first row into the third, which is then at row 1, and
      the second pass would take that third row and hang it below itself. */
  lemma MoveIntoMovedExample(a: Task, b: Task, c: Task)
    ensures var t := NewTask().(subtasks := [Some(a), Some(b), Some(c)]);
      IsTaskPath(t, [2]) && MoveSteps(t, [], 0, 2, [2], 0) == None
  {
    var t := NewTask().(subtasks := [Some(a), Some(b), Some(c)]);
    var t1 := NewTask().(subtasks := [Some(b), Some(c)]);
    var t2 := NewTask().(subtasks := [Some(b), Some(c.InsertSubtask(Some(a), 0))]);
    assert t.RemoveSubtask(0) == t1;
    assert ShiftOut([2], [], 0) == [1] && ShiftIn([], [1], 0) == [];
    assert Replace(t1, [1], c.InsertSubtask(Some(a), 0)) == t2;
    assert MoveStep(t, [], 0, [2], 0) == Some(MoveState(t2, [], [1]));
    assert Prefix([] + [1], [1]);
  }

  /** Another move `beginMoveRows` accepts that the loop cannot carry out:
      the last two of three top-level rows are moved into the first. After
      the first pass the top level has two rows, and the second pass reads
      row 2. */
  lemma MoveLastRowsExample(a: Task, b: Task, c: Task)
    ensures var t := NewTask().(subtasks := [Some(a), Some(b), Some(c)]);
      IsTaskPath(t, [0]) && MoveSteps(t, [], 1, 2, [0], 0) == None
  {
    var t := NewTask().(subtasks := [Some(a), Some(b), Some(c)]);
    var t1 := NewTask().(subtasks := [Some(a), Some(c)]);
    var t2 := NewTask().(subtasks := [Some(a.InsertSubtask(Some(b), 0)), Some(c)]);
    assert t.RemoveSubtask(1) == t1;
    assert ShiftOut([0], [], 1) == [0] && ShiftIn([], [0], 0) == [];
    assert Replace(t1, [0], a.InsertSubtask(Some(b), 0)) == t2;
    assert MoveStep(t, [], 1, [0], 0) == Some(MoveState(t2, [], [0]));
  }

  // ---------------------------------------------------------------------------
  // The model

  /** `count` fresh tasks. */
  function Fresh(count: int): (r: seq<Slot>)
    ensures |r| == if count < 0 then 0 else count
    ensures forall i :: 0 <= i < |r| ==> r[i] == Some(NewTask())
    decreases count
  {
    if count <= 0 then [] else [Some(NewTask())] + Fresh(count - 1)
  }

  /** The subtask list after `insertRows`: `count` fresh tasks at `position`. */
  function RowsInserted(s: seq<Slot>, position: nat, count: int): (r: seq<Slot>)
    requires position <= |s|
    ensures |r| == |s| + |Fresh(count)|
    ensures r[..position] == s[..position] && r[position + |Fresh(count)|..] == s[position..]
    ensures forall i :: position <= i < position + |Fresh(count)| ==> r[i] == Some(NewTask())
  {
    s[..position] + Fresh(count) + s[position..]
  }

  /** The subtask list after `removeRows`: the `count` rows from `position`
      on are gone. */
  function RowsRemoved(s: seq<Slot>, position: nat, count: nat): (r: seq<Slot>)
    requires position + count <= |s|
    ensures |r| == |s| - count
    ensures r[..position] == s[..position]
    ensures forall i :: position <= i < |r| ==> r[i] == s[i + count]
  {
    s[..position] + s[position + count..]
  }

  /** Removing the rows just inserted gives the list back; the list grows
      by exactly the fresh tasks. */
  lemma InsertThenRemove(s: seq<Slot>, position: nat, count: nat)
    requires position <= |s|
    ensures |RowsInserted(s, position, count)| == |s| + count
    ensures RowsRemoved(RowsInserted(s, position, count), position, count) == s
  {
    var r := RowsInserted(s, position, count);
    assert r[..position] == s[..position];
    assert r[position + count..] == s[position..];
  }

  /** One more pass of the `insertRows` loop. */
  lemma InsertedStep(s: seq<Slot>, position: nat, i: nat)
    requires position <= |s|
    ensures Insert(RowsInserted(s, position, i), position, Some(NewTask())) == RowsInserted(s, position, i + 1)
  {
    var x, r := Some(NewTask()), RowsInserted(s, position, i);
    InsertSlices(r, position, x);
    assert r[..position] == s[..position];
    assert r[position..] == Fresh(i) + s[position..];
    assert Fresh(i + 1) == [x] + Fresh(i);
    calc {
      Insert(r, position, x);
      r[..position] + [x] + r[position..];
      s[..position] + [x] + (Fresh(i) + s[position..]);
      s[..position] + ([x] + Fresh(i)) + s[position..];
    }
  }

  /** One more pass of the `removeRows` loop. */
  lemma RemovedStep(s: seq<Slot>, position: nat, i: nat)
    requires position + i < |s|
    ensures Remove(RowsRemoved(s, position, i), position) == RowsRemoved(s, position, i + 1)
  {
    var r := RowsRemoved(s, position, i);
    RemoveSlices(r, position);
    assert r[..position] == s[..position];
    assert r[position + 1..] == s[position + i + 1..];
  }

  /** All rows are non-negative, so they form a path. */
  predicate NonNegative(rows: seq<int>)
  {
    forall i :: 0 <= i < |rows| ==> rows[i] >= 0
  }

  /** The same rows, typed as a path. */
  function AsPath(rows: seq<int>): (p: seq<nat>)
    requires NonNegative(rows)
    ensures |p| == |rows| && forall i :: 0 <= i < |rows| ==> p[i] == rows[i]
  {
    seq(|rows|, i requires 0 <= i < |rows| => rows[i] as nat)
  }

  /** A row list is non-negative when its head and its tail are, and its
      path is the head followed by the path of its tail, so extending a path
      `p` by it is extending `p` by the head and then by the tail. */
  lemma AsPathCons(rows: seq<int>, p: seq<nat>)
    requires rows != []
    ensures NonNegative(rows) <==> rows[0] >= 0 && NonNegative(rows[1..])
    ensures NonNegative(rows) ==> AsPath(rows) == [rows[0] as nat] + AsPath(rows[1..])
    ensures NonNegative(rows) ==> p + AsPath(rows) == (p + [rows[0] as nat]) + AsPath(rows[1..])
  {
    if !NonNegative(rows) && rows[0] >= 0 {
      var j :| 0 <= j < |rows| && rows[j] < 0;
      assert rows[1..][j - 1] < 0;
    }
  }

  /** The list in reverse order. */
  function Reverse(s: seq<int>): (r: seq<int>)
    ensures |r| == |s|
  {
    if s == [] then [] else [s[|s| - 1]] + Reverse(s[..|s| - 1])
  }

  lemma {:induction false} ReverseAt(s: seq<int>, k: nat)
    requires k < |s|
    ensures Reverse(s)[k] == s[|s| - 1 - k]
  {
    if k > 0 {
      ReverseAt(s[..|s| - 1], k - 1);
    }
  }

  /** `dropMimeData`: no drop is ever carried out; only `IgnoreAction` is
      reported as handled. */
  function DropMimeData(hasPlainText: bool, action: DropAction, row: int, column: int, parent: ModelIndex): (handled: bool)
    ensures handled <==> action == IgnoreAction
  {
    if action == IgnoreAction then true
    else if action != MoveAction then false
    else if !hasPlainText then false
    else if column > 0 then false
    else false
  }

  /** Saving a tree and loading the saved document gives the tree back. */
  lemma ReloadRestores(t: Task)
    requires NoNulls(t)
    ensures Yaml.AllConvertible(Yaml.RootItems(Yaml.Serialize(t)))
    ensures t.Clear().(subtasks := t.Clear().subtasks + Yaml.DeserializeAll(Yaml.RootItems(Yaml.Serialize(t)))) == t
  {
    Yaml.RootRoundTrip(t, t.Clear());
  }

  class TaskModel {
    /** The root task; it is never shown and never saved. */
    var root: Task

    constructor ()
      ensures root == Task("(root)", false, true, [])
    {
      root := NewTask().(description := "(root)");
    }

    /** An index this model can have handed out: the root, or a path to a
        slot of the tree. */
    predicate ValidIndex(index: ModelIndex)
      reads this
    {
      index.Invalid? || (|index.path| > 0 && IsPath(root, index.path))
    }

    /** `getTask`: the task behind an index, the root for an invalid one;
        `None` is a null pointer. */
    function GetTask(index: ModelIndex): (r: Slot)
      reads this
      requires ValidIndex(index)
      ensures r == Lookup(root, PathOf(index))
      ensures index.Invalid? ==> r == Some(root)
    {
      if index.Invalid? then Some(root) else Lookup(root, index.path)
    }

    /** `rowCount`: the number of subtasks of the parent's task. */
    function RowCount(parent: ModelIndex): (n: nat)
      reads this
      requires ValidIndex(parent) && GetTask(parent).Some?
      ensures n == |Lookup(root, PathOf(parent)).value.subtasks|
    {
      |GetTask(parent).value.subtasks|
    }

    /** `columnCount`: every task has one column, whatever the parent. */
    function ColumnCount(parent: ModelIndex): (columns: int)
      ensures columns == 1
    {
      1
    }

    /** `hasIndex`: the row and column are inside the parent's table. */
    predicate HasIndex(row: int, column: int, parent: ModelIndex)
      reads this
      requires ValidIndex(parent) && (row >= 0 && column >= 0 ==> GetTask(parent).Some?)
      ensures HasIndex(row, column, parent) <==>
        0 <= row && column == 0 && row < |Lookup(root, PathOf(parent)).value.subtasks|
    {
      if row < 0 || column < 0 then false
      else row < RowCount(parent) && column < ColumnCount(parent)
    }

    /** `index`: the cell one row below the parent, if that row and column
        exist; its task is the parent's subtask at `row`. */
    function Index(row: int, column: int, parent: ModelIndex): (r: ModelIndex)
      reads this
      requires ValidIndex(parent) && (row >= 0 && column >= 0 ==> GetTask(parent).Some?)
      ensures ValidIndex(r)
      ensures r.Cell? <==> row >= 0 && column == 0 && row < |Lookup(root, PathOf(parent)).value.subtasks|
      ensures r.Cell? ==>
        (r.path == PathOf(parent) + [row] && r.column == column &&
         GetTask(r) == Lookup(root, PathOf(parent)).value.subtasks[row])
    {
      if !HasIndex(row, column, parent) then Invalid
      else
        LookupChild(root, PathOf(parent), row);
        Cell(PathOf(parent) + [row], column)
    }

    /** `parent`: the cell of the parent task, or an invalid index for a
        top-level task and for the root. */
    function Parent(index: ModelIndex): (r: ModelIndex)
      reads this
      requires ValidIndex(index) && (index.Cell? ==> GetTask(index).Some?)
      ensures ValidIndex(r)
      ensures index.Invalid? || |index.path| == 1 ==> r == Invalid
      ensures index.Cell? && |index.path| > 1 ==>
        r.Cell? && r.column == 0 && r.path + [index.path[|index.path| - 1]] == index.path
    {
      if index.Invalid? then Invalid
      else if |index.path| == 1 then Invalid
      else
        PathPrefix(root, index.path, |index.path| - 1);
        Cell(index.path[..|index.path| - 1], 0)
    }

    /** `index` and `parent` undo each other: the index of the last row
        under the parent of a first-column cell is that cell, and the parent
        of a new cell is the parent it was made under. */
    lemma IndexParent(index: ModelIndex, row: int, parent: ModelIndex)
      requires ValidIndex(index) && index.Cell? && index.column == 0 && GetTask(index).Some?
      requires ValidIndex(parent) && (parent.Cell? ==> parent.column == 0) && GetTask(parent).Some?
      ensures ValidIndex(Parent(index)) && GetTask(Parent(index)).Some?
      ensures Index(index.path[|index.path| - 1], 0, Parent(index)) == index
      ensures Index(row, 0, parent).Cell? ==>
        GetTask(Index(row, 0, parent)).Some? ==> Parent(Index(row, 0, parent)) == parent
    {
      var p := index.path;
      PathPrefix(root, p, |p| - 1);
      assert p == p[..|p| - 1] + [p[|p| - 1]];
      LookupConcat(root, p[..|p| - 1], [p[|p| - 1]]);
      var c := Index(row, 0, parent);
      if c.Cell? && parent.Cell? {
        assert c.path[..|c.path| - 1] == parent.path;
      }
    }

    /** `data`: what a view reads for `role` at `index`; nothing for an
        invalid index or a role and column the model does not answer. */
    function Data(index: ModelIndex, role: Role): (v: Variant)
      reads this
      requires ValidIndex(index) && (index.Cell? && ReadsTask(index.column, role) ==> GetTask(index).Some?)
      ensures v != NoValue <==> index.Cell? && ReadsTask(index.column, role)
      ensures v != NoValue ==> v == TaskData(Lookup(root, index.path).value, index.column, role)
    {
      if index.Invalid? then NoValue
      else if !ReadsTask(index.column, role) then NoValue
      else TaskData(GetTask(index).value, index.column, role)
    }

    /** `setData`: for an editable role, the attribute of the task at
        `index` (the root for an invalid index) is set and nothing else in
        the tree changes; other roles are refused. */
    method SetData(index: ModelIndex, value: Variant, role: Role) returns (ok: bool)
      requires ValidIndex(index) && (IsEditRole(role) ==> GetTask(index).Some?)
      modifies this
      ensures ok <==> IsEditRole(role)
      ensures !ok ==> root == old(root)
      ensures ok ==>
        (old(GetTask(index)).Some? &&
         root == Replace(old(root), PathOf(index), SetAttribute(old(GetTask(index)).value, role, value).value))
      ensures ok ==>
        (IsTaskPath(root, PathOf(index)) &&
         Lookup(root, PathOf(index)) == SetAttribute(old(GetTask(index)).value, role, value))
    {
      var task := GetTask(index);
      match role {
        case EditRole =>
        case TaskDescriptionRole =>
        case TaskDoneRole =>
        case TaskExpandedRole =>
        case _ =>
          return false;
      }
      var updated := SetAttribute(task.value, role, value).value;
      LookupReplace(root, PathOf(index), updated);
      root := Replace(root, PathOf(index), updated);
      return true;
    }

    /** `insertRows`: `count` fresh tasks at `position` under the parent;
        the rest of the tree is unchanged. */
    method InsertRows(position: int, count: int, parent: ModelIndex) returns (success: bool)
      requires ValidIndex(parent) && GetTask(parent).Some?
      requires count > 0 ==> 0 <= position <= RowCount(parent)
      modifies this
      ensures success
      ensures count <= 0 ==> root == old(root)
      ensures count > 0 ==>
        (0 <= position <= |old(GetTask(parent)).value.subtasks| &&
         var f := old(GetTask(parent)).value;
         root == Replace(old(root), PathOf(parent), f.(subtasks := RowsInserted(f.subtasks, position, count))))
    {
      var p := PathOf(parent);
      ghost var f := GetTask(parent).value;
      success := true;
      if count <= 0 {
        return;
      }
      ReplaceSame(root, p);
      assert f.subtasks == RowsInserted(f.subtasks, position, 0);
      var i := 0;
      while i < count
        invariant 0 <= i <= count
        invariant IsTaskPath(old(root), p)
        invariant root == Replace(old(root), p, f.(subtasks := RowsInserted(f.subtasks, position, i)))
      {
        LookupReplace(old(root), p, f.(subtasks := RowsInserted(f.subtasks, position, i)));
        var parentTask := Lookup(root, p).value;
        var inserted := parentTask.InsertSubtask(Some(NewTask()), position);
        InsertedStep(f.subtasks, position, i);
        ReplaceReplace(old(root), p, parentTask, inserted);
        // insertSubtask succeeds for a row within range, so `success` stays true
        root := Replace(root, p, inserted);
        i := i + 1;
      }
    }

    /** `removeRows`: the `count` rows from `position` on are gone from the
        parent; the rest of the tree is unchanged. */
    method RemoveRows(position: int, count: int, parent: ModelIndex) returns (success: bool)
      requires ValidIndex(parent) && GetTask(parent).Some?
      requires count > 0 ==> 0 <= position && position + count <= RowCount(parent)
      modifies this
      ensures success
      ensures count <= 0 ==> root == old(root)
      ensures count > 0 ==>
        (0 <= position && position + count <= |old(GetTask(parent)).value.subtasks| &&
         var f := old(GetTask(parent)).value;
         root == Replace(old(root), PathOf(parent), f.(subtasks := RowsRemoved(f.subtasks, position, count))))
    {
      var p := PathOf(parent);
      ghost var f := GetTask(parent).value;
      success := true;
      if count <= 0 {
        return;
      }
      ReplaceSame(root, p);
      assert f.subtasks == RowsRemoved(f.subtasks, position, 0);
      var i := 0;
      while i < count
        invariant 0 <= i <= count
        invariant IsTaskPath(old(root), p)
        invariant root == Replace(old(root), p, f.(subtasks := RowsRemoved(f.subtasks, position, i)))
      {
        LookupReplace(old(root), p, f.(subtasks := RowsRemoved(f.subtasks, position, i)));
        var parentTask := Lookup(root, p).value;
        var removed := parentTask.RemoveSubtask(position);
        RemovedStep(f.subtasks, position, i);
        ReplaceReplace(old(root), p, parentTask, removed);
        // removeSubtask succeeds for a row within range, so `success` stays true
        root := Replace(root, p, removed);
        i := i + 1;
      }
    }

    /** `moveRows`: refused when a parent is null or the view refuses the
        move (`accepted` is the verdict of `beginMoveRows`); otherwise the
        loop runs `count` passes, the tree afterwards holds the same number
        of tasks, and it is the tree `MoveSteps` describes. */
    method MoveRows(sourceParent: ModelIndex, sourceRow: int, count: int,
                    destinationParent: ModelIndex, destinationChild: int, accepted: bool) returns (success: bool)
      requires ValidIndex(sourceParent) && ValidIndex(destinationParent)
      requires GetTask(sourceParent).Some? && GetTask(destinationParent).Some? && accepted ==>
        MoveSteps(root, PathOf(sourceParent), sourceRow, count, PathOf(destinationParent), destinationChild).Some?
      modifies this
      ensures success <==> old(GetTask(sourceParent)).Some? && old(GetTask(destinationParent)).Some? && accepted
      ensures !success ==> root == old(root)
      ensures success ==>
        root == MoveSteps(old(root), PathOf(sourceParent), sourceRow, count, PathOf(destinationParent), destinationChild).value
      ensures AllTasks(root) == AllTasks(old(root))
    {
      if GetTask(sourceParent).None? || GetTask(destinationParent).None? {
        return false;
      }
      if !accepted {
        return false;
      }
      var from, to := PathOf(sourceParent), PathOf(destinationParent);
      ghost var trace := MoveTrace(root, from, sourceRow, count, to, destinationChild);
      MovePasses(from, sourceRow, count, to, destinationChild, trace);
      success := true;
    }

    /** The loop of `moveRows`: pass `i` takes row `sourceRow + i` of the
        source parent and inserts it at row `destinationChild + i` of the
        destination parent, following both parents as rows shift. */
    method MovePasses(source: seq<nat>, sourceRow: int, count: int, destination: seq<nat>, destinationChild: int,
                      ghost trace: seq<MoveState>)
      requires |trace| == (if count < 0 then 0 else count) + 1
      requires trace[0] == MoveState(root, source, destination)
      requires forall k :: 0 <= k < |trace| - 1 ==> PassInTrace(trace, k, sourceRow, destinationChild)
      modifies this
      ensures root == trace[|trace| - 1].tree
      ensures AllTasks(root) == AllTasks(old(root))
    {
      var from, to := source, destination;
      var i, row, child := 0, sourceRow, destinationChild;
      while i < count
        invariant 0 <= i < |trace| && (i < |trace| - 1 <==> i < count)
        invariant row == sourceRow + i && child == destinationChild + i
        invariant root == trace[i].tree && from == trace[i].from && to == trace[i].to
        invariant AllTasks(root) == AllTasks(old(root))
        decreases count - i
      {
        from, to := MovePass(from, row, to, child, trace, i, sourceRow, destinationChild);
        i, row, child := i + 1, row + 1, child + 1;
      }
    }

    /** One pass of the `moveRows` loop: the subtask at row `sourceRow` of
        the source parent is taken out and inserted at row
        `destinationChild` of the destination parent, and the tree keeps
        its number of tasks. */
    method MovePass(source: seq<nat>, sourceRow: int, destination: seq<nat>, destinationChild: int,
                    ghost trace: seq<MoveState>, ghost k: nat, ghost firstRow: int, ghost firstChild: int)
      returns (from: seq<nat>, to: seq<nat>)
      requires k + 1 < |trace| && forall j :: 0 <= j < |trace| - 1 ==> PassInTrace(trace, j, firstRow, firstChild)
      requires root == trace[k].tree && source == trace[k].from && destination == trace[k].to
      requires sourceRow == firstRow + k && destinationChild == firstChild + k
      modifies this
      ensures root == trace[k + 1].tree && from == trace[k + 1].from && to == trace[k + 1].to
      ensures AllTasks(root) == AllTasks(old(root))
    {
      assert PassInTrace(trace, k, firstRow, firstChild);
      MoveStepKeepsTasks(root, source, sourceRow, destination, destinationChild, trace[k + 1]);
      var fromTask := Lookup(root, source).value;
      var current := fromTask.subtasks[sourceRow];
      RemoveKeepsPath(root, source, sourceRow, destination);
      root := Replace(root, source, fromTask.RemoveSubtask(sourceRow));
      to := ShiftOut(destination, source, sourceRow);
      var toTask := Lookup(root, to).value;
      from := ShiftIn(source, to, destinationChild);
      root := Replace(root, to, toTask.InsertSubtask(current, destinationChild));
    }

    /** `pathToIndex`: the path lists rows from the task up to its top-level
        ancestor; the index is found by walking down from the root. */
    method PathToIndex(path: seq<int>) returns (index: ModelIndex)
      requires path != [] ==> CanWalk(Index(path[|path| - 1], 0, Invalid), Reverse(path)[1..])
      ensures index == FromRoot(Reverse(path))
    {
      if path == [] {
        return Invalid;
      }
      index := Index(path[|path| - 1], 0, Invalid);
      var i := |path| - 1;
      assert Reverse(path)[1..] == Reverse(path[..i]);
      while i > 0
        invariant 0 <= i <= |path| - 1
        invariant ValidIndex(index) && CanWalk(index, Reverse(path[..i]))
        invariant Walk(index, Reverse(path[..i])) == FromRoot(Reverse(path))
      {
        assert Reverse(path[..i]) == [path[i - 1]] + Reverse(path[..i - 1]) by {
          assert path[..i][..i - 1] == path[..i - 1];
        }
        index := Child(index, path[i - 1]);
        i := i - 1;
      }
    }

    /** `QModelIndex::child`: the cell at `row`, column 0, under a cell; an
        invalid index has no children. */
    function Child(index: ModelIndex, row: int): (r: ModelIndex)
      reads this
      requires ValidIndex(index) && (index.Cell? ==> GetTask(index).Some?)
      ensures ValidIndex(r)
    {
      if index.Invalid? then Invalid else Index(row, 0, index)
    }

    /** Walking down `rows` from `index` never asks a null task for its
        children. */
    predicate CanWalk(index: ModelIndex, rows: seq<int>)
      reads this
      requires ValidIndex(index)
      decreases |rows|
    {
      rows == [] || ((index.Cell? ==> GetTask(index).Some?) && CanWalk(Child(index, rows[0]), rows[1..]))
    }

    function Walk(index: ModelIndex, rows: seq<int>): (r: ModelIndex)
      reads this
      requires ValidIndex(index) && CanWalk(index, rows)
      ensures ValidIndex(r)
      decreases |rows|
    {
      if rows == [] then index else Walk(Child(index, rows[0]), rows[1..])
    }

    /** The index reached from the root through `rows`, given top-level row
        first. */
    function FromRoot(rows: seq<int>): (r: ModelIndex)
      reads this
      requires rows != [] ==> CanWalk(Index(rows[0], 0, Invalid), rows[1..])
    {
      if rows == [] then Invalid else Walk(Index(rows[0], 0, Invalid), rows[1..])
    }

    lemma {:induction false} WalkInvalid(rows: seq<int>)
      requires CanWalk(Invalid, rows)
      ensures Walk(Invalid, rows) == Invalid
      decreases |rows|
    {
      if rows != [] {
        WalkInvalid(rows[1..]);
      }
    }

    lemma {:induction false} WalkMeaning(p: seq<nat>, rows: seq<int>)
      requires |p| > 0 && IsPath(root, p) && CanWalk(Cell(p, 0), rows)
      ensures Walk(Cell(p, 0), rows) ==
        if NonNegative(rows) && IsPath(root, p + AsPath(rows)) then Cell(p + AsPath(rows), 0) else Invalid
      decreases |rows|
    {
      if rows == [] {
        assert p + AsPath(rows) == p;
      } else {
        var r, rest := rows[0], rows[1..];
        var kids := Lookup(root, p).value.subtasks;
        AsPathCons(rows, p);
        if 0 <= r < |kids| {
          LookupChild(root, p, r);
          WalkMeaning(p + [r], rest);
        } else {
          WalkInvalid(rest);
          if NonNegative(rows) {
            LookupConcat(root, p, AsPath(rows));
            assert AsPath(rows)[0] == r;
          }
        }
      }
    }

    /** `pathToIndex` finds the task at the given path: the result is the
        cell of the path, top-level row first, exactly when every row of it
        exists, and an invalid index otherwise. */
    lemma FromRootMeaning(rows: seq<int>)
      requires rows != [] ==> CanWalk(Index(rows[0], 0, Invalid), rows[1..])
      ensures FromRoot(rows) ==
        if rows != [] && NonNegative(rows) && IsPath(root, AsPath(rows)) then Cell(AsPath(rows), 0) else Invalid
    {
      if rows != [] {
        var r, rest := rows[0], rows[1..];
        if 0 <= r < |root.subtasks| {
          assert Index(r, 0, Invalid) == Cell([r], 0) by {
            assert PathOf(Invalid) + [r] == [r];
          }
          WalkMeaning([r], rest);
          AsPathCons(rows, []);
        } else {
          WalkInvalid(rest);
          if NonNegative(rows) {
            assert AsPath(rows)[0] == r;
          }
        }
      }
    }

    /** `loadTasklist`: nothing for an empty file name; otherwise the root's
        subtasks are cleared first and, when the file exists (`document` is
        its parsed content), the document's tasks are appended. */
    method LoadTasklist(fileName: string, document: Option<Yaml.Node>) returns (ok: bool)
      requires document.Some? ==> Yaml.AllConvertible(Yaml.RootItems(document.value))
      modifies this
      ensures ok <==> fileName != "" && document.Some?
      ensures fileName == "" ==> root == old(root)
      ensures fileName != "" && document.None? ==> root == old(root).Clear()
      ensures ok ==> root == old(root).Clear().(subtasks := Yaml.DeserializeAll(Yaml.RootItems(document.value)))
    {
      if fileName == "" {
        return false;
      }
      root := root.Clear();
      if document.None? {
        return false;
      }
      root := Yaml.DeserializeRoot(document.value, root);
      assert [] + Yaml.DeserializeAll(Yaml.RootItems(document.value)) == Yaml.DeserializeAll(Yaml.RootItems(document.value));
      return true;
    }

    /** `saveTasklist`: nothing for an empty file name or a file that cannot
        be opened for writing; otherwise the document written is the
        encoding of the root. */
    method SaveTasklist(fileName: string, writable: bool) returns (ok: bool, written: Option<Yaml.Node>)
      requires fileName != "" && writable ==> NoNulls(root)
      ensures ok <==> fileName != "" && writable
      ensures ok ==> written == Some(Yaml.Serialize(root))
      ensures !ok ==> written == None
    {
      if fileName == "" {
        return false, None;
      }
      if !writable {
        return false, None;
      }
      return true, Some(Yaml.Serialize(root));
    }
  }
}
