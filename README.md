# Task list model and its YAML codec, in Dafny

Hussein keeps a to-do list as a tree of tasks. Every task has a description,
a done flag, an expanded flag and an ordered list of subtasks. A Qt item model
(`TaskModel`) exposes the tree to a tree view and edits it in place. The YAML
serializer writes the tree, and a flat settings hash, as YAML documents and
reads them back.

This project models those two pieces and proves properties of the model.

- **`wrappers.dfy`** defines `Option`.
- **`tasks.dfy`** (module `Tasks`) defines the task tree as a value.
  - A child slot is an optional task, because the YAML reader stores a null
    pointer for a list element that is not a map.
  - A position in the tree is a path of rows. `Lookup` reads the slot at a
    path. `Replace` rebuilds the tree with the task at a path swapped for
    another.
  - `AllTasks` is the multiset of a tree's tasks, each taken without its
    subtasks.
  - Every in-place update the model makes is a `Replace`. The lemmas about
    `Lookup`, `Replace` and `AllTasks` say what such an update touches and
    what it leaves alone.
- **`yamlserialization.dfy`** (module `Yaml`) holds the codec over an abstract
  YAML `Node`.
  - Writing: the tree encoding and the settings encoding.
  - Reading: the tolerant root and task readers, and the settings reader.
  - Round-trip lemmas for tasks, whole trees, single settings and whole
    settings hashes.
- **`taskmodel.dfy`** (module `TaskModels`) holds the model.
  - A class `TaskModel` owns the root task. Its methods update `root` in
    place; its functions answer the view's queries.
  - A model index is either invalid, which every operation reads as the root,
    or a cell holding the path of the task it stands for.
  - `moveRows` is modelled as written. The loop removes row `sourceRow` of the
    source parent, inserts that task at row `destinationChild` of the
    destination parent, and then advances **both** rows.
    - Between two parents in separate subtrees (neither inside the other),
      this moves the tasks originally at `sourceRow`, `sourceRow + 2`,
      `sourceRow + 4`, … and leaves the tasks in between in place
      (`MoveBetweenStride`, `StrideExample`, `MoveApart`).
    - Within one parent, moving rows up moves the contiguous run
      (`MoveWithinUp`).
    - Within one parent, moving rows down does not keep the run together.
      After the first pass, the source row points past a row that has not
      moved yet. Moving the first two of `[1, 2, 3, 4, 5, 6]` to row 4 gives
      `[2, 4, 5, 1, 6, 3]` (`MoveDownExample`).
    - When one parent lies inside the other, each pass's effect on both
      parents is stated (`MoveStepParents`), and the rest of the tree is
      found at its renumbered paths (`RemoveKeepsPath`, `InsertKeepsPath`).
      The whole loop is not given in closed form.
    - In every case the tree holds the same tasks after the loop as before,
      counted with multiplicity (`MoveSteps`, `MoveRows`).
  - The tree-wide loop is `MoveSteps`. It follows both parents' paths as rows
    shift under them. `MoveApart` and `MoveSame` reduce it to the list-level
    loops `MoveBetween` and `MoveWithin`.

## Model

| member | source | states |
|---|---|---|
| `Tasks.InsertSlices` | src/models/taskmodel.cpp:187 | inserting a subtask at row `i` keeps the rows before `i`, puts the new task at `i` and shifts the rest down one row |
| `Tasks.RemoveSlices` | src/models/taskmodel.cpp:201 | removing the subtask at row `i` keeps the rows before `i` and shifts the later rows up one |
| `Tasks.InsertMultiset` | src/models/taskmodel.cpp:227 | an insertion adds exactly the inserted task to the subtasks |
| `Tasks.RemoveMultiset` | src/models/taskmodel.cpp:224-225 | a removal takes away exactly the task that was at that row |
| `Tasks.NewTask` | src/models/taskmodel.cpp:187 | a new task has an empty description, is not done, is expanded and has no subtasks; these defaults are those of Task's constructor, taken as given because src/limbs/task.h is not part of this model |
| `Tasks.Task.InsertSubtask` | src/models/taskmodel.cpp:187 | `insertSubtask` changes only the subtask list, which becomes the list with the task inserted at the row |
| `Tasks.Task.RemoveSubtask` | src/models/taskmodel.cpp:201 | `removeSubtask` changes only the subtask list, which loses the row |
| `Tasks.Task.AppendSubtask` | src/serialization/yamlserialization.cpp:206 | `appendSubtask` adds the task after the existing subtasks and keeps the attributes |
| `Tasks.Task.Clear` | src/models/taskmodel.cpp:319 | `clear` empties the subtask list and keeps the task's own attributes |
| `Tasks.LookupReplace` | src/models/taskmodel.cpp:150-156 | after an in-place update of the task at a path, that path leads to the updated task |
| `Tasks.LookupReplaceApart` | src/models/taskmodel.cpp:150-156 | an in-place update of one task leaves every task in another subtree untouched |
| `Tasks.ReplaceTasks` | src/models/taskmodel.cpp:224-227 | updating the task at a path swaps the tasks of the old subtree for those of the new one, and every other task of the tree stays |
| `Tasks.UpdateTasks` | src/models/taskmodel.cpp:224-227 | overwriting one subtask slot swaps the tasks of the old subtree for those of the new one |
| `Tasks.InsertTasks` | src/models/taskmodel.cpp:227 | inserting a subtask adds exactly the tasks of its subtree |
| `Tasks.RemoveTasks` | src/models/taskmodel.cpp:224-225 | removing a subtask takes away exactly the tasks of its subtree |
| `Tasks.LookupReplaceAncestor` | src/models/taskmodel.cpp:150-156 | an in-place update of a task changes, in each of its ancestors, only the subtask slot on the way to it |
| `TaskModels.SetAttribute` | src/models/taskmodel.cpp:152-176 | `setData` updates a task exactly for the edit, description, done and expanded roles and never touches its subtasks |
| `TaskModels.VariantToBool` | src/models/taskmodel.cpp:162-168 | a boolean is itself, an integer is true exactly when non-zero, an invalid value is false, and a string is false exactly when it is empty, "0" or "false" in any letter case |
| `TaskModels.VariantToString` | src/models/taskmodel.cpp:156 | a string is its own text, a boolean is "true" or "false", an invalid value is empty, and an integer is written in decimal without leading zeros, with a minus sign when negative |
| `TaskModels.TaskData` | src/models/taskmodel.cpp:61-102 | `data` answers something exactly for display and edit in column 0 and for the three task roles in any column |
| `TaskModels.DataAfterSetData` | src/models/taskmodel.cpp:142-177 | reading back an attribute after `setData` gives the written value: the description through the description and edit roles (the raw text) and the display role ("(empty)" for an empty one), the flags through their roles; the other attributes read as before |
| `TaskModels.RemoveKeepsPath` | src/models/taskmodel.cpp:225 | after a subtask is removed, every task outside the removed subtree is found at its path, renumbered when it passed a later row of the same parent; the parent is the parent with the row gone, and each ancestor changes only in the subtask slot toward it |
| `TaskModels.InsertKeepsPath` | src/models/taskmodel.cpp:227 | after a subtask is inserted, every task not above the parent is found at its path renumbered past the insertion row; the parent is the parent with the task inserted, and each ancestor changes only in the subtask slot toward it |
| `TaskModels.MoveStep` | src/models/taskmodel.cpp:222-227 | one pass of the move loop; after it, both parents are found again at their shifted paths |
| `TaskModels.MoveStepParents` | src/models/taskmodel.cpp:222-227 | after one pass, the destination parent is the original with the moved task inserted at the destination row and the source parent is the original without the source row; when one parent is inside the other, the outer one also changes in the subtask slot toward the inner one, and within one parent the list has one row moved |
| `TaskModels.MoveSteps` | src/models/taskmodel.cpp:220-228 | the whole loop does nothing for a non-positive count, and a loop that finishes leaves the tree holding the same tasks |
| `TaskModels.MoveStepUnfold` | src/models/taskmodel.cpp:220-228 | a loop that finishes is its first pass followed by the remaining passes on the next rows |
| `TaskModels.MoveTrace` | src/models/taskmodel.cpp:220-228 | a loop that finishes passes through a sequence of states, one pass apart, from the initial tree to its result |
| `TaskModels.TraceCons` | src/models/taskmodel.cpp:220 | a pass followed by the later passes' states, on the advanced rows, forms the whole loop's trace |
| `TaskModels.MoveStepKeepsTasks` | src/models/taskmodel.cpp:224-227 | one pass keeps the tasks of the tree: the task taken out is the task put back |
| `TaskModels.MoveStepMovesOne` | src/models/taskmodel.cpp:224-227 | after one pass, the task removed from the source row is the destination parent's subtask at the destination row |
| `TaskModels.MoveBetween` | src/models/taskmodel.cpp:220-228 | the loop on two separate subtask lists keeps their total length |
| `TaskModels.MoveBetweenStride` | src/models/taskmodel.cpp:220-228 | between two parents, the loop inserts the tasks originally at `sourceRow`, `sourceRow + 2`, … as one block at `destinationChild`, and the source keeps everything else in order |
| `TaskModels.MoveBetweenTo` | src/models/taskmodel.cpp:227 | the destination list after the loop is the original with the strided tasks inserted as a block |
| `TaskModels.MoveBetweenFrom` | src/models/taskmodel.cpp:224-225 | the source list after the loop keeps the rows before `sourceRow`, the rows skipped by the stride and the rows after the last one taken |
| `TaskModels.MoveBetweenPermutes` | src/models/taskmodel.cpp:220-228 | between two parents, the two lists together hold the same tasks before and after the loop |
| `TaskModels.StrideExample` | src/models/taskmodel.cpp:220-228 | moving two rows from the start of `[1, 2, 3]` to an empty parent moves 1 and 3 and leaves 2 behind |
| `TaskModels.MoveDownExample` | src/models/taskmodel.cpp:220-228 | moving the first two of six rows down to row 4 within one parent gives `[2, 4, 5, 1, 6, 3]`: the moved rows do not stay together |
| `TaskModels.MoveIntoMovedExample` | src/models/taskmodel.cpp:220-228 | moving the first two of three rows into the third reaches a pass that would hang the third row below itself, so the loop is undefined |
| `TaskModels.MoveLastRowsExample` | src/models/taskmodel.cpp:220-228 | moving the last two of three rows into the first reaches a pass that reads past the end of the shortened list, so the loop is undefined |
| `TaskModels.MoveToEndExample` | src/models/taskmodel.cpp:224-227 | moving the first of three rows to row 3 of its own parent inserts past the end of the shortened list, so the loop is undefined |
| `TaskModels.MoveWithin` | src/models/taskmodel.cpp:220-228 | the loop within one parent keeps the number of subtasks |
| `TaskModels.MoveOne` | src/models/taskmodel.cpp:224-227 | one pass within one parent keeps the number of subtasks |
| `TaskModels.MoveOnePermutes` | src/models/taskmodel.cpp:224-227 | one pass within one parent only reorders its subtasks |
| `TaskModels.MoveWithinPermutes` | src/models/taskmodel.cpp:220-228 | within one parent the loop only reorders the subtasks |
| `TaskModels.MoveUpOnce` | src/models/taskmodel.cpp:224-227 | moving a row up within a parent puts it in front of the destination row and shifts the rows in between down one |
| `TaskModels.MoveWithinUp` | src/models/taskmodel.cpp:220-228 | moving rows up within one parent moves the run `[sourceRow, sourceRow + count)` in front of `destinationChild` as a block |
| `TaskModels.MoveStepApart` | src/models/taskmodel.cpp:222-227 | one pass between parents in separate subtrees changes only those two tasks, and neither parent's path shifts |
| `TaskModels.MoveApart` | src/models/taskmodel.cpp:207-233 | between parents in separate subtrees, the tree-wide loop is the list-level loop on their two subtask lists written back, and nothing else in the tree changes |
| `TaskModels.MoveStepSame` | src/models/taskmodel.cpp:222-227 | one pass within one parent replaces its subtask list by the list with one row moved |
| `TaskModels.MoveSame` | src/models/taskmodel.cpp:207-233 | within one parent, the tree-wide loop is the list-level loop on that parent's subtasks, and nothing else in the tree changes |
| `TaskModels.Fresh` | src/models/taskmodel.cpp:186-187 | `insertRows` creates one new default task per requested row, none for a non-positive count |
| `TaskModels.RowsInserted` | src/models/taskmodel.cpp:186-187 | after `insertRows` the rows before `position` stay, `count` new default tasks follow, and the old rows from `position` on come after them |
| `TaskModels.RowsRemoved` | src/models/taskmodel.cpp:200-201 | after `removeRows` the rows before `position` stay and each later row moves up by `count` |
| `TaskModels.InsertThenRemove` | src/models/taskmodel.cpp:179-205 | `removeRows` at the same position and count undoes `insertRows`, and the insertion adds exactly `count` rows |
| `TaskModels.InsertedStep` | src/models/taskmodel.cpp:186-187 | one more pass of the `insertRows` loop puts one more new task at `position` |
| `TaskModels.RemovedStep` | src/models/taskmodel.cpp:200-201 | one more pass of the `removeRows` loop removes the next row of the run |
| `TaskModels.DropMimeData` | src/models/taskmodel.cpp:270-286 | no drop is ever carried out; only the ignore action reports success |
| `TaskModels.ReloadRestores` | src/models/taskmodel.cpp:312-333 | loading the document that saving wrote into the cleared root gives the saved tree back |
| `TaskModels.TaskModel.constructor` | src/models/taskmodel.cpp:14-19 | a new model holds a root described as "(root)", not done, expanded and without subtasks |
| `TaskModels.TaskModel.GetTask` | src/models/taskmodel.cpp:307-310 | an index stands for the task at its path, and an invalid index stands for the root |
| `TaskModels.TaskModel.RowCount` | src/models/taskmodel.cpp:132-135 | the row count is the number of subtasks of the parent's task |
| `TaskModels.TaskModel.ColumnCount` | src/models/taskmodel.cpp:137-140 | every task has exactly one column, whatever the parent |
| `TaskModels.TaskModel.HasIndex` | src/models/taskmodel.cpp:27 | a row and column exist under a parent exactly when the row is one of its subtasks and the column is 0 |
| `TaskModels.TaskModel.Index` | src/models/taskmodel.cpp:25-31 | a cell is returned exactly when the row exists under the parent and the column is 0; it stands for the parent's subtask at that row |
| `TaskModels.TaskModel.Parent` | src/models/taskmodel.cpp:33-48 | the parent of a top-level task and of the root is invalid; otherwise it is the column-0 cell one level up the path |
| `TaskModels.TaskModel.IndexParent` | src/models/taskmodel.cpp:25-48 | `index` and `parent` undo each other on column-0 cells |
| `TaskModels.TaskModel.Data` | src/models/taskmodel.cpp:50-103 | `data` answers for a valid index exactly in the cases `TaskData` reads, with the task's attributes; an invalid index gets nothing |
| `TaskModels.TaskModel.SetData` | src/models/taskmodel.cpp:142-177 | the edit roles succeed and update only the task behind the index (the root for an invalid index); other roles fail and change nothing |
| `TaskModels.TaskModel.InsertRows` | src/models/taskmodel.cpp:179-191 | the parent gains `count` new tasks at `position` and the rest of the tree is unchanged |
| `TaskModels.TaskModel.RemoveRows` | src/models/taskmodel.cpp:193-205 | the parent loses the `count` rows from `position` on and the rest of the tree is unchanged |
| `TaskModels.TaskModel.MoveRows` | src/models/taskmodel.cpp:207-233 | a null parent or a refused move fails and changes nothing; otherwise the tree becomes the result of the loop and holds the same tasks |
| `TaskModels.TaskModel.MovePasses` | src/models/taskmodel.cpp:220-228 | the in-place loop ends in the loop's final state and keeps the tasks of the tree |
| `TaskModels.TaskModel.MovePass` | src/models/taskmodel.cpp:222-227 | one in-place pass reaches the next state of the loop and keeps the tasks of the tree |
| `TaskModels.TaskModel.PathToIndex` | src/models/taskmodel.cpp:294-305 | the index is found by walking down from the root along the path taken in reverse (the path lists the task's own row first) |
| `TaskModels.TaskModel.WalkMeaning` | src/models/taskmodel.cpp:301-302 | walking down rows from a cell reaches the cell of the extended path when every row exists, and an invalid index otherwise |
| `TaskModels.TaskModel.FromRootMeaning` | src/models/taskmodel.cpp:294-305 | `pathToIndex` yields the cell of the reversed path exactly when every row on it exists, and an invalid index otherwise |
| `TaskModels.TaskModel.LoadTasklist` | src/models/taskmodel.cpp:312-325 | an empty file name fails and changes nothing; otherwise the root is cleared, and when the file exists its tasks become the root's subtasks |
| `TaskModels.TaskModel.SaveTasklist` | src/models/taskmodel.cpp:327-333 | an empty file name or an unwritable file fails; otherwise the document written is the encoding of the root |
| `Yaml.SerializeTask` | src/serialization/yamlserialization.cpp:159-184 | a task is written as a map with its description and both flags, plus `tasks` with its subtasks in order exactly when it has any |
| `Yaml.SerializeAll` | src/serialization/yamlserialization.cpp:177-178 | the subtasks are written one element each, in order |
| `Yaml.Serialize` | src/serialization/yamlserialization.cpp:18-38 | the root is written as a map holding only `tasks`, and only when it has subtasks |
| `Yaml.DeserializeTask` | src/serialization/yamlserialization.cpp:209-243 | reading gives a null task exactly for a node that is not a map |
| `Yaml.DeserializeAll` | src/serialization/yamlserialization.cpp:239-240 | each element of `tasks` is read as one subtask, in order |
| `Yaml.TaskItems` | src/serialization/yamlserialization.cpp:228-237 | a task's children are the elements of its `tasks` entry when that is a sequence, and none when it is absent, null or anything else |
| `Yaml.RootItems` | src/serialization/yamlserialization.cpp:188-203 | the root's new children are the elements of the document's `tasks` sequence, and none unless the document is a map with such a sequence |
| `Yaml.DeserializeRoot` | src/serialization/yamlserialization.cpp:186-207 | the root gains one subtask per element of the document's `tasks` sequence, after the subtasks it had |
| `Yaml.TaskRoundTrip` | src/serialization/yamlserialization.cpp:159-243 | reading a written task gives back the same task, at every depth |
| `Yaml.RootRoundTrip` | src/serialization/yamlserialization.cpp:186-207 | reading a written root appends exactly the written root's subtasks |
| `Yaml.RootTolerance` | src/serialization/yamlserialization.cpp:188-203 | the root reader adds nothing exactly when the document is not a map or its `tasks` is absent, not a sequence or empty |
| `Yaml.TaskTolerance` | src/serialization/yamlserialization.cpp:217-240 | each present attribute is read and each absent one keeps a new task's default; the subtasks are the decoded `tasks` elements in order, a null slot for each element that is not a map, and none for an absent or non-sequence `tasks` |
| `Yaml.Hex` | src/serialization/yamlserialization.cpp:99 | a byte array is written as two lower-case hex digits per byte |
| `Yaml.HexRoundTrip` | src/serialization/yamlserialization.cpp:99 | the hex text determines the bytes it was made from |
| `Yaml.NatToString` | src/serialization/yamlserialization.cpp:113 | a number is written as decimal digits without a leading zero whose value is the number |
| `Yaml.WrongType` | src/serialization/yamlserialization.cpp:113 | the placeholder is "(wrong type " followed by the type number in decimal without leading zeros and ")" |
| `Yaml.EncodeSetting` | src/serialization/yamlserialization.cpp:92-115 | a string list is written as a sequence, and every other kind as a scalar |
| `Yaml.EncodeSettings` | src/serialization/yamlserialization.cpp:81-118 | the settings document has exactly one entry per key of the hash |
| `Yaml.SerializeSettings` | src/serialization/yamlserialization.cpp:76-121 | the loop over the hash writes the document `EncodeSettings` describes, whatever the order of the keys |
| `Yaml.ReadSetting` | src/serialization/yamlserialization.cpp:255-266 | a scalar is read as its text and a sequence as the list of its elements' texts; a null or a map is skipped |
| `Yaml.ReadEntriesAdd` | src/serialization/yamlserialization.cpp:253-267 | each pass of the reader's loop sets the key of a readable entry and changes nothing otherwise |
| `Yaml.ReadSettings` | src/serialization/yamlserialization.cpp:245-268 | a non-map document leaves the hash as it was; otherwise the hash gains the keys of the readable entries, each holding the read value, and every other key keeps its value |
| `Yaml.DeserializeSettingsToHash` | src/serialization/yamlserialization.cpp:245-268 | a null or non-map document changes nothing; otherwise each readable entry overwrites its key and every other key keeps its value |
| `Yaml.SettingRoundTrip` | src/serialization/yamlserialization.cpp:92-115 | a written string or string list reads back unchanged; a byte array reads back as its hex text, any other kind as the placeholder |
| `Yaml.SettingsRoundTrip` | src/serialization/yamlserialization.cpp:245-268 | reading a written hash into a target sets every written key to the reread value, and every other key keeps the target's value |

## Left out

- `Task` itself (`src/limbs/task.h`) is not part of this model. Its operations
  are modelled as the plain list edits their names describe:
  - `insertSubtask` and `removeSubtask` are taken to succeed for rows inside
    the list.
  - The back pointer behind `task->parent()` and `task->row()` is replaced by
    paths.
- TaskModels.TaskModel.InsertRows: requires `position` to lie inside the
  parent's list when rows are inserted.
  - The source passes any position to `insertSubtask`, whose handling of a bad
    row is not part of this model.
- TaskModels.TaskModel.RemoveRows: requires the removed run to lie inside the
  parent's list, for the same reason.
- TaskModels.TaskModel.MoveRows: requires every pass of the loop to be
  defined. A pass can be undefined in three ways, and the source guards
  against none of them. The model does not say what happens then.
  - It reads outside the source list through `at()`.
  - It inserts past the end of the destination list, which the removal may
    just have shortened.
  - It hangs a task below itself.
  - `beginMoveRows`' verdict is the `accepted` parameter.
  - Some moves that `beginMoveRows` accepts reach such a pass. Three examples
    follow.
  - Moving a row to the end of its own parent, `moveRows(p, 0, 1, p, n)` with
    `n` rows: after the removal the list has `n - 1` rows, so inserting at row
    `n` is out of range (`MoveToEndExample`). This excludes Qt's usual "move
    to the end" request.
  - Moving the first two of three rows into the third: the second pass would
    put the third row inside itself (`MoveIntoMovedExample`). The source then
    returns true with two tasks gone from the tree.
  - Moving the last two rows of a parent elsewhere: the second pass reads a
    row past the end of the shortened list (`MoveLastRowsExample`).
  - These moves are outside what the model promises.
- The model indexes are paths rather than internal pointers.
  - `parent`'s `task->row() == -1` branch cannot occur in a tree reached by
    paths.
  - An index that a later edit has invalidated is not modelled.
- Signals (`dataChanged`, the begin/end reset, insert, remove and move
  notifications) are not modelled. Neither are `flags`, `headerData`,
  `mimeData`, `mimeTypes`, `supportedDropActions`, `root()` and
  `taskDataChanged`, which only emit or describe.
- `dropMimeData`'s MIME payload is reduced to whether it has plain text.
- `tr()` translation is left out; "(root)" and "(empty)" are the untranslated
  texts.
- File I/O is modelled by parameters.
  - Loading gets the parsed document, or none when the file does not exist.
  - Saving reports whether the file could be opened and returns the document
    it writes.
  - The byte-array entry points (`serialize(Task*)` to text,
    `deserialize(QByteArray)`) and the settings file wrappers are the same
    codec without the file.
- The YAML text layer (yaml-cpp's emitter and parser) is not modelled.
  - A document is an abstract node. A map is keyed by the keys' text, so key
    order is not kept.
  - A boolean scalar is read back as `true`/`false`, not in its original
    spelling.
- Yaml.DeserializeTask: requires that no `.as<>()` conversion throws. The
  yaml-cpp exceptions for a non-scalar description or a non-boolean flag are
  not modelled.
  - A null description is excluded as well. Depending on the yaml-cpp
    version, `as<std::string>()` on a null node throws or gives the text
    "null", and no version is fixed.
- Yaml.DeserializeSettingsToHash: requires every sequence element to be a
  scalar.
  - A map or sequence element makes `.as<std::string>()` throw.
  - A null element does not throw from yaml-cpp 0.6 on, where it reads as
    the text "null". Older versions throw, and no version is fixed, so null
    elements are excluded too.
- Yaml.SerializeTask: requires a tree without null subtasks. The source would
  dereference a null pointer.
- QHash iteration order is not modelled. `SerializeSettings` picks keys in an
  arbitrary order, and its result does not depend on that order.
- QVariant kinds other than string, byte array and string list are reduced to
  their type number in the settings codec.
- `TaskModels.Variant` models the invalid, string, boolean and integer kinds of
  the values `setData` takes. Other kinds (doubles, dates, lists) and their
  `toString`/`toBool` conversions are not modelled.
- The `moveRows` loop with one parent inside the other is described pass by
  pass (`MoveStepParents`) and by the tasks it keeps (`MoveSteps`). Its result
  after several passes is not given in closed form.
- Memory ownership is not modelled: the tasks dropped by `clear` and
  `removeRows`, and the tasks leaked on failure.
- Order in `loadTasklist`: the code clears the root before it checks that the
  file exists, so a missing file leaves an empty tree. The model follows the
  code.
