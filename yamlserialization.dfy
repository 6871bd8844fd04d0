/** The YAML codec of the task tree and of the flat settings hash.

    A YAML document is the abstract `Node` below. The yaml-cpp emitter and
    parser that turn it into text and back are not part of this model; `Str`
    stands for a scalar that yaml-cpp does not read as a boolean and `Bool`
    for one it does. A map is keyed by the keys' text. */
module Yaml {
  import opened Wrappers
  import opened Tasks

  datatype Node = Null | Str(text: string) | Bool(flag: bool) | Seq(items: seq<Node>) | Map(entries: map<string, Node>)

  /** `.as<std::string>()` succeeds on a scalar ... */
  predicate IsText(n: Node)
  {
    n.Str? || n.Bool?
  }

  /** ... and gives the scalar's text. */
  function AsString(n: Node): string
    requires IsText(n)
  {
    match n
    case Str(s) => s
    case Bool(b) => if b then "true" else "false"
  }

  // ---------------------------------------------------------------------------
  // Task tree to document

  /** `serializeTask`: a map with the three attributes, and `tasks` only
      when the task has subtasks. A null subtask would be dereferenced, so
      the tree must hold none. */
  function SerializeTask(t: Task): (n: Node)
    requires NoNulls(t)
    ensures n.Map? && "description" in n.entries && "done" in n.entries && "expanded" in n.entries
    ensures n.entries["description"] == Str(t.description)
    ensures n.entries["done"] == Bool(t.done) && n.entries["expanded"] == Bool(t.expanded)
    ensures "tasks" in n.entries <==> |t.subtasks| > 0
    ensures n.entries.Keys <= {"description", "done", "expanded", "tasks"}
    ensures "tasks" in n.entries ==>
      n.entries["tasks"].Seq? && |n.entries["tasks"].items| == |t.subtasks| &&
      forall i :: 0 <= i < |t.subtasks| ==> n.entries["tasks"].items[i] == SerializeTask(t.subtasks[i].value)
  {
    var attributes := map["description" := Str(t.description), "done" := Bool(t.done), "expanded" := Bool(t.expanded)];
    if |t.subtasks| == 0 then Map(attributes)
    else
      Map(attributes["tasks" := Seq(seq(|t.subtasks|, i requires 0 <= i < |t.subtasks| => SerializeTask(t.subtasks[i].value)))])
  }

  /** The encodings of a list of subtasks, in order. */
  function SerializeAll(s: seq<Slot>): (r: seq<Node>)
    requires forall i :: 0 <= i < |s| ==> s[i].Some? && NoNulls(s[i].value)
    ensures |r| == |s| && forall i :: 0 <= i < |s| ==> r[i] == SerializeTask(s[i].value)
  {
    seq(|s|, i requires 0 <= i < |s| => SerializeTask(s[i].value))
  }

  /** `serialize(Task *root)`: the root is a bare map holding only `tasks`,
      and only when it has subtasks; its own attributes are never written. */
  function Serialize(root: Task): (n: Node)
    requires NoNulls(root)
    ensures n.Map? && n.entries.Keys <= {"tasks"}
    ensures "tasks" in n.entries <==> |root.subtasks| > 0
    ensures "tasks" in n.entries ==> n.entries["tasks"] == Seq(SerializeAll(root.subtasks))
  {
    if |root.subtasks| == 0 then Map(map[])
    else Map(map["tasks" := Seq(SerializeAll(root.subtasks))])
  }

  // ---------------------------------------------------------------------------
  // Document to task tree

  /** The children a map's `tasks` key yields: none when the key is absent,
      null or not a sequence. */
  function TaskItems(m: map<string, Node>): (r: seq<Node>)
    ensures "tasks" in m && m["tasks"].Seq? ==> r == m["tasks"].items
    ensures !("tasks" in m && m["tasks"].Seq?) ==> r == []
  {
    if "tasks" !in m then []
    else if m["tasks"].Null? then []
    else if !m["tasks"].Seq? then []
    else m["tasks"].items
  }

  /** No `.as<bool>()` or `.as<std::string>()` in `deserializeTask` throws:
      a present `description` is a scalar, a present `done` or `expanded` is
      a boolean, throughout the tree. */
  predicate Convertible(n: Node)
  {
    match n
    case Map(m) =>
      ("description" in m ==> IsText(m["description"])) &&
      ("done" in m ==> m["done"].Bool?) &&
      ("expanded" in m ==> m["expanded"].Bool?) &&
      ("tasks" in m && m["tasks"].Seq? ==>
         forall i :: 0 <= i < |m["tasks"].items| ==> Convertible(m["tasks"].items[i]))
    case _ => true
  }

  /** `deserializeTask`: null for anything but a map; otherwise a fresh task
      whose absent attributes keep their defaults and whose subtasks are the
      decoded `tasks` elements, null ones included. */
  function DeserializeTask(n: Node): (r: Slot)
    requires Convertible(n)
    ensures r.None? <==> !n.Map?
  {
    match n
    case Map(m) =>
      var items := TaskItems(m);
      Some(Task(
        if "description" in m then AsString(m["description"]) else NewTask().description,
        if "done" in m then m["done"].flag else NewTask().done,
        if "expanded" in m then m["expanded"].flag else NewTask().expanded,
        seq(|items|, i requires 0 <= i < |items| => DeserializeTask(items[i]))))
    case _ => None
  }

  predicate AllConvertible(items: seq<Node>)
  {
    forall i :: 0 <= i < |items| ==> Convertible(items[i])
  }

  /** The decoded tasks of a list of elements, in order. */
  function DeserializeAll(items: seq<Node>): (r: seq<Slot>)
    requires AllConvertible(items)
    ensures |r| == |items| && forall i :: 0 <= i < |items| ==> r[i] == DeserializeTask(items[i])
  {
    seq(|items|, i requires 0 <= i < |items| => DeserializeTask(items[i]))
  }

  /** The elements `deserializeRoot` reads: none unless the document is a
      map whose `tasks` is a sequence. */
  function RootItems(n: Node): (r: seq<Node>)
    ensures n.Map? && "tasks" in n.entries && n.entries["tasks"].Seq? ==> r == n.entries["tasks"].items
    ensures !(n.Map? && "tasks" in n.entries && n.entries["tasks"].Seq?) ==> r == []
  {
    if n.Null? then []
    else if !n.Map? then []
    else TaskItems(n.entries)
  }

  /** `deserializeRoot`: appends one subtask per element of the document's
      `tasks` sequence, after the subtasks the root already has. */
  method DeserializeRoot(node: Node, root: Task) returns (result: Task)
    requires AllConvertible(RootItems(node))
    ensures result == root.(subtasks := root.subtasks + DeserializeAll(RootItems(node)))
  {
    result := root;
    if node.Null? {
      return;
    }
    if !node.Map? {
      return;
    }
    if "tasks" !in node.entries {
      return;
    }
    var tasks := node.entries["tasks"];
    if tasks.Null? {
      return;
    }
    if !tasks.Seq? {
      return;
    }
    var i := 0;
    while i < |tasks.items|
      invariant 0 <= i <= |tasks.items|
      invariant result == root.(subtasks := root.subtasks + DeserializeAll(tasks.items[..i]))
    {
      assert tasks.items[..i + 1] == tasks.items[..i] + [tasks.items[i]];
      result := result.AppendSubtask(DeserializeTask(tasks.items[i]));
      i := i + 1;
    }
    assert tasks.items[..i] == tasks.items;
  }

  /** Decoding a task's encoding gives the task back: the same attributes
      and the same subtasks in the same order, at every level. */
  lemma {:induction false} TaskRoundTrip(t: Task)
    requires NoNulls(t)
    ensures Convertible(SerializeTask(t)) && DeserializeTask(SerializeTask(t)) == Some(t)
  {
    var n := SerializeTask(t);
    var items := TaskItems(n.entries);
    forall i | 0 <= i < |t.subtasks|
      ensures Convertible(items[i]) && DeserializeTask(items[i]) == t.subtasks[i]
    {
      TaskRoundTrip(t.subtasks[i].value);
    }
    assert Convertible(n);
    assert seq(|items|, i requires 0 <= i < |items| => DeserializeTask(items[i])) == t.subtasks;
  }

  /** Decoding the root's encoding onto a root appends exactly the encoded
      root's subtasks; onto a root without subtasks it reproduces them. */
  lemma RootRoundTrip(root: Task, target: Task)
    requires NoNulls(root)
    ensures AllConvertible(RootItems(Serialize(root)))
    ensures target.subtasks + DeserializeAll(RootItems(Serialize(root))) == target.subtasks + root.subtasks
  {
    var items := RootItems(Serialize(root));
    forall i | 0 <= i < |items|
      ensures Convertible(items[i]) && DeserializeTask(items[i]) == root.subtasks[i]
    {
      TaskRoundTrip(root.subtasks[i].value);
    }
    assert DeserializeAll(items) == root.subtasks;
  }

  /** The tolerant cases of `deserializeRoot`: a null or non-map document, or
      a `tasks` that is absent, null or not a sequence, adds nothing. */
  lemma RootTolerance(n: Node)
    ensures RootItems(n) == [] <==>
      !n.Map? || "tasks" !in n.entries || !n.entries["tasks"].Seq? || n.entries["tasks"].items == []
  {
  }

  /** What `deserializeTask` reads from a map: each present attribute is
      read, each absent one keeps the default of a new task, and the
      subtasks are the decoded elements of `tasks` in order, a null slot for
      each element that is not a map; a `tasks` that is absent, null or not
      a sequence gives a task without subtasks. */
  lemma TaskTolerance(m: map<string, Node>)
    requires Convertible(Map(m))
    ensures AllConvertible(TaskItems(m))
    ensures var t := DeserializeTask(Map(m)).value;
      t.description == (if "description" in m then AsString(m["description"]) else "") &&
      t.done == (if "done" in m then m["done"].flag else false) &&
      t.expanded == (if "expanded" in m then m["expanded"].flag else true) &&
      t.subtasks == DeserializeAll(TaskItems(m))
    ensures var t := DeserializeTask(Map(m)).value;
      ("description" !in m ==> t.description == "") &&
      ("done" !in m ==> !t.done) &&
      ("expanded" !in m ==> t.expanded) &&
      (("tasks" !in m || !m["tasks"].Seq?) ==> t.subtasks == [])
  {
  }

  // ---------------------------------------------------------------------------
  // Settings

  newtype byte = x: int | 0 <= x < 256

  /** The QVariant kinds a settings hash holds; any other kind is kept by
      its type number only. */
  datatype Setting =
    | StringValue(s: string)
    | ByteArrayValue(bytes: seq<byte>)
    | StringListValue(list: seq<string>)
    | OtherValue(typeId: nat)

  type Settings = map<string, Setting>

  /** The lower-case hex digit of a value below 16. */
  function HexDigit(d: nat): (c: char)
    requires d < 16
    ensures IsHexDigit(c)
  {
    if d < 10 then ('0' as int + d) as char else ('a' as int + d - 10) as char
  }

  predicate IsHexDigit(c: char)
  {
    '0' <= c <= '9' || 'a' <= c <= 'f'
  }

  /** The value of a lower-case hex digit. */
  function DigitValue(c: char): (d: nat)
    requires IsHexDigit(c)
    ensures d < 16 && HexDigit(d) == c
  {
    if '0' <= c <= '9' then c as int - '0' as int else c as int - 'a' as int + 10
  }

  /** `QByteArray::toHex`: two lower-case hex digits per byte, high digit
      first. */
  function Hex(b: seq<byte>): (s: string)
    ensures |s| == 2 * |b|
    ensures forall i :: 0 <= i < |s| ==> IsHexDigit(s[i])
  {
    if b == [] then []
    else [HexDigit(b[0] as int / 16), HexDigit(b[0] as int % 16)] + Hex(b[1..])
  }

  /** `QByteArray::fromHex` on text that `Hex` writes. */
  function FromHex(s: string): (b: seq<byte>)
    requires |s| % 2 == 0 && forall i :: 0 <= i < |s| ==> IsHexDigit(s[i])
    ensures |b| == |s| / 2
  {
    if s == [] then []
    else [(DigitValue(s[0]) * 16 + DigitValue(s[1])) as byte] + FromHex(s[2..])
  }

  /** Hex text decodes back to the bytes it was made from. */
  lemma {:induction false} HexRoundTrip(b: seq<byte>)
    ensures FromHex(Hex(b)) == b
  {
    if b != [] {
      HexRoundTrip(b[1..]);
      var x := b[0] as int;
      var hi, lo := HexDigit(x / 16), HexDigit(x % 16);
      assert Hex(b)[2..] == Hex(b[1..]);
      assert DigitValue(hi) == x / 16 && DigitValue(lo) == x % 16;
      assert DigitValue(hi) * 16 + DigitValue(lo) == x;
    }
  }

  predicate IsDecimal(s: string)
  {
    forall i :: 0 <= i < |s| ==> '0' <= s[i] <= '9'
  }

  /** The number decimal digits stand for, the last digit the least
      significant. */
  function DecimalValue(s: string): nat
    requires IsDecimal(s)
  {
    if s == [] then 0 else 10 * DecimalValue(s[..|s| - 1]) + (s[|s| - 1] as int - '0' as int)
  }

  /** The decimal text of a number, as `QString::arg` writes it: digits only,
      no leading zero, standing for the number. */
  function NatToString(n: nat): (s: string)
    ensures |s| > 0 && IsDecimal(s) && (|s| > 1 ==> s[0] != '0')
    ensures DecimalValue(s) == n
  {
    if n < 10 then [HexDigit(n)]
    else
      var s := NatToString(n / 10) + [HexDigit(n % 10)];
      assert s[..|s| - 1] == NatToString(n / 10);
      s
  }

  /** The placeholder written for a value of a kind the codec does not know:
      the type number in decimal inside "(wrong type …)". */
  function WrongType(typeId: nat): (s: string)
    ensures |s| > 13 && s[..12] == "(wrong type " && s[|s| - 1] == ')'
    ensures |s| > 14 ==> s[12] != '0'
    ensures IsDecimal(s[12..|s| - 1]) && DecimalValue(s[12..|s| - 1]) == typeId
  {
    var s := "(wrong type " + NatToString(typeId) + ")";
    assert s[12..|s| - 1] == NatToString(typeId);
    s
  }

  /** How `serializeSettings` writes one value: a string as a scalar, a byte
      array as its hex text, a string list as a sequence in list order,
      anything else as the placeholder. */
  function EncodeSetting(v: Setting): (n: Node)
    ensures v.StringListValue? <==> n.Seq?
    ensures !v.StringListValue? ==> n.Str?
  {
    match v
    case StringValue(s) => Str(s)
    case ByteArrayValue(b) => Str(Hex(b))
    case StringListValue(l) => Seq(seq(|l|, i requires 0 <= i < |l| => Str(l[i])))
    case OtherValue(id) => Str(WrongType(id))
  }

  /** The document `serializeSettings` writes: one entry per key of the hash. */
  function EncodeSettings(settings: Settings): (n: Node)
    ensures n.Map? && n.entries.Keys == settings.Keys
  {
    Map(map k | k in settings :: EncodeSetting(settings[k]))
  }

  /** `serializeSettings`: walks the hash and writes each entry. */
  method SerializeSettings(settings: Settings) returns (doc: Node)
    ensures doc == EncodeSettings(settings)
  {
    var out: map<string, Node> := map[];
    var keys := settings.Keys;
    while keys != {}
      invariant keys <= settings.Keys
      invariant out.Keys == settings.Keys - keys
      invariant forall k :: k in out ==> out[k] == EncodeSetting(settings[k])
      decreases keys
    {
      var k :| k in keys;
      out := out[k := EncodeSetting(settings[k])];
      keys := keys - {k};
    }
    doc := Map(out);
  }

  /** No `.as<std::string>()` in `deserializeSettingsToHash` throws: every
      element of a sequence value is a scalar. */
  predicate SettingsConvertible(n: Node)
  {
    n.Map? ==>
      forall k :: k in n.entries && n.entries[k].Seq? ==>
        forall i :: 0 <= i < |n.entries[k].items| ==> IsText(n.entries[k].items[i])
  }

  /** How `deserializeSettingsToHash` reads one value: a scalar as a string,
      a sequence as a string list in element order; a null or a map is not
      read. */
  function ReadSetting(n: Node): (r: Option<Setting>)
    requires n.Seq? ==> forall i :: 0 <= i < |n.items| ==> IsText(n.items[i])
    ensures r.Some? <==> IsText(n) || n.Seq?
    ensures IsText(n) ==> r == Some(StringValue(AsString(n)))
    ensures n.Seq? ==>
      (r.value.StringListValue? && |r.value.list| == |n.items| &&
       forall i :: 0 <= i < |n.items| ==> r.value.list[i] == AsString(n.items[i]))
  {
    match n
    case Str(_) => Some(StringValue(AsString(n)))
    case Bool(_) => Some(StringValue(AsString(n)))
    case Seq(items) => Some(StringListValue(seq(|items|, i requires 0 <= i < |items| => AsString(items[i]))))
    case _ => None
  }

  /** The readable entries among `keys`, as read. */
  function ReadEntries(n: Node, keys: set<string>): (r: Settings)
    requires n.Map? && SettingsConvertible(n)
  {
    map k | k in keys && k in n.entries && ReadSetting(n.entries[k]).Some? :: ReadSetting(n.entries[k]).value
  }

  /** Reading one more key over `settings` sets that key when its entry is
      readable and changes nothing otherwise. */
  lemma ReadEntriesAdd(n: Node, settings: Settings, keys: set<string>, k: string)
    requires n.Map? && SettingsConvertible(n) && k in n.entries
    ensures settings + ReadEntries(n, keys + {k}) ==
      if ReadSetting(n.entries[k]).Some? then (settings + ReadEntries(n, keys))[k := ReadSetting(n.entries[k]).value]
      else settings + ReadEntries(n, keys)
  {
    assert ReadEntries(n, keys + {k}) ==
      if ReadSetting(n.entries[k]).Some? then ReadEntries(n, keys)[k := ReadSetting(n.entries[k]).value]
      else ReadEntries(n, keys);
  }

  /** The hash after `deserializeSettingsToHash` read `n` into `settings`. */
  function ReadSettings(n: Node, settings: Settings): (r: Settings)
    requires SettingsConvertible(n)
    ensures !n.Map? ==> r == settings
    ensures n.Map? ==> r.Keys == settings.Keys + set k | k in n.entries && ReadSetting(n.entries[k]).Some?
    ensures n.Map? ==> forall k :: k in r ==>
      r[k] == if k in n.entries && ReadSetting(n.entries[k]).Some? then ReadSetting(n.entries[k]).value else settings[k]
  {
    if !n.Map? then settings
    else settings + ReadEntries(n, n.entries.Keys)
  }

  /** `deserializeSettingsToHash`: nothing for a null or non-map document;
      otherwise every readable entry overwrites the hash's value for its key,
      and every other key keeps its value. */
  method DeserializeSettingsToHash(node: Node, settings: Settings) returns (result: Settings)
    requires SettingsConvertible(node)
    ensures result == ReadSettings(node, settings)
    ensures !node.Map? ==> result == settings
    ensures node.Map? ==> result.Keys == settings.Keys + set k | k in node.entries && ReadSetting(node.entries[k]).Some?
    ensures node.Map? ==> forall k :: k in result ==>
      result[k] == if k in node.entries && ReadSetting(node.entries[k]).Some? then ReadSetting(node.entries[k]).value else settings[k]
  {
    result := settings;
    if node.Null? {
      return;
    }
    if !node.Map? {
      return;
    }
    var keys := node.entries.Keys;
    ghost var read: set<string> := {};
    while keys != {}
      invariant keys + read == node.entries.Keys && keys !! read
      invariant result == settings + ReadEntries(node, read)
      decreases keys
    {
      var k :| k in keys;
      var value := node.entries[k];
      if value.Null? {
      } else if IsText(value) {
        result := result[k := StringValue(AsString(value))];
      } else if value.Seq? {
        var list: seq<string> := [];
        var i := 0;
        while i < |value.items|
          invariant 0 <= i <= |value.items|
          invariant |list| == i && forall j :: 0 <= j < i ==> list[j] == AsString(value.items[j])
        {
          list := list + [AsString(value.items[i])];
          i := i + 1;
        }
        assert ReadSetting(value).value == StringListValue(list);
        result := result[k := StringListValue(list)];
      }
      ReadEntriesAdd(node, settings, read, k);
      keys := keys - {k};
      read := read + {k};
    }
  }

  /** What a value is after a settings round trip. */
  function Reread(v: Setting): Setting
  {
    match v
    case ByteArrayValue(b) => StringValue(Hex(b))
    case OtherValue(id) => StringValue(WrongType(id))
    case _ => v
  }

  /** Reading back a written value: strings and string lists come back as
      they were, a byte array comes back as its hex text. */
  lemma SettingRoundTrip(v: Setting)
    ensures var n := EncodeSetting(v);
      (n.Seq? ==> forall i :: 0 <= i < |n.items| ==> IsText(n.items[i])) &&
      ReadSetting(n) == Some(Reread(v))
    ensures v.StringValue? || v.StringListValue? ==> Reread(v) == v
  {
    if v.StringListValue? {
      var n := EncodeSetting(v);
      assert ReadSetting(n).value.list == v.list;
    }
  }

  /** A settings round trip: every key written is read back as `Reread` of
      its value, and a key the hash did not hold keeps the target's value. */
  lemma SettingsRoundTrip(settings: Settings, target: Settings)
    ensures SettingsConvertible(EncodeSettings(settings))
    ensures ReadSettings(EncodeSettings(settings), target) ==
      target + map k | k in settings :: Reread(settings[k])
  {
    var n := EncodeSettings(settings);
    forall k | k in settings
      ensures var e := n.entries[k];
        (e.Seq? ==> forall i :: 0 <= i < |e.items| ==> IsText(e.items[i])) &&
        ReadSetting(e) == Some(Reread(settings[k]))
    {
      SettingRoundTrip(settings[k]);
    }
    assert ReadEntries(n, n.entries.Keys) == map k | k in settings :: Reread(settings[k]);
  }
}
