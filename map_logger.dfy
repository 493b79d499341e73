/**
 * `nodeLogger`: chooses the log line for one node change. The console write
 * is replaced by the returned string; `None` means nothing is logged.
 */
module MapLogger {
  import opened Wrappers
  import opened FlowElements

  /** The `NodeChangeType` enum: the `type` tag of a node change. */
  datatype NodeChangeType = ADD | REMOVE | POSITION | SELECT | DIMENSIONS | RESET

  /**
   * A node change, as the library's tagged union: an addition or a reset
   * carries the whole node (`item`), every other change only the node's `id`.
   * The payload fields that the logger never reads (new position, dragging
   * flag, dimensions, selection value, insertion index) are not modelled.
   */
  datatype NodeChange =
    | AddChange(item: Node)
    | RemoveChange(id: string)
    | PositionChange(id: string)
    | SelectChange(id: string)
    | DimensionsChange(id: string)
    | ResetChange(item: Node)
  {
    function Type(): NodeChangeType
    {
      match this
      case AddChange(_) => ADD
      case RemoveChange(_) => REMOVE
      case PositionChange(_) => POSITION
      case SelectChange(_) => SELECT
      case DimensionsChange(_) => DIMENSIONS
      case ResetChange(_) => RESET
    }

    /** The record has an `id` field (`"id" in change`). */
    predicate HasId() { !AddChange? && !ResetChange? }

    /** The record has an `item` field (`"item" in change`). */
    predicate HasItem() { AddChange? || ResetChange? }
  }

  /** The id a text-mode message reports: `change.id` when present, else `change.item.id`. */
  function TextId(change: NodeChange): string
  {
    if change.HasId() then change.id else change.item.id
  }

  /** The label a text-mode message reports: `change.item.data.label`, or empty without an item. */
  function TextLabel(change: NodeChange): string
  {
    if change.HasItem() then change.item.text else ""
  }

  /**
   * The log line for `change`. Text mode (`type === "text"`) is tested first
   * and wins over the change's own type; outside text mode only additions,
   * removals and moves produce a line.
   */
  function NodeLogger(change: NodeChange, textMode: bool): (message: Option<string>)
    ensures textMode ==> message.Some?
    ensures message.None? <==> !textMode && change.Type() in {SELECT, DIMENSIONS, RESET}
  {
    if textMode then
      Some("TextChanged:" + "text" + ":" + TextId(change) + ":" + TextLabel(change))
    else if change.Type() == ADD then
      Some("NodeAdded:" + change.item.id + ":" + change.item.text)
    else if change.Type() == REMOVE then
      Some("NodeRemoved:" + change.id + ":")
    else if change.Type() == POSITION then
      Some("NodeMoved:" + change.id + ":")
    else
      None
  }

  /** The colon-separated fields of a log line (splitting on every ':'). */
  function Fields(s: string): (fields: seq<string>)
    ensures |fields| >= 1
  {
    if s == [] then [""]
    else
      var rest := Fields(s[1..]);
      if s[0] == ':' then [""] + rest else [[s[0]] + rest[0]] + rest[1..]
  }

  /** Fields written out with ':' between them. */
  function Join(fields: seq<string>): string
    requires |fields| >= 1
  {
    if |fields| == 1 then fields[0] else fields[0] + ":" + Join(fields[1..])
  }

  predicate NoColon(s: string) { ':' !in s }

  lemma {:induction false} FieldsOfPlain(a: string)
    requires NoColon(a)
    ensures Fields(a) == [a]
  {
    if a != [] {
      assert a[1..] == a[1..] && NoColon(a[1..]) by {
        assert forall c :: c in a[1..] ==> c in a;
      }
      FieldsOfPlain(a[1..]);
      assert [a[0]] + a[1..] == a;
    }
  }

  lemma {:induction false} FieldsOfPrefix(a: string, b: string)
    requires NoColon(a)
    ensures Fields(a + ":" + b) == [a] + Fields(b)
  {
    if a == [] {
      assert a + ":" + b == [':'] + b;
      assert ([':'] + b)[1..] == b;
    } else {
      var s := a + ":" + b;
      assert s[0] == a[0];
      assert s[1..] == a[1..] + ":" + b;
      assert NoColon(a[1..]) by {
        assert forall c :: c in a[1..] ==> c in a;
      }
      FieldsOfPrefix(a[1..], b);
      assert [a[0]] + a[1..] == a;
    }
  }

  /** Splitting a joined line gives back its fields when no field contains ':'. */
  lemma {:induction false} FieldsOfJoin(fields: seq<string>)
    requires |fields| >= 1
    requires forall k :: 0 <= k < |fields| ==> NoColon(fields[k])
    ensures Fields(Join(fields)) == fields
  {
    if |fields| == 1 {
      FieldsOfPlain(fields[0]);
    } else {
      FieldsOfJoin(fields[1..]);
      FieldsOfPrefix(fields[0], Join(fields[1..]));
      assert [fields[0]] + fields[1..] == fields;
    }
  }

  /** Joining the fields of any string gives the string back. */
  lemma {:induction false} JoinFields(s: string)
    ensures Join(Fields(s)) == s
  {
    if s != [] {
      var rest := Fields(s[1..]);
      JoinFields(s[1..]);
      var fs := Fields(s);
      if s[0] == ':' {
        assert fs == [""] + rest && fs[1..] == rest;
        assert Join(fs) == "" + ":" + Join(rest);
      } else {
        assert fs == [[s[0]] + rest[0]] + rest[1..] && fs[1..] == rest[1..];
        if |rest| == 1 {
          assert Join(fs) == [s[0]] + rest[0];
        } else {
          assert Join(rest) == rest[0] + ":" + Join(rest[1..]);
          assert Join(fs) == ([s[0]] + rest[0]) + ":" + Join(rest[1..]);
        }
      }
      assert [s[0]] + s[1..] == s;
    }
  }

  /** The fields of `head:<id>:<rest>`: `head`, the id, then fields that join back to `rest`. */
  lemma TaggedFields(head: string, id: string, rest: string)
    requires NoColon(head) && NoColon(id)
    ensures var fs := Fields(head + ":" + id + ":" + rest);
      && fs == [head, id] + Fields(rest)
      && |fs| >= 3
      && fs[..2] == [head, id]
      && Join(fs[2..]) == rest
      && (NoColon(rest) ==> fs == [head, id, rest])
  {
    assert head + ":" + id + ":" + rest == head + ":" + (id + ":" + rest);
    FieldsOfPrefix(id, rest);
    FieldsOfPrefix(head, id + ":" + rest);
    var fs := Fields(head + ":" + id + ":" + rest);
    assert fs == [head, id] + Fields(rest);
    assert fs[2..] == Fields(rest);
    JoinFields(rest);
    if NoColon(rest) {
      FieldsOfPlain(rest);
    }
  }

  /**
   * Every log line is a colon-separated record whose leading fields read back
   * when the id contains no ':' (as with uuids): text mode gives `TextChanged`,
   * `text` and the id, and the remaining fields join back to the label, which
   * may itself contain ':'; an addition gives `NodeAdded` and the id, followed
   * by the label; a removal gives exactly `NodeRemoved`, the id and an empty
   * field, a move `NodeMoved`, the id and an empty field. A label without ':'
   * is a single last field.
   */
  lemma MessageFields(change: NodeChange, textMode: bool)
    requires NoColon(TextId(change))
    ensures textMode ==>
      var fs := Fields(NodeLogger(change, textMode).value);
      && |fs| >= 4
      && fs[..3] == ["TextChanged", "text", TextId(change)]
      && Join(fs[3..]) == TextLabel(change)
      && (NoColon(TextLabel(change)) ==> fs == ["TextChanged", "text", TextId(change), TextLabel(change)])
    ensures !textMode && change.AddChange? ==>
      var fs := Fields(NodeLogger(change, textMode).value);
      && |fs| >= 3
      && fs[..2] == ["NodeAdded", change.item.id]
      && Join(fs[2..]) == change.item.text
      && (NoColon(change.item.text) ==> fs == ["NodeAdded", change.item.id, change.item.text])
    ensures !textMode && change.RemoveChange? ==>
      Fields(NodeLogger(change, textMode).value) == ["NodeRemoved", change.id, ""]
    ensures !textMode && change.PositionChange? ==>
      Fields(NodeLogger(change, textMode).value) == ["NodeMoved", change.id, ""]
  {
    var m := NodeLogger(change, textMode);
    if textMode {
      var id, text := TextId(change), TextLabel(change);
      var tail := id + ":" + text;
      assert m.value == "TextChanged" + ":" + "text" + ":" + tail;
      TaggedFields("TextChanged", "text", tail);
      FieldsOfPrefix(id, text);
      var fs := Fields(m.value);
      assert fs == ["TextChanged", "text", id] + Fields(text);
      assert fs[3..] == Fields(text);
      JoinFields(text);
      if NoColon(text) {
        FieldsOfPlain(text);
      }
    } else if change.AddChange? {
      assert m.value == "NodeAdded" + ":" + change.item.id + ":" + change.item.text;
      TaggedFields("NodeAdded", change.item.id, change.item.text);
    } else if change.RemoveChange? {
      assert m.value == "NodeRemoved" + ":" + change.id + ":" + "";
      TaggedFields("NodeRemoved", change.id, "");
    } else if change.PositionChange? {
      assert m.value == "NodeMoved" + ":" + change.id + ":" + "";
      TaggedFields("NodeMoved", change.id, "");
    }
  }

  /**
   * Text mode takes precedence over the change type: even a reset change,
   * which is silent otherwise, is logged as a text change.
   */
  lemma TextModePrecedence(change: NodeChange)
    ensures NodeLogger(change, true).Some?
    ensures "TextChanged:text:" <= NodeLogger(change, true).value
    ensures change.ResetChange? ==> NodeLogger(change, false).None?
  {
  }
}
