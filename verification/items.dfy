/**
 * The row-to-item transformation of `get_json_items`: every row of the table
 * becomes one item `{Key, Attributes: [{Name, Type, Value}]}`, the primary-key
 * cell going into `Key` and every other field into an attribute.
 */
module Items {
  import opened Wrappers
  import opened Values

  /** One entry of the table schema's field list. */
  datatype Field = Field(name: string, typ: string)

  /** The table schema: its fields in column order and its primary-key names. */
  datatype Schema = Schema(fields: seq<Field>, primaryKey: seq<string>)

  /** The table as decoded from its JSON "table" form. */
  datatype Table = Table(schema: Schema, data: seq<Row>)

  datatype Attribute = Attribute(name: string, typ: string, value: Cell)

  datatype Item = Item(key: string, attributes: seq<Attribute>)

  predicate HasField(fields: seq<Field>, name: string)
  {
    exists i :: 0 <= i < |fields| && fields[i].name == name
  }

  /** Every field of the schema can be looked up in the row. */
  predicate HasAllFields(row: Row, fields: seq<Field>)
  {
    forall i :: 0 <= i < |fields| ==> fields[i].name in row
  }

  predicate AllRowsComplete(rows: seq<Row>, fields: seq<Field>)
  {
    forall i :: 0 <= i < |rows| ==> HasAllFields(rows[i], fields)
  }

  /** The first field, in schema order, that the row lacks. */
  function FirstMissing(row: Row, fields: seq<Field>): (r: Option<string>)
    ensures r.None? <==> HasAllFields(row, fields)
    ensures r.Some? ==> r.value !in row && HasField(fields, r.value)
  {
    if |fields| == 0 then None
    else if fields[0].name !in row then Some(fields[0].name)
    else
      var rest := FirstMissing(row, fields[1..]);
      assert rest.Some? ==> HasField(fields[1..], rest.value) ==> HasField(fields, rest.value) by {
        if rest.Some? && HasField(fields[1..], rest.value) {
          var w :| 0 <= w < |fields| - 1 && fields[1..][w].name == rest.value;
          assert fields[w + 1].name == rest.value;
        }
      }
      rest
  }

  /** The first field missing from the first incomplete row. */
  function FirstMissingIn(rows: seq<Row>, fields: seq<Field>): (r: Option<string>)
    ensures r.None? <==> AllRowsComplete(rows, fields)
    ensures r.Some? ==> HasField(fields, r.value) && (exists i :: 0 <= i < |rows| && r.value !in rows[i])
  {
    if |rows| == 0 then None
    else match FirstMissing(rows[0], fields)
      case Some(k) => Some(k)
      case None =>
        var rest := FirstMissingIn(rows[1..], fields);
        assert rest.Some? ==> (exists i :: 0 <= i < |rows| && rest.value !in rows[i]) by {
          if rest.Some? {
            var w :| 0 <= w < |rows| - 1 && rest.value !in rows[1..][w];
            assert rows[1..][w] == rows[w + 1];
          }
        }
        rest
  }

  /** If field `j` is the first one the row lacks, FirstMissing names it. */
  lemma {:induction false} FirstMissingAt(row: Row, fields: seq<Field>, j: nat)
    requires j < |fields| && HasAllFields(row, fields[..j]) && fields[j].name !in row
    ensures FirstMissing(row, fields) == Some(fields[j].name)
    decreases j
  {
    if j > 0 {
      assert fields[..j][0] == fields[0];
      assert fields[1..][..j - 1] == fields[..j][1..];
      FirstMissingAt(row, fields[1..], j - 1);
    }
  }

  /** If row `i` is the first incomplete one, FirstMissingIn reports its first missing field. */
  lemma {:induction false} FirstMissingInAt(rows: seq<Row>, fields: seq<Field>, i: nat)
    requires i < |rows| && AllRowsComplete(rows[..i], fields) && FirstMissing(rows[i], fields).Some?
    ensures FirstMissingIn(rows, fields) == FirstMissing(rows[i], fields)
    decreases i
  {
    if i > 0 {
      assert rows[..i][0] == rows[0];
      assert rows[1..][..i - 1] == rows[..i][1..];
      FirstMissingInAt(rows[1..], fields, i - 1);
    }
  }

  /** A non-empty field list has the name exactly when its last field or the fields before it do. */
  lemma HasFieldLast(fields: seq<Field>, name: string)
    requires |fields| > 0
    ensures HasField(fields, name) <==> HasField(fields[..|fields| - 1], name) || fields[|fields| - 1].name == name
  {
  }

  /**
   * `Key` of the item built from the row, as the field loop leaves it: it starts as
   * "", and each field that is the primary key overwrites it with `str()` of that
   * field's cell. Every such write stores the same text, so the result is `str()` of
   * the primary-key cell when some field is the primary key, and "" otherwise.
   */
  function KeyOf(row: Row, fields: seq<Field>, pk: string): (r: string)
    requires HasAllFields(row, fields)
    ensures HasField(fields, pk) ==> pk in row && r == Str(row[pk])
    ensures !HasField(fields, pk) ==> r == ""
    decreases |fields|
  {
    if |fields| == 0 then ""
    else
      var init := fields[..|fields| - 1];
      var last := fields[|fields| - 1];
      HasFieldLast(fields, pk);
      if last.name == pk then Str(row[last.name]) else KeyOf(row, init, pk)
  }

  /** `Attributes` of the item built from the row, as appended field by field. */
  function AttributesOf(row: Row, fields: seq<Field>, pk: string): (r: seq<Attribute>)
    requires HasAllFields(row, fields)
    ensures |r| <= |fields|
    ensures forall k :: 0 <= k < |r| ==> r[k].name != pk
    decreases |fields|
  {
    if |fields| == 0 then []
    else
      var init := fields[..|fields| - 1];
      var last := fields[|fields| - 1];
      AttributesOf(row, init, pk) + (if last.name == pk then [] else [Attribute(last.name, last.typ, row[last.name])])
  }

  function ItemOf(row: Row, fields: seq<Field>, pk: string): Item
    requires HasAllFields(row, fields)
  {
    Item(KeyOf(row, fields, pk), AttributesOf(row, fields, pk))
  }

  function ItemsOf(rows: seq<Row>, fields: seq<Field>, pk: string): seq<Item>
    requires AllRowsComplete(rows, fields)
  {
    seq(|rows|, i requires 0 <= i < |rows| => ItemOf(rows[i], fields, pk))
  }

  /**
   * What `get_json_items` yields for a decoded table: IndexError when the schema
   * names no primary key, KeyError for the first field (row by row, field by
   * field) a row lacks, and otherwise one item per row.
   */
  function GetItemsSpec(t: Table): (r: Result<seq<Item>, PyError>)
    ensures r.Success? <==>
      |t.schema.primaryKey| > 0 && AllRowsComplete(t.data, t.schema.fields)
    ensures r.Success? ==> |r.value| == |t.data|
    ensures |t.schema.primaryKey| == 0 ==> r == Failure(IndexError)
    ensures r.Failure? && |t.schema.primaryKey| > 0 ==>
      r.error.KeyError? && HasField(t.schema.fields, r.error.key) &&
      (exists i :: 0 <= i < |t.data| && r.error.key !in t.data[i])
  {
    if |t.schema.primaryKey| == 0 then Failure(IndexError)
    else match FirstMissingIn(t.data, t.schema.fields)
      case Some(k) => Failure(KeyError(k))
      case None => Success(ItemsOf(t.data, t.schema.fields, t.schema.primaryKey[0]))
  }

  /**
   * The KeyError names the first missing field in row-major order: when rows before
   * row i are complete and, within row i, the fields before field j are present but
   * field j is not, the result is a KeyError for field j.
   */
  lemma KeyErrorNamesFirstMissing(t: Table, i: nat, j: nat)
    requires |t.schema.primaryKey| > 0
    requires i < |t.data| && j < |t.schema.fields|
    requires AllRowsComplete(t.data[..i], t.schema.fields)
    requires HasAllFields(t.data[i], t.schema.fields[..j]) && t.schema.fields[j].name !in t.data[i]
    ensures GetItemsSpec(t) == Failure(KeyError(t.schema.fields[j].name))
  {
    FirstMissingAt(t.data[i], t.schema.fields, j);
    FirstMissingInAt(t.data, t.schema.fields, i);
  }

  /** One step of the field loop: extending the field prefix by field j. */
  lemma FieldPrefixStep(row: Row, fields: seq<Field>, pk: string, j: nat)
    requires j < |fields| && HasAllFields(row, fields[..j]) && fields[j].name in row
    ensures HasAllFields(row, fields[..j + 1])
    ensures HasField(fields[..j + 1], pk) <==> HasField(fields[..j], pk) || fields[j].name == pk
    ensures KeyOf(row, fields[..j + 1], pk) ==
      if fields[j].name == pk then Str(row[pk]) else KeyOf(row, fields[..j], pk)
    ensures AttributesOf(row, fields[..j + 1], pk) ==
      AttributesOf(row, fields[..j], pk) +
        (if fields[j].name == pk then [] else [Attribute(fields[j].name, fields[j].typ, row[fields[j].name])])
  {
    var ext := fields[..j + 1];
    assert |ext| == j + 1 && ext[..j] == fields[..j] && ext[j] == fields[j];
    assert HasAllFields(row, ext) by {
      forall i | 0 <= i < |ext| ensures ext[i].name in row {
        if i < j { assert ext[i] == fields[..j][i]; }
      }
    }
    HasFieldLast(ext, pk);
  }

  /**
   * `get_json_items` (after the table is decoded): the outer loop over rows appends
   * one item per row; the inner loop over the schema fields sets `Key` from the
   * primary-key cell and appends an attribute for every other field.
   */
  method GetItems(t: Table) returns (r: Result<seq<Item>, PyError>)
    ensures r == GetItemsSpec(t)
  {
    if |t.schema.primaryKey| == 0 {
      return Failure(IndexError);
    }
    var pk := t.schema.primaryKey[0];
    var fields := t.schema.fields;
    var rows := t.data;
    var items: seq<Item> := [];
    var i := 0;
    while i < |rows|
      invariant 0 <= i <= |rows|
      invariant AllRowsComplete(rows[..i], fields)
      invariant |items| == i
      invariant forall k :: 0 <= k < i ==> HasAllFields(rows[k], fields) && items[k] == ItemOf(rows[k], fields, pk)
    {
      var row := rows[i];
      var key := "";
      var attrs: seq<Attribute> := [];
      var j := 0;
      while j < |fields|
        invariant 0 <= j <= |fields|
        invariant HasAllFields(row, fields[..j])
        invariant key == KeyOf(row, fields[..j], pk)
        invariant attrs == AttributesOf(row, fields[..j], pk)
      {
        var name := fields[j].name;
        if name !in row {
          FirstMissingAt(row, fields, j);
          FirstMissingInAt(rows, fields, i);
          return Failure(KeyError(name));
        }
        var cell := row[name];
        FieldPrefixStep(row, fields, pk, j);
        if name == pk {
          key := Str(cell);
        } else {
          attrs := attrs + [Attribute(name, fields[j].typ, cell)];
        }
        j := j + 1;
      }
      assert fields[..j] == fields;
      items := items + [Item(key, attrs)];
      assert rows[..i + 1][..i] == rows[..i];
      i := i + 1;
    }
    assert rows[..i] == rows;
    assert items == ItemsOf(rows, fields, pk);
    return Success(items);
  }

  /** Reference definition: the schema fields other than the primary key, in schema order. */
  function NonKeyFields(fields: seq<Field>, pk: string): (r: seq<Field>)
    ensures |r| <= |fields|
    ensures forall f :: f in r <==> f in fields && f.name != pk
  {
    if |fields| == 0 then []
    else (if fields[0].name == pk then [] else [fields[0]]) + NonKeyFields(fields[1..], pk)
  }

  lemma {:induction false} NonKeyFieldsSnoc(fields: seq<Field>, x: Field, pk: string)
    ensures NonKeyFields(fields + [x], pk) == NonKeyFields(fields, pk) + (if x.name == pk then [] else [x])
    decreases |fields|
  {
    var ext := fields + [x];
    var tail := if x.name == pk then [] else [x];
    if |fields| == 0 {
      assert ext == [x] && ext[1..] == [];
    } else {
      var head := if fields[0].name == pk then [] else [fields[0]];
      var rest := fields[1..];
      assert ext[0] == fields[0] && ext[1..] == rest + [x];
      calc {
        NonKeyFields(ext, pk);
        head + NonKeyFields(rest + [x], pk);
        { NonKeyFieldsSnoc(rest, x, pk); }
        head + (NonKeyFields(rest, pk) + tail);
        (head + NonKeyFields(rest, pk)) + tail;
      }
    }
  }

  /**
   * The attributes built for a row are exactly the non-key fields, in schema order,
   * each carrying the field's name, the field's type and the row's cell unchanged.
   */
  lemma {:induction false} AttributesFollowFields(row: Row, fields: seq<Field>, pk: string)
    requires HasAllFields(row, fields)
    ensures |AttributesOf(row, fields, pk)| == |NonKeyFields(fields, pk)|
    ensures forall k :: 0 <= k < |NonKeyFields(fields, pk)| ==>
      NonKeyFields(fields, pk)[k].name in row &&
      AttributesOf(row, fields, pk)[k] ==
        Attribute(NonKeyFields(fields, pk)[k].name, NonKeyFields(fields, pk)[k].typ, row[NonKeyFields(fields, pk)[k].name])
    decreases |fields|
  {
    if |fields| > 0 {
      var init := fields[..|fields| - 1];
      var last := fields[|fields| - 1];
      assert init + [last] == fields;
      AttributesFollowFields(row, init, pk);
      NonKeyFieldsSnoc(init, last, pk);
    }
  }

  /**
   * On success there is one item per row, in row order (none for no rows). When a
   * field is the primary key, every row has a cell for it and item i's key is `str()`
   * of row i's cell; otherwise the key is "". Item i's attributes are the non-key
   * fields with row i's cells, none of them named after the primary key.
   */
  lemma ItemsFollowRows(t: Table)
    requires GetItemsSpec(t).Success?
    ensures var items, rows, fields, pk := GetItemsSpec(t).value, t.data, t.schema.fields, t.schema.primaryKey[0];
      |items| == |rows| &&
      (forall i :: 0 <= i < |rows| ==> HasAllFields(rows[i], fields)) &&
      (forall i :: 0 <= i < |rows| ==>
        HasField(fields, pk) ==> pk in rows[i]) &&
      (forall i :: 0 <= i < |rows| ==>
        items[i].key == (if HasField(fields, pk) then Str(rows[i][pk]) else "")) &&
      (forall i :: 0 <= i < |rows| ==>
        |items[i].attributes| == |NonKeyFields(fields, pk)| &&
        forall k :: 0 <= k < |items[i].attributes| ==>
          items[i].attributes[k].name != pk &&
          NonKeyFields(fields, pk)[k].name in rows[i] &&
          items[i].attributes[k] ==
            Attribute(NonKeyFields(fields, pk)[k].name, NonKeyFields(fields, pk)[k].typ, rows[i][NonKeyFields(fields, pk)[k].name]))
  {
    var rows, fields, pk := t.data, t.schema.fields, t.schema.primaryKey[0];
    forall i | 0 <= i < |rows|
      ensures HasField(fields, pk) ==> pk in rows[i]
    {
      if HasField(fields, pk) {
        var w :| 0 <= w < |fields| && fields[w].name == pk;
      }
    }
    forall i | 0 <= i < |rows|
      ensures |AttributesOf(rows[i], fields, pk)| == |NonKeyFields(fields, pk)|
      ensures forall k :: 0 <= k < |NonKeyFields(fields, pk)| ==>
        NonKeyFields(fields, pk)[k].name in rows[i] &&
        AttributesOf(rows[i], fields, pk)[k] ==
          Attribute(NonKeyFields(fields, pk)[k].name, NonKeyFields(fields, pk)[k].typ, rows[i][NonKeyFields(fields, pk)[k].name])
    {
      AttributesFollowFields(rows[i], fields, pk);
    }
  }

  /**
   * When the primary key is the row index column and row i's index is i + 1 (as
   * assigned before the table is serialised), item i's key is the decimal text of
   * i + 1: it reads back as i + 1, so keys increase with the row and no two coincide.
   */
  lemma IndexKeysDistinct(t: Table)
    requires GetItemsSpec(t).Success?
    requires HasField(t.schema.fields, t.schema.primaryKey[0])
    requires forall i :: 0 <= i < |t.data| ==>
      t.schema.primaryKey[0] in t.data[i] && t.data[i][t.schema.primaryKey[0]] == IntCell(i + 1)
    ensures var items := GetItemsSpec(t).value;
      (forall i :: 0 <= i < |items| ==> items[i].key == IntToString(i + 1) && ParseInt(items[i].key) == Some(i + 1)) &&
      (forall i, j :: 0 <= i < j < |items| ==> items[i].key != items[j].key)
  {
    var items := GetItemsSpec(t).value;
    ItemsFollowRows(t);
    forall i | 0 <= i < |items|
      ensures items[i].key == IntToString(i + 1) && ParseInt(items[i].key) == Some(i + 1)
    {
      IntRoundTrip(i + 1);
    }
    forall i, j | 0 <= i < j < |items|
      ensures items[i].key != items[j].key
    {
      IntToStringInjective(i + 1, j + 1);
    }
  }
}
