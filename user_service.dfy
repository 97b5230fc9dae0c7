/** The user service: a collection of profile documents and its create, get, update,
    delete and list endpoints. Request bodies are string-to-string objects, the server
    clock is a parameter, and generated ids come from a counter. */
module UserService {
  import opened Wrappers
  import opened ObjectIds

  /** A server clock reading (`datetime.utcnow()`), as an instant. */
  type Time = int

  /** A stored field value: a server clock reading or a text from a request body. */
  datatype Stored = Date(t: Time) | Text(s: string)

  /** A field value in a JSON reply: a text, `isoformat()` of a clock reading, or the
      HTTP-date text that `jsonify` writes for a reading nobody converted. */
  datatype Shown = Str(s: string) | IsoStamp(t: Time) | HttpDateStamp(t: Time)

  /** A document's `_id`: one the server generated, or a text the create body supplied. */
  datatype RowId = Generated(key: nat) | Supplied(text: string)

  type Doc = map<string, Stored>
  type View = map<string, Shown>
  type Body = map<string, string>

  /** A stored document: its `_id` and its other fields. */
  datatype Row = Row(id: RowId, doc: Doc)

  datatype ReplyBody =
    | CreatedBody(id: string, message: string)
    | MessageBody(message: string)
    | ErrorBody(error: string)
    | DocBody(doc: View)
    | DocsBody(docs: seq<View>)
    | ServerError

  datatype Reply = Reply(status: nat, body: ReplyBody)

  const IdKey := "_id"
  const CreatedKey := "created_at"
  const UpdatedKey := "updated_at"

  const CreatedText := "User created"
  const InvalidId := Reply(400, ErrorBody("Invalid user ID"))
  const NotFound := Reply(404, ErrorBody("User not found"))
  const Updated := Reply(200, MessageBody("User updated"))
  const Deleted := Reply(200, MessageBody("User deleted"))
  /** An exception the handler does not catch. */
  const Crashed := Reply(500, ServerError)

  /** `str(user["_id"])`: a generated id is written as 24 lowercase hex digits that
      parse back to it; a supplied id is its own text. */
  function IdText(id: RowId): (r: string)
    ensures id.Generated? ==> |r| == IdLength && AllLowerHex(r)
    ensures id.Generated? && id.key < IdSpace ==> ParseObjectId(r) == Some(id.key)
    ensures id.Supplied? ==> r == id.text
  {
    match id
    case Generated(k) =>
      if k < IdSpace then ParseIdString(k); IdString(k) else IdString(k)
    case Supplied(s) => s
  }

  /** The document `create` inserts: the body's fields except `_id`, which becomes the
      document's id, with `created_at` set to the server clock. */
  function NewDoc(data: Body, now: Time): (d: Doc)
    ensures CreatedKey in d && d[CreatedKey] == Date(now)
    ensures IdKey !in d
    ensures forall k :: k in d <==> k == CreatedKey || (k in data && k != IdKey)
    ensures forall k :: k in d && k != CreatedKey ==> d[k] == Text(data[k])
  {
    (map k | k in data && k != IdKey :: Text(data[k]))[CreatedKey := Date(now)]
  }

  /** `{"$set": data}` with `updated_at` set to the server clock: every body field and
      `updated_at` take their new value, every other field keeps its old one. */
  function SetFields(doc: Doc, data: Body, now: Time): (d: Doc)
    ensures UpdatedKey in d && d[UpdatedKey] == Date(now)
    ensures forall k :: k in d <==> k in doc || k in data || k == UpdatedKey
    ensures forall k :: k in d && k != UpdatedKey ==> d[k] == if k in data then Text(data[k]) else doc[k]
  {
    (doc + map k | k in data :: Text(data[k]))[UpdatedKey := Date(now)]
  }

  /** Setting the same fields at the same instant a second time changes nothing, so
      the second update reports that it modified no document. */
  lemma SetFieldsIdempotent(doc: Doc, data: Body, now: Time)
    ensures SetFields(SetFields(doc, data, now), data, now) == SetFields(doc, data, now)
  {
    var once := SetFields(doc, data, now);
    var twice := SetFields(once, data, now);
    assert forall k :: k in twice <==> k in once;
    assert forall k :: k in twice ==> twice[k] == once[k];
  }

  /** `find_one({"_id": id})`, as the index of the first match. */
  function FindId(rows: seq<Row>, id: RowId): (r: Option<nat>)
    ensures r.Some? ==> r.value < |rows| && rows[r.value].id == id
    ensures r.Some? ==> forall j :: 0 <= j < r.value ==> rows[j].id != id
    ensures r.None? <==> forall i :: 0 <= i < |rows| ==> rows[i].id != id
  {
    if rows == [] then None
    else if rows[0].id == id then Some(0)
    else match FindId(rows[1..], id)
      case None => None
      case Some(k) => Some(k + 1)
  }

  ghost predicate DistinctIds(rows: seq<Row>) {
    forall i, j :: 0 <= i < j < |rows| ==> rows[i].id != rows[j].id
  }

  /** A document appended under a new id is found under it, after every earlier one. */
  lemma CreatedRowFound(rows: seq<Row>, row: Row)
    requires FindId(rows, row.id).None?
    ensures FindId(rows + [row], row.id) == Some(|rows|)
  {
    var r := FindId(rows + [row], row.id);
    assert (rows + [row])[|rows|].id == row.id;
  }

  /** Once the document holding an id is removed, with ids distinct, nothing is found
      under it. */
  lemma DeletedRowGone(rows: seq<Row>, id: RowId)
    requires DistinctIds(rows) && FindId(rows, id).Some?
    ensures var i := FindId(rows, id).value; FindId(rows[..i] + rows[i + 1..], id).None?
  {
    var i := FindId(rows, id).value;
    var rest := rows[..i] + rows[i + 1..];
    forall j | 0 <= j < |rest|
      ensures rest[j].id != id
    {
      if j < i {
        assert rest[j] == rows[j];
      } else {
        assert rest[j] == rows[j + 1];
        assert rows[i].id != rows[j + 1].id;
      }
    }
  }

  /** The first index holding an id is what `FindId` returns. */
  lemma FindIdAt(rows: seq<Row>, id: RowId, k: nat)
    requires k < |rows| && rows[k].id == id
    requires forall j :: 0 <= j < k ==> rows[j].id != id
    ensures FindId(rows, id) == Some(k)
  {
  }

  /** Removing the document at `i` keeps the ones before it in place and moves the ones
      after it one place earlier. */
  lemma RemovedAt(rows: seq<Row>, i: nat)
    requires i < |rows|
    ensures var rest := rows[..i] + rows[i + 1..];
      && |rest| == |rows| - 1
      && (forall j :: 0 <= j < i ==> rest[j] == rows[j])
      && (forall j :: i <= j < |rest| ==> rest[j] == rows[j + 1])
  {
  }

  /** Every other document keeps being found, one place earlier when it came after
      the removed one. */
  lemma DeleteKeepsOthers(rows: seq<Row>, i: nat, id: RowId)
    requires i < |rows| && rows[i].id != id
    ensures var rest := rows[..i] + rows[i + 1..];
      && (FindId(rows, id).None? <==> FindId(rest, id).None?)
      && (FindId(rows, id).Some? ==>
            var k := FindId(rows, id).value;
            FindId(rest, id) == Some(if k < i then k else k - 1))
  {
    var rest := rows[..i] + rows[i + 1..];
    RemovedAt(rows, i);
    if FindId(rows, id).Some? {
      var k := FindId(rows, id).value;
      var k' := if k < i then k else k - 1;
      assert rest[k'] == rows[k];
      FindIdAt(rest, id, k');
    } else {
      assert forall j :: 0 <= j < |rest| ==> rest[j].id != id;
    }
  }

  /** How `jsonify` writes a stored value nobody converted: a clock reading as an
      HTTP-date and a text as itself. */
  function ShowValue(v: Stored): (r: Shown)
    ensures r.HttpDateStamp? <==> v.Date?
    ensures r.Str? <==> v.Text?
    ensures v.Date? ==> r == HttpDateStamp(v.t)
    ensures v.Text? ==> r == Str(v.s)
  {
    match v
    case Date(t) => HttpDateStamp(t)
    case Text(s) => Str(s)
  }

  /** `key` is absent or holds a clock reading, so `isoformat()` on it cannot raise. */
  predicate Stamped(doc: Doc, key: string) {
    key !in doc || doc[key].Date?
  }

  /** The reply document of `get`: `_id` written out, `created_at` in ISO form and the
      other fields as stored; `None` where `isoformat()` raises on a `created_at` that
      holds text. */
  function GetView(row: Row): (r: Option<View>)
    ensures r.None? <==> !Stamped(row.doc, CreatedKey)
    ensures r.Some? ==>
      && (forall k :: k in r.value <==> k in row.doc || k == IdKey)
      && r.value[IdKey] == Str(IdText(row.id))
      && (CreatedKey in row.doc ==> r.value[CreatedKey] == IsoStamp(row.doc[CreatedKey].t))
      && (forall k :: k in row.doc && k != IdKey && k != CreatedKey ==> r.value[k] == ShowValue(row.doc[k]))
  {
    if !Stamped(row.doc, CreatedKey) then None
    else
      var shown := map k | k in row.doc :: if k == CreatedKey then IsoStamp(row.doc[k].t) else ShowValue(row.doc[k]);
      Some(shown[IdKey := Str(IdText(row.id))])
  }

  /** One entry of the `list` reply: like `get`, and `updated_at` in ISO form too;
      `None` where `isoformat()` raises on either stamp. */
  function ListView(row: Row): (r: Option<View>)
    ensures r.None? <==> !Stamped(row.doc, CreatedKey) || !Stamped(row.doc, UpdatedKey)
    ensures r.Some? ==>
      && (forall k :: k in r.value <==> k in row.doc || k == IdKey)
      && r.value[IdKey] == Str(IdText(row.id))
      && (CreatedKey in row.doc ==> r.value[CreatedKey] == IsoStamp(row.doc[CreatedKey].t))
      && (UpdatedKey in row.doc ==> r.value[UpdatedKey] == IsoStamp(row.doc[UpdatedKey].t))
      && (forall k :: k in row.doc && k != IdKey && k != CreatedKey && k != UpdatedKey ==>
            r.value[k] == ShowValue(row.doc[k]))
  {
    if !Stamped(row.doc, CreatedKey) || !Stamped(row.doc, UpdatedKey) then None
    else
      var shown := map k | k in row.doc ::
        if k == CreatedKey || k == UpdatedKey then IsoStamp(row.doc[k].t) else ShowValue(row.doc[k]);
      Some(shown[IdKey := Str(IdText(row.id))])
  }

  /** The `list` reply body: every document in collection order, or `None` when one of
      them makes the handler raise. */
  function ListAll(rows: seq<Row>): (r: Option<seq<View>>)
    ensures r.Some? <==> forall i :: 0 <= i < |rows| ==> ListView(rows[i]).Some?
    ensures r.Some? ==> |r.value| == |rows| && forall i :: 0 <= i < |rows| ==> r.value[i] == ListView(rows[i]).value
  {
    if rows == [] then Some([])
    else
      var init := rows[..|rows| - 1];
      match (ListAll(init), ListView(rows[|rows| - 1]))
      case (Some(views), Some(v)) =>
        assert forall i :: 0 <= i < |init| ==> rows[i] == init[i];
        Some(views + [v])
      case _ =>
        assert forall i :: 0 <= i < |init| ==> rows[i] == init[i];
        None
  }

  /** A created document reads back through `get` under the id `create` returned: its
      body fields as texts and `created_at` as the creation instant in ISO form. */
  lemma CreateGetRoundTrip(data: Body, now: Time, id: RowId)
    ensures var v := GetView(Row(id, NewDoc(data, now)));
      && v.Some?
      && v.value[IdKey] == Str(IdText(id))
      && v.value[CreatedKey] == IsoStamp(now)
      && forall k :: k in data && k != IdKey && k != CreatedKey ==> k in v.value && v.value[k] == Str(data[k])
  {
  }

  /** After an update whose body leaves `created_at` alone, `get` shows every updated
      field's new text and the update instant as `updated_at`. */
  lemma UpdateGetRoundTrip(row: Row, data: Body, now: Time)
    requires GetView(row).Some? && CreatedKey !in data
    ensures var v := GetView(Row(row.id, SetFields(row.doc, data, now)));
      && v.Some?
      && v.value[UpdatedKey] == HttpDateStamp(now)
      && forall k :: k in data && k != IdKey && k != UpdatedKey ==> k in v.value && v.value[k] == Str(data[k])
  {
  }

  /** The dashboard's create body carries `updated_at` as the client's clock text;
      once such a document is stored, `list` raises whatever else the collection
      holds. */
  lemma {:induction false} DashboardCreateBreaksList(rows: seq<Row>, id: RowId, data: Body, now: Time)
    requires UpdatedKey in data
    ensures ListAll(rows + [Row(id, NewDoc(data, now))]).None?
  {
    var all := rows + [Row(id, NewDoc(data, now))];
    assert all[|rows|].doc[UpdatedKey] == Text(data[UpdatedKey]);
    assert ListView(all[|rows|]).None?;
  }

  /** `isoformat()` applied only where a clock reading is stored; a text is passed
      through as itself. */
  function IsoIfStamp(v: Stored): (r: Shown)
    ensures v.Date? ==> r == IsoStamp(v.t)
    ensures v.Text? ==> r == Str(v.s)
  {
    match v
    case Date(t) => IsoStamp(t)
    case Text(s) => Str(s)
  }

  /** A `list` entry that converts a stamp only when it holds a clock reading and
      passes a text stamp through, so it never raises. */
  function ListViewIntended(row: Row): (r: View)
    ensures forall k :: k in r <==> k in row.doc || k == IdKey
    ensures r[IdKey] == Str(IdText(row.id))
    ensures CreatedKey in row.doc ==> r[CreatedKey] == IsoIfStamp(row.doc[CreatedKey])
    ensures UpdatedKey in row.doc ==> r[UpdatedKey] == IsoIfStamp(row.doc[UpdatedKey])
    ensures forall k :: k in row.doc && k != IdKey && k != CreatedKey && k != UpdatedKey ==>
      r[k] == ShowValue(row.doc[k])
    ensures ListView(row).Some? ==> ListView(row).value == r
  {
    var shown := map k | k in row.doc ::
      if k == CreatedKey || k == UpdatedKey then IsoIfStamp(row.doc[k]) else ShowValue(row.doc[k]);
    shown[IdKey := Str(IdText(row.id))]
  }

  /** The `list` body with that conversion: every document is listed, in collection
      order, and whenever the handler as written succeeds it gives the same body. */
  function ListAllIntended(rows: seq<Row>): (r: seq<View>)
    ensures |r| == |rows|
    ensures forall i :: 0 <= i < |rows| ==> r[i] == ListViewIntended(rows[i])
    ensures forall i :: 0 <= i < |rows| ==> IdKey in r[i] && r[i][IdKey] == Str(IdText(rows[i].id))
    ensures ListAll(rows).Some? ==> ListAll(rows).value == r
  {
    seq(|rows|, i requires 0 <= i < |rows| => ListViewIntended(rows[i]))
  }

  class ProfileTable {
    /** The collection, in natural order. */
    var rows: seq<Row>
    /** The number of ids generated so far; the next one is numbered by it. */
    var nextKey: nat

    ghost predicate Valid()
      reads this
    {
      && nextKey <= IdSpace
      && DistinctIds(rows)
      && (forall i :: 0 <= i < |rows| && rows[i].id.Generated? ==> rows[i].id.key < nextKey)
      && (forall i :: 0 <= i < |rows| ==> IdKey !in rows[i].doc)
    }

    constructor ()
      ensures Valid() && rows == [] && nextKey == 0
    {
      rows := [];
      nextKey := 0;
    }

    /** `POST /create`: inserts the body with `created_at` and answers with its id. A
        body `_id` becomes the id; inserting an `_id` already present raises. */
    method Create(data: Body, now: Time) returns (reply: Reply)
      requires Valid() && nextKey < IdSpace
      modifies this`rows, this`nextKey
      ensures Valid()
      ensures IdKey !in data ==>
        && reply == Reply(201, CreatedBody(IdString(old(nextKey)), CreatedText))
        && rows == old(rows) + [Row(Generated(old(nextKey)), NewDoc(data, now))]
        && nextKey == old(nextKey) + 1
      ensures IdKey in data && FindId(old(rows), Supplied(data[IdKey])).Some? ==>
        reply == Crashed && rows == old(rows) && nextKey == old(nextKey)
      ensures IdKey in data && FindId(old(rows), Supplied(data[IdKey])).None? ==>
        && reply == Reply(201, CreatedBody(data[IdKey], CreatedText))
        && rows == old(rows) + [Row(Supplied(data[IdKey]), NewDoc(data, now))]
        && nextKey == old(nextKey)
    {
      var id: RowId;
      if IdKey in data {
        id := Supplied(data[IdKey]);
        if FindId(rows, id).Some? {
          return Crashed;
        }
      } else {
        id := Generated(nextKey);
        nextKey := nextKey + 1;
      }
      rows := rows + [Row(id, NewDoc(data, now))];
      reply := Reply(201, CreatedBody(IdText(id), CreatedText));
    }

    /** `GET /get/<id>`. */
    method Get(id: string) returns (reply: Reply)
      ensures ParseObjectId(id).None? ==> reply == InvalidId
      ensures ParseObjectId(id).Some? && FindId(rows, Generated(ParseObjectId(id).value)).None? ==>
        reply == NotFound
      ensures ParseObjectId(id).Some? && FindId(rows, Generated(ParseObjectId(id).value)).Some? ==>
        var view := GetView(rows[FindId(rows, Generated(ParseObjectId(id).value)).value]);
        reply == if view.Some? then Reply(200, DocBody(view.value)) else InvalidId
    {
      var key := ParseObjectId(id);
      if key.None? {
        return InvalidId;
      }
      var found := FindId(rows, Generated(key.value));
      if found.None? {
        return NotFound;
      }
      var view := GetView(rows[found.value]);
      if view.None? {
        return InvalidId;
      }
      reply := Reply(200, DocBody(view.value));
    }

    /** `PUT /update/<id>`: sets the body's fields and `updated_at`, and answers 200
        only when that modified the document. */
    method Update(id: string, data: Body, now: Time) returns (reply: Reply)
      requires Valid()
      modifies this`rows
      ensures Valid()
      ensures ParseObjectId(id).None? ==> reply == InvalidId && rows == old(rows)
      ensures ParseObjectId(id).Some? && FindId(old(rows), Generated(ParseObjectId(id).value)).None? ==>
        reply == NotFound && rows == old(rows)
      ensures ParseObjectId(id).Some? && FindId(old(rows), Generated(ParseObjectId(id).value)).Some? ==>
        var i := FindId(old(rows), Generated(ParseObjectId(id).value)).value;
        var merged := SetFields(old(rows)[i].doc, data, now);
        && (IdKey in data ==> reply == InvalidId && rows == old(rows))
        && (IdKey !in data ==>
              && rows == old(rows)[i := Row(old(rows)[i].id, merged)]
              && reply == if merged == old(rows)[i].doc then NotFound else Updated)
    {
      var key := ParseObjectId(id);
      if key.None? {
        return InvalidId;
      }
      var found := FindId(rows, Generated(key.value));
      if found.None? {
        return NotFound;
      }
      if IdKey in data {
        return InvalidId;
      }
      var i := found.value;
      var merged := SetFields(rows[i].doc, data, now);
      var modified := merged != rows[i].doc;
      rows := rows[i := Row(rows[i].id, merged)];
      reply := if modified then Updated else NotFound;
    }

    /** `DELETE /delete/<id>`. */
    method Delete(id: string) returns (reply: Reply)
      requires Valid()
      modifies this`rows
      ensures Valid()
      ensures ParseObjectId(id).None? ==> reply == InvalidId && rows == old(rows)
      ensures ParseObjectId(id).Some? && FindId(old(rows), Generated(ParseObjectId(id).value)).None? ==>
        reply == NotFound && rows == old(rows)
      ensures ParseObjectId(id).Some? && FindId(old(rows), Generated(ParseObjectId(id).value)).Some? ==>
        var i := FindId(old(rows), Generated(ParseObjectId(id).value)).value;
        reply == Deleted && rows == old(rows)[..i] + old(rows)[i + 1..]
    {
      var key := ParseObjectId(id);
      if key.None? {
        return InvalidId;
      }
      var found := FindId(rows, Generated(key.value));
      if found.None? {
        return NotFound;
      }
      var i := found.value;
      rows := rows[..i] + rows[i + 1..];
      reply := Deleted;
    }

    /** `GET /list`: converts the documents one by one and answers with all of them,
        or raises at the first one whose stamp holds text. */
    method List() returns (reply: Reply)
      ensures ListAll(rows).None? ==> reply == Crashed
      ensures ListAll(rows).Some? ==> reply == Reply(200, DocsBody(ListAll(rows).value))
    {
      var views: seq<View> := [];
      var i := 0;
      while i < |rows|
        invariant 0 <= i <= |rows|
        invariant |views| == i
        invariant forall j :: 0 <= j < i ==> ListView(rows[j]).Some? && views[j] == ListView(rows[j]).value
      {
        var view := ListView(rows[i]);
        if view.None? {
          return Crashed;
        }
        views := views + [view.value];
        i := i + 1;
      }
      assert ListAll(rows).Some?;
      assert ListAll(rows).value == views;
      reply := Reply(200, DocsBody(views));
    }
  }

  /** Creating a document and reading it back by the returned id gives the body's
      fields; deleting it afterwards makes it unreadable. */
  method CreateGetDelete(table: ProfileTable, data: Body, now: Time)
    returns (created: Reply, read: Reply, deleted: Reply, reread: Reply)
    requires table.Valid() && table.nextKey < IdSpace && IdKey !in data
    modifies table
    ensures created.status == 201 && created.body.CreatedBody?
    ensures read.status == 200 && read.body.DocBody? && IdKey in read.body.doc
    ensures read.body.doc[IdKey] == Str(created.body.id)
    ensures forall k :: k in data && k != CreatedKey ==> k in read.body.doc && read.body.doc[k] == Str(data[k])
    ensures deleted == Deleted && reread == NotFound
  {
    var k := table.nextKey;
    var row := Row(Generated(k), NewDoc(data, now));
    var before := table.rows;
    assert FindId(before, Generated(k)).None?;
    created := table.Create(data, now);
    assert table.rows == before + [row];
    ParseIdString(k);
    CreatedRowFound(before, row);
    CreateGetRoundTrip(data, now, Generated(k));
    read := table.Get(created.body.id);
    assert read == Reply(200, DocBody(GetView(row).value));
    deleted := table.Delete(created.body.id);
    DeletedRowGone(before + [row], Generated(k));
    reread := table.Get(created.body.id);
  }
}
