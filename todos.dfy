/** The todo CRUD handlers of todos/todos.go over an abstract table of live
    rows. Each handler parses its inputs, decides 400, 404 or 200, and reads,
    inserts, patches or removes one record. The table is a map from a row's
    `Id` to the row; a lookup that misses leaves Go's zero-valued `Todo`, and
    the handlers decide "not found" by comparing the fetched `Id` with the
    requested id, which is why id 0 behaves as if it were always present. */
module Todos {
  import opened Wrappers
  import opened IdParse

  /** One row of the todos table (the audit fields of the store's base record are not modelled). */
  datatype Todo = Todo(id: int, name: string, completed: bool)

  /** Go's zero value of `Todo`: what a lookup leaves behind when no row matches. */
  const ZeroTodo: Todo := Todo(0, "", false)

  const StatusOK: int := 200
  const StatusBadRequest: int := 400
  const StatusNotFound: int := 404

  /** The JSON body of a response: a record, a list of records, `{"error": …}` or `{"status": …}`. */
  datatype Payload =
    | Record(todo: Todo)
    | Records(todos: seq<Todo>)
    | Error(error: string)
    | Status(status: string)

  datatype Response = Response(code: int, payload: Payload)

  const CannotParseId: Response := Response(StatusBadRequest, Error("cannot parse id"))
  const CannotParseJson: Response := Response(StatusBadRequest, Error("cannot parse json"))
  const CannotParseBody: Response := Response(StatusBadRequest, Error("Cannot parse body"))
  const TodoNotFound: Response := Response(StatusNotFound, Error("todo not found"))
  const TodoDeleted: Response := Response(StatusOK, Status("todo deleted successfully"))

  /** The decoded body of a create request. A body without "name" decodes with the empty name. */
  datatype AddRequest = AddRequest(name: string)

  /** The decoded body of an update request: each field is present only when the client sent it. */
  datatype UpdateRequest = UpdateRequest(name: Option<string>, completed: Option<bool>)

  /** The live rows of the table, keyed by primary key. */
  type Table = map<int, Todo>

  /** Every row sits under its own `Id`, and every key is a Go `int`. */
  ghost predicate WellKeyed(rows: Table) {
    forall k | k in rows :: rows[k].id == k && InIntRange(k)
  }

  /** Reading one row by primary key into a zero-valued `Todo`: the row when
      there is one, the zero value otherwise. */
  function Lookup(rows: Table, id: int): (t: Todo)
    ensures id in rows ==> t == rows[id]
    ensures id !in rows ==> t == ZeroTodo
  {
    if id in rows then rows[id] else ZeroTodo
  }

  /** The handlers' presence test (the fetched `Id` equals the requested id)
      holds exactly for the stored ids and for id 0. */
  lemma LookupMatches(rows: Table, id: int)
    requires WellKeyed(rows)
    ensures Lookup(rows, id).id == id <==> id in rows || id == 0
  {
  }

  lemma HasElement(s: set<int>)
    requires s != {}
    ensures exists x :: x in s
  {
    if forall x :: x !in s {
      assert false;
    }
  }

  lemma HasKeyFor(rows: Table, t: Todo)
    requires t in rows.Values
    ensures exists k :: k in rows && rows[k] == t
  {
    if forall k | k in rows :: rows[k] != t {
      assert false;
    }
  }

  lemma {:induction false} MinimumExists(s: set<int>)
    requires s != {}
    ensures exists m :: m in s && forall k | k in s :: m <= k
  {
    HasElement(s);
    var x :| x in s;
    if !forall k | k in s :: x <= k {
      var y :| y in s && y < x;
      var rest := s - {x};
      assert y in rest;
      MinimumExists(rest);
      var m :| m in rest && forall k | k in rest :: m <= k;
      forall k | k in s
        ensures m <= k
      {
        if k == x {
          assert m <= y;
        } else {
          assert k in rest;
        }
      }
      assert m in s;
    }
  }

  function Minimum(s: set<int>): (m: int)
    requires s != {}
    ensures m in s && forall k | k in s :: m <= k
  {
    MinimumExists(s);
    var m :| m in s && forall k | k in s :: m <= k;
    m
  }

  /** The keys of a table in ascending order, each once. */
  function SortedKeys(s: set<int>): (ks: seq<int>)
    ensures |ks| == |s|
    ensures forall k :: k in ks <==> k in s
    ensures forall i, j | 0 <= i < j < |ks| :: ks[i] < ks[j]
    decreases s
  {
    if s == {} then []
    else
      var m := Minimum(s);
      [m] + SortedKeys(s - {m})
  }

  /** Every row of the table, listed in ascending order of primary key. */
  function ListRows(rows: Table): (todos: seq<Todo>)
    ensures |todos| == |rows|
    ensures forall t :: t in todos <==> t in rows.Values
    ensures WellKeyed(rows) ==> forall i, j | 0 <= i < j < |todos| :: todos[i].id < todos[j].id
  {
    var ks := SortedKeys(rows.Keys);
    var todos := seq(|ks|, i requires 0 <= i < |ks| => rows[ks[i]]);
    ListRowsHasEveryRow(rows, ks, todos);
    todos
  }

  lemma ListRowsHasEveryRow(rows: Table, ks: seq<int>, todos: seq<Todo>)
    requires forall k :: k in ks <==> k in rows
    requires |todos| == |ks|
    requires forall i | 0 <= i < |ks| :: ks[i] in rows && todos[i] == rows[ks[i]]
    ensures forall t :: t in todos <==> t in rows.Values
  {
    forall t | t in rows.Values
      ensures t in todos
    {
      HasKeyFor(rows, t);
      var k :| k in rows && rows[k] == t;
      assert k in ks;
      var i :| 0 <= i < |ks| && ks[i] == k;
      assert todos[i] == t;
    }
  }

  /** GET /todos/: always 200 with exactly the stored records, each once,
      and an empty list for an empty table. */
  function GetAll(rows: Table): (r: Response)
    ensures r.code == StatusOK && r.payload.Records?
    ensures |r.payload.todos| == |rows|
    ensures rows == map[] ==> r.payload.todos == []
    ensures forall t :: t in r.payload.todos <==> t in rows.Values
    ensures WellKeyed(rows) ==>
      forall i, j | 0 <= i < j < |r.payload.todos| :: r.payload.todos[i].id < r.payload.todos[j].id
  {
    Response(StatusOK, Records(ListRows(rows)))
  }

  /** GET /todos/:id: 400 for a path that is not an id; otherwise the row
      under that id with 200, 404 for an absent nonzero id, and 200 with the
      zero record for an absent id 0. */
  function GetOne(rows: Table, param: string): (r: Response)
    requires WellKeyed(rows)
    ensures ParseId(param).None? ==> r == CannotParseId
    ensures var p := ParseId(param);
      p.Some? && p.value in rows ==> r == Response(StatusOK, Record(rows[p.value]))
    ensures var p := ParseId(param);
      p.Some? && p.value !in rows && p.value != 0 ==> r == TodoNotFound
    ensures ParseId(param) == Some(0) && 0 !in rows ==> r == Response(StatusOK, Record(ZeroTodo))
  {
    match ParseId(param)
    case None => CannotParseId
    case Some(id) =>
      var todo := Lookup(rows, id);
      if todo.id == id then Response(StatusOK, Record(todo)) else TodoNotFound
  }

  /** An update request applied to a record: each supplied field replaces the
      record's, every other field is kept. */
  function Patch(t: Todo, req: UpdateRequest): (p: Todo)
    ensures p.id == t.id
    ensures p.name == (if req.name.Some? then req.name.value else t.name)
    ensures p.completed == (if req.completed.Some? then req.completed.value else t.completed)
  {
    t.(name := req.name.GetOr(t.name), completed := req.completed.GetOr(t.completed))
  }

  /** The table behind the handlers. */
  class Store {
    var rows: Table

    ghost predicate Valid()
      reads this
    {
      WellKeyed(rows)
    }

    constructor ()
      ensures Valid() && rows == map[]
    {
      rows := map[];
    }

    /** POST /todos/: 400 when the body does not decode, with the table left
        as it was; otherwise the record with the generated id, the given name
        (not validated) and `completed` false is stored and answered with 200. */
    method AddTodo(body: Option<AddRequest>, newId: int) returns (r: Response)
      requires Valid()
      requires 0 <= newId < 0x1_0000_0000 && newId !in rows
      modifies this
      ensures Valid()
      ensures body.None? ==> r == CannotParseJson && rows == old(rows)
      ensures body.Some? ==>
        var todo := Todo(newId, body.value.name, false);
        r == Response(StatusOK, Record(todo)) && rows == old(rows)[newId := todo]
    {
      if body.None? {
        return CannotParseJson;
      }
      var todo := Todo(newId, body.value.name, false);
      rows := rows[todo.id := todo];
      r := Response(StatusOK, Record(todo));
    }

    /** DELETE /todos/:id: 400 for a path that is not an id, 404 for an absent
        nonzero id, and otherwise 200 with exactly that row removed; an absent
        id 0 passes the presence test, removes nothing and still answers 200. */
    method DeleteTodo(param: string) returns (r: Response)
      requires Valid()
      modifies this
      ensures Valid()
      ensures ParseId(param).None? ==> r == CannotParseId && rows == old(rows)
      ensures var p := ParseId(param);
        p.Some? && p.value in old(rows) ==> r == TodoDeleted && rows == old(rows) - {p.value}
      ensures var p := ParseId(param);
        p.Some? && p.value !in old(rows) && p.value != 0 ==> r == TodoNotFound && rows == old(rows)
      ensures ParseId(param) == Some(0) && 0 !in old(rows) ==> r == TodoDeleted && rows == old(rows)
    {
      var parsed := ParseId(param);
      if parsed.None? {
        return CannotParseId;
      }
      var id := parsed.value;
      var todo := Lookup(rows, id);
      if todo.id != id {
        return TodoNotFound;
      }
      rows := rows - {todo.id};
      r := TodoDeleted;
    }

    /** PATCH /todos/:id: the id is checked before the body (400 "cannot parse
        id", then 400 "Cannot parse body"), then presence (404 for an absent
        nonzero id); a found record gets the supplied fields, is saved under
        its id and answered with 200. An absent id 0 is patched from the zero
        record and saved under key 0. Every other row is untouched. */
    method UpdateTodo(param: string, body: Option<UpdateRequest>) returns (r: Response)
      requires Valid()
      modifies this
      ensures Valid()
      ensures ParseId(param).None? ==> r == CannotParseId && rows == old(rows)
      ensures ParseId(param).Some? && body.None? ==> r == CannotParseBody && rows == old(rows)
      ensures var p := ParseId(param);
        p.Some? && body.Some? && p.value !in old(rows) && p.value != 0 ==>
          r == TodoNotFound && rows == old(rows)
      ensures var p := ParseId(param);
        p.Some? && body.Some? && p.value in old(rows) ==>
          var todo := Patch(old(rows)[p.value], body.value);
          r == Response(StatusOK, Record(todo)) && rows == old(rows)[p.value := todo]
      ensures ParseId(param) == Some(0) && body.Some? && 0 !in old(rows) ==>
        var todo := Patch(ZeroTodo, body.value);
        r == Response(StatusOK, Record(todo)) && rows == old(rows)[0 := todo]
    {
      var parsed := ParseId(param);
      if parsed.None? {
        return CannotParseId;
      }
      var id := parsed.value;
      if body.None? {
        return CannotParseBody;
      }
      var req := body.value;
      var todo := Lookup(rows, id);
      if todo.id != id {
        return TodoNotFound;
      }
      if req.name.Some? {
        todo := todo.(name := req.name.value);
      }
      if req.completed.Some? {
        todo := todo.(completed := req.completed.value);
      }
      rows := rows[todo.id := todo];
      r := Response(StatusOK, Record(todo));
    }
  }

  /** A stored record is found again under the decimal text of its id. */
  lemma GetOneFindsStored(rows: Table, t: Todo)
    requires WellKeyed(rows) && t.id in rows && rows[t.id] == t
    ensures GetOne(rows, FormatInt(t.id)) == Response(StatusOK, Record(t))
  {
  }

  /** Once a nonzero id is removed, looking it up answers 404. */
  lemma GetOneAfterDelete(rows: Table, id: int)
    requires WellKeyed(rows) && InIntRange(id) && id != 0
    ensures GetOne(rows - {id}, FormatInt(id)) == TodoNotFound
  {
  }

  /** With an empty table, id 0 is answered with 200 and the zero record, not 404. */
  lemma GetOneZeroIdOnEmptyTable()
    ensures GetOne(map[], "0") == Response(StatusOK, Record(ZeroTodo))
  {
  }

  /** "-0" reaches the id-0 quirk too: on a table without row 0 it answers 200 with the zero record. */
  lemma GetOneNegativeZero(rows: Table)
    requires WellKeyed(rows) && 0 !in rows
    ensures GetOne(rows, "-0") == Response(StatusOK, Record(ZeroTodo))
  {
    ParseNegativeZero();
  }

  /** An update that supplies no field leaves the record as it was. */
  lemma PatchNothingIsIdentity(t: Todo)
    ensures Patch(t, UpdateRequest(None, None)) == t
  {
  }

  /** Supplying only `completed` changes only `completed`: the id and the name stay. */
  lemma PatchCompletedKeepsName(t: Todo, c: bool)
    ensures Patch(t, UpdateRequest(None, Some(c))) == Todo(t.id, t.name, c)
  {
  }

  /** Applying the same update twice is the same as applying it once. */
  lemma PatchIdempotent(t: Todo, req: UpdateRequest)
    ensures Patch(Patch(t, req), req) == Patch(t, req)
  {
  }

  /** Deleting the same nonzero id twice answers 200, then 404, and removes exactly that row. */
  method DeleteTwice(s: Store, id: int) returns (first: Response, second: Response)
    requires s.Valid() && id in s.rows && id != 0
    modifies s
    ensures s.Valid() && s.rows == old(s.rows) - {id}
    ensures first == TodoDeleted && second == TodoNotFound
  {
    ParseFormatRoundTrip(id);
    first := s.DeleteTodo(FormatInt(id));
    second := s.DeleteTodo(FormatInt(id));
  }

  /** Create, fetch, complete, delete and fetch again one todo under a nonzero generated id. */
  method Lifecycle(s: Store, name: string, newId: int)
    returns (created: Response, fetched: Response, updated: Response, deleted: Response, missing: Response)
    requires s.Valid() && 0 < newId < 0x1_0000_0000 && newId !in s.rows
    modifies s
    ensures created == Response(StatusOK, Record(Todo(newId, name, false)))
    ensures fetched == created
    ensures updated == Response(StatusOK, Record(Todo(newId, name, true)))
    ensures deleted == TodoDeleted && missing == TodoNotFound
    ensures s.Valid() && s.rows == old(s.rows)
  {
    var path := FormatInt(newId);
    ParseFormatRoundTrip(newId);
    created := s.AddTodo(Some(AddRequest(name)), newId);
    fetched := GetOne(s.rows, path);
    updated := s.UpdateTodo(path, Some(UpdateRequest(None, Some(true))));
    deleted := s.DeleteTodo(path);
    missing := GetOne(s.rows, path);
  }
}
