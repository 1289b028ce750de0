/**
  The student database shared by the two student servers: the map `bd`
  from id to `Alumno`, the id counter `idAuto`, the five CRUD operations
  and the router `gestionarAlumnos` / `gestionar` that picks one of them
  from the path and the method.
*/
module AlumnoStore {
  import opened Wrappers
  import opened JavaText
  import opened JavaNumbers
  import opened OrderedMap
  import opened FlatJson
  import opened Alumnos
  import opened Http

  /** `bd` and `idAuto`. */
  datatype Store = Store(db: map<int, Alumno>, next: Int32)

  /** The store a server starts with: no students, next id 1. */
  const Initial: Store := Store(map[], 1)

  const NotFoundText: string := "No encontrado"
  const NotAllowedText: string := "M\U{e9}todo no permitido"

  /** The counter is positive, every student is stored under its own id,
      and every id is below the counter, so the counter is a fresh id. */
  predicate Valid(st: Store)
  {
    && 1 <= st.next
    && forall k | k in st.db :: 1 <= k < st.next && st.db[k].id == k
  }

  /** The JSON of each record, in order. */
  function JsonAll(xs: seq<Alumno>): seq<string>
  {
    seq(|xs|, i requires 0 <= i < |xs| => ToJson(xs[i]))
  }

  /** The array `listar` answers with (and `guardarEnArchivo` writes). */
  function ListJson(db: map<int, Alumno>): string
  {
    BuildArray(JsonAll(Values(db)))
  }

  // ---------------------------------------------------------------------
  // The five operations
  // ---------------------------------------------------------------------

  /** `listar`: 200 and the records in iteration order, comma-separated
      between brackets. */
  function List(st: Store): (o: Outcome<Store>)
    ensures o.store == st
    ensures o.response == Reply(200, "[" + Join(JsonAll(Values(st.db)), ",") + "]")
  {
    BuildArrayJoin(JsonAll(Values(st.db)));
    Outcome(Reply(200, ListJson(st.db)), st)
  }

  /** `obtener`: 200 and the record when the id is present, 404 otherwise. */
  function Get(st: Store, id: int): (o: Outcome<Store>)
    ensures o.store == st && o.response.Reply?
    ensures o.response.status == 200 <==> id in st.db
    ensures id in st.db ==> o.response.body == ToJson(st.db[id])
    ensures id !in st.db ==> o.response == Reply(404, NotFoundText)
  {
    if id in st.db then Outcome(Reply(200, ToJson(st.db[id])), st)
    else Outcome(Reply(404, NotFoundText), st)
  }

  /** `crear`: the parsed record gets the counter's value as its id and is
      stored under it; the counter moves on. A body `fromJson` rejects
      throws before anything changes. */
  function Create(st: Store, body: string): (o: Outcome<Store>)
    ensures o.response.Aborted? <==> FromJson(body).None?
    ensures o.response.Aborted? ==> o.store == st
    ensures o.response.Reply? ==>
      && o.store.db.Keys == st.db.Keys + {st.next}
      && o.store.db[st.next] == FromJson(body).value.(id := st.next)
      && (forall k | k in st.db && k != st.next :: o.store.db[k] == st.db[k])
      && o.store.next == Inc32(st.next)
      && o.response == Reply(201, ToJson(o.store.db[st.next]))
  {
    match FromJson(body)
    case None => Outcome(Aborted, st)
    case Some(a) =>
      var nuevo := a.(id := st.next);
      Outcome(Reply(201, ToJson(nuevo)), Store(st.db[st.next := nuevo], Inc32(st.next)))
  }

  /** `actualizar`: 404 for an unknown id (the body is not read); otherwise
      the parsed record replaces the old one under the same id, or the
      parse throws and nothing changes. */
  function Update(st: Store, id: int, body: string): (o: Outcome<Store>)
    ensures id !in st.db ==> o == Outcome(Reply(404, NotFoundText), st)
    ensures o.response.Aborted? <==> id in st.db && FromJson(body).None?
    ensures o.response.Aborted? ==> o.store == st
    ensures id in st.db && o.response.Reply? ==>
      && o.store.next == st.next
      && o.store.db.Keys == st.db.Keys
      && o.store.db[id] == FromJson(body).value.(id := id)
      && (forall k | k in st.db && k != id :: o.store.db[k] == st.db[k])
      && o.response == Reply(200, ToJson(o.store.db[id]))
  {
    if id !in st.db then Outcome(Reply(404, NotFoundText), st)
    else
      match FromJson(body)
      case None => Outcome(Aborted, st)
      case Some(a) =>
        var modificado := a.(id := id);
        Outcome(Reply(200, ToJson(modificado)), st.(db := st.db[id := modificado]))
  }

  /** `eliminar`: 204 and the id gone when it was present, 404 otherwise. */
  function Delete(st: Store, id: int): (o: Outcome<Store>)
    ensures o.store.next == st.next
    ensures o.store.db.Keys == st.db.Keys - {id}
    ensures forall k | k in o.store.db :: o.store.db[k] == st.db[k]
    ensures o.response == (if id in st.db then Reply(204, "") else Reply(404, NotFoundText))
  {
    if id in st.db then Outcome(Reply(204, ""), st.(db := st.db - {id}))
    else Outcome(Reply(404, NotFoundText), st)
  }

  // ---------------------------------------------------------------------
  // Routing
  // ---------------------------------------------------------------------

  /** What the router does with a request. `BadId` is an id segment that
      `Integer.parseInt` rejects: the exception escapes the handler. */
  datatype Action =
    | ListAll
    | CreateOne
    | GetOne(id: int)
    | UpdateOne(id: int)
    | DeleteOne(id: int)
    | NotAllowed
    | BadId
    | NoRoute

  /** The router: two path parts are the collection, three an item (the
      second part is never looked at); the method is compared exactly. */
  function Route(verb: string, path: string): (a: Action)
    ensures a == NoRoute <==> |Segments(path)| != 2 && |Segments(path)| != 3
    ensures a in {ListAll, CreateOne} ==> |Segments(path)| == 2
    ensures a.GetOne? || a.UpdateOne? || a.DeleteOne? ==>
      |Segments(path)| == 3 && ParseInt32(Segments(path)[2]) == Some(a.id)
  {
    var partes := Segments(path);
    if |partes| == 2 then
      if verb == "GET" then ListAll
      else if verb == "POST" then CreateOne
      else NotAllowed
    else if |partes| == 3 then
      match ParseInt32(partes[2])
      case None => BadId
      case Some(id) =>
        if verb == "GET" then GetOne(id)
        else if verb == "PUT" then UpdateOne(id)
        else if verb == "DELETE" then DeleteOne(id)
        else NotAllowed
    else NoRoute
  }

  /** Carries out an action; `noRoute` is the server's 404 text for a path
      of any other shape. */
  function Apply(st: Store, action: Action, body: string, noRoute: string): Outcome<Store>
  {
    match action
    case ListAll => List(st)
    case CreateOne => Create(st, body)
    case GetOne(id) => Get(st, id)
    case UpdateOne(id) => Update(st, id, body)
    case DeleteOne(id) => Delete(st, id)
    case NotAllowed => Outcome(Reply(405, NotAllowedText), st)
    case BadId => Outcome(Aborted, st)
    case NoRoute => Outcome(Reply(404, noRoute), st)
  }

  /** Whether the action changed the database (`guardarEnArchivo` runs). */
  predicate Mutated(action: Action, r: Response)
  {
    r.Reply? && ((action == CreateOne && r.status == 201)
      || (action.UpdateOne? && r.status == 200)
      || (action.DeleteOne? && r.status == 204))
  }

  // ---------------------------------------------------------------------
  // Properties
  // ---------------------------------------------------------------------

  /** `/alumnos` and `/alumnos/` are the collection: GET lists, POST
      creates, any other method is refused. */
  lemma RouteCollection(name: string, verb: string, path: string)
    requires IsSegment(name) && path in {"/" + name, "/" + name + "/"}
    ensures Route(verb, path) ==
      if verb == "GET" then ListAll else if verb == "POST" then CreateOne else NotAllowed
  {
    CollectionSegments(name);
  }

  /** `/alumnos/<id>` (and with a trailing slash) is the item `id` for any
      `int` id: GET reads, PUT replaces, DELETE removes, anything else is
      refused. */
  lemma RouteItem(name: string, id: Int32, verb: string, path: string)
    requires IsSegment(name)
    requires path in {"/" + name + "/" + FormatInt(id), "/" + name + "/" + FormatInt(id) + "/"}
    ensures Route(verb, path) ==
      if verb == "GET" then GetOne(id)
      else if verb == "PUT" then UpdateOne(id)
      else if verb == "DELETE" then DeleteOne(id)
      else NotAllowed
  {
    assert IsInt32(id);
    ItemSegments(name, FormatInt(id));
    ParseFormatInt(id, Int32Min, Int32Max);
  }

  /** A record created from a body reads back with the id it was given. */
  lemma GetAfterCreate(st: Store, body: string)
    requires FromJson(body).Some?
    ensures Get(Create(st, body).store, st.next).response == Reply(200, Create(st, body).response.body)
  {
  }

  /** After an update of a present id, reading the id gives the update's
      answer. */
  lemma GetAfterUpdate(st: Store, id: int, body: string)
    requires id in st.db && FromJson(body).Some?
    ensures Get(Update(st, id, body).store, id).response == Update(st, id, body).response
  {
  }

  /** After a delete, the id is not found, whether or not it was there. */
  lemma GetAfterDelete(st: Store, id: int)
    ensures Get(Delete(st, id).store, id).response == Reply(404, NotFoundText)
  {
  }

  /** Deleting twice is deleting once. */
  lemma DeleteIdempotent(st: Store, id: int)
    ensures Delete(Delete(st, id).store, id).store == Delete(st, id).store
    ensures Delete(Delete(st, id).store, id).response == Reply(404, NotFoundText)
  {
  }

  /** Creating stores the new record under a key no record had, so the
      database grows by exactly one, as long as the counter does not wrap. */
  lemma CreateGrows(st: Store, body: string)
    requires Valid(st) && st.next < Int32Max && FromJson(body).Some?
    ensures st.next !in st.db
    ensures |Create(st, body).store.db| == |st.db| + 1
    ensures Create(st, body).store.next == st.next + 1
  {
  }

  lemma CreateValid(st: Store, body: string)
    requires Valid(st) && st.next < Int32Max
    ensures Valid(Create(st, body).store)
  {
  }

  /** Storing a record under the counter and moving the counter on keeps
      the store valid. */
  lemma InsertValid(st: Store, a: Alumno)
    requires Valid(st) && st.next < Int32Max
    ensures Valid(Store(st.db[st.next := a.(id := st.next)], st.next + 1))
  {
  }

  lemma UpdateValid(st: Store, id: int, body: string)
    requires Valid(st)
    ensures Valid(Update(st, id, body).store)
  {
  }

  lemma DeleteValid(st: Store, id: int)
    requires Valid(st)
    ensures Valid(Delete(st, id).store)
  {
  }

  /** Every operation, and so every request, keeps the store valid while
      the counter does not wrap; the counter moves on by at most one. */
  lemma ApplyValid(st: Store, action: Action, body: string, noRoute: string)
    requires Valid(st) && st.next < Int32Max
    ensures Valid(Apply(st, action, body, noRoute).store)
    ensures st.next <= Apply(st, action, body, noRoute).store.next <= st.next + 1
  {
  }

  /** A request that changes the store is one after which the file is
      written. */
  lemma ApplyMutated(st: Store, action: Action, body: string, noRoute: string)
    ensures Apply(st, action, body, noRoute).store != st ==> Mutated(action, Apply(st, action, body, noRoute).response)
  {
  }

  /** A request adds no key but the counter's value. */
  lemma ApplyKeys(st: Store, action: Action, body: string, noRoute: string)
    ensures Apply(st, action, body, noRoute).store.db.Keys <= st.db.Keys + {st.next}
  {
  }

  /** Only the record a request names can change: every other id keeps
      its record. */
  lemma ApplyFrame(st: Store, action: Action, body: string, noRoute: string, k: int)
    requires k in st.db
    requires k != st.next || action != CreateOne
    requires !(action.UpdateOne? || action.DeleteOne?) || action.id != k
    ensures k in Apply(st, action, body, noRoute).store.db
    ensures Apply(st, action, body, noRoute).store.db[k] == st.db[k]
  {
  }

  /** The list holds the JSON of every stored record... */
  lemma ListHoldsEvery(st: Store)
    ensures forall a | a in st.db.Values :: ToJson(a) in JsonAll(Values(st.db))
  {
    ValuesExactly(st.db);
    var vs := Values(st.db);
    forall a | a in st.db.Values
      ensures ToJson(a) in JsonAll(vs)
    {
      assert a in vs;
      var i :| 0 <= i < |vs| && vs[i] == a;
      assert JsonAll(vs)[i] == ToJson(a);
    }
  }

  /** ... and nothing else. */
  lemma ListHoldsOnly(st: Store)
    ensures forall j | j in JsonAll(Values(st.db)) :: exists a | a in st.db.Values :: j == ToJson(a)
  {
  }
}
