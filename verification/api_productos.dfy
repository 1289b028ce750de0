/**
  The product API: the map `productos` from id to `Producto`, the `long`
  counter `contadorId`, and `handleProductos`, which answers a CORS
  preflight, routes the collection and item paths to the CRUD operations
  and `/productos/mascaros` to the price filter.
*/
module ApiProductos {
  import opened Wrappers
  import opened JavaText
  import opened JavaNumbers
  import opened OrderedMap
  import opened FlatJson
  import opened Productos
  import opened Http

  /** `productos` and `contadorId`. */
  datatype Catalog = Catalog(productos: map<int, Producto>, next: Int64)

  /** The catalog the server starts with: no products, next id 1. */
  const Initial: Catalog := Catalog(map[], 1)

  const NotFoundText: string := "Producto no encontrado"
  const NotAllowedText: string := "M\U{e9}todo no permitido"
  const NoRouteText: string := "Ruta no encontrada"
  const BadIdText: string := "ID inv\U{e1}lido o ruta desconocida"
  const BadPriceText: string := "Par\U{e1}metro precio inv\U{e1}lido"

  /** The counter is positive, every product is stored under its own id,
      below the counter, and passed the setters of the given price rule. */
  predicate Valid(rule: PriceRule, c: Catalog)
  {
    && 1 <= c.next
    && forall k | k in c.productos ::
      1 <= k < c.next && c.productos[k].id == k && Accepted(rule, c.productos[k])
  }

  /** The JSON of each product, in order. */
  function JsonAll(xs: seq<Producto>): seq<string>
  {
    seq(|xs|, i requires 0 <= i < |xs| => ToJson(xs[i]))
  }

  /** `"[" + String.join(",", arr) + "]"`. */
  function ArrayOf(xs: seq<Producto>): string
  {
    "[" + Join(JsonAll(xs), ",") + "]"
  }

  // ---------------------------------------------------------------------
  // The CRUD operations
  // ---------------------------------------------------------------------

  /** `listar`: 200 and every product in iteration order. */
  function List(c: Catalog): (o: Outcome<Catalog>)
    ensures o.store == c
    ensures o.response.Reply? && o.response.status == 200
    ensures o.response.body == "[" + Join(JsonAll(Values(c.productos)), ",") + "]"
    ensures |c.productos| == 0 ==> o.response.body == "[]"
  {
    Outcome(Reply(200, ArrayOf(Values(c.productos))), c)
  }

  /** `obtener`: 200 and the product when the id is present, 404 otherwise. */
  function Get(c: Catalog, id: int): (o: Outcome<Catalog>)
    ensures o.store == c && o.response.Reply?
    ensures o.response.status == 200 <==> id in c.productos
    ensures id in c.productos ==> o.response.body == ToJson(c.productos[id])
    ensures id !in c.productos ==> o.response == Reply(404, JsonError(NotFoundText))
  {
    if id in c.productos then Outcome(Reply(200, ToJson(c.productos[id])), c)
    else Outcome(Reply(404, JsonError(NotFoundText)), c)
  }

  /** `crear`, given what `fromJson` made of the body: an accepted product
      gets the counter's value as its id and is stored under it, and the
      counter moves on; a refusal is a 400 carrying the exception's
      message, and a malformed piece throws past the handler; in both
      cases nothing changes. */
  function Create(c: Catalog, parsed: Parse): (o: Outcome<Catalog>)
    ensures match parsed
      case Crashed => o == Outcome(Aborted, c)
      case Rejected(msg) => o == Outcome(Reply(400, JsonError(msg)), c)
      case Parsed(p) =>
        && o.store.productos.Keys == c.productos.Keys + {c.next}
        && o.store.productos[c.next] == p.(id := c.next)
        && (forall k | k in c.productos && k != c.next :: o.store.productos[k] == c.productos[k])
        && o.store.next == Inc64(c.next)
        && o.response == Reply(201, ToJson(p.(id := c.next)))
  {
    match parsed
    case Crashed => Outcome(Aborted, c)
    case Rejected(msg) => Outcome(Reply(400, JsonError(msg)), c)
    case Parsed(p) =>
      var nuevo := p.(id := c.next);
      Outcome(Reply(201, ToJson(nuevo)), Catalog(c.productos[c.next := nuevo], Inc64(c.next)))
  }

  /** `actualizar`, given what `fromJson` makes of the body: 404 for an
      unknown id whatever the body (it is not read); otherwise an accepted
      product replaces the old one under the same id, and a refused or
      malformed body changes nothing. */
  function Update(c: Catalog, id: int, parsed: Parse): (o: Outcome<Catalog>)
    ensures id !in c.productos ==> o == Outcome(Reply(404, JsonError(NotFoundText)), c)
    ensures id in c.productos ==>
      match parsed
      case Crashed => o == Outcome(Aborted, c)
      case Rejected(msg) => o == Outcome(Reply(400, JsonError(msg)), c)
      case Parsed(p) =>
        && o.store.next == c.next
        && o.store.productos.Keys == c.productos.Keys
        && o.store.productos[id] == p.(id := id)
        && (forall k | k in c.productos && k != id :: o.store.productos[k] == c.productos[k])
        && o.response == Reply(200, ToJson(p.(id := id)))
  {
    if id !in c.productos then Outcome(Reply(404, JsonError(NotFoundText)), c)
    else
      match parsed
      case Crashed => Outcome(Aborted, c)
      case Rejected(msg) => Outcome(Reply(400, JsonError(msg)), c)
      case Parsed(p) =>
        var modificado := p.(id := id);
        Outcome(Reply(200, ToJson(modificado)), c.(productos := c.productos[id := modificado]))
  }

  /** `eliminar`: 204 and the id gone when it was present, 404 otherwise. */
  function Delete(c: Catalog, id: int): (o: Outcome<Catalog>)
    ensures o.store.next == c.next
    ensures o.store.productos.Keys == c.productos.Keys - {id}
    ensures forall k | k in o.store.productos :: o.store.productos[k] == c.productos[k]
    ensures o.response == (if id in c.productos then Reply(204, "") else Reply(404, JsonError(NotFoundText)))
  {
    if id in c.productos then Outcome(Reply(204, ""), c.(productos := c.productos - {id}))
    else Outcome(Reply(404, JsonError(NotFoundText)), c)
  }

  // ---------------------------------------------------------------------
  // The query string and the price filter
  // ---------------------------------------------------------------------

  /** The loop of `queryToMap` over the `&`-separated parameters: a
      parameter that splits on `=` into at least two parts puts its decoded
      name and value, a later one overwriting an earlier one; any other
      parameter is skipped. `decode` is `URLDecoder.decode`, `None` for the
      `IllegalArgumentException` it throws on a malformed escape. */
  function AddParams(params: seq<string>, acc: map<string, string>, decode: string -> Option<string>)
    : (r: Option<map<string, string>>)
    ensures r.Some? ==> acc.Keys <= r.value.Keys
    decreases |params|
  {
    if |params| == 0 then Some(acc)
    else
      var kv := Split(params[0], "=");
      if |kv| > 1 then
        match decode(kv[0])
        case None => None
        case Some(k) =>
          match decode(kv[1])
          case None => None
          case Some(v) => AddParams(params[1..], acc[k := v], decode)
      else AddParams(params[1..], acc, decode)
  }

  /** `queryToMap`: no query is no parameters. */
  function QueryToMap(q: Option<string>, decode: string -> Option<string>): (r: Option<map<string, string>>)
    ensures q.None? ==> r == Some(map[])
  {
    match q
    case None => Some(map[])
    case Some(text) => AddParams(Split(text, "&"), map[], decode)
  }

  /** The threshold of `filtrarPorPrecio`: the `precio` parameter, `"0"`
      when there is none, read by `Double.parseDouble`; `None` when either
      step throws. */
  function Threshold(q: Option<string>, decode: string -> Option<string>): Option<Double>
  {
    match QueryToMap(q, decode)
    case None => None
    case Some(params) => ParseDouble(GetOrDefault(params, "precio", "0"))
  }

  /** The products whose price is `>= u`, in their order. */
  function AtLeast(xs: seq<Producto>, u: Double): (ys: seq<Producto>)
    ensures |ys| <= |xs|
    ensures forall p :: p in ys <==> p in xs && Ge(p.precio, u)
    decreases |xs|
  {
    if |xs| == 0 then []
    else if Ge(xs[0].precio, u) then [xs[0]] + AtLeast(xs[1..], u)
    else AtLeast(xs[1..], u)
  }

  /** `filtrarPorPrecio`: 400 for a query that cannot be read or a price
      that does not parse; otherwise 200 and the products priced at least
      the threshold. */
  function FilterByPrice(c: Catalog, q: Option<string>, decode: string -> Option<string>): (o: Outcome<Catalog>)
    ensures o.store == c && o.response.Reply?
    ensures Threshold(q, decode).None? <==> o.response == Reply(400, JsonError(BadPriceText))
    ensures Threshold(q, decode).Some? ==>
      o.response == Reply(200, ArrayOf(AtLeast(Values(c.productos), Threshold(q, decode).value)))
  {
    match Threshold(q, decode)
    case None => Outcome(Reply(400, JsonError(BadPriceText)), c)
    case Some(u) => Outcome(Reply(200, ArrayOf(AtLeast(Values(c.productos), u))), c)
  }

  // ---------------------------------------------------------------------
  // Routing
  // ---------------------------------------------------------------------

  /** What `handleProductos` does with a request. */
  datatype Action =
    | Preflight
    | ListAll
    | CreateOne
    | FilterPrice
    | GetOne(id: int)
    | UpdateOne(id: int)
    | DeleteOne(id: int)
    | NotAllowed
    | BadId
    | NoRoute

  lemma AsciiLiterals()
    ensures IsAscii("OPTIONS") && IsAscii("GET") && IsAscii("mascaros")
  {
  }

  /** `OPTIONS` in any letter case is answered before the path is looked
      at. Otherwise two path parts are the collection and three an item or
      the filter: the third part `mascaros` in any case, with `GET` in any
      case, is the filter; anything else must be a `long` id. The CRUD
      methods are compared exactly. */
  function Route(verb: string, path: string): (a: Action)
    ensures a == Preflight <==> EqualsIgnoreCase(verb, "OPTIONS")
    ensures a == NoRoute <==>
      !EqualsIgnoreCase(verb, "OPTIONS") && |Segments(path)| != 2 && |Segments(path)| != 3
    ensures a in {ListAll, CreateOne} ==> |Segments(path)| == 2
    ensures a == FilterPrice ==> |Segments(path)| == 3 && EqualsIgnoreCase(Segments(path)[2], "mascaros")
    ensures a == BadId ==> |Segments(path)| == 3 && ParseInt64(Segments(path)[2]).None?
    ensures a.GetOne? || a.UpdateOne? || a.DeleteOne? ==>
      |Segments(path)| == 3 && ParseInt64(Segments(path)[2]) == Some(a.id)
  {
    AsciiLiterals();
    if EqualsIgnoreCase(verb, "OPTIONS") then Preflight
    else
      var partes := Segments(path);
      if |partes| == 2 then
        if verb == "GET" then ListAll
        else if verb == "POST" then CreateOne
        else NotAllowed
      else if |partes| == 3 then
        if EqualsIgnoreCase(partes[2], "mascaros") && EqualsIgnoreCase(verb, "GET") then FilterPrice
        else
          match ParseInt64(partes[2])
          case None => BadId
          case Some(id) =>
            if verb == "GET" then GetOne(id)
            else if verb == "PUT" then UpdateOne(id)
            else if verb == "DELETE" then DeleteOne(id)
            else NotAllowed
      else NoRoute
  }

  /** Whether the action changed the catalog: a create answered 201, an
      update answered 200 or a delete answered 204. */
  predicate Mutated(action: Action, r: Response)
  {
    r.Reply? && ((action == CreateOne && r.status == 201)
      || (action.UpdateOne? && r.status == 200)
      || (action.DeleteOne? && r.status == 204))
  }

  /** Carries out an action, with `fromJson` under the given price rule.
      The preflight answers 204 with no body. Only a malformed create or
      update body escapes as an exception, and then nothing has changed;
      only a successful create, update or delete changes the catalog. */
  function Apply(rule: PriceRule, c: Catalog, action: Action, req: Request, decode: string -> Option<string>)
    : (o: Outcome<Catalog>)
    ensures o.response.Aborted? ==> o.store == c && (action == CreateOne || action.UpdateOne?)
    ensures o.response.Reply? ==> o.response.status in {200, 201, 204, 400, 404, 405}
    ensures o.store != c ==> Mutated(action, o.response)
  {
    match action
    case Preflight => Outcome(Reply(204, ""), c)
    case ListAll => List(c)
    case CreateOne => Create(c, FromJson(rule, req.body))
    case FilterPrice => FilterByPrice(c, req.query, decode)
    case GetOne(id) => Get(c, id)
    case UpdateOne(id) => Update(c, id, FromJson(rule, req.body))
    case DeleteOne(id) => Delete(c, id)
    case NotAllowed => Outcome(Reply(405, JsonError(NotAllowedText)), c)
    case BadId => Outcome(Reply(400, JsonError(BadIdText)), c)
    case NoRoute => Outcome(Reply(404, JsonError(NoRouteText)), c)
  }

  /** `handleProductos`: one exchange against the catalog. The program as
      written is `Handle(AsWritten, ...)`. */
  function Handle(rule: PriceRule, c: Catalog, req: Request, decode: string -> Option<string>): Outcome<Catalog>
  {
    Apply(rule, c, Route(req.verb, req.path), req, decode)
  }

  /** The catalog after a sequence of exchanges, handled one at a time. */
  function Run(rule: PriceRule, c: Catalog, reqs: seq<Request>, decode: string -> Option<string>): Catalog
    decreases |reqs|
  {
    if |reqs| == 0 then c else Run(rule, Handle(rule, c, reqs[0], decode).store, reqs[1..], decode)
  }

  // ---------------------------------------------------------------------
  // Routing properties
  // ---------------------------------------------------------------------

  /** A preflight in any letter case is answered 204 with no body, whatever
      the path, and changes nothing. */
  lemma PreflightAnyCase(rule: PriceRule, c: Catalog, req: Request, decode: string -> Option<string>)
    requires EqualsIgnoreCase(req.verb, "OPTIONS")
    ensures Handle(rule, c, req, decode) == Outcome(Reply(204, ""), c)
  {
  }

  /** `/productos` and `/productos/`: GET lists, POST creates, any other
      method but a preflight is refused. */
  lemma RouteCollection(name: string, verb: string, path: string)
    requires IsSegment(name) && path in {"/" + name, "/" + name + "/"}
    requires !EqualsIgnoreCase(verb, "OPTIONS")
    ensures Route(verb, path) ==
      if verb == "GET" then ListAll else if verb == "POST" then CreateOne else NotAllowed
  {
    CollectionSegments(name);
  }

  /** `/productos/<id>` for any `long` id: GET reads, PUT replaces, DELETE
      removes, any other method but a preflight is refused. */
  lemma RouteItem(name: string, id: Int64, verb: string, path: string)
    requires IsSegment(name)
    requires path in {"/" + name + "/" + FormatInt(id), "/" + name + "/" + FormatInt(id) + "/"}
    requires !EqualsIgnoreCase(verb, "OPTIONS")
    ensures Route(verb, path) ==
      if verb == "GET" then GetOne(id)
      else if verb == "PUT" then UpdateOne(id)
      else if verb == "DELETE" then DeleteOne(id)
      else NotAllowed
  {
    assert IsInt64(id);
    var x := FormatInt(id);
    assert FoldCase(x[0]) != FoldCase("mascaros"[0]);
    ItemSegments(name, x);
    ParseFormatInt(id, Int64Min, Int64Max);
  }

  /** A segment equal to `mascaros` up to case holds no digit up front, so
      it is not a number. */
  lemma MascarosNotNumber(x: string)
    requires EqualsIgnoreCase(x, "mascaros")
    ensures IsSegment(x) && ParseInt64(x).None?
  {
    assert FoldCase(x[0]) == 'm';
    forall i | 0 <= i < |x|
      ensures x[i] != '/'
    {
      assert FoldCase(x[i]) == FoldCase("mascaros"[i]);
    }
  }

  /** `/productos/mascaros` (the last part in any case): GET in any case
      runs the filter; any other method but a preflight reaches
      `Long.parseLong` and is answered 400. */
  lemma RouteFilter(name: string, x: string, verb: string, path: string)
    requires IsSegment(name) && EqualsIgnoreCase(x, "mascaros")
    requires path in {"/" + name + "/" + x, "/" + name + "/" + x + "/"}
    requires !EqualsIgnoreCase(verb, "OPTIONS")
    ensures Route(verb, path) == if EqualsIgnoreCase(verb, "GET") then FilterPrice else BadId
  {
    MascarosNotNumber(x);
    ItemSegments(name, x);
  }

  /** Any third part that is neither a `long` nor the filter is answered
      400, and nothing changes. */
  lemma BadIdAnswered(rule: PriceRule, c: Catalog, req: Request, decode: string -> Option<string>)
    requires !EqualsIgnoreCase(req.verb, "OPTIONS") && |Segments(req.path)| == 3
    requires ParseInt64(Segments(req.path)[2]).None?
    requires !(EqualsIgnoreCase(Segments(req.path)[2], "mascaros") && EqualsIgnoreCase(req.verb, "GET"))
    ensures Handle(rule, c, req, decode) == Outcome(Reply(400, JsonError(BadIdText)), c)
  {
  }

  // ---------------------------------------------------------------------
  // The catalog invariant
  // ---------------------------------------------------------------------

  /** Storing an accepted product under the counter and moving the counter
      on keeps the catalog valid. */
  lemma InsertValid(rule: PriceRule, c: Catalog, p: Producto)
    requires Valid(rule, c) && c.next < Int64Max && Accepted(rule, p)
    ensures Valid(rule, Catalog(c.productos[c.next := p.(id := c.next)], c.next + 1))
  {
  }

  lemma CreateValid(rule: PriceRule, c: Catalog, body: string)
    requires Valid(rule, c) && c.next < Int64Max
    ensures Valid(rule, Create(c, FromJson(rule, body)).store)
  {
    match FromJson(rule, body)
    case Parsed(p) => InsertValid(rule, c, p);
    case _ =>
  }

  lemma UpdateValid(rule: PriceRule, c: Catalog, id: int, body: string)
    requires Valid(rule, c)
    ensures Valid(rule, Update(c, id, FromJson(rule, body)).store)
  {
    var c' := Update(c, id, FromJson(rule, body)).store;
    forall k | k in c'.productos
      ensures 1 <= k < c'.next && c'.productos[k].id == k && Accepted(rule, c'.productos[k])
    {
      assert k in c.productos;
    }
  }

  lemma DeleteValid(rule: PriceRule, c: Catalog, id: int)
    requires Valid(rule, c)
    ensures Valid(rule, Delete(c, id).store)
  {
  }

  /** Every request keeps the catalog valid (every stored product has a
      name, a price the rule lets through and a stock at least zero) while
      the counter does not wrap; the counter moves on by at most one. */
  lemma ApplyValid(rule: PriceRule, c: Catalog, action: Action, req: Request, decode: string -> Option<string>)
    requires Valid(rule, c) && c.next < Int64Max
    ensures Valid(rule, Apply(rule, c, action, req, decode).store)
    ensures c.next <= Apply(rule, c, action, req, decode).store.next <= c.next + 1
  {
    match action
    case CreateOne => CreateValid(rule, c, req.body);
    case UpdateOne(id) => UpdateValid(rule, c, id, req.body);
    case DeleteOne(id) => DeleteValid(rule, c, id);
    case _ =>
  }

  lemma {:induction false} RunValid(rule: PriceRule, c: Catalog, reqs: seq<Request>, decode: string -> Option<string>)
    requires Valid(rule, c) && c.next + |reqs| <= Int64Max
    ensures Valid(rule, Run(rule, c, reqs, decode))
    ensures c.next <= Run(rule, c, reqs, decode).next <= c.next + |reqs|
    decreases |reqs|
  {
    if |reqs| > 0 {
      ApplyValid(rule, c, Route(reqs[0].verb, reqs[0].path), reqs[0], decode);
      RunValid(rule, Handle(rule, c, reqs[0], decode).store, reqs[1..], decode);
    }
  }

  /** A catalog valid under the corrected rule is valid as written, and
      holds no NaN price. */
  lemma CorrectedValid(c: Catalog)
    requires Valid(Corrected, c)
    ensures Valid(AsWritten, c)
    ensures forall k | k in c.productos :: Ge(c.productos[k].precio, Zero)
  {
  }

  // ---------------------------------------------------------------------
  // CRUD properties
  // ---------------------------------------------------------------------

  /** A created product reads back as the creation answered, under the
      counter's old value, and the catalog grows by one. */
  lemma GetAfterCreate(rule: PriceRule, c: Catalog, p: Producto)
    requires Valid(rule, c) && c.next < Int64Max
    ensures Get(Create(c, Parsed(p)).store, c.next).response == Reply(200, Create(c, Parsed(p)).response.body)
    ensures |Create(c, Parsed(p)).store.productos| == |c.productos| + 1
  {
  }

  /** After a delete the id is not found, whether or not it was there, and
      a second delete changes nothing more. */
  lemma DeleteThenGet(c: Catalog, id: int)
    ensures Get(Delete(c, id).store, id).response == Reply(404, JsonError(NotFoundText))
    ensures Delete(Delete(c, id).store, id) == Outcome(Reply(404, JsonError(NotFoundText)), Delete(c, id).store)
  {
  }

  /** The list holds the JSON of every stored product... */
  lemma ListHoldsEvery(c: Catalog)
    ensures forall p | p in c.productos.Values :: ToJson(p) in JsonAll(Values(c.productos))
  {
    ValuesExactly(c.productos);
    var vs := Values(c.productos);
    forall p | p in c.productos.Values
      ensures ToJson(p) in JsonAll(vs)
    {
      assert p in vs;
      var i :| 0 <= i < |vs| && vs[i] == p;
      assert JsonAll(vs)[i] == ToJson(p);
    }
  }

  /** ... and nothing else. */
  lemma ListHoldsOnly(c: Catalog)
    ensures forall j | j in JsonAll(Values(c.productos)) :: exists p | p in c.productos.Values :: j == ToJson(p)
  {
    ValuesExactly(c.productos);
    var vs := Values(c.productos);
    forall j | j in JsonAll(vs)
      ensures exists p | p in c.productos.Values :: j == ToJson(p)
    {
      var i :| 0 <= i < |vs| && JsonAll(vs)[i] == j;
      assert vs[i] in c.productos.Values;
    }
  }

  // ---------------------------------------------------------------------
  // Query and filter properties
  // ---------------------------------------------------------------------

  /** One more parameter at the end: skipped when it has no value after
      `=`, otherwise its decoded value overwrites whatever the name had. */
  lemma {:induction false} AddParamsLast(params: seq<string>, p: string, acc: map<string, string>,
                                        decode: string -> Option<string>)
    ensures AddParams(params + [p], acc, decode) ==
      match AddParams(params, acc, decode)
      case None => None
      case Some(m) =>
        if |Split(p, "=")| <= 1 then Some(m)
        else if decode(Split(p, "=")[0]).None? || decode(Split(p, "=")[1]).None? then None
        else Some(m[decode(Split(p, "=")[0]).value := decode(Split(p, "=")[1]).value])
    decreases |params|
  {
    if |params| == 0 {
      assert params + [p] == [p];
      assert [p][1..] == [];
    } else {
      assert (params + [p])[1..] == params[1..] + [p];
      var kv := Split(params[0], "=");
      if |kv| > 1 {
        match decode(kv[0])
        case None =>
        case Some(k) =>
          match decode(kv[1])
          case None =>
          case Some(v) => AddParamsLast(params[1..], p, acc[k := v], decode);
      } else {
        AddParamsLast(params[1..], p, acc, decode);
      }
    }
  }

  /** A query of one `name=value` pair is the one decoded parameter. */
  lemma QueryOne(k: string, v: string, decode: string -> Option<string>)
    requires |k| > 0 && |v| > 0
    requires FreeOf(k, '&') && FreeOf(k, '=') && FreeOf(v, '&') && FreeOf(v, '=')
    ensures QueryToMap(Some(k + "=" + v), decode) ==
      if decode(k).Some? && decode(v).Some? then Some(map[decode(k).value := decode(v).value]) else None
  {
    var q := k + "=" + v;
    assert FreeOf(q, '&');
    assert Join([q], "&") == q;
    SplitJoin([q], "&");
    assert [k, v][1..] == [v];
    assert Join([k, v], "=") == q;
    SplitJoin([k, v], "=");
    assert [q][1..] == [];
    if decode(k).Some? && decode(v).Some? {
      var m := map[decode(k).value := decode(v).value];
      assert AddParams([], m, decode) == Some(m);
    }
  }

  /** The products priced `>= u` are all of them when every price is. */
  lemma {:induction false} AtLeastAll(xs: seq<Producto>, u: Double)
    requires forall i | 0 <= i < |xs| :: Ge(xs[i].precio, u)
    ensures AtLeast(xs, u) == xs
    decreases |xs|
  {
    if |xs| > 0 {
      AtLeastAll(xs[1..], u);
    }
  }

  /** A NaN threshold keeps nothing. */
  lemma {:induction false} AtLeastNaN(xs: seq<Producto>)
    ensures AtLeast(xs, NaN) == []
    decreases |xs|
  {
    if |xs| > 0 {
      AtLeastNaN(xs[1..]);
    }
  }

  /** In a valid catalog with no NaN price, which the corrected rule
      guarantees, every price reaches 0. */
  lemma AllAtLeastZero(rule: PriceRule, c: Catalog)
    requires Valid(rule, c)
    requires rule == Corrected || forall k | k in c.productos :: !c.productos[k].precio.NaN?
    ensures AtLeast(Values(c.productos), Zero) == Values(c.productos)
  {
    var xs := Values(c.productos);
    forall i | 0 <= i < |xs|
      ensures Ge(xs[i].precio, Zero)
    {
      var k := SortedKeys(c.productos.Keys)[i];
      assert xs[i] == c.productos[k];
      assert Accepted(rule, c.productos[k]);
    }
    AtLeastAll(xs, Zero);
  }

  /** Without a `precio` parameter the threshold is 0. The filter then
      answers the whole list when no stored price is NaN, which the
      corrected rule guarantees; as written, a NaN price is left out. */
  lemma FilterWithoutPrice(rule: PriceRule, c: Catalog, q: Option<string>, decode: string -> Option<string>)
    requires Valid(rule, c)
    requires QueryToMap(q, decode).Some? && "precio" !in QueryToMap(q, decode).value
    ensures Threshold(q, decode) == Some(Zero)
    ensures (rule == Corrected || forall k | k in c.productos :: !c.productos[k].precio.NaN?) ==>
      FilterByPrice(c, q, decode) == List(c)
  {
    ParseZero();
    if rule == Corrected || forall k | k in c.productos :: !c.productos[k].precio.NaN? {
      AllAtLeastZero(rule, c);
    }
  }

  /** `?precio=v` sets the threshold to the parsed, decoded `v`. */
  lemma FilterByQuery(v: string, decode: string -> Option<string>)
    requires |v| > 0 && FreeOf(v, '&') && FreeOf(v, '=')
    requires decode("precio") == Some("precio") && decode(v).Some?
    ensures Threshold(Some("precio=" + v), decode) == ParseDouble(decode(v).value)
  {
    assert "precio=" + v == "precio" + "=" + v;
    QueryOne("precio", v, decode);
  }

  // ---------------------------------------------------------------------
  // The NaN price, at the server
  // ---------------------------------------------------------------------

  lemma RoutePostAndFilter()
    ensures Route("POST", "/productos") == CreateOne
    ensures Route("GET", "/productos/mascaros") == FilterPrice
  {
    AsciiLiterals();
    assert FreeOf("productos", '/');
    assert "/productos" == "/" + "productos";
    assert "/productos/mascaros" == "/" + "productos" + "/" + "mascaros";
    RouteCollection("productos", "POST", "/productos");
    assert EqualsIgnoreCase("mascaros", "mascaros") && EqualsIgnoreCase("GET", "GET");
    RouteFilter("productos", "mascaros", "GET", "/productos/mascaros");
  }

  /** As written, the NaN-price POST is stored under id 1. */
  lemma NaNPostStored(n: string, body: string, decode: string -> Option<string>)
    requires !IsBlank(n)
    requires Fields(body) == Some(map["nombre" := n, "precio" := "NaN"])
    ensures Handle(AsWritten, Initial, Request("POST", "/productos", None, body), decode)
      == Outcome(Reply(201, ToJson(Producto(1, n, NaN, 0))), Catalog(map[1 := Producto(1, n, NaN, 0)], 2))
  {
    PostCreates(AsWritten, Initial, body, decode);
    NaNParsed(n, body);
    NaNCreated(n);
  }

  lemma PostCreates(rule: PriceRule, c: Catalog, body: string, decode: string -> Option<string>)
    ensures Handle(rule, c, Request("POST", "/productos", None, body), decode) == Create(c, FromJson(rule, body))
  {
    RoutePostAndFilter();
  }

  lemma NaNParsed(n: string, body: string)
    requires !IsBlank(n)
    requires Fields(body) == Some(map["nombre" := n, "precio" := "NaN"])
    ensures FromJson(AsWritten, body) == Parsed(Producto(0, n, NaN, 0))
  {
    NaNPriceAsWritten(n);
  }

  lemma NaNCreated(n: string)
    ensures Create(Initial, Parsed(Producto(0, n, NaN, 0)))
      == Outcome(Reply(201, ToJson(Producto(1, n, NaN, 0))), Catalog(map[1 := Producto(1, n, NaN, 0)], 2))
  {
  }

  /** A catalog holding one NaN-priced product filters to `[]` without a
      `precio` parameter... */
  lemma NaNFilteredOut(p: Producto, decode: string -> Option<string>)
    requires p.precio.NaN?
    ensures Handle(AsWritten, Catalog(map[1 := p], 2), Request("GET", "/productos/mascaros", None, ""), decode).response
      == Reply(200, "[]")
  {
    var c := Catalog(map[1 := p], 2);
    RoutePostAndFilter();
    assert Handle(AsWritten, c, Request("GET", "/productos/mascaros", None, ""), decode)
      == FilterByPrice(c, None, decode);
    NoQueryThreshold(decode);
    NaNBelowZero(p);
    assert JsonAll([]) == [];
  }

  lemma NoQueryThreshold(decode: string -> Option<string>)
    ensures Threshold(None, decode) == Some(Zero)
  {
    ParseZero();
  }

  lemma NaNBelowZero(p: Producto)
    requires p.precio.NaN?
    ensures AtLeast(Values(map[1 := p]), Zero) == []
  {
    ValuesSingle(1, p);
    assert AtLeast([p], Zero) == AtLeast([p][1..], Zero);
  }

  /** ... while its list is not empty. */
  lemma SingleListed(p: Producto)
    ensures List(Catalog(map[1 := p], 2)).response != Reply(200, "[]")
  {
    ValuesSingle(1, p);
    assert JsonAll([p]) == [ToJson(p)];
    var body := List(Catalog(map[1 := p], 2)).response.body;
    assert body == "[" + ToJson(p) + "]";
    assert body[1] == '{';
  }

  /** As written, a POST whose body names a product and sends
      `"precio":NaN` is answered 201 and the product is stored; the filter
      without a `precio` parameter then answers `[]`, not the list. The
      corrected server refuses the same body with 400. */
  lemma NaNPriceHidden(n: string, body: string, decode: string -> Option<string>)
    requires !IsBlank(n)
    requires Fields(body) == Some(map["nombre" := n, "precio" := "NaN"])
    ensures var o := Handle(AsWritten, Initial, Request("POST", "/productos", None, body), decode);
      && o.response == Reply(201, ToJson(Producto(1, n, NaN, 0)))
      && o.store == Catalog(map[1 := Producto(1, n, NaN, 0)], 2)
      && Handle(AsWritten, o.store, Request("GET", "/productos/mascaros", None, ""), decode).response
        == Reply(200, "[]")
      && List(o.store).response != Reply(200, "[]")
    ensures Handle(Corrected, Initial, Request("POST", "/productos", None, body), decode)
      == Outcome(Reply(400, JsonError(PrecioNegativo)), Initial)
  {
    NaNPostStored(n, body, decode);
    NaNFilteredOut(Producto(1, n, NaN, 0), decode);
    SingleListed(Producto(1, n, NaN, 0));
    NaNPriceAsWritten(n);
    RoutePostAndFilter();
  }
}
