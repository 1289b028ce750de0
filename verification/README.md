# REST CRUD handlers of the UT3, UT4 and UT5 servers, in Dafny

This project models the three single-file REST services of the course
repository, as pure functions from a state and a request to a response
and a new state:

- **UT4 `ServidorAlumnos`**: an in-memory map `bd` from `int` id to
  `Alumno` plus the counter `idAuto`. `gestionarAlumnos` splits the path
  on `/`. Two parts route GET/POST, three parts route GET/PUT/DELETE on
  `Integer.parseInt` of the third part, and anything else gets a 404.
  `Alumno.fromJson` is the hand-made parser: it deletes `{}"`, splits on
  `,` and then `:`, and trims both halves.
- **UT5 `ServidorConArchivo`**: the same server, plus two file
  operations. `guardarEnArchivo` writes the whole list to `alumnos.json`
  after every create, update or delete. `cargarDesdeArchivo` reads the
  file back at start-up: it deletes `[]`, splits on `},`, puts the brace
  back, and numbers each record with the counter.
- **UT3 `ApiRestProductos`**: a map from `long` id to `Producto`. It adds:
  - a CORS preflight: `OPTIONS` in any case gets 204 before any routing;
  - the setters `setNombre`, `setPrecio` and `setStock`, which refuse a
    blank name, a negative price or a negative stock with a 400;
  - the filter `GET /productos/mascaros?precio=X`;
  - the query splitter `queryToMap`.

Modules follow the program:

- **`JavaText` and `JavaNumbers`** model the Java library calls the
  handlers rely on, with Java's semantics:
  - `String.split`: the leading empty field is kept and trailing empty
    fields are dropped;
  - `trim`, `isBlank`, `replaceAll` with a character class, `endsWith`,
    `String.join` and `equalsIgnoreCase`;
  - `Integer.parseInt` and `Long.parseLong`, `%d`, `Double.parseDouble`,
    `%.2f`, and `int` and `long` wrap-around.
- **`FlatJson`** is the key/value reader shared by every `fromJson` and
  the `[a,b]` builder of `listar`.
- **`OrderedMap`** gives a map's iteration order. It is modelled as
  ascending key order.
- **`Http`** describes a request and a response. An exception that
  escapes a handler is the response `Aborted`: the handler sends no
  response.
- **`Alumnos`, `AlumnoStore`, `ServidorAlumnos` and `ServidorConArchivo`**
  cover the two student servers.
- **`Productos` and `ApiProductos`** cover the product API.

A `java.net.URLDecoder.decode` call is a parameter of the product
handler, `decode: string -> Option<string>`. `None` stands for the
`IllegalArgumentException` it throws. The persisted file is the field
`file: Option<string>` of the UT5 server's state; `None` means that no
file exists.

The product handler takes a `PriceRule`. `AsWritten` is the check in
`setPrecio` as it stands: it refuses a price `< 0`. `Corrected` refuses
every price that is not `>= 0`, and so also refuses NaN. The server as
written is `Handle(AsWritten, ...)`. The properties of the catalog are
stated for either rule, with what each one guarantees (see Findings).

## Model

| member | source | states |
|---|---|---|
| `Alumnos.FromJson` | UT4_ServidorAlumnos.java:246-254 | `fromJson` succeeds exactly when every piece splits on `:` into at least two fields and `edad` is present and parses as an `int`. A piece with nothing after its `:`, such as `nombre:` from `"nombre":""`, fails. The id is 0, the age is the parsed `edad`, and the name is the `nombre` value, null exactly when the key is missing. |
| `Alumnos.RoundTrip` | UT4_ServidorAlumnos.java:241-254 | `fromJson(toJson(a))` gives `a`'s name and age with id 0. The name must be non-empty, hold none of `{ } " , :`, and have nothing to trim at either end. |
| `Alumnos.EmptyNameUnreadable` | UT4_ServidorAlumnos.java:241-254 | A record whose name is empty prints JSON that `fromJson` cannot read back: it throws. |
| `Alumnos.BlankNameTrimmed` | UT4_ServidorAlumnos.java:249-251 | A name made only of blanks is read as the empty name, because the value is trimmed. |
| `FlatJson.CollectLast` | UT4_ServidorAlumnos.java:249-252 | In the parser's map, a later key overwrites an earlier one. One piece that splits into fewer than two fields aborts the whole parse. |
| `FlatJson.EmptyValueThrows` | UT4_ServidorAlumnos.java:249-251 | A piece `key:` with nothing after the colon splits into one field, because `split` drops the trailing empty field, so `kv[1]` throws. |
| `FlatJson.BuildArrayJoin` | UT4_ServidorAlumnos.java:120-128 | The `StringBuilder` loop with its final comma dropped gives `[` + the items joined by `,` + `]`, and `[]` for no items. |
| `FlatJson.WriteArray` | UT5_ServidorConArchivo.java:165-170 | The builder loop appends each item and a comma, drops the last comma and closes the bracket. Its text is `[` + the items joined by `,` + `]`. |
| `Http.CollectionSegments` | UT4_ServidorAlumnos.java:92-94 | `/alumnos` and `/alumnos/` both split into two parts. |
| `Http.ItemSegments` | UT4_ServidorAlumnos.java:92-98 | `/alumnos/x` and `/alumnos/x/` both split into three parts, with `x` last. |
| `JavaNumbers.ParseFormatInt` | UT4_ServidorAlumnos.java:99 | `Integer.parseInt` (or `Long.parseLong`) of what `%d` printed gives the number back, for every value in range. |
| `AlumnoStore.List` | UT4_ServidorAlumnos.java:120-128 | The list answers 200 with every record's JSON joined by `,` between brackets. The store is unchanged. |
| `AlumnoStore.ListHoldsEvery` | UT4_ServidorAlumnos.java:120-128 | Every stored record's JSON is in the list. |
| `AlumnoStore.ListHoldsOnly` | UT4_ServidorAlumnos.java:120-128 | Everything in the list is the JSON of a stored record. |
| `AlumnoStore.Get` | UT4_ServidorAlumnos.java:139-143 | A present id answers 200 with its record's JSON. An absent id answers 404 "No encontrado". The store is unchanged either way. |
| `AlumnoStore.Create` | UT4_ServidorAlumnos.java:154-160 | The parsed record is stored under the counter, with the counter's value as its id. Other keys keep their records, the counter is incremented (with `int` wrap-around) and the answer is 201. A body `fromJson` rejects aborts and changes nothing. |
| `AlumnoStore.Update` | UT4_ServidorAlumnos.java:171-182 | An absent id answers 404 without reading the body. Otherwise the parsed record replaces the entry, keeps the path id and answers 200. Other entries and the counter are unchanged. A bad body aborts and changes nothing. |
| `AlumnoStore.Delete` | UT4_ServidorAlumnos.java:192-195 | Only the given key is removed, with 204 when it was present and 404 otherwise. The counter and the other entries are unchanged. |
| `AlumnoStore.Route` | UT4_ServidorAlumnos.java:89-108 | There is no route exactly when the path has neither 2 nor 3 parts. The collection actions need 2 parts. An item action needs 3 parts, and its id is `parseInt` of the third. |
| `AlumnoStore.RouteCollection` | UT4_ServidorAlumnos.java:94-97 | On `/alumnos` or `/alumnos/`, GET lists, POST creates and any other method gets 405. |
| `AlumnoStore.RouteItem` | UT4_ServidorAlumnos.java:98-105 | On `/alumnos/<id>` for any `int` id, GET reads, PUT updates, DELETE removes and any other method gets 405. |
| `AlumnoStore.GetAfterCreate` | UT4_ServidorAlumnos.java:154-160 | A created record reads back under the counter's old value with the JSON the create answered. |
| `AlumnoStore.GetAfterUpdate` | UT4_ServidorAlumnos.java:171-182 | After an update of a present id, reading that id answers what the update answered. |
| `AlumnoStore.GetAfterDelete` | UT4_ServidorAlumnos.java:192-195 | After a delete, the id is not found. |
| `AlumnoStore.DeleteIdempotent` | UT4_ServidorAlumnos.java:192-195 | A second delete of the same id changes nothing and answers 404. |
| `AlumnoStore.CreateGrows` | UT4_ServidorAlumnos.java:154-160 | In a valid store with no wrap-around, the counter is a fresh key, the map grows by exactly one and the counter by exactly one. |
| `AlumnoStore.InsertValid` | UT4_ServidorAlumnos.java:157-158 | While the counter is below `Integer.MAX_VALUE`, storing a record under the counter and incrementing the counter keeps the invariant: every key is in 1..counter-1 and is its record's id. |
| `AlumnoStore.CreateValid` | UT4_ServidorAlumnos.java:154-160 | While the counter is below `Integer.MAX_VALUE`, create keeps the store invariant. |
| `AlumnoStore.UpdateValid` | UT4_ServidorAlumnos.java:171-182 | Update keeps the store invariant. |
| `AlumnoStore.DeleteValid` | UT4_ServidorAlumnos.java:192-195 | Delete keeps the store invariant. |
| `AlumnoStore.ApplyValid` | UT4_ServidorAlumnos.java:94-108 | Every routed request keeps the invariant and increases the counter by at most one. |
| `AlumnoStore.ApplyKeys` | UT4_ServidorAlumnos.java:154-160 | No request adds a key other than the counter's value. |
| `AlumnoStore.ApplyFrame` | UT4_ServidorAlumnos.java:154-195 | A request leaves every record it does not name unchanged. |
| `AlumnoStore.ApplyMutated` | UT4_ServidorAlumnos.java:154-195 | A request that changed the store answered 201 to a create, 200 to an update or 204 to a delete. |
| `ServidorAlumnos.Handle` | UT4_ServidorAlumnos.java:89-108 | An escaping exception leaves the store unchanged. Every answer is one of 200, 201, 204, 404 and 405. A change to the store comes only with a successful create, update or delete. |
| `ServidorAlumnos.RunValid` | UT4_ServidorAlumnos.java:154-160 | A sequence of requests keeps the store invariant while the counter does not wrap. The counter increases by at most one per request. |
| `ServidorAlumnos.RunFreshKeys` | UT4_ServidorAlumnos.java:154-160 | Every key present after a run was present before it or is at least the counter's starting value. |
| `ServidorAlumnos.DeletedNeverReturns` | UT4_ServidorAlumnos.java:154-160 | Once a request removes an id, no later request brings that id back. |
| `ServidorConArchivo.Handle` | UT5_ServidorConArchivo.java:73-151 | The response and the store are those of the in-memory server. The file is rewritten with the list exactly after a successful create, update or delete; otherwise it is untouched. |
| `ServidorConArchivo.Save` | UT5_ServidorConArchivo.java:165-171 | `guardarEnArchivo`'s loop writes the records' JSON in iteration order, joined by commas between brackets. That is the body `listar` answers for the same map, and the text the server keeps as the file. |
| `ServidorConArchivo.HandlePersisted` | UT5_ServidorConArchivo.java:117-151 | Once the file matches the store, it still matches after any request. |
| `ServidorConArchivo.LoadEntriesValid` | UT5_ServidorConArchivo.java:178-186 | The store must be valid, and the counter must not wrap over the pieces. Then a load that succeeds keeps the invariant and leaves the records already there unchanged. Every new record has a key between the old and the new counter, and the counter moves by at most one per piece. |
| `ServidorConArchivo.LoadValid` | UT5_ServidorConArchivo.java:174-186 | A start-up that succeeds gives a valid store, whatever the file holds, unless the file has more pieces than the counter can number. |
| `ServidorConArchivo.LoadNoFile` | UT5_ServidorConArchivo.java:176 | With no file, the server starts with an empty map and counter 1. |
| `ServidorConArchivo.LoadEmpty` | UT5_ServidorConArchivo.java:174-186 | A file holding `[]`, or nothing, adds no record. |
| `ServidorConArchivo.LoadSaved` | UT5_ServidorConArchivo.java:165-186 | A saved list whose names avoid `{ } [ ] " , :` and have nothing to trim loads back as the same records, in list order, stored one by one under the counter. |
| `ServidorConArchivo.InsertAllShape` | UT5_ServidorConArchivo.java:179-185 | Storing records one after another gives them consecutive ids from the counter on, keeps every other key and moves the counter past them. |
| `ServidorConArchivo.LoadRenumbers` | UT5_ServidorConArchivo.java:178-185 | After a save and a load, the k-th record in list order has id k and its name and age unchanged, the keys are exactly 1..n and the counter is n+1. The stored ids are discarded. |
| `ServidorConArchivo.RestartRenumbers` | UT5_ServidorConArchivo.java:178-185 | A store holding one record under id 2 restarts with that record under id 1 and counter 2: ids change across a restart once an id has been deleted. |
| `ServidorConArchivo.EmptyNameBlocksRestart` | UT5_ServidorConArchivo.java:174-186 | A saved list whose record has an empty name does not load: `fromJson` throws on the `nombre:` piece, nothing catches it, and the server does not start again. |
| `ServidorConArchivo.CreateDense` | UT5_ServidorConArchivo.java:117-124 | While the counter is below `Integer.MAX_VALUE`, creating keeps a store whose ids are exactly 1..counter-1 in that shape. |
| `ServidorConArchivo.RestartDense` | UT5_ServidorConArchivo.java:165-186 | A server whose ids are exactly 1..counter-1, whose names are loadable and whose file matches the store restarts with exactly the same store. |
| `Productos.FromFields` | UT3_ApiRestProductos.java:191-224 | The setters run in source order. A missing or blank name gives "El nombre es obligatorio". Then the price is parsed (default "0") and checked with the rule, then the stock (default "0"). A success has id 0 and is a product the rule accepts: a non-blank name, a price the rule does not refuse and a stock of at least 0. |
| `Productos.FromJson` | UT3_ApiRestProductos.java:213-224 | `fromJson` throws past the handlers exactly when a piece splits on `:` into fewer than two fields. Every product it yields has id 0 and is accepted by the rule. As written, that means a non-blank name, a price that is not `< 0` and a stock of at least 0. |
| `Productos.FromFieldsAccepts` | UT3_ApiRestProductos.java:191-206 | The fields give a product exactly when the name is not blank, the price parses to a value the rule does not refuse and the stock parses to an `int` of at least 0. As written, a refused price is one `< 0`, and NaN is not refused. The product holds those values. |
| `Productos.FromFieldsOrder` | UT3_ApiRestProductos.java:220-224 | With a good name, an unparsable price gives `NumberFormatException`'s message: `empty String`, `multiple points`, or `For input string: "<text>"`. A refused price gives "El precio no puede ser negativo". A good price with an unparsable stock gives the stock's message. |
| `Productos.MultiplePointsRefused` | UT3_ApiRestProductos.java:220-222 | With a good name, a price whose leading run of digits and points holds two points is refused with `multiple points`, as `Double.parseDouble` throws it. |
| `Productos.MultiplePointsExample` | UT3_ApiRestProductos.java:213-224 | The fields `nombre = x`, `precio = 1.2.3` are refused with `multiple points`. |
| `JavaNumbers.MultiplePointsRejected` | UT3_ApiRestProductos.java:222 | Every text on which `Double.parseDouble` throws `multiple points` is rejected by the model's parser too. |
| `Productos.MissingMeansZero` | UT3_ApiRestProductos.java:222-223 | A body without `precio` and `stock` gives price 0 and stock 0. |
| `Productos.PriceRulesDiffer` | UT3_ApiRestProductos.java:197-200 | The as-written check `precio < 0` and the corrected check `!(precio >= 0)` disagree exactly on NaN. |
| `Productos.NaNPriceAsWritten` | UT3_ApiRestProductos.java:197-200 | As written, `"precio":NaN` is accepted and stored with a price that is not `>= 0`. The corrected check refuses it. |
| `Productos.EmptyNameAborts` | UT3_ApiRestProductos.java:213-218 | A body with `"nombre":""` makes `fromJson` throw before `setNombre` sees the name. The exception is not an `IllegalArgumentException`, so the handler sends no answer instead of the 400. |
| `Productos.ToJsonRounds` | UT3_ApiRestProductos.java:208-211 | `toJson` prints the price with `%.2f`, so the prices 0.125 and 0.13 give the same text. No round trip through `toJson` exists. |
| `JavaNumbers.FormatFixed2HalfUp` | UT3_ApiRestProductos.java:209 | `%.2f` rounds half up, away from zero on a tie: 0.125 prints `0.13`, -0.125 prints `-0.13`, 2.5 prints `2.50` and 0.004 prints `0.00`. |
| `JavaNumbers.FormatFixed2Sign` | UT3_ApiRestProductos.java:209 | `%.2f` prints a minus sign exactly for negative values. |
| `ApiProductos.List` | UT3_ApiRestProductos.java:93-98 | The list answers 200 with every product's JSON in iteration order, joined by `,` between brackets. It gives `[]` for an empty catalog and changes nothing. |
| `ApiProductos.ListHoldsEvery` | UT3_ApiRestProductos.java:93-98 | Every stored product's JSON is in the list. |
| `ApiProductos.ListHoldsOnly` | UT3_ApiRestProductos.java:93-98 | Everything in the list is the JSON of a stored product. |
| `ApiProductos.Get` | UT3_ApiRestProductos.java:100-104 | A present id answers 200 with its product's JSON. An absent id answers 404 `{"error":"Producto no encontrado"}`. The catalog is unchanged. |
| `ApiProductos.Create` | UT3_ApiRestProductos.java:106-116 | An accepted product is stored under the counter with the counter as its id, the counter is incremented (with `long` wrap-around) and the answer is 201. A refusal answers 400 with the exception's message, and a malformed piece aborts. Neither changes the map or the counter. |
| `ApiProductos.Update` | UT3_ApiRestProductos.java:118-131 | An absent id answers 404 whatever the body. Otherwise an accepted product replaces the entry under the path id and answers 200, with the counter and other entries unchanged. A refusal answers 400 and a malformed body aborts, with the catalog unchanged. |
| `ApiProductos.Delete` | UT3_ApiRestProductos.java:133-136 | Only the given key is removed, with 204 when it was present and 404 otherwise. |
| `ApiProductos.AddParams` | UT3_ApiRestProductos.java:173-176 | The parameters read so far are never lost. |
| `ApiProductos.AddParamsLast` | UT3_ApiRestProductos.java:173-176 | A parameter without a value after `=` is skipped. Otherwise its decoded value overwrites that name's earlier value. A decoding failure fails the whole parse. |
| `ApiProductos.QueryToMap` | UT3_ApiRestProductos.java:170-172 | A missing query gives an empty map. |
| `ApiProductos.QueryOne` | UT3_ApiRestProductos.java:170-178 | A query of one `name=value` pair gives the one decoded parameter. |
| `ApiProductos.AtLeast` | UT3_ApiRestProductos.java:148-149 | A product is kept exactly when it is in the list and its price is `>=` the threshold. |
| `ApiProductos.AtLeastAll` | UT3_ApiRestProductos.java:148-149 | When every price reaches the threshold, the filter keeps the whole list in order. |
| `ApiProductos.AtLeastNaN` | UT3_ApiRestProductos.java:149 | A NaN threshold keeps nothing. |
| `ApiProductos.FilterByPrice` | UT3_ApiRestProductos.java:139-152 | An unreadable query or price answers 400 `Parámetro precio inválido`. Otherwise the answer is 200 with the products priced at least the threshold. The catalog is unchanged. |
| `ApiProductos.FilterWithoutPrice` | UT3_ApiRestProductos.java:139-152 | Without a `precio` parameter the threshold is 0. The filter then answers exactly the list for a valid catalog under the corrected check, or a valid catalog with no NaN price. |
| `ApiProductos.FilterByQuery` | UT3_ApiRestProductos.java:140-144 | `?precio=v` sets the threshold to `parseDouble` of the decoded `v`. |
| `ApiProductos.Route` | UT3_ApiRestProductos.java:47-90 | `OPTIONS` in any case is the preflight, before the path is looked at. There is no route exactly when the path has neither 2 nor 3 parts. The filter needs the third part to be `mascaros` in any case. A bad id is a third part that `parseLong` rejects. |
| `ApiProductos.Apply` | UT3_ApiRestProductos.java:47-167 | Only a malformed create or update body escapes, and it leaves the catalog unchanged. Every answer is one of 200, 201, 204, 400, 404 and 405. A change to the catalog comes only with a successful create, update or delete. Bodies are read with the given price rule. |
| `ApiProductos.PreflightAnyCase` | UT3_ApiRestProductos.java:52-55 | `OPTIONS` in any letter case answers 204 with no body, whatever the path, and changes nothing. |
| `ApiProductos.RouteCollection` | UT3_ApiRestProductos.java:61-66 | On `/productos` or `/productos/`, GET lists, POST creates and any other method except a preflight gets 405. |
| `ApiProductos.RouteItem` | UT3_ApiRestProductos.java:73-86 | On `/productos/<id>` for any `long` id, GET reads, PUT updates, DELETE removes and anything else except a preflight gets 405. |
| `ApiProductos.RouteFilter` | UT3_ApiRestProductos.java:68-80 | On `/productos/mascaros` (in any case), GET in any case runs the filter. Any other method except a preflight reaches `parseLong` and is a bad id. |
| `ApiProductos.BadIdAnswered` | UT3_ApiRestProductos.java:74-80 | A third part that is neither a `long` nor the filter answers 400 `{"error":"ID inválido o ruta desconocida"}` and changes nothing. |
| `ApiProductos.InsertValid` | UT3_ApiRestProductos.java:109-111 | While the counter is below `Long.MAX_VALUE`, storing a product the rule accepts under the counter keeps the catalog invariant: ids match keys below the counter, and every product is accepted by the rule. As written, that means a name, a price that is not `< 0` and a stock of at least 0. |
| `ApiProductos.CreateValid` | UT3_ApiRestProductos.java:106-116 | Under either rule, while the counter is below `Long.MAX_VALUE`, create keeps the catalog invariant of that rule. |
| `ApiProductos.UpdateValid` | UT3_ApiRestProductos.java:118-131 | Under either rule, update keeps the catalog invariant of that rule. |
| `ApiProductos.DeleteValid` | UT3_ApiRestProductos.java:133-136 | Delete keeps the catalog invariant. |
| `ApiProductos.ApplyValid` | UT3_ApiRestProductos.java:191-206 | Under either rule, every request keeps that rule's catalog invariant while the counter does not wrap, and increases the counter by at most one. |
| `ApiProductos.RunValid` | UT3_ApiRestProductos.java:191-206 | After any sequence of requests, every stored product passes the setters of the rule in force. As written, no stored price is `< 0`. |
| `ApiProductos.CorrectedValid` | UT3_ApiRestProductos.java:197-200 | A catalog valid under the corrected check is valid as written, and every price in it is `>= 0`. |
| `ApiProductos.NaNPostStored` | UT3_ApiRestProductos.java:106-116 | As written, the first POST of a body with a non-blank name and `"precio":NaN` answers 201 and stores the product under id 1 with price NaN. |
| `ApiProductos.NaNPriceHidden` | UT3_ApiRestProductos.java:106-152 | As written, after that POST, `GET /productos/mascaros` without `precio` answers `[]` although the list is not empty. The corrected server answers the same POST with 400 and changes nothing. |
| `ApiProductos.GetAfterCreate` | UT3_ApiRestProductos.java:106-116 | While the counter is below `Long.MAX_VALUE`, a created product reads back under the counter's old value with the create's JSON, and the catalog grows by one. |
| `ApiProductos.DeleteThenGet` | UT3_ApiRestProductos.java:133-136 | After a delete, the id answers 404, and a second delete changes nothing. |

## Left out

- The chat, echo, menu, thread-pool and scheduler demos (UT2 and UT6) are not modelled: their behaviour is sockets, threads and timing.
- `HttpServer` plumbing is not modelled: contexts, headers (including the CORS header values), byte encoding, stream closing and the port chosen from `PORT` or `args`. Only status and body are modelled.
- What the JDK `HttpServer` does with an exception that escapes a handler is not modelled. For a `NumberFormatException` it answers 400 itself; this is the UT4 and UT5 case of a non-numeric id or a missing or unreadable `edad`. On other exceptions it closes the connection. The model stops at `Aborted`: the handler sends nothing.
- The `HttpServer` context matches by path prefix and hands the handler an already-decoded path. The model takes that path as given.
- Real file I/O in UT5 is not modelled: `Files.exists`, `readString`, `writeString` and their `IOException` handling. The file is an optional string. An exception escaping `cargarDesdeArchivo` stops start-up; the model represents it as `None`.
- Concurrent access to the unsynchronised static maps is not modelled. Requests are handled one at a time.
- A `HashMap`'s iteration order is modelled as ascending key order. Claims about list order hold for that order. The membership claims (`ListHoldsEvery`, `ListHoldsOnly`, `AtLeast`) do not depend on it.
- `URLDecoder.decode` is a parameter: a partial function chosen by the caller.
- `Double.parseDouble` reads decimal literals, exponents, `f`/`d` suffixes, `NaN` and `Infinity` as exact reals. It does not read hexadecimal floating literals, rounding to binary64 and signed zero are not modelled, and `%.2f` formats the exact value rounded half-up. The decimal separator is assumed to be `.`; the output of `String.format` under another default locale is not modelled.
- `Integer.parseInt` and `Long.parseLong` accept ASCII digits only. Java also accepts other Unicode decimal digits.
- `ServidorAlumnos.RunFreshKeys`: stated while the `int` counter cannot wrap, for the same reason as `RunValid`.
- `ServidorAlumnos.DeletedNeverReturns`: stated while the `int` counter cannot wrap. After a wrap the counter can reach a deleted id again.
- `ServidorAlumnos.RunValid`: proved only while the `int` counter cannot wrap (`idAuto + requests <= 2^31-1`). `Inc32` models the wrap-around itself, but the invariant's behaviour after a wrap is not stated.
- `AlumnoStore.ApplyValid`: stated for a counter below `Integer.MAX_VALUE` only, for the same reason.
- `ApiProductos.ApplyValid`: stated for a counter below `Long.MAX_VALUE` only.
- `ApiProductos.RunValid`: stated while the `long` counter cannot wrap.
- `Alumnos.RoundTrip`: the round trip is stated only for names that are free of `{ } " , :` and have nothing to trim. Other names do not come back unchanged, and that is how the code behaves.
- `ServidorConArchivo.LoadSaved`: stated for names that also avoid `[` and `]`, which `cargarDesdeArchivo` deletes. The names must also be non-empty. A blank name sent in a body is stored empty, and the saved file then cannot be loaded (`EmptyNameBlocksRestart`).
- `ServidorConArchivo.LoadEntriesValid`: stated while the counter cannot wrap over the pieces of the file.
- `Productos.ToJson`: no round trip is stated. `%.2f` rounds the price to cents, so `fromJson(toJson(p))` does not give `p` back (`ToJsonRounds`).
- The 400 body built from a `NumberFormatException` message (`For input string: "x"`) embeds unescaped quotes, so it is not valid JSON. The model reproduces that text as it is.

## Findings

| source | as written | input that shows it | evidently intended | confidence | as-written member | corrected member |
|---|---|---|---|---|---|---|
| UT3_ApiRestProductos.java:197-200 | `setPrecio` refuses only `precio < 0`, which is false for NaN | `POST /productos` with body `{"nombre":"x","precio":NaN}`: the product is stored with price NaN, so `GET /productos/mascaros` (threshold 0) leaves it out | every stored price is `>= 0`: refuse any price for which `precio >= 0` fails | not executed | `ApiProductos.NaNPriceHidden` | `ApiProductos.FilterWithoutPrice` |
