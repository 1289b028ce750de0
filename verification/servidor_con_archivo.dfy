/**
  The student server with a file: the same routes and operations as the
  in-memory server, plus `guardarEnArchivo` after every change (the whole
  list is written to `alumnos.json`) and `cargarDesdeArchivo` at start-up
  (the records in the file are read back and numbered from 1).
*/
module ServidorConArchivo {
  import opened Wrappers
  import opened JavaText
  import opened JavaNumbers
  import opened OrderedMap
  import opened FlatJson
  import opened Alumnos
  import opened Http
  import opened AlumnoStore

  /** The store and the contents of `alumnos.json` (`None`: no file). */
  datatype Server = Server(store: Store, file: Option<string>)

  const NoRouteText: string := "Ruta inv\U{e1}lida"

  /** The characters `cargarDesdeArchivo` deletes first: `[` and `]`. */
  const Brackets: set<char> := {'[', ']'}

  // ---------------------------------------------------------------------
  // Handling a request
  // ---------------------------------------------------------------------

  /** `gestionar`: the request is routed and carried out as in the
      in-memory server; when it changed the database, the file is
      rewritten with the list. */
  function Handle(sv: Server, req: Request): (o: Outcome<Server>)
    ensures o.response == Apply(sv.store, Route(req.verb, req.path), req.body, NoRouteText).response
    ensures o.store.store == Apply(sv.store, Route(req.verb, req.path), req.body, NoRouteText).store
    ensures Mutated(Route(req.verb, req.path), o.response) ==> o.store.file == Some(ListJson(o.store.store.db))
    ensures !Mutated(Route(req.verb, req.path), o.response) ==> o.store.file == sv.file
  {
    var action := Route(req.verb, req.path);
    var o := Apply(sv.store, action, req.body, NoRouteText);
    var file := if Mutated(action, o.response) then Some(ListJson(o.store.db)) else sv.file;
    Outcome(o.response, Server(o.store, file))
  }

  /** The file holds exactly what `GET /alumnos` would answer. */
  predicate Persisted(sv: Server)
  {
    sv.file == Some(List(sv.store).response.body)
  }

  /** The file written after a change is the list `GET /alumnos` answers
      with. */
  lemma SavedIsList(db: map<int, Alumno>)
    ensures ListJson(db) == List(Store(db, 1)).response.body
  {
  }

  /** `guardarEnArchivo`: the builder loop over the records' JSON in
      iteration order. The text it writes is the records' JSON joined by
      commas between brackets, which is also the body `listar` answers and
      the text `Handle` keeps as the file. */
  method Save(db: map<int, Alumno>) returns (text: string)
    ensures text == "[" + Join(JsonAll(Values(db)), ",") + "]"
    ensures text == ListJson(db)
  {
    text := WriteArray(JsonAll(Values(db)));
  }

  /** Once the file matches the store, every request keeps it so: a request
      that changes the store rewrites the file, and one that does not
      leaves both alone. */
  lemma HandlePersisted(sv: Server, req: Request)
    requires Persisted(sv)
    ensures Persisted(Handle(sv, req).store)
  {
  }

  // ---------------------------------------------------------------------
  // Loading at start-up
  // ---------------------------------------------------------------------

  /** The loop of `cargarDesdeArchivo` over the pieces of the file: blank
      pieces are skipped, a missing closing brace is put back, and each
      record is stored under the counter. `None`: `fromJson` threw, which
      nothing catches, so the server does not start. */
  function LoadEntries(st: Store, entries: seq<string>): (r: Option<Store>)
    ensures r.Some? ==> r.value.db.Keys >= st.db.Keys
    decreases |entries|
  {
    if |entries| == 0 then Some(st)
    else if Trim(entries[0]) == "" then LoadEntries(st, entries[1..])
    else
      var entry := if EndsWith(entries[0], "}") then entries[0] else entries[0] + "}";
      match FromJson(entry)
      case None => None
      case Some(a) => LoadEntries(Store(st.db[st.next := a.(id := st.next)], Inc32(st.next)), entries[1..])
  }

  /** Loading keeps a valid store valid while the counter does not wrap:
      the records already there stay as they were, each new record sits
      under a key between the old counter and the new one, and the counter
      moves on by at most one per piece. */
  lemma {:induction false} LoadEntriesValid(st: Store, entries: seq<string>)
    requires Valid(st) && st.next + |entries| <= Int32Max
    ensures LoadEntries(st, entries).Some? ==>
      var r := LoadEntries(st, entries).value;
      && Valid(r)
      && st.next <= r.next <= st.next + |entries|
      && r.db.Keys - st.db.Keys <= Interval(st.next, r.next)
      && (forall k | k in st.db :: r.db[k] == st.db[k])
    decreases |entries|
  {
    if |entries| > 0 {
      if Trim(entries[0]) == "" {
        LoadEntriesValid(st, entries[1..]);
      } else {
        var entry := if EndsWith(entries[0], "}") then entries[0] else entries[0] + "}";
        if FromJson(entry).Some? {
          var a := FromJson(entry).value;
          var st' := Store(st.db[st.next := a.(id := st.next)], Inc32(st.next));
          assert LoadEntries(st, entries) == LoadEntries(st', entries[1..]);
          LoadOneValid(st, a);
          LoadEntriesValid(st', entries[1..]);
        }
      }
    }
  }

  /** One stored record: the counter moves on by one and the key it had is
      the only new one. */
  lemma LoadOneValid(st: Store, a: Alumno)
    requires Valid(st) && st.next < Int32Max
    ensures var st' := Store(st.db[st.next := a.(id := st.next)], Inc32(st.next));
      && Valid(st') && st'.next == st.next + 1
      && st'.db.Keys - st.db.Keys == {st.next}
      && (forall k | k in st.db :: st'.db[k] == st.db[k])
  {
    InsertValid(st, a);
  }

  /** `cargarDesdeArchivo` on the empty start-up store: with no file the
      store stays empty; otherwise the brackets are deleted and the text is
      split on `},`. */
  function Load(file: Option<string>): Option<Store>
  {
    match file
    case None => Some(Initial)
    case Some(text) => LoadEntries(Initial, Split(RemoveChars(text, Brackets), "},"))
  }

  /** Whatever the file holds, a start-up that succeeds gives a valid
      store, unless the file has more pieces than the counter can number. */
  lemma LoadValid(text: string)
    requires |Split(RemoveChars(text, Brackets), "},")| < Int32Max
    ensures Load(Some(text)).Some? ==> Valid(Load(Some(text)).value)
  {
    LoadEntriesValid(Initial, Split(RemoveChars(text, Brackets), "},"));
  }

  /** Without a file the server starts empty. */
  lemma LoadNoFile()
    ensures Load(None) == Some(Initial)
  {
  }

  /** A file holding an empty array, or nothing, adds no record. */
  lemma LoadEmpty()
    ensures Load(Some("[]")) == Some(Initial)
    ensures Load(Some("")) == Some(Initial)
  {
    BracketsStripped();
    LoadBlank(Initial);
  }

  lemma BracketsStripped()
    ensures RemoveChars("[]", Brackets) == ""
    ensures RemoveChars("[", Brackets) == ""
    ensures RemoveChars("]", Brackets) == ""
  {
  }

  /** An empty text is one blank piece, which is skipped. */
  lemma LoadBlank(st: Store)
    ensures LoadEntries(st, Split("", "},")) == Some(st)
  {
    assert Split("", "},") == [""];
    assert Trim("") == "";
    assert [""][1..] == [];
  }

  // ---------------------------------------------------------------------
  // Saving and loading back
  // ---------------------------------------------------------------------

  /** A record that survives a save and a load: its name reads back
      unchanged and holds no bracket. */
  predicate Loadable(a: Alumno)
  {
    RoundTrips(a) && Avoids(a.nombre.value, Brackets)
  }

  predicate AllLoadable(db: map<int, Alumno>)
  {
    forall k | k in db :: Loadable(db[k])
  }

  /** The records `xs` stored one after the other under the counter, each
      with its new id: what loading them does. */
  function InsertAll(st: Store, xs: seq<Alumno>): Store
    decreases |xs|
  {
    if |xs| == 0 then st
    else InsertAll(Store(st.db[st.next := xs[0].(id := st.next)], Inc32(st.next)), xs[1..])
  }

  /** `toJson`'s text without the closing brace. */
  function Opening(a: Alumno): string
  {
    "{\"id\":" + FormatInt(a.id) + ",\"nombre\":\"" + NombreText(a.nombre) + "\",\"edad\":" + FormatInt(a.edad)
  }

  lemma ToJsonOpening(a: Alumno)
    ensures ToJson(a) == Opening(a) + "}"
  {
  }

  /** The characters `Opening` must avoid. */
  const Closers: set<char> := {'}', '[', ']'}

  lemma GlueAvoidsClosers()
    ensures Avoids("{\"id\":", Closers)
    ensures Avoids(",\"nombre\":\"", Closers)
    ensures Avoids("\",\"edad\":", Closers)
  {
  }

  lemma FormatIntAvoidsClosers(n: int)
    ensures Avoids(FormatInt(n), Closers)
  {
  }

  /** The opening of a record whose name holds no closing brace and no
      bracket holds none either, starts with `{` and ends with a digit. */
  lemma OpeningShape(a: Alumno)
    requires a.nombre.Some? && Avoids(a.nombre.value, Closers)
    ensures Avoids(Opening(a), Closers)
    ensures |Opening(a)| > 0 && Opening(a)[0] == '{' && IsDigit(Opening(a)[|Opening(a)| - 1])
  {
    var i, n, e := FormatInt(a.id), a.nombre.value, FormatInt(a.edad);
    GlueAvoidsClosers();
    FormatIntAvoidsClosers(a.id);
    FormatIntAvoidsClosers(a.edad);
    AvoidsAppend("{\"id\":", i, Closers);
    AvoidsAppend("{\"id\":" + i, ",\"nombre\":\"", Closers);
    AvoidsAppend("{\"id\":" + i + ",\"nombre\":\"", n, Closers);
    AvoidsAppend("{\"id\":" + i + ",\"nombre\":\"" + n, "\",\"edad\":", Closers);
    AvoidsAppend("{\"id\":" + i + ",\"nombre\":\"" + n + "\",\"edad\":", e, Closers);
  }

  /** A loadable record's opening holds no closing brace and no bracket,
      starts with `{` and ends with a digit. */
  lemma OpeningFacts(a: Alumno)
    requires Loadable(a)
    ensures Avoids(Opening(a), Closers)
    ensures |Opening(a)| > 0 && Opening(a)[0] == '{' && IsDigit(Opening(a)[|Opening(a)| - 1])
  {
    var n := a.nombre.value;
    assert Avoids(n, Closers) by {
      forall j | 0 <= j < |n| ensures n[j] !in Closers {
        assert n[j] !in JsonSyntax && n[j] !in Brackets;
      }
    }
    OpeningShape(a);
  }

  /** A loadable record's JSON holds no bracket. */
  lemma ToJsonAvoidsBrackets(a: Alumno)
    requires Loadable(a)
    ensures Avoids(ToJson(a), Brackets)
  {
    OpeningFacts(a);
    ToJsonOpening(a);
    AvoidsAppend(Opening(a), "}", Brackets);
  }

  /** The pieces `split("},")` cuts a saved list into: every record's JSON
      without its closing brace, except the last one's. */
  function Pieces(xs: seq<Alumno>): seq<string>
    requires |xs| > 0
    decreases |xs|
  {
    if |xs| == 1 then [ToJson(xs[0])] else [Opening(xs[0])] + Pieces(xs[1..])
  }

  lemma JsonAllTail(xs: seq<Alumno>)
    requires |xs| > 0
    ensures JsonAll(xs) == [ToJson(xs[0])] + JsonAll(xs[1..])
  {
    var r := [ToJson(xs[0])] + JsonAll(xs[1..]);
    forall i | 0 <= i < |xs|
      ensures JsonAll(xs)[i] == r[i]
    {
      if i > 0 {
        assert xs[1..][i - 1] == xs[i];
      }
    }
  }

  lemma CloseGlue(o: string, j: string)
    ensures o + "}," + j == (o + "}") + "," + j
  {
  }

  lemma JoinTwoOrMore(xs: seq<string>, sep: string)
    requires |xs| > 1
    ensures Join(xs, sep) == xs[0] + sep + Join(xs[1..], sep)
  {
  }

  /** Cutting at `},` instead of `,` moves each closing brace from the
      record to the separator. */
  lemma {:induction false} PiecesJoin(xs: seq<Alumno>)
    requires |xs| > 0
    ensures Join(Pieces(xs), "},") == Join(JsonAll(xs), ",")
    decreases |xs|
  {
    JsonAllTail(xs);
    if |xs| > 1 {
      var ps := Pieces(xs);
      var js := JsonAll(xs);
      var o := Opening(xs[0]);
      PiecesJoin(xs[1..]);
      ToJsonOpening(xs[0]);
      assert ps == [o] + Pieces(xs[1..]);
      assert ps[1..] == Pieces(xs[1..]);
      assert js[1..] == JsonAll(xs[1..]);
      JoinTwoOrMore(ps, "},");
      assert |js| > 1;
      JoinTwoOrMore(js, ",");
      CloseGlue(o, Join(JsonAll(xs[1..]), ","));
    }
  }

  /** The last piece is a whole record. */
  lemma {:induction false} PiecesLast(xs: seq<Alumno>)
    requires |xs| > 0
    ensures |Pieces(xs)| == |xs|
    ensures Pieces(xs)[|xs| - 1] == ToJson(xs[|xs| - 1])
    ensures forall j | 0 <= j < |xs| - 1 :: Pieces(xs)[j] == Opening(xs[j])
    decreases |xs|
  {
    if |xs| > 1 {
      PiecesLast(xs[1..]);
    }
  }

  /** `split("},")` gives the pieces back. */
  lemma SplitPieces(xs: seq<Alumno>)
    requires |xs| > 0 && forall j | 0 <= j < |xs| :: Loadable(xs[j])
    ensures Split(Join(Pieces(xs), "},"), "},") == Pieces(xs)
  {
    var ps := Pieces(xs);
    var last := xs[|xs| - 1];
    PiecesLast(xs);
    forall j | 0 <= j < |ps| - 1
      ensures FreeOf(ps[j], '}')
    {
      OpeningFacts(xs[j]);
    }
    OpeningFacts(last);
    ToJsonOpening(last);
    assert NoDelimiterIn(ps[|ps| - 1], "},") by {
      forall i | 0 <= i && i + 2 <= |ToJson(last)|
        ensures ToJson(last)[i] != '}'
      {
        assert ToJson(last)[i] == Opening(last)[i];
      }
    }
    SplitJoin(ps, "},");
  }

  /** One piece of a saved list is not blank and reads back as its
      record's name and age, closing brace or not. */
  lemma LoadPiece(x: Alumno, p: string)
    requires Loadable(x) && (p == Opening(x) || p == ToJson(x))
    ensures Trim(p) != ""
    ensures FromJson(if EndsWith(p, "}") then p else p + "}") == Some(Alumno(0, x.nombre, x.edad))
  {
    OpeningFacts(x);
    ToJsonOpening(x);
    RoundTrip(x);
    assert TrimStart(p) == p;
    if p == Opening(x) {
      assert !EndsWith(p, "}");
    } else {
      assert EndsWith(p, "}");
    }
  }

  /** One step of the loop: a non-blank piece that reads back as `a`. */
  lemma LoadStep(st: Store, ps: seq<string>, a: Alumno)
    requires |ps| > 0 && Trim(ps[0]) != ""
    requires FromJson(if EndsWith(ps[0], "}") then ps[0] else ps[0] + "}") == Some(a)
    ensures LoadEntries(st, ps) == LoadEntries(Store(st.db[st.next := a.(id := st.next)], Inc32(st.next)), ps[1..])
  {
  }

  lemma InsertStep(st: Store, xs: seq<Alumno>)
    requires |xs| > 0
    ensures InsertAll(st, xs) == InsertAll(Store(st.db[st.next := xs[0].(id := st.next)], Inc32(st.next)), xs[1..])
  {
  }

  lemma PiecesTail(xs: seq<Alumno>)
    requires |xs| > 1
    ensures Pieces(xs)[0] == Opening(xs[0]) && Pieces(xs)[1..] == Pieces(xs[1..])
  {
  }

  /** Loading the pieces of a list of loadable records stores those
      records in order under consecutive ids. */
  lemma {:induction false} LoadPieces(st: Store, xs: seq<Alumno>)
    requires |xs| > 0 && forall j | 0 <= j < |xs| :: Loadable(xs[j])
    requires st.next + |xs| <= Int32Max
    ensures LoadEntries(st, Pieces(xs)) == Some(InsertAll(st, xs))
    decreases |xs|
  {
    var x := xs[0];
    var ps := Pieces(xs);
    var st1 := Store(st.db[st.next := x.(id := st.next)], Inc32(st.next));
    if |xs| == 1 {
      assert ps == [ToJson(x)];
    } else {
      PiecesTail(xs);
    }
    LoadPiece(x, ps[0]);
    var a := Alumno(0, x.nombre, x.edad);
    assert a.(id := st.next) == x.(id := st.next);
    LoadStep(st, ps, a);
    InsertStep(st, xs);
    if |xs| > 1 {
      assert st1.next == st.next + 1;
      LoadableTail(xs);
      LoadPieces(st1, xs[1..]);
      assert LoadEntries(st1, Pieces(xs[1..])) == Some(InsertAll(st1, xs[1..]));
      assert ps[1..] == Pieces(xs[1..]);
    } else {
      assert ps[1..] == [] && xs[1..] == [];
      assert LoadEntries(st1, []) == Some(st1);
    }
  }

  lemma LoadableTail(xs: seq<Alumno>)
    requires |xs| > 0 && forall j | 0 <= j < |xs| :: Loadable(xs[j])
    ensures forall j | 0 <= j < |xs[1..]| :: Loadable(xs[1..][j])
  {
  }

  /** The values of a database of loadable records are loadable. */
  lemma ValuesLoadable(db: map<int, Alumno>)
    requires AllLoadable(db)
    ensures forall j | 0 <= j < |Values(db)| :: Loadable(Values(db)[j])
  {
  }

  /** Deleting the brackets from a saved list leaves the records joined
      with commas. */
  lemma StrippedList(db: map<int, Alumno>)
    requires AllLoadable(db)
    ensures RemoveChars(ListJson(db), Brackets) == Join(JsonAll(Values(db)), ",")
  {
    var vs := Values(db);
    var js := JsonAll(vs);
    ValuesLoadable(db);
    BuildArrayJoin(js);
    forall j | 0 <= j < |js| ensures Avoids(js[j], Brackets) {
      ToJsonAvoidsBrackets(vs[j]);
    }
    AvoidsJoin(js, ",", Brackets);
    RemoveCharsNone(Join(js, ","), Brackets);
    BracketsStripped();
    RemoveCharsAppend("[", Join(js, ","), Brackets);
    RemoveCharsAppend("[" + Join(js, ","), "]", Brackets);
  }

  /** A saved list of loadable records loads back as those records, in
      list order, numbered from 1. */
  lemma LoadSaved(db: map<int, Alumno>)
    requires AllLoadable(db) && |db| < Int32Max
    ensures Load(Some(ListJson(db))) == Some(InsertAll(Initial, Values(db)))
  {
    var vs := Values(db);
    StrippedList(db);
    if |vs| == 0 {
      assert JsonAll(vs) == [];
      LoadBlank(Initial);
    } else {
      ValuesLoadable(db);
      PiecesJoin(vs);
      SplitPieces(vs);
      LoadPieces(Initial, vs);
    }
  }

  /** Storing records one after another from a counter that does not wrap
      gives them consecutive ids from the counter on, keeps every other key,
      and moves the counter past them. */
  lemma {:induction false} InsertAllShape(st: Store, xs: seq<Alumno>)
    requires st.next + |xs| <= Int32Max
    ensures InsertAll(st, xs).next == st.next + |xs|
    ensures InsertAll(st, xs).db.Keys == st.db.Keys + Interval(st.next, st.next + |xs|)
    ensures forall i | 0 <= i < |xs| :: InsertAll(st, xs).db[st.next + i] == xs[i].(id := st.next + i)
    ensures forall k | k in st.db && !(st.next <= k < st.next + |xs|) :: InsertAll(st, xs).db[k] == st.db[k]
    decreases |xs|
  {
    if |xs| > 0 {
      var st1 := Store(st.db[st.next := xs[0].(id := st.next)], st.next + 1);
      InsertAllShape(st1, xs[1..]);
      var r := InsertAll(st, xs);
      assert r == InsertAll(st1, xs[1..]);
      assert Interval(st.next, st.next + |xs|) == {st.next} + Interval(st.next + 1, st.next + |xs|);
      forall i | 0 <= i < |xs|
        ensures r.db[st.next + i] == xs[i].(id := st.next + i)
      {
        if i > 0 {
          assert xs[1..][i - 1] == xs[i];
          assert r.db[st1.next + (i - 1)] == xs[1..][i - 1].(id := st1.next + (i - 1));
        }
      }
    }
  }

  /** The records of `db`, in iteration order, numbered from 1. */
  lemma Renumbered(db: map<int, Alumno>)
    requires |db| < Int32Max
    ensures InsertAll(Initial, Values(db)).next == |db| + 1
    ensures InsertAll(Initial, Values(db)).db.Keys == Interval(1, |db| + 1)
    ensures forall i | 0 <= i < |db| ::
      InsertAll(Initial, Values(db)).db[1 + i] == Values(db)[i].(id := 1 + i)
  {
    InsertAllShape(Initial, Values(db));
  }

  /** Restarting from a saved list renumbers the records: the k-th
      record in list order comes back with id k, name and age unchanged,
      and the counter continues after the last one. */
  lemma LoadRenumbers(db: map<int, Alumno>) returns (st: Store)
    requires AllLoadable(db) && |db| < Int32Max
    ensures Load(Some(ListJson(db))) == Some(st)
    ensures st.next == |db| + 1
    ensures st.db.Keys == Interval(1, |db| + 1)
    ensures forall i | 0 <= i < |db| :: st.db[1 + i] == Values(db)[i].(id := 1 + i)
  {
    st := InsertAll(Initial, Values(db));
    Renumbered(db);
    LoadSaved(db);
  }

  /** A store whose ids are exactly 1 up to the counter: what a server that
      never deleted anything holds. */
  predicate Dense(st: Store)
  {
    Valid(st) && st.db.Keys == Interval(1, st.next)
  }

  /** Creating keeps a store dense. */
  lemma CreateDense(st: Store, body: string)
    requires Dense(st) && st.next < Int32Max
    ensures Dense(Create(st, body).store)
  {
  }

  /** The size of a dense store is one less than its counter. */
  lemma DenseSize(st: Store)
    requires Dense(st)
    ensures |st.db| == st.next - 1
  {
    SortedInterval(1, st.next);
    assert |SortedKeys(st.db.Keys)| == |st.db.Keys|;
  }

  /** A dense store iterates its records in id order. */
  lemma DenseValues(st: Store)
    requires Dense(st)
    ensures |Values(st.db)| == st.next - 1
    ensures forall i | 0 <= i < st.next - 1 :: Values(st.db)[i] == st.db[1 + i]
  {
    DenseSize(st);
    SortedInterval(1, st.next);
  }

  /** Reloading a dense store's records puts each back under its id. */
  lemma ReloadDenseAt(st: Store, k: int)
    requires Dense(st) && k in st.db
    ensures k in InsertAll(Initial, Values(st.db)).db
    ensures InsertAll(Initial, Values(st.db)).db[k] == st.db[k]
  {
    var vs := Values(st.db);
    DenseValues(st);
    InsertAllShape(Initial, vs);
    var i := k - 1;
    assert 0 <= i < |vs|;
    assert vs[i] == st.db[k];
    assert st.db[k].id == k;
  }

  /** Reloading a dense store's records gives the same ids and counter. */
  lemma ReloadDenseShape(st: Store)
    requires Dense(st)
    ensures InsertAll(Initial, Values(st.db)).next == st.next
    ensures InsertAll(Initial, Values(st.db)).db.Keys == st.db.Keys
  {
    DenseValues(st);
    InsertAllShape(Initial, Values(st.db));
  }

  /** Reloading a dense store's records gives the store back. */
  lemma ReloadDense(st: Store)
    requires Dense(st)
    ensures InsertAll(Initial, Values(st.db)) == st
  {
    var r := InsertAll(Initial, Values(st.db));
    ReloadDenseShape(st);
    forall k | k in st.db
      ensures r.db[k] == st.db[k]
    {
      ReloadDenseAt(st, k);
    }
    MapsEqual(r.db, st.db);
  }

  /** Restarting a dense server whose file matches its store gives back
      the very same store: same ids, same records, same counter. */
  lemma RestartDense(sv: Server)
    requires Persisted(sv) && Dense(sv.store) && AllLoadable(sv.store.db)
    ensures Load(sv.file) == Some(sv.store)
  {
    DenseSize(sv.store);
    SavedIsList(sv.store.db);
    LoadSaved(sv.store.db);
    ReloadDense(sv.store);
  }

  /** A saved list of one loadable record, whatever its id, loads back
      with that record under id 1 and the counter at 2. */
  lemma LoadSingle(k: int, a: Alumno)
    requires Loadable(a)
    ensures Load(Some(ListJson(map[k := a]))) == Some(Store(map[1 := a.(id := 1)], 2))
  {
    var db := map[k := a];
    LoadSaved(db);
    ValuesSingle(k, a);
    var st := InsertAll(Initial, [a]);
    assert st == InsertAll(Store(map[1 := a.(id := 1)], 2), []);
  }

  /** Ids do not survive a restart once one has been deleted: a store
      holding one record under id 2 (id 1 deleted) restarts with that
      record under id 1 and the counter at 2. */
  lemma RestartRenumbers(sv: Server, a: Alumno)
    requires Persisted(sv) && sv.store.db == map[2 := a] && Loadable(a)
    ensures Load(sv.file) == Some(Store(map[1 := a.(id := 1)], 2))
    ensures 2 !in Load(sv.file).value.db.Keys
  {
    SavedIsList(sv.store.db);
    LoadSingle(2, a);
  }

  /** A saved list of one record is that record's JSON once the brackets
      are deleted, and `split("},")` leaves it whole, when the name holds
      no closing brace and no bracket. */
  lemma SingleSavedPiece(k: int, a: Alumno)
    requires a.nombre.Some? && Avoids(a.nombre.value, Closers)
    ensures RemoveChars(ListJson(map[k := a]), Brackets) == ToJson(a)
    ensures Split(ToJson(a), "},") == [ToJson(a)]
  {
    var t := ToJson(a);
    ValuesSingle(k, a);
    assert JsonAll([a]) == [t];
    BuildArrayJoin([t]);
    OpeningShape(a);
    ToJsonOpening(a);
    AvoidsAppend(Opening(a), "}", Brackets);
    RemoveCharsNone(t, Brackets);
    BracketsStripped();
    RemoveCharsAppend("[", t, Brackets);
    RemoveCharsAppend("[" + t, "]", Brackets);
    assert NoDelimiterIn(t, "},") by {
      forall i | 0 <= i && i + 2 <= |t| ensures t[i] != '}' {
        assert t[i] == Opening(a)[i];
      }
    }
    assert Join([t], "},") == t;
    SplitJoin([t], "},");
  }

  /** A record with an empty name is saved, but the file then does not
      load: its piece holds `nombre:`, `fromJson` throws, and the server
      does not start again. Such a record is stored by a body sending a
      blank name, which `fromJson` trims to nothing. */
  lemma EmptyNameBlocksRestart(k: int, a: Alumno)
    requires a.nombre == Some("")
    ensures Load(Some(ListJson(map[k := a]))) == None
  {
    var t := ToJson(a);
    SingleSavedPiece(k, a);
    OpeningShape(a);
    ToJsonOpening(a);
    assert TrimStart(t) == t;
    assert EndsWith(t, "}");
    EmptyNameUnreadable(a);
  }
}
