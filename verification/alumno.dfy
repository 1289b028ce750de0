/**
  The `Alumno` record of the student servers and its hand-made JSON form.
  The two student servers declare the same class with the same `toJson`
  and `fromJson`; both use this module.
*/
module Alumnos {
  import opened Wrappers
  import opened JavaText
  import opened JavaNumbers
  import opened FlatJson

  /** A student. `nombre` is `None` when the JSON it came from had no
      `nombre` key (the Java field is then `null`). */
  datatype Alumno = Alumno(id: int, nombre: Option<string>, edad: int)

  /** What `%s` prints for the name. */
  function NombreText(nombre: Option<string>): string
  {
    match nombre
    case Some(n) => n
    case None => "null"
  }

  /** `toJson`: `{"id":<id>,"nombre":"<nombre>","edad":<edad>}`. */
  function ToJson(a: Alumno): string
  {
    "{\"id\":" + FormatInt(a.id) + ",\"nombre\":\"" + NombreText(a.nombre) + "\",\"edad\":" + FormatInt(a.edad) + "}"
  }

  /** `fromJson`: the record read from the key/value map, with id 0. `None`
      is an exception: a malformed piece, or an `edad` that is missing or
      not an `int` (`Integer.parseInt` throws). A missing `nombre` is no
      error. */
  function FromJson(json: string): (r: Option<Alumno>)
    ensures r.Some? <==>
      (Fields(json).Some? && "edad" in Fields(json).value && ParseInt32(Fields(json).value["edad"]).Some?)
    ensures r.Some? ==> r.value.id == 0 && IsInt32(r.value.edad)
    ensures r.Some? ==> (r.value.nombre.Some? <==> "nombre" in Fields(json).value)
    ensures r.Some? ==> r.value.edad == ParseInt32(Fields(json).value["edad"]).value
    ensures r.Some? && r.value.nombre.Some? ==> r.value.nombre.value == Fields(json).value["nombre"]
  {
    match Fields(json)
    case None => None
    case Some(f) =>
      if "edad" !in f then None
      else
        match ParseInt32(f["edad"])
        case None => None
        case Some(e) => Some(Alumno(0, if "nombre" in f then Some(f["nombre"]) else None, e))
  }

  /** The characters a name must avoid to survive `toJson` then `fromJson`. */
  const JsonSyntax: set<char> := {'{', '}', '"', ',', ':'}

  /** A name that reads back unchanged: non-empty, free of JSON syntax, and
      with nothing `trim` would cut. */
  predicate CleanName(n: string)
  {
    |n| > 0 && Avoids(n, JsonSyntax) && !IsTrimmable(n[0]) && !IsTrimmable(n[|n| - 1])
  }

  /** A record whose JSON reads back into the same name and age. */
  predicate RoundTrips(a: Alumno)
  {
    a.nombre.Some? && CleanName(a.nombre.value) && IsInt32(a.edad)
  }

  /** The text of a number holds no JSON syntax and nothing to trim. */
  lemma FormatIntClean(n: int)
    ensures Avoids(FormatInt(n), JsonSyntax)
    ensures !IsTrimmable(FormatInt(n)[0]) && !IsTrimmable(FormatInt(n)[|FormatInt(n)| - 1])
  {
  }

  /** `key:value` with clean halves is read as that key and value. */
  lemma EntryOf(key: string, value: string)
    requires |key| > 0 && |value| > 0
    requires Avoids(key, JsonSyntax) && Avoids(value, JsonSyntax)
    requires !IsTrimmable(key[0]) && !IsTrimmable(key[|key| - 1])
    requires !IsTrimmable(value[0]) && !IsTrimmable(value[|value| - 1])
    ensures Entry(key + ":" + value) == Some((key, value))
  {
    assert [key, value][1..] == [value];
    assert Join([key, value], ":") == key + ":" + value;
    SplitJoin([key, value], ":");
    TrimClean(key);
    TrimClean(value);
  }

  /** Deleting characters from `a + x + b` when `x` holds none of them. */
  lemma StripAround(a: string, x: string, b: string, a': string, b': string)
    requires Avoids(x, Punctuation)
    requires RemoveChars(a, Punctuation) == a' && RemoveChars(b, Punctuation) == b'
    ensures RemoveChars(a + x + b, Punctuation) == a' + x + b'
  {
    RemoveCharsNone(x, Punctuation);
    RemoveCharsAppend(a, x, Punctuation);
    RemoveCharsAppend(a + x, b, Punctuation);
  }

  /** The glue between keys and values, braces and quotes deleted. */
  lemma GlueStripped()
    ensures RemoveChars("{\"", Punctuation) == ""
    ensures RemoveChars("\":", Punctuation) == ":"
    ensures RemoveChars(",\"", Punctuation) == ","
    ensures RemoveChars("\":\"", Punctuation) == ":"
    ensures RemoveChars("\",\"", Punctuation) == ","
    ensures RemoveChars("}", Punctuation) == ""
  {
  }

  /** `toJson`'s layout with the keys `k1`, `k2`, `k3` left open. */
  function Layout(k1: string, i: string, k2: string, n: string, k3: string, e: string): string
  {
    "{\"" + k1 + "\":" + i + ",\"" + k2 + "\":\"" + n + "\",\"" + k3 + "\":" + e + "}"
  }

  lemma StripLayout(k1: string, i: string, k2: string, n: string, k3: string, e: string)
    requires Avoids(k1, Punctuation) && Avoids(i, Punctuation) && Avoids(k2, Punctuation)
    requires Avoids(n, Punctuation) && Avoids(k3, Punctuation) && Avoids(e, Punctuation)
    ensures RemoveChars(Layout(k1, i, k2, n, k3, e), Punctuation)
      == k1 + ":" + i + "," + k2 + ":" + n + "," + k3 + ":" + e
  {
    GlueStripped();
    StripAround("{\"", k1, "\":", "", ":");
    var s1 := "{\"" + k1 + "\":";
    StripAround(s1, i, ",\"", k1 + ":", ",");
    var s2 := s1 + i + ",\"";
    StripAround(s2, k2, "\":\"", k1 + ":" + i + ",", ":");
    var s3 := s2 + k2 + "\":\"";
    StripAround(s3, n, "\",\"", k1 + ":" + i + "," + k2 + ":", ",");
    var s4 := s3 + n + "\",\"";
    StripAround(s4, k3, "\":", k1 + ":" + i + "," + k2 + ":" + n + ",", ":");
    var s5 := s4 + k3 + "\":";
    StripAround(s5, e, "}", k1 + ":" + i + "," + k2 + ":" + n + "," + k3 + ":", "");
  }

  lemma LayoutOfJson(i: string, n: string, e: string)
    ensures Layout("id", i, "nombre", n, "edad", e)
      == "{\"id\":" + i + ",\"nombre\":\"" + n + "\",\"edad\":" + e + "}"
  {
  }

  lemma KeysOfJson(i: string, n: string, e: string)
    ensures Avoids("id", JsonSyntax) && Avoids("nombre", JsonSyntax) && Avoids("edad", JsonSyntax)
    ensures "id" + ":" + i + "," + "nombre" + ":" + n + "," + "edad" + ":" + e
      == "id:" + i + ",nombre:" + n + ",edad:" + e
  {
  }

  /** Deleting braces and quotes from `toJson`'s text leaves
      `id:<id>,nombre:<nombre>,edad:<edad>`. */
  lemma StrippedJson(i: string, n: string, e: string)
    requires Avoids(i, Punctuation) && Avoids(n, Punctuation) && Avoids(e, Punctuation)
    ensures RemoveChars("{\"id\":" + i + ",\"nombre\":\"" + n + "\",\"edad\":" + e + "}", Punctuation)
      == "id:" + i + ",nombre:" + n + ",edad:" + e
  {
    KeysOfJson(i, n, e);
    LayoutOfJson(i, n, e);
    StripLayout("id", i, "nombre", n, "edad", e);
  }

  /** The pieces of the stripped text, split on commas. */
  lemma JsonPieces(i: string, n: string, e: string)
    requires |e| > 0
    requires Avoids(i, JsonSyntax) && Avoids(n, JsonSyntax) && Avoids(e, JsonSyntax)
    ensures Split("id:" + i + ",nombre:" + n + ",edad:" + e, ",") == ["id:" + i, "nombre:" + n, "edad:" + e]
  {
    var xs := ["id:" + i, "nombre:" + n, "edad:" + e];
    var tail := ["nombre:" + n, "edad:" + e];
    assert xs[1..] == tail && tail[1..] == ["edad:" + e];
    assert Join(tail, ",") == "nombre:" + n + "," + ("edad:" + e);
    assert Join(xs, ",") == "id:" + i + "," + Join(tail, ",");
    assert Join(xs, ",") == "id:" + i + ",nombre:" + n + ",edad:" + e;
    assert FreeOf(xs[0], ',') && FreeOf(xs[1], ',');
    SplitJoin(xs, ",");
  }

  /** The three pieces of `toJson`'s text read into a map. */
  lemma CollectPieces(i: string, n: string, e: string)
    requires Entry("id:" + i) == Some(("id", i))
    requires Entry("nombre:" + n) == Some(("nombre", n))
    requires Entry("edad:" + e) == Some(("edad", e))
    ensures Collect(["id:" + i, "nombre:" + n, "edad:" + e], map[]) == Some(map["id" := i, "nombre" := n, "edad" := e])
  {
    var pieces := ["id:" + i, "nombre:" + n, "edad:" + e];
    var m1 := map["id" := i];
    var m2 := m1["nombre" := n];
    var m3 := m2["edad" := e];
    assert pieces[1..] == ["nombre:" + n, "edad:" + e];
    assert pieces[1..][1..] == ["edad:" + e];
    assert pieces[1..][1..][1..] == [];
    assert Collect(pieces[1..][1..][1..], m3) == Some(m3);
    assert Collect(pieces[1..][1..], m2) == Some(m3);
    assert Collect(pieces[1..], m1) == Some(m3);
    assert m3 == map["id" := i, "nombre" := n, "edad" := e];
  }

  /** A value `fromJson` reads back unchanged. */
  predicate CleanValue(v: string)
  {
    |v| > 0 && Avoids(v, JsonSyntax) && !IsTrimmable(v[0]) && !IsTrimmable(v[|v| - 1])
  }

  lemma KeyEntry(key: string, v: string)
    requires key in {"id", "nombre", "edad"} && CleanValue(v)
    ensures Entry(key + ":" + v) == Some((key, v))
  {
    EntryOf(key, v);
  }

  lemma KeyEntries(i: string, n: string, e: string)
    requires CleanValue(i) && CleanValue(n) && CleanValue(e)
    ensures Entry("id:" + i) == Some(("id", i))
    ensures Entry("nombre:" + n) == Some(("nombre", n))
    ensures Entry("edad:" + e) == Some(("edad", e))
  {
    KeyGlue(i, n, e);
    KeyEntry("id", i);
    KeyEntry("nombre", n);
    KeyEntry("edad", e);
  }

  lemma KeyGlue(i: string, n: string, e: string)
    ensures "id" + ":" + i == "id:" + i
    ensures "nombre" + ":" + n == "nombre:" + n
    ensures "edad" + ":" + e == "edad:" + e
  {
  }

  /** The map `fromJson` reads from `toJson`'s text. */
  lemma FieldsOfText(i: string, n: string, e: string)
    requires CleanValue(i) && CleanValue(n) && CleanValue(e)
    ensures Fields("{\"id\":" + i + ",\"nombre\":\"" + n + "\",\"edad\":" + e + "}")
      == Some(map["id" := i, "nombre" := n, "edad" := e])
  {
    StrippedJson(i, n, e);
    JsonPieces(i, n, e);
    KeyEntries(i, n, e);
    CollectPieces(i, n, e);
  }

  /** The map `fromJson` reads from a record's JSON. */
  lemma JsonFields(a: Alumno)
    requires RoundTrips(a)
    ensures Fields(ToJson(a))
      == Some(map["id" := FormatInt(a.id), "nombre" := a.nombre.value, "edad" := FormatInt(a.edad)])
  {
    FormatIntClean(a.id);
    FormatIntClean(a.edad);
    FieldsOfText(FormatInt(a.id), a.nombre.value, FormatInt(a.edad));
  }

  /** `fromJson(toJson(a))` gives back `a`'s name and age with id 0, for a
      name that is non-empty, holds none of `{ } " , :` and has nothing to
      trim at either end. */
  lemma RoundTrip(a: Alumno)
    requires RoundTrips(a)
    ensures FromJson(ToJson(a)) == Some(Alumno(0, a.nombre, a.edad))
  {
    JsonFields(a);
    ParseFormatInt(a.edad, Int32Min, Int32Max);
  }

  /** The piece an empty name leaves once the quotes are deleted. */
  lemma EmptyNameEntry()
    ensures Entry("nombre:" + "") == None
  {
    assert "nombre:" + "" == "nombre" + ":";
    EmptyValueThrows("nombre");
  }

  /** `toJson`'s text with an empty name does not parse. */
  lemma FieldsOfEmptyName(i: string, e: string)
    requires CleanValue(i) && CleanValue(e)
    ensures Fields("{\"id\":" + i + ",\"nombre\":\"" + "" + "\",\"edad\":" + e + "}") == None
  {
    StrippedJson(i, "", e);
    JsonPieces(i, "", e);
    EmptyNameEntry();
    var pieces := ["id:" + i, "nombre:" + "", "edad:" + e];
    assert Entry(pieces[1]) == None;
  }

  /** A record whose name is empty does not read back: its JSON holds the
      piece `nombre:`, on which `fromJson` throws. A body sending
      `"nombre":" "` stores such a record, since the value is trimmed. */
  lemma EmptyNameUnreadable(a: Alumno)
    requires a.nombre == Some("")
    ensures FromJson(ToJson(a)) == None
  {
    FormatIntClean(a.id);
    FormatIntClean(a.edad);
    FieldsOfEmptyName(FormatInt(a.id), FormatInt(a.edad));
  }

  /** The name piece splits at its one `:`. */
  lemma NamePieceSplit(v: string)
    requires |v| > 0 && FreeOf(v, ':')
    ensures Split("nombre:" + v, ":") == ["nombre", v]
  {
    var xs := ["nombre", v];
    assert xs[1..] == [v];
    assert Join(xs, ":") == "nombre:" + v;
    SplitJoin(xs, ":");
  }

  /** A blank name is stored empty: `trim` cuts it to nothing. */
  lemma BlankNameTrimmed(blank: string)
    requires |blank| > 0 && forall j | 0 <= j < |blank| :: IsTrimmable(blank[j])
    ensures Entry("nombre:" + blank) == Some(("nombre", ""))
  {
    BlankHasNoColon(blank);
    NamePieceSplit(blank);
    TrimClean("nombre");
    TrimBlank(blank);
  }

  lemma BlankHasNoColon(blank: string)
    requires forall j | 0 <= j < |blank| :: IsTrimmable(blank[j])
    ensures FreeOf(blank, ':')
  {
  }
}
