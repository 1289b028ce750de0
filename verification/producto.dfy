/**
  The product of the product API: its four fields, the setters that
  refuse a blank name or a negative price or stock, `toJson` and
  `fromJson`.
*/
module Productos {
  import opened Wrappers
  import opened JavaText
  import opened JavaNumbers
  import opened FlatJson

  /** A `Producto`: `id` is a `long`, `stock` an `int`. */
  datatype Producto = Producto(id: int, nombre: string, precio: Double, stock: int)

  const NombreObligatorio: string := "El nombre es obligatorio"
  const PrecioNegativo: string := "El precio no puede ser negativo"
  const StockNegativo: string := "El stock no puede ser negativo"

  /** What `fromJson` ends in: a product; an `IllegalArgumentException`
      (a setter's refusal or a `NumberFormatException`) with its message;
      or an exception the handlers do not catch (a piece that splits on `:`
      into fewer than two fields). */
  datatype Parse = Parsed(p: Producto) | Rejected(message: string) | Crashed

  /** `map.getOrDefault(k, d)`. */
  function GetOrDefault(f: map<string, string>, k: string, d: string): string
  {
    if k in f then f[k] else d
  }

  /** The message of the `NumberFormatException` of `Double.parseDouble(s)`:
      `empty String` when nothing is left of the trimmed text, `multiple
      points` when its run of digits and points holds a second point, and
      otherwise the trimmed text. */
  function DoubleFormatMessage(s: string): string
  {
    var t := Trim(s);
    if |t| == 0 then "empty String"
    else if HasMultiplePoints(t) then "multiple points"
    else "For input string: \"" + t + "\""
  }

  /** The message of the `NumberFormatException` of `Integer.parseInt(s)`. */
  function IntFormatMessage(s: string): string
  {
    "For input string: \"" + s + "\""
  }

  // ---------------------------------------------------------------------
  // The price check of setPrecio
  // ---------------------------------------------------------------------

  /** `setPrecio` as written refuses `precio < 0` only; the corrected check
      refuses every price that is not `>= 0`, NaN among them. */
  datatype PriceRule = AsWritten | Corrected

  predicate PriceRefused(rule: PriceRule, d: Double)
  {
    match rule
    case AsWritten => Lt(d, Zero)
    case Corrected => !Ge(d, Zero)
  }

  /** What the setters let through under a price rule: a name that is not
      blank, a price the rule does not refuse and an `int` stock at least
      zero. */
  predicate Accepted(rule: PriceRule, p: Producto)
  {
    !IsBlank(p.nombre) && !PriceRefused(rule, p.precio) && 0 <= p.stock <= Int32Max
  }

  /** The two checks differ on NaN alone: as written, NaN is accepted and
      yet is not `>= 0`. */
  lemma PriceRulesDiffer(d: Double)
    ensures PriceRefused(AsWritten, d) != PriceRefused(Corrected, d) <==> d.NaN?
    ensures !PriceRefused(AsWritten, NaN) && !Ge(NaN, Zero)
    ensures !PriceRefused(Corrected, d) <==> Ge(d, Zero)
  {
  }

  // ---------------------------------------------------------------------
  // fromJson
  // ---------------------------------------------------------------------

  /** The setters applied in `fromJson`'s order to the parsed fields:
      `setNombre(map.get("nombre"))`, then `setPrecio` of the parsed
      `precio` (default `"0"`), then `setStock` of the parsed `stock`
      (default `"0"`); the first refusal is the outcome. */
  function FromFields(rule: PriceRule, f: map<string, string>): (r: Parse)
    ensures !r.Crashed?
    ensures r == Rejected(NombreObligatorio) <==> "nombre" !in f || IsBlank(f["nombre"])
    ensures r.Parsed? ==>
      && r.p.id == 0
      && "nombre" in f && r.p.nombre == f["nombre"]
      && ParseDouble(GetOrDefault(f, "precio", "0")) == Some(r.p.precio)
      && ParseInt32(GetOrDefault(f, "stock", "0")) == Some(r.p.stock)
    ensures r.Parsed? ==> Accepted(rule, r.p)
    ensures r == Rejected(StockNegativo) ==>
      && ParseInt32(GetOrDefault(f, "stock", "0")).Some?
      && ParseInt32(GetOrDefault(f, "stock", "0")).value < 0
  {
    if "nombre" !in f || IsBlank(f["nombre"]) then Rejected(NombreObligatorio)
    else
      var precio := GetOrDefault(f, "precio", "0");
      match ParseDouble(precio)
      case None =>
        assert DoubleFormatMessage(precio)[0] != NombreObligatorio[0];
        Rejected(DoubleFormatMessage(precio))
      case Some(d) =>
        if PriceRefused(rule, d) then Rejected(PrecioNegativo)
        else
          var stock := GetOrDefault(f, "stock", "0");
          match ParseInt32(stock)
          case None =>
            assert IntFormatMessage(stock)[0] != NombreObligatorio[0];
            Rejected(IntFormatMessage(stock))
          case Some(n) =>
            if n < 0 then Rejected(StockNegativo)
            else Parsed(Producto(0, f["nombre"], d, n))
  }

  /** `Producto.fromJson` under a price rule: `AsWritten` is the program
      as it stands, `Corrected` the one that refuses NaN. */
  function FromJson(rule: PriceRule, json: string): (r: Parse)
    ensures r.Crashed? <==> Fields(json).None?
    ensures r.Parsed? ==> Accepted(rule, r.p) && r.p.id == 0
  {
    match Fields(json)
    case None => Crashed
    case Some(f) => FromFields(rule, f)
  }

  /** The fields make a product exactly when the name is not blank, the
      price parses to a value the rule does not refuse and the stock
      parses to an `int` at least zero. */
  predicate Acceptable(rule: PriceRule, f: map<string, string>)
  {
    && "nombre" in f && !IsBlank(f["nombre"])
    && ParseDouble(GetOrDefault(f, "precio", "0")).Some?
    && !PriceRefused(rule, ParseDouble(GetOrDefault(f, "precio", "0")).value)
    && ParseInt32(GetOrDefault(f, "stock", "0")).Some?
    && ParseInt32(GetOrDefault(f, "stock", "0")).value >= 0
  }

  /** The setters accept exactly the acceptable fields, and the product
      holds what was sent. As written, a price is acceptable when it is
      not `< 0`, which NaN is not. */
  lemma FromFieldsAccepts(rule: PriceRule, f: map<string, string>)
    ensures FromFields(rule, f).Parsed? <==> Acceptable(rule, f)
    ensures Acceptable(rule, f) ==> FromFields(rule, f) == Parsed(Producto(0, f["nombre"],
      ParseDouble(GetOrDefault(f, "precio", "0")).value, ParseInt32(GetOrDefault(f, "stock", "0")).value))
  {
  }

  /** The refusals come in the setters' order: a price is looked at only
      once the name is good, the stock only once the price is. */
  lemma FromFieldsOrder(rule: PriceRule, f: map<string, string>)
    requires "nombre" in f && !IsBlank(f["nombre"])
    ensures ParseDouble(GetOrDefault(f, "precio", "0")).None? ==>
      FromFields(rule, f) == Rejected(DoubleFormatMessage(GetOrDefault(f, "precio", "0")))
    ensures (ParseDouble(GetOrDefault(f, "precio", "0")).Some?
      && PriceRefused(rule, ParseDouble(GetOrDefault(f, "precio", "0")).value)) ==>
      FromFields(rule, f) == Rejected(PrecioNegativo)
    ensures (ParseDouble(GetOrDefault(f, "precio", "0")).Some?
      && !PriceRefused(rule, ParseDouble(GetOrDefault(f, "precio", "0")).value)
      && ParseInt32(GetOrDefault(f, "stock", "0")).None?) ==>
      FromFields(rule, f) == Rejected(IntFormatMessage(GetOrDefault(f, "stock", "0")))
  {
  }

  /** With a good name, a price whose digits hold two points is refused
      with `multiple points`, under either rule. */
  lemma MultiplePointsRefused(rule: PriceRule, f: map<string, string>)
    requires "nombre" in f && !IsBlank(f["nombre"])
    requires HasMultiplePoints(Trim(GetOrDefault(f, "precio", "0")))
    ensures FromFields(rule, f) == Rejected("multiple points")
  {
    MultiplePointsRejected(GetOrDefault(f, "precio", "0"));
    FromFieldsOrder(rule, f);
  }

  /** The body `{"nombre":"x","precio":1.2.3}` is answered 400 with
      `multiple points`. */
  lemma MultiplePointsExample(rule: PriceRule)
    ensures FromFields(rule, map["nombre" := "x", "precio" := "1.2.3"]) == Rejected("multiple points")
  {
    var f := map["nombre" := "x", "precio" := "1.2.3"];
    assert GetOrDefault(f, "precio", "0") == "1.2.3";
    TwoPointsIn123();
    NameNotBlank();
    MultiplePointsRefused(rule, f);
  }

  lemma TwoPointsIn123()
    ensures HasMultiplePoints(Trim("1.2.3"))
  {
    Trimmed123();
    PointsIn123();
    assert Unsigned("1.2.3") == "1.2.3";
  }

  lemma Trimmed123()
    ensures Trim("1.2.3") == "1.2.3"
  {
    TrimClean("1.2.3");
  }

  lemma PointsIn123()
    ensures PointsInRun("1.2.3") == 2
  {
    assert PointsInRun("3") == 0;
    assert PointsInRun(".3") == 1 by { assert ".3"[1..] == "3"; }
    assert PointsInRun("2.3") == 1 by { assert "2.3"[1..] == ".3"; }
    assert PointsInRun(".2.3") == 2 by { assert ".2.3"[1..] == "2.3"; }
    assert "1.2.3"[1..] == ".2.3";
  }

  lemma NameNotBlank()
    ensures !IsBlank("x")
  {
    assert !IsWhitespace("x"[0]);
  }

  lemma ParseZero()
    ensures ParseDouble("0") == Some(Zero)
    ensures ParseInt32("0") == Some(0)
  {
    assert Trim("0") == "0";
    assert LeadingDigits("0") == 1;
    assert "0"[..1] == "0" && "0"[1..] == "";
    assert DigitsValue("0" + "") == 0 by {
      assert "0" + "" == "0";
      assert "0"[..0] == "";
    }
  }

  /** A missing price or stock is zero, under either rule. */
  lemma MissingMeansZero(rule: PriceRule, f: map<string, string>)
    requires "nombre" in f && !IsBlank(f["nombre"])
    requires "precio" !in f && "stock" !in f
    ensures FromFields(rule, f) == Parsed(Producto(0, f["nombre"], Zero, 0))
  {
  }

  /** The finding: `"precio":NaN` gets past `setPrecio` as written, and the
      stored price is not `>= 0`; the corrected check refuses it. */
  lemma NaNPriceAsWritten(nombre: string)
    requires !IsBlank(nombre)
    ensures FromFields(AsWritten, map["nombre" := nombre, "precio" := "NaN"])
      == Parsed(Producto(0, nombre, NaN, 0))
    ensures Accepted(AsWritten, Producto(0, nombre, NaN, 0))
    ensures !Accepted(Corrected, Producto(0, nombre, NaN, 0)) && !Ge(NaN, Zero)
    ensures FromFields(Corrected, map["nombre" := nombre, "precio" := "NaN"]) == Rejected(PrecioNegativo)
  {
    var f := map["nombre" := nombre, "precio" := "NaN"];
    NaNFieldsRead(f);
    FromFieldsAccepts(AsWritten, f);
    FromFieldsOrder(Corrected, f);
  }

  lemma NaNFieldsRead(f: map<string, string>)
    requires "precio" in f && f["precio"] == "NaN" && "stock" !in f
    ensures ParseDouble(GetOrDefault(f, "precio", "0")) == Some(NaN)
    ensures ParseInt32(GetOrDefault(f, "stock", "0")) == Some(0)
  {
    assert Trim("NaN") == "NaN";
    ParseZero();
  }

  /** An empty name (`"nombre":""`, the piece `nombre:` once the quotes are
      deleted) never reaches `setNombre`: the parse throws first, so the
      handler sends no answer where a 400 was meant. */
  lemma EmptyNameAborts(rule: PriceRule, json: string)
    requires "nombre:" in Split(RemoveChars(json, Punctuation), ",")
    ensures FromJson(rule, json) == Crashed
  {
    assert "nombre:" == "nombre" + ":";
    EmptyValueThrows("nombre");
    var pieces := Split(RemoveChars(json, Punctuation), ",");
    var i :| 0 <= i < |pieces| && pieces[i] == "nombre:";
    assert Entry(pieces[i]) == None;
  }

  // ---------------------------------------------------------------------
  // toJson and the error body
  // ---------------------------------------------------------------------

  /** `toJson`: `{"id":%d,"nombre":"%s","precio":%.2f,"stock":%d}`. */
  function ToJson(p: Producto): string
  {
    "{\"id\":" + FormatInt(p.id) + ",\"nombre\":\"" + p.nombre + "\",\"precio\":"
      + FormatFixed2(p.precio) + ",\"stock\":" + FormatInt(p.stock) + "}"
  }

  /** `toJson` prints the price rounded to cents, so it cannot be undone:
      two products whose prices differ below a cent print the same text. */
  lemma ToJsonRounds(id: int, nombre: string, stock: int)
    ensures ToJson(Producto(id, nombre, Finite(0.125), stock)) == ToJson(Producto(id, nombre, Finite(0.13), stock))
    ensures Finite(0.125) != Finite(0.13)
  {
    FixedParts(0.125, 13);
    FixedParts(0.13, 13);
  }

  /** `jsonError`: `{"error":"%s"}`, the message inserted as it is. */
  function JsonError(msg: string): string
  {
    "{\"error\":\"" + msg + "\"}"
  }
}
