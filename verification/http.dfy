/**
  What a handler sees of an `HttpExchange` (method as `verb`, decoded path, query,
  body) and what it produces (a status and a body, or nothing at all when
  the handler throws before it answers).
*/
module Http {
  import opened Wrappers
  import opened JavaText

  datatype Request = Request(verb: string, path: string, query: Option<string>, body: string)

  /** `Aborted` is an exception escaping the handler: the handler sends no
      response. What the server then does with the exchange is outside the
      model. */
  datatype Response = Reply(status: int, body: string) | Aborted

  /** A handler's response together with the store it leaves behind. */
  datatype Outcome<S> = Outcome(response: Response, store: S)

  /** `path.split("/")`. */
  function Segments(path: string): seq<string>
  {
    Split(path, "/")
  }

  /** A path segment: non-empty and without `/`. */
  predicate IsSegment(x: string)
  {
    |x| > 0 && FreeOf(x, '/')
  }

  /** `/name` and `/name/` both split into two parts, the empty one first. */
  lemma CollectionSegments(name: string)
    requires IsSegment(name)
    ensures Segments("/" + name) == ["", name]
    ensures Segments("/" + name + "/") == ["", name]
  {
    assert Join(["", name], "/") == "/" + name;
    SplitJoin(["", name], "/");
    var s := "/" + name + "/";
    assert s == "" + "/" + (name + "/" + "");
    SplitAllField("", "/", name + "/" + "");
    SplitAllField(name, "/", "");
    assert SplitAll("", "/") == [""];
    assert SplitAll(s, "/") == ["", name, ""];
    assert DropTrailingEmpty(["", name, ""]) == ["", name];
  }

  /** `/name/x` and `/name/x/` both split into three parts, `x` last. */
  lemma ItemSegments(name: string, x: string)
    requires IsSegment(name) && IsSegment(x)
    ensures Segments("/" + name + "/" + x) == ["", name, x]
    ensures Segments("/" + name + "/" + x + "/") == ["", name, x]
  {
    var xs := ["", name, x];
    assert xs[1..] == [name, x] && [name, x][1..] == [x];
    assert Join([name, x], "/") == name + "/" + x;
    assert Join(xs, "/") == "/" + name + "/" + x;
    SplitJoin(xs, "/");
    ItemTrailingSlash(name, x);
  }

  lemma ItemTrailingSlash(name: string, x: string)
    requires IsSegment(name) && IsSegment(x)
    ensures Segments("/" + name + "/" + x + "/") == ["", name, x]
  {
    var s := "/" + name + "/" + x + "/";
    assert s == "" + "/" + (name + "/" + (x + "/" + ""));
    SplitAllField("", "/", name + "/" + (x + "/" + ""));
    SplitAllField(name, "/", x + "/" + "");
    SplitAllField(x, "/", "");
    assert SplitAll("", "/") == [""];
    assert SplitAll(s, "/") == ["", name, x, ""];
    assert DropTrailingEmpty(["", name, x, ""]) == ["", name, x];
  }
}
