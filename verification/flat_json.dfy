/**
  The servers' hand-made JSON: the key/value reader shared by every
  `fromJson` (delete braces and quotes, split on `,`, split each piece on
  `:`, trim both halves) and the `[a,b,...]` array the list operations build.
*/
module FlatJson {
  import opened Wrappers
  import opened JavaText

  /** The characters `fromJson` deletes first: `{`, `}` and `"`. */
  const Punctuation: set<char> := {'{', '}', '"'}

  /** The key and value one piece contributes, or `None` when splitting the
      piece on `:` gives fewer than two parts (the `kv[1]` access throws
      `ArrayIndexOutOfBoundsException`). */
  function Entry(piece: string): (r: Option<(string, string)>)
    ensures r.Some? <==> |Split(piece, ":")| >= 2
  {
    var kv := Split(piece, ":");
    if |kv| < 2 then None else Some((Trim(kv[0]), Trim(kv[1])))
  }

  /** A piece with nothing after its `:` (what `"key":""` becomes once the
      quotes are deleted) splits into fewer than two fields, because `split`
      drops the trailing empty field: `fromJson` throws on it. */
  lemma EmptyValueThrows(k: string)
    requires FreeOf(k, ':')
    ensures Entry(k + ":") == None
  {
    SplitAllField(k, ":", "");
    assert SplitAll("", ":") == [""];
    assert k + ":" + "" == k + ":";
    assert SplitAll(k + ":", ":") == [k, ""];
    assert DropTrailingEmpty([k, ""]) == DropTrailingEmpty([k]);
  }

  /** The loop of `fromJson`: each piece's entry is put into the map in
      turn, so a later key overwrites an earlier one; one malformed piece
      aborts the whole parse. */
  function Collect(pieces: seq<string>, acc: map<string, string>): (r: Option<map<string, string>>)
    ensures r.Some? <==> forall i | 0 <= i < |pieces| :: Entry(pieces[i]).Some?
    ensures r.Some? ==> acc.Keys <= r.value.Keys
    decreases |pieces|
  {
    if |pieces| == 0 then Some(acc)
    else
      match Entry(pieces[0])
      case None => None
      case Some((k, v)) =>
        assert forall i | 0 <= i < |pieces| - 1 :: pieces[1..][i] == pieces[i + 1];
        Collect(pieces[1..], acc[k := v])
  }

  /** The map `fromJson` reads the fields from, or `None` when it throws. */
  function Fields(json: string): Option<map<string, string>>
  {
    Collect(Split(RemoveChars(json, Punctuation), ","), map[])
  }

  /** One more piece at the end either overwrites its key with its value or
      aborts the parse: the last occurrence of a key wins. */
  lemma {:induction false} CollectLast(pieces: seq<string>, p: string, acc: map<string, string>)
    ensures Collect(pieces + [p], acc) ==
      match Collect(pieces, acc)
      case None => None
      case Some(m) => (match Entry(p) case None => None case Some((k, v)) => Some(m[k := v]))
    decreases |pieces|
  {
    if |pieces| == 0 {
      assert pieces + [p] == [p];
    } else {
      assert (pieces + [p])[1..] == pieces[1..] + [p];
      match Entry(pieces[0])
      case None =>
      case Some((k, v)) =>
        CollectLast(pieces[1..], p, acc[k := v]);
    }
  }

  // ---------------------------------------------------------------------
  // Arrays of records
  // ---------------------------------------------------------------------

  /** Every item followed by a comma. */
  function WithCommas(items: seq<string>): string
  {
    if |items| == 0 then "" else items[0] + "," + WithCommas(items[1..])
  }

  /** One more item at the end adds it and its comma at the end. */
  lemma {:induction false} WithCommasSnoc(items: seq<string>, x: string)
    ensures WithCommas(items + [x]) == WithCommas(items) + x + ","
    decreases |items|
  {
    if |items| == 0 {
      assert items + [x] == [x];
      assert [x][1..] == [];
    } else {
      assert (items + [x])[1..] == items[1..] + [x];
      WithCommasSnoc(items[1..], x);
    }
  }

  /** The `StringBuilder` loop of `listar` and `guardarEnArchivo`: `[`, each
      item followed by `,`, the last character dropped when more than `[`
      was written, then `]`. */
  function BuildArray(items: seq<string>): string
  {
    var sb := "[" + WithCommas(items);
    (if |sb| > 1 then sb[..|sb| - 1] else sb) + "]"
  }

  /** The builder loop itself: `[`, then each item and a comma, the last
      comma dropped when anything was appended, then `]`. */
  method WriteArray(items: seq<string>) returns (text: string)
    ensures text == BuildArray(items)
    ensures text == "[" + Join(items, ",") + "]"
  {
    var sb := "[";
    var i := 0;
    while i < |items|
      invariant 0 <= i <= |items|
      invariant sb == "[" + WithCommas(items[..i])
    {
      WithCommasSnoc(items[..i], items[i]);
      assert items[..i + 1] == items[..i] + [items[i]];
      sb := sb + items[i] + ",";
      i := i + 1;
    }
    assert items[..i] == items;
    if |sb| > 1 {
      sb := sb[..|sb| - 1];
    }
    text := sb + "]";
    BuildArrayJoin(items);
  }

  lemma {:induction false} WithCommasJoin(items: seq<string>)
    requires |items| > 0
    ensures WithCommas(items) == Join(items, ",") + ","
    decreases |items|
  {
    if |items| > 1 {
      WithCommasJoin(items[1..]);
    }
  }

  /** The builder's output is the items joined with commas between brackets,
      `[]` for no items: the same text `String.join` gives. */
  lemma BuildArrayJoin(items: seq<string>)
    ensures BuildArray(items) == "[" + Join(items, ",") + "]"
  {
    if |items| > 0 {
      WithCommasJoin(items);
      var sb := "[" + WithCommas(items);
      assert sb == "[" + Join(items, ",") + ",";
      assert sb[..|sb| - 1] == "[" + Join(items, ",");
    }
  }
}
