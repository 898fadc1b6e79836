/** The Java linked-list service (linkedlist/LinkedListService.java): the
    value parse of POST /add, the JSON text of GET /list, the POST-only
    guards and head/tail removal. The table is a `seq<string>` in insertion
    (id) order; each handler's database work either succeeds or throws,
    which an oracle decides. */
module LinkedList {
  import opened Wrappers
  import opened Text

  datatype Reply = Reply(status: int, body: string)

  // =====================================================================
  // AddHandler: the value parse
  // =====================================================================

  const CompactPrefix := "{\"value\":\""
  const CompactSuffix := "\"}"

  /** body.replace("{\"value\":\"", "").replace("\"}", "").replace("\"", "").trim() */
  function AddValue(body: string): (v: string)
    ensures !HasChar(v, '"')
    ensures |v| > 0 ==> !JavaTrimmable(v[0]) && !JavaTrimmable(v[|v| - 1])
  {
    var unquoted := ReplaceAll(ReplaceAll(ReplaceAll(body, CompactPrefix, ""), CompactSuffix, ""), "\"", "");
    RemoveCharRemovesAll(ReplaceAll(ReplaceAll(body, CompactPrefix, ""), CompactSuffix, ""), '"');
    TrimKeepsAbsentChar(unquoted, '"');
    Trim(unquoted, JavaBlank)
  }

  lemma TrimKeepsAbsentChar(s: string, c: char)
    requires !HasChar(s, c)
    ensures !HasChar(Trim(s, JavaBlank), c)
  {
    TrimSpec(s, JavaBlank);
    var r := Trim(s, JavaBlank);
    var a := |s| - |TrimStart(s, JavaBlank)|;
    forall i | 0 <= i < |r| ensures r[i] != c {
      assert r[i] == s[a + i];
    }
  }

  /** A pattern with a quote at index q cannot start in quote-free text at a
      position from which that quote would still fall inside the text. */
  lemma NoOccurrenceInQuoteFree(x: string, rest: string, pat: string, q: nat)
    requires !HasChar(x, '"')
    requires q < |pat| && pat[q] == '"'
    requires forall i :: 0 <= i < |x| && i + q >= |x| ==> !OccursAt(x + rest, pat, i)
    ensures forall i :: 0 <= i < |x| ==> !OccursAt(x + rest, pat, i)
  {
    forall i | 0 <= i < |x| && i + q < |x| ensures !OccursAt(x + rest, pat, i) {
      assert (x + rest)[i + q] == x[i + q];
    }
  }

  /** For a compact body {"value":"X"} with X free of quotes the stored value
      is X with Java's trim applied. */
  lemma AddValueOfCompactBody(x: string)
    requires !HasChar(x, '"')
    ensures AddValue(CompactPrefix + x + CompactSuffix) == Trim(x, JavaBlank)
  {
    var body := CompactPrefix + x + CompactSuffix;
    // First replace: the prefix at 0, then nothing inside x + "\"}".
    assert body[..|CompactPrefix|] == CompactPrefix;
    assert body[|CompactPrefix|..] == x + CompactSuffix;
    forall i | 0 <= i < |x| && i + 1 >= |x| ensures !OccursAt(x + CompactSuffix, CompactPrefix, i) {
      assert i == |x| - 1;
    }
    NoOccurrenceInQuoteFree(x, CompactSuffix, CompactPrefix, 1);
    ReplaceAllSkipsPrefix(x, CompactSuffix, CompactPrefix, "");
    assert ReplaceAll(body, CompactPrefix, "") == x + CompactSuffix;
    // Second replace: the suffix only at the end.
    NoOccurrenceInQuoteFree(x, CompactSuffix, CompactSuffix, 0);
    ReplaceAllSkipsPrefix(x, CompactSuffix, CompactSuffix, "");
    assert ReplaceAll(CompactSuffix, CompactSuffix, "") == "";
    assert x + "" == x;
    // Third replace: nothing left to remove.
    forall i | 0 <= i < |x| ensures !OccursAt(x, "\"", i) {
      assert x[i..i + 1] == [x[i]];
    }
    ReplaceAllNoOccurrence(x, "\"", "");
  }

  // =====================================================================
  // ListHandler: the JSON text
  // =====================================================================

  function Quote(v: string): string { "\"" + v + "\"" }

  function QuoteAll(items: seq<string>): (r: seq<string>)
    ensures |r| == |items|
    ensures forall i :: 0 <= i < |items| ==> r[i] == Quote(items[i])
  {
    if |items| == 0 then [] else QuoteAll(items[..|items| - 1]) + [Quote(items[|items| - 1])]
  }

  /** "[" + the quoted items joined by "," + "]". */
  function ListText(items: seq<string>): string
  {
    "[" + Join(QuoteAll(items), ",") + "]"
  }

  /** One more row extends the list text by a comma (unless it is the first) and the quoted row. */
  lemma ListJoinStep(items: seq<string>, i: nat)
    requires i < |items|
    ensures Join(QuoteAll(items[..i + 1]), ",")
         == (if i == 0 then "" else Join(QuoteAll(items[..i]), ",") + ",") + Quote(items[i])
  {
    var q := QuoteAll(items[..i + 1]);
    assert items[..i + 1][..i] == items[..i];
    assert q[..i] == QuoteAll(items[..i]);
    assert q[i] == Quote(items[i]);
    if i == 0 {
      assert Join(q, ",") == q[0];
    }
  }

  /** The StringBuilder loop: a comma before every item but the first. The
      result set delivers `delivered` rows before the connection or the read
      fails (all of them when it does not). */
  method BuildListText(items: seq<string>, delivered: nat) returns (json: string)
    ensures json == ListText(items[..if delivered < |items| then delivered else |items|])
  {
    var n := if delivered < |items| then delivered else |items|;
    json := "[";
    var first := true;
    var i := 0;
    while i < n
      invariant 0 <= i <= n
      invariant first <==> i == 0
      invariant json == "[" + Join(QuoteAll(items[..i]), ",")
    {
      ListJoinStep(items, i);
      ghost var acc := Join(QuoteAll(items[..i]), ",");
      ghost var sep := if first then "" else ",";
      if !first {
        json := json + ",";
      } else {
        assert json == "[" + acc + sep;
      }
      json := json + "\"" + items[i] + "\"";
      AppendQuoted(acc, sep, items[i]);
      assert acc + sep == if i == 0 then "" else acc + ",";
      first := false;
      i := i + 1;
    }
    json := json + "]";
  }

  lemma AppendQuoted(acc: string, sep: string, v: string)
    ensures "[" + acc + sep + "\"" + v + "\"" == "[" + (acc + sep + Quote(v))
  {
  }

  /** Reading quoted items back: `"a","b"` gives ["a", "b"]; the empty text
      gives []. Items may hold any character but a quote. */
  function ReadQuoted(t: string): Option<seq<string>>
    decreases |t|
  {
    if |t| == 0 then Some([])
    else if t[0] != '"' then None
    else
      match IndexOf(t, "\"", 1)
      case None => None
      case Some(close) =>
        var item := t[1..close];
        if close + 1 == |t| then Some([item])
        else if t[close + 1] != ',' || close + 2 == |t| then None
        else
          match ReadQuoted(t[close + 2..])
          case None => None
          case Some(rest) => Some([item] + rest)
  }

  predicate QuoteFree(items: seq<string>)
  {
    forall i :: 0 <= i < |items| ==> !HasChar(items[i], '"')
  }

  lemma JoinCons(items: seq<string>, sep: string)
    requires |items| >= 2
    ensures Join(items, sep) == items[0] + sep + Join(items[1..], sep)
    decreases |items|
  {
    var n := |items|;
    if n > 2 {
      JoinCons(items[..n - 1], sep);
      assert items[..n - 1][1..] == items[1..][..n - 2];
    }
  }

  /** In a text that starts with a quoted item, the closing quote is the first one after the opening. */
  lemma ReadQuotedItem(v: string, t: string)
    requires !HasChar(v, '"')
    requires |v| + 2 <= |t| && t[..|v| + 2] == Quote(v)
    ensures IndexOf(t, "\"", 1) == Some(|v| + 1)
  {
    var q := Quote(v);
    forall j | 1 <= j < |v| + 1 ensures !OccursAt(t, "\"", j) {
      assert t[j] == q[j] == v[j - 1];
      assert t[j..j + 1] == [t[j]];
    }
    assert t[|v| + 1] == q[|v| + 1] == '"';
    assert t[|v| + 1..|v| + 2] == "\"";
    IndexOfIs(t, "\"", 1, |v| + 1);
  }

  /** One quoted item, a comma, and a readable rest. */
  lemma ReadQuotedCons(v: string, rest: string, more: seq<string>)
    requires !HasChar(v, '"') && |rest| > 0
    requires ReadQuoted(rest) == Some(more)
    ensures ReadQuoted(Quote(v) + "," + rest) == Some([v] + more)
  {
    var q := Quote(v);
    var t := q + "," + rest;
    assert t[..|v| + 2] == q;
    ReadQuotedItem(v, t);
    var close := |v| + 1;
    assert t[1..close] == q[1..close] == v;
    assert t[close + 1] == ',';
    assert t[close + 2..] == rest;
  }

  lemma ReadQuotedOne(v: string)
    requires !HasChar(v, '"')
    ensures ReadQuoted(Quote(v)) == Some([v])
  {
    var t := Quote(v);
    assert t[..|v| + 2] == t;
    ReadQuotedItem(v, t);
    assert t[1..|v| + 1] == v;
  }

  /** The list text reads back as exactly the stored items. */
  lemma {:induction false} ReadQuotedJoin(items: seq<string>)
    requires QuoteFree(items)
    ensures ReadQuoted(Join(QuoteAll(items), ",")) == Some(items)
    decreases |items|
  {
    if |items| == 1 {
      ReadQuotedSingle(items);
    } else if |items| >= 2 {
      assert QuoteFree(items[1..]);
      ReadQuotedJoin(items[1..]);
      ReadQuotedStep(items);
    }
  }

  lemma ReadQuotedSingle(items: seq<string>)
    requires |items| == 1 && QuoteFree(items)
    ensures ReadQuoted(Join(QuoteAll(items), ",")) == Some(items)
  {
    ReadQuotedOne(items[0]);
    assert Join(QuoteAll(items), ",") == Quote(items[0]);
    assert [items[0]] == items;
  }

  /** One more item in front of a list text that reads back. */
  lemma ReadQuotedStep(items: seq<string>)
    requires |items| >= 2 && QuoteFree(items)
    requires ReadQuoted(Join(QuoteAll(items[1..]), ",")) == Some(items[1..])
    ensures ReadQuoted(Join(QuoteAll(items), ",")) == Some(items)
  {
    var rest := Join(QuoteAll(items[1..]), ",");
    JoinQuoteAllCons(items);
    JoinFirst(QuoteAll(items[1..]), ",");
    ReadQuotedCons(items[0], rest, items[1..]);
    assert [items[0]] + items[1..] == items;
  }

  /** The list text of two or more items is the first quoted item, a comma and the rest. */
  lemma JoinQuoteAllCons(items: seq<string>)
    requires |items| >= 2
    ensures Join(QuoteAll(items), ",") == Quote(items[0]) + "," + Join(QuoteAll(items[1..]), ",")
  {
    QuoteAllTail(items);
    JoinCons(QuoteAll(items), ",");
  }

  /** Quoting commutes with dropping the first item. */
  lemma QuoteAllTail(items: seq<string>)
    requires |items| > 0
    ensures QuoteAll(items)[0] == Quote(items[0])
    ensures QuoteAll(items)[1..] == QuoteAll(items[1..])
  {
    var q := QuoteAll(items);
    var t := QuoteAll(items[1..]);
    forall i | 0 <= i < |t|
      ensures q[1..][i] == t[i]
    {
      assert items[1..][i] == items[i + 1];
    }
  }

  lemma JoinFirst(items: seq<string>, sep: string)
    requires |items| > 0
    ensures |Join(items, sep)| >= |items[0]|
    decreases |items|
  {
    if |items| > 1 {
      JoinFirst(items[..|items| - 1], sep);
    }
  }

  // =====================================================================
  // Handlers
  // =====================================================================

  const MethodNotAllowed := "Method Not Allowed"
  const DbErrorBody := "{\"error\": \"DB Error\"}"
  const RemovedTailBody := "{\"status\": \"removed tail\"}"
  const RemovedHeadBody := "{\"status\": \"removed head\"}"
  const ListEmptyBody := "{\"status\": \"list empty\"}"

  function AddedBody(v: string): string
  {
    "{\"status\": \"added\", \"value\": \"" + v + "\"}"
  }

  /** A reply and the table afterwards. */
  datatype Served = Served(reply: Reply, items: seq<string>)

  /** GET /list (any method): always 200; the rows delivered before a
      failure are closed with "]". */
  function ListHandler(delivered: nat, items: seq<string>): (r: Served)
    ensures r.reply.status == 200 && r.items == items
    ensures delivered >= |items| ==> r.reply.body == ListText(items)
  {
    assert items[..|items|] == items;
    Served(Reply(200, ListText(items[..if delivered < |items| then delivered else |items|])), items)
  }

  function AddHandler(verb: string, body: string, dbOk: bool, items: seq<string>): (r: Served)
    ensures verb != "POST" ==> r == Served(Reply(405, MethodNotAllowed), items)
    ensures r.items != items ==> verb == "POST" && dbOk && r.items == items + [AddValue(body)]
    ensures verb == "POST" && dbOk ==> r == Served(Reply(200, AddedBody(AddValue(body))), items + [AddValue(body)])
    ensures verb == "POST" && !dbOk ==> r == Served(Reply(500, DbErrorBody), items)
  {
    if verb != "POST" then Served(Reply(405, MethodNotAllowed), items)
    else if !dbOk then Served(Reply(500, DbErrorBody), items)
    else
      var v := AddValue(body);
      Served(Reply(200, AddedBody(v)), items + [v])
  }

  /** POST /delete: drops the row with the highest id, the last item. */
  function RemoveTailHandler(verb: string, dbOk: bool, items: seq<string>): (r: Served)
    ensures verb != "POST" ==> r == Served(Reply(405, MethodNotAllowed), items)
    ensures verb == "POST" && dbOk && |items| > 0 ==> r == Served(Reply(200, RemovedTailBody), items[..|items| - 1])
    ensures verb == "POST" && dbOk && |items| == 0 ==> r == Served(Reply(200, ListEmptyBody), items)
    ensures verb == "POST" && !dbOk ==> r == Served(Reply(500, DbErrorBody), items)
  {
    if verb != "POST" then Served(Reply(405, MethodNotAllowed), items)
    else if !dbOk then Served(Reply(500, DbErrorBody), items)
    else if |items| == 0 then Served(Reply(200, ListEmptyBody), items)
    else Served(Reply(200, RemovedTailBody), items[..|items| - 1])
  }

  /** POST /remove-head: drops the row with the lowest id, the first item. */
  function RemoveHeadHandler(verb: string, dbOk: bool, items: seq<string>): (r: Served)
    ensures verb != "POST" ==> r == Served(Reply(405, MethodNotAllowed), items)
    ensures verb == "POST" && dbOk && |items| > 0 ==> r == Served(Reply(200, RemovedHeadBody), items[1..])
    ensures verb == "POST" && dbOk && |items| == 0 ==> r == Served(Reply(200, ListEmptyBody), items)
    ensures verb == "POST" && !dbOk ==> r == Served(Reply(500, DbErrorBody), items)
  {
    if verb != "POST" then Served(Reply(405, MethodNotAllowed), items)
    else if !dbOk then Served(Reply(500, DbErrorBody), items)
    else if |items| == 0 then Served(Reply(200, ListEmptyBody), items)
    else Served(Reply(200, RemovedHeadBody), items[1..])
  }

  /** What the database does for one request: whether its update succeeds and
      how many rows a listing delivers before failing. */
  datatype Db = Db(updateOk: bool, delivered: nat)

  /** The paths of the five contexts, in the order they are created. */
  const Contexts: seq<string> := ["/list", "/add", "/delete", "/remove-head", "/health"]

  /** HttpServer hands a request to the context whose path is the longest
      plain string prefix of the request path, so /listing reaches the /list
      handler and /add/x the /add handler; None is its "no context" 404. */
  function Serve(path: string, verb: string, body: string, db: Db, items: seq<string>): (r: Option<Served>)
    ensures r.None? <==> forall i :: 0 <= i < |Contexts| ==> !IsPrefixOf(Contexts[i], path)
    ensures r.Some? && r.value.items != items ==> verb == "POST" && db.updateOk
    ensures QuoteFree(items) && r.Some? ==> QuoteFree(r.value.items)
  {
    assert Contexts[0] == "/list" && Contexts[1] == "/add" && Contexts[2] == "/delete"
           && Contexts[3] == "/remove-head" && Contexts[4] == "/health";
    if IsPrefixOf("/list", path) then Some(ListHandler(db.delivered, items))
    else if IsPrefixOf("/add", path) then Some(AddHandler(verb, body, db.updateOk, items))
    else if IsPrefixOf("/delete", path) then Some(RemoveTailHandler(verb, db.updateOk, items))
    else if IsPrefixOf("/remove-head", path) then Some(RemoveHeadHandler(verb, db.updateOk, items))
    else if IsPrefixOf("/health", path) then Some(Served(Reply(200, "OK"), items))
    else None
  }

  /** No context path is a prefix of another, so a request path has at most
      one matching context and "longest" never has to choose. */
  lemma ContextsArePrefixFree()
    ensures forall i, j :: 0 <= i < |Contexts| && 0 <= j < |Contexts| && i != j ==> !IsPrefixOf(Contexts[i], Contexts[j])
  {
    forall i, j | 0 <= i < |Contexts| && 0 <= j < |Contexts| && i != j
      ensures !IsPrefixOf(Contexts[i], Contexts[j])
    {
      assert Contexts[i][1] != Contexts[j][1];
    }
  }

  /** Whatever follows a context path, the request reaches that context's
      handler: the exact path, a longer word and a sub-path alike. */
  lemma ServeByContext(path: string, verb: string, body: string, db: Db, items: seq<string>)
    ensures IsPrefixOf("/list", path) ==> Serve(path, verb, body, db, items) == Some(ListHandler(db.delivered, items))
    ensures IsPrefixOf("/add", path) ==> Serve(path, verb, body, db, items) == Some(AddHandler(verb, body, db.updateOk, items))
    ensures IsPrefixOf("/delete", path) ==> Serve(path, verb, body, db, items) == Some(RemoveTailHandler(verb, db.updateOk, items))
    ensures IsPrefixOf("/remove-head", path) ==> Serve(path, verb, body, db, items) == Some(RemoveHeadHandler(verb, db.updateOk, items))
    ensures IsPrefixOf("/health", path) ==> Serve(path, verb, body, db, items) == Some(Served(Reply(200, "OK"), items))
  {
    if |path| >= 2 {
      assert IsPrefixOf("/list", path) ==> path[1] == 'l';
      assert IsPrefixOf("/add", path) ==> path[1] == 'a';
      assert IsPrefixOf("/delete", path) ==> path[1] == 'd';
      assert IsPrefixOf("/remove-head", path) ==> path[1] == 'r';
    }
  }

  /** After an add, the listing ends with the value the reply echoed. */
  lemma AddThenList(body: string, items: seq<string>)
    requires QuoteFree(items)
    ensures var added := AddHandler("POST", body, true, items);
            && added.reply == Reply(200, AddedBody(AddValue(body)))
            && ReadQuoted(Inner(ListHandler(|added.items|, added.items).reply.body)) == Some(items + [AddValue(body)])
  {
    var after := items + [AddValue(body)];
    assert QuoteFree(after);
    assert after[..|after|] == after;
    ReadQuotedJoin(after);
    var t := ListText(after);
    assert Inner(t) == Join(QuoteAll(after), ",");
  }

  /** A listing interrupted after k rows still reads back: it is the first k items. */
  lemma InterruptedListReadsBack(items: seq<string>, k: nat)
    requires QuoteFree(items) && k <= |items|
    ensures ReadQuoted(Inner(ListHandler(k, items).reply.body)) == Some(items[..k])
  {
    assert QuoteFree(items[..k]);
    ReadQuotedJoin(items[..k]);
    assert Inner(ListText(items[..k])) == Join(QuoteAll(items[..k]), ",");
  }

  /** Removing the head and the tail of a list with at least two items
      leaves its middle, in either order. */
  lemma HeadTailCommute(items: seq<string>)
    requires |items| >= 2
    ensures RemoveTailHandler("POST", true, RemoveHeadHandler("POST", true, items).items).items
         == RemoveHeadHandler("POST", true, RemoveTailHandler("POST", true, items).items).items
         == items[1..|items| - 1]
  {
  }
}
