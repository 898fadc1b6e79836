/** The graph service: a Flask application keeping a directed graph of
    labelled nodes in two SQL tables, nodes(label) and edges(source, target).

    The database is abstract. The store is the two tables as sequences, in
    the order a SELECT returns them; whether a table rejects a duplicate row
    (what "ON CONFLICT DO NOTHING" does when a uniqueness constraint exists)
    is a parameter, because the table definitions are not part of the
    service. Each statement's fate (connection refused, query failed, or
    committed) is supplied by an oracle. */
module GraphService {
  import opened Wrappers
  import opened Text
  import opened JsonValue

  // ---------------------------------------------------------------------
  // Store, schema and the database oracle
  // ---------------------------------------------------------------------

  datatype Edge = Edge(source: string, target: string)

  datatype Store = Store(nodes: seq<string>, edges: seq<Edge>)

  /** Whether the tables carry a uniqueness constraint on the inserted row. */
  datatype Schema = Schema(uniqueLabels: bool, uniqueEdges: bool)

  /** What the database does with the statements of one request: the k-th
      write statement commits iff writeOk[k] (a missing entry is a refused
      connection), and each SELECT either returns the table or fails. */
  datatype Db = Db(writeOk: seq<bool>, nodesReadOk: bool, edgesReadOk: bool)

  /** The helper's result is truthy exactly when the statement committed;
      a refused connection (None) and a failed query (False) change nothing. */
  predicate Committed(db: Db, k: nat)
  {
    k < |db.writeOk| && db.writeOk[k]
  }

  /** Every edge's endpoints are nodes. */
  ghost predicate EdgesClosed(s: Store)
  {
    forall e :: e in s.edges ==> e.source in s.nodes && e.target in s.nodes
  }

  predicate Distinct<T(==)>(s: seq<T>)
  {
    forall i, j :: 0 <= i < j < |s| ==> s[i] != s[j]
  }

  /** INSERT ... ON CONFLICT DO NOTHING: the row is appended unless the table
      is unique and already holds it. */
  function Insert<T(==,!new)>(rows: seq<T>, x: T, unique: bool): (r: seq<T>)
    ensures x in r
    ensures forall y :: y in r <==> y in rows || y == x
    ensures |rows| <= |r| && r[..|rows|] == rows
    ensures !unique ==> multiset(r) == multiset(rows) + multiset{x}
  {
    if unique && x in rows then rows else rows + [x]
  }

  /** A unique table never acquires a duplicate row. */
  lemma InsertKeepsDistinct<T(!new)>(rows: seq<T>, x: T)
    requires Distinct(rows)
    ensures Distinct(Insert(rows, x, true))
  {
    if x !in rows {
      var r := rows + [x];
      forall i, j | 0 <= i < j < |r|
        ensures r[i] != r[j]
      {
        if j == |rows| {
          assert r[i] in rows;
        }
      }
    }
  }

  /** DELETE ... WHERE: the rows the condition matches go, the others stay in order. */
  function Filter<T(==,!new)>(s: seq<T>, keep: T -> bool): (r: seq<T>)
    ensures |r| <= |s|
    ensures forall x :: x in r <==> x in s && keep(x)
    ensures forall x :: keep(x) ==> multiset(r)[x] == multiset(s)[x]
  {
    if |s| == 0 then []
    else
      var rest := Filter(s[1..], keep);
      assert s == [s[0]] + s[1..];
      if keep(s[0]) then [s[0]] + rest else rest
  }

  /** Deleting nothing leaves the table as it was. */
  lemma {:induction false} FilterKeepsAll<T(!new)>(s: seq<T>, keep: T -> bool)
    requires forall x :: x in s ==> keep(x)
    ensures Filter(s, keep) == s
  {
    if |s| > 0 {
      assert s[0] in s;
      forall x | x in s[1..] ensures keep(x) { assert x in s; }
      FilterKeepsAll(s[1..], keep);
      assert s == [s[0]] + s[1..];
    }
  }

  // ---------------------------------------------------------------------
  // Label normalisation: str(label).strip().upper()
  // ---------------------------------------------------------------------

  predicate IsLowerAscii(c: char) { 'a' <= c <= 'z' }

  function UpperChar(c: char): (u: char)
    ensures !IsLowerAscii(u)
    ensures PyIsSpace(u) <==> PyIsSpace(c)
  {
    if IsLowerAscii(c) then (c as int - 32) as char else c
  }

  /** str.upper on the ASCII letters. */
  function UpperAscii(s: string): (r: string)
    ensures |r| == |s|
    ensures forall i :: 0 <= i < |r| ==> !IsLowerAscii(r[i])
    ensures forall i :: 0 <= i < |r| ==> r[i] == UpperChar(s[i])
  {
    seq(|s|, i requires 0 <= i < |s| => UpperChar(s[i]))
  }

  /** Python's str() of a truthy JSON scalar; containers are rendered with
      repr and dictionary key order, and finite floats with the shortest
      round-tripping digits, none of which the model carries. */
  function PyStr(j: Json): (r: Option<string>)
    ensures j.JStr? ==> r == Some(j.s)
    ensures j.JInt? ==> r == Some(IntToString(j.i))
    ensures r.None? <==> j.JArr? || j.JObj? || (j.JFloat? && j.f.Finite?)
  {
    match j
    case JNull => Some("None")
    case JBool(b) => Some(if b then "True" else "False")
    case JInt(i) => Some(IntToString(i))
    case JFloat(Finite(_, _)) => None
    case JFloat(Infinite(neg)) => Some(if neg then "-inf" else "inf")
    case JFloat(NaN) => Some("nan")
    case JStr(s) => Some(s)
    case JArr(_) => None
    case JObj(_) => None
  }

  /** str() of an infinity is "inf" or "-inf", and of NaN "nan". */
  lemma PyStrOfSpecialFloat(f: PyFloat)
    requires !f.Finite?
    ensures f.Infinite? ==> PyStr(JFloat(f)) == Some(if f.negative then "-inf" else "inf")
    ensures f.NaN? ==> PyStr(JFloat(f)) == Some("nan")
  {
  }

  function Normalize(s: string): (r: string)
    ensures |r| > 0 ==> !PyIsSpace(r[0]) && !PyIsSpace(r[|r| - 1])
    ensures forall i :: 0 <= i < |r| ==> !IsLowerAscii(r[i])
  {
    UpperAscii(Trim(s, PyWhitespace))
  }

  /** A stored label is already normal, so sending it back names the same node. */
  lemma NormalizeIdempotent(s: string)
    ensures Normalize(Normalize(s)) == Normalize(s)
  {
    var n := Normalize(s);
    TrimUntouched(n, PyWhitespace);
    assert UpperAscii(n) == n;
  }

  /** A label made only of whitespace passes the truthiness check and becomes "". */
  lemma BlankLabelBecomesEmpty(s: string)
    requires forall i :: 0 <= i < |s| ==> PyIsSpace(s[i])
    ensures Normalize(s) == ""
  {
    var t := Trim(s, PyWhitespace);
    TrimSpec(s, PyWhitespace);
  }

  // ---------------------------------------------------------------------
  // Replies
  // ---------------------------------------------------------------------

  /** Answer: the handler's own JSON reply. Rejected: Flask refuses a body
      that is not JSON before the handler looks at it. Crashed: the handler
      raised (data.get on a JSON body that is not an object), which Flask
      turns into a 500 page. Unmodelled: str() of an array or object label. */
  datatype Outcome = Answer(status: int, body: Json) | Rejected | Crashed | Unmodelled

  datatype Served = Served(outcome: Outcome, store: Store)

  function ErrorBody(message: string): Json { Field("error", JStr(message)) }

  /** get_current_state: the labels, then the edges as [source, target] pairs;
      a SELECT that fails contributes an empty list. */
  function StateJson(s: Store, db: Db): (j: Json)
    ensures j.JObj? && j.fields.Keys == {"nodes", "edges"}
    ensures j.fields["nodes"].JArr? && j.fields["edges"].JArr?
    ensures |j.fields["nodes"].items| == (if db.nodesReadOk then |s.nodes| else 0)
    ensures |j.fields["edges"].items| == (if db.edgesReadOk then |s.edges| else 0)
  {
    var nodes := if db.nodesReadOk then s.nodes else [];
    var edges := if db.edgesReadOk then s.edges else [];
    JObj(map[
      "nodes" := JArr(seq(|nodes|, i requires 0 <= i < |nodes| => JStr(nodes[i]))),
      "edges" := JArr(seq(|edges|, i requires 0 <= i < |edges| =>
                   JArr([JStr(edges[i].source), JStr(edges[i].target)])))])
  }

  function GraphReply(status: string, s: Store, db: Db): Json
  {
    JObj(map["status" := JStr(status), "graph" := StateJson(s, db)])
  }

  const DatabaseError := Answer(500, ErrorBody("Database error"))
  const LabelRequired := Answer(400, ErrorBody("Label is required"))
  const EndpointsRequired := Answer(400, ErrorBody("From and To are required"))

  // ---------------------------------------------------------------------
  // Reading a state reply back
  // ---------------------------------------------------------------------

  function ReadLabels(items: seq<Json>): Option<seq<string>>
  {
    if |items| == 0 then Some([])
    else
      match (items[0], ReadLabels(items[1..]))
      case (JStr(l), Some(rest)) => Some([l] + rest)
      case _ => None
  }

  function ReadEdges(items: seq<Json>): Option<seq<Edge>>
  {
    if |items| == 0 then Some([])
    else
      match (items[0], ReadEdges(items[1..]))
      case (JArr(pair), Some(rest)) =>
        if |pair| == 2 && pair[0].JStr? && pair[1].JStr?
        then Some([Edge(pair[0].s, pair[1].s)] + rest)
        else None
      case _ => None
  }

  /** What a client recovers from a {"nodes": ..., "edges": ...} reply. */
  function ReadState(j: Json): Option<Store>
  {
    if j.JObj? && "nodes" in j.fields && "edges" in j.fields
       && j.fields["nodes"].JArr? && j.fields["edges"].JArr?
    then
      match (ReadLabels(j.fields["nodes"].items), ReadEdges(j.fields["edges"].items))
      case (Some(nodes), Some(edges)) => Some(Store(nodes, edges))
      case _ => None
    else None
  }

  lemma {:induction false} ReadLabelsOf(nodes: seq<string>)
    ensures ReadLabels(seq(|nodes|, i requires 0 <= i < |nodes| => JStr(nodes[i]))) == Some(nodes)
  {
    var items := seq(|nodes|, i requires 0 <= i < |nodes| => JStr(nodes[i]));
    if |nodes| > 0 {
      var tail := seq(|nodes| - 1, i requires 0 <= i < |nodes| - 1 => JStr(nodes[1..][i]));
      assert items[1..] == tail;
      ReadLabelsOf(nodes[1..]);
      assert nodes == [nodes[0]] + nodes[1..];
    }
  }

  lemma {:induction false} ReadEdgesOf(edges: seq<Edge>)
    ensures ReadEdges(seq(|edges|, i requires 0 <= i < |edges| =>
              JArr([JStr(edges[i].source), JStr(edges[i].target)]))) == Some(edges)
  {
    var items := seq(|edges|, i requires 0 <= i < |edges| =>
                   JArr([JStr(edges[i].source), JStr(edges[i].target)]));
    if |edges| > 0 {
      var e := edges[1..];
      var tail := seq(|e|, i requires 0 <= i < |e| => JArr([JStr(e[i].source), JStr(e[i].target)]));
      assert items[1..] == tail;
      ReadEdgesOf(e);
      assert edges == [edges[0]] + e;
    }
  }

  /** The state reply carries the whole store when both SELECTs succeed. */
  lemma StateReadsBack(s: Store, db: Db)
    requires db.nodesReadOk && db.edgesReadOk
    ensures ReadState(StateJson(s, db)) == Some(s)
  {
    ReadLabelsOf(s.nodes);
    ReadEdgesOf(s.edges);
  }

  /** A failed SELECT reads back as an empty table. */
  lemma FailedReadsLookEmpty(s: Store, db: Db)
    requires !db.nodesReadOk && !db.edgesReadOk
    ensures ReadState(StateJson(s, db)) == Some(Store([], []))
  {
  }

  // ---------------------------------------------------------------------
  // Request fields
  // ---------------------------------------------------------------------

  /** data.get(key) on the decoded body; None when the body is not an object. */
  function Get(data: Json, key: string): Option<Json>
  {
    if !data.JObj? then None
    else if key in data.fields then Some(data.fields[key])
    else Some(JNull)
  }

  /** The normalised label of a truthy field value. */
  function LabelOf(v: Json): Option<string>
  {
    match PyStr(v)
    case Some(s) => Some(Normalize(s))
    case None => None
  }

  // ---------------------------------------------------------------------
  // Handlers
  // ---------------------------------------------------------------------

  /** GET /data. */
  function GetGraph(db: Db, s: Store): (r: Served)
    ensures r.store == s && r.outcome.Answer? && r.outcome.status == 200
    ensures ReadState(r.outcome.body) == Some(if db.nodesReadOk && db.edgesReadOk then s
                                              else Store(if db.nodesReadOk then s.nodes else [],
                                                         if db.edgesReadOk then s.edges else []))
  {
    var j := StateJson(s, db);
    ReadLabelsOf(if db.nodesReadOk then s.nodes else []);
    ReadEdgesOf(if db.edgesReadOk then s.edges else []);
    Served(Answer(200, j), s)
  }

  /** GET /. */
  function Health(s: Store): (r: Served)
    ensures r.store == s && r.outcome == Answer(200, Field("status", JStr("Graph Service Active")))
  {
    Served(Answer(200, Field("status", JStr("Graph Service Active"))), s)
  }

  /** POST /add-node: one INSERT into nodes. */
  function AddNode(body: Option<Json>, schema: Schema, db: Db, s: Store): (r: Served)
    ensures body.None? ==> r == Served(Rejected, s)
    ensures body.Some? && !body.value.JObj? ==> r == Served(Crashed, s)
    ensures (body.Some? && body.value.JObj? && !Truthy(Get(body.value, "label").value))
              ==> r == Served(LabelRequired, s)
    ensures r.store.edges == s.edges
    ensures r.store.nodes != s.nodes ==> Committed(db, 0)
    ensures r.outcome.Answer? && r.outcome.status == 200 ==>
              Committed(db, 0) &&
              (exists l :: LabelOf(Get(body.value, "label").value) == Some(l) &&
                 (forall x :: x in r.store.nodes <==> x in s.nodes || x == l))
    ensures r.outcome.Answer? && r.outcome.status == 500 ==> !Committed(db, 0) && r.store == s
    ensures r.outcome.Answer? && r.outcome.status == 200 <==>
              && body.Some? && body.value.JObj? && Truthy(Get(body.value, "label").value)
              && LabelOf(Get(body.value, "label").value).Some? && Committed(db, 0)
    ensures r.outcome.Answer? && r.outcome.status == 200 ==>
              && r.store.nodes == Insert(s.nodes, LabelOf(Get(body.value, "label").value).value, schema.uniqueLabels)
              && r.outcome.body == GraphReply("processed", r.store, db)
  {
    if body.None? then Served(Rejected, s)
    else if !body.value.JObj? then Served(Crashed, s)
    else
      var given := Get(body.value, "label").value;
      if !Truthy(given) then Served(LabelRequired, s)
      else match LabelOf(given)
        case None => Served(Unmodelled, s)
        case Some(l) =>
          if Committed(db, 0) then
            var after := Store(Insert(s.nodes, l, schema.uniqueLabels), s.edges);
            Served(Answer(200, GraphReply("processed", after, db)), after)
          else Served(DatabaseError, s)
  }

  /** The two endpoints of an edge request, if both are present and truthy. */
  function Endpoints(data: Json): Option<(Json, Json)>
    requires data.JObj?
  {
    var u := Get(data, "from").value;
    var v := Get(data, "to").value;
    if Truthy(u) && Truthy(v) then Some((u, v)) else None
  }

  /** POST /add-edge: INSERT both endpoints into nodes, ignoring the results,
      then INSERT the edge; the reply follows the third statement only. */
  function AddEdge(body: Option<Json>, schema: Schema, db: Db, s: Store): (r: Served)
    ensures body.None? ==> r == Served(Rejected, s)
    ensures body.Some? && !body.value.JObj? ==> r == Served(Crashed, s)
    ensures (body.Some? && body.value.JObj? && Endpoints(body.value).None?)
              ==> r == Served(EndpointsRequired, s)
    ensures r.outcome.Answer? && r.outcome.status == 200 <==>
              body.Some? && body.value.JObj? && Endpoints(body.value).Some?
              && LabelOf(Endpoints(body.value).value.0).Some?
              && LabelOf(Endpoints(body.value).value.1).Some? && Committed(db, 2)
    ensures r.outcome.Answer? && r.outcome.status == 200 ==>
              Edge(LabelOf(Endpoints(body.value).value.0).value,
                   LabelOf(Endpoints(body.value).value.1).value) in r.store.edges
    ensures !Committed(db, 2) ==> r.store.edges == s.edges
    ensures forall x :: x in s.nodes ==> x in r.store.nodes
    ensures forall e :: e in s.edges ==> e in r.store.edges
  {
    if body.None? then Served(Rejected, s)
    else if !body.value.JObj? then Served(Crashed, s)
    else match Endpoints(body.value)
      case None => Served(EndpointsRequired, s)
      case Some((uj, vj)) =>
        match (LabelOf(uj), LabelOf(vj))
        case (Some(u), Some(v)) => InsertEdge(u, v, schema, db, s)
        case _ => Served(Unmodelled, s)
  }

  /** The three statements of add-edge on normalised labels: the two node
      inserts, whose results are ignored, and the edge insert, which decides
      the reply. */
  function InsertEdge(u: string, v: string, schema: Schema, db: Db, s: Store): Served
  {
    var n1 := if Committed(db, 0) then Insert(s.nodes, u, schema.uniqueLabels) else s.nodes;
    var n2 := if Committed(db, 1) then Insert(n1, v, schema.uniqueLabels) else n1;
    if Committed(db, 2) then
      var after := Store(n2, Insert(s.edges, Edge(u, v), schema.uniqueEdges));
      Served(Answer(200, GraphReply("processed", after, db)), after)
    else Served(DatabaseError, Store(n2, s.edges))
  }

  /** POST /delete-node: DELETE the edges touching the label, ignoring the
      result, then DELETE the node; the reply follows the second statement. */
  function DeleteNode(body: Option<Json>, db: Db, s: Store): (r: Served)
    ensures body.None? ==> r == Served(Rejected, s)
    ensures body.Some? && !body.value.JObj? ==> r == Served(Crashed, s)
    ensures (body.Some? && body.value.JObj? && !Truthy(Get(body.value, "label").value))
              ==> r == Served(LabelRequired, s)
    ensures r.outcome.Answer? && r.outcome.status == 200 <==>
              body.Some? && body.value.JObj? && Truthy(Get(body.value, "label").value)
              && LabelOf(Get(body.value, "label").value).Some? && Committed(db, 1)
    ensures r.outcome.Answer? && r.outcome.status == 200 ==>
              var l := LabelOf(Get(body.value, "label").value).value;
              (forall x :: x in r.store.nodes <==> x in s.nodes && x != l)
              && (Committed(db, 0) ==>
                    forall e :: e in r.store.edges <==> e in s.edges && e.source != l && e.target != l)
    ensures forall x :: x in r.store.nodes ==> x in s.nodes
    ensures forall e :: e in r.store.edges ==> e in s.edges
  {
    if body.None? then Served(Rejected, s)
    else if !body.value.JObj? then Served(Crashed, s)
    else
      var given := Get(body.value, "label").value;
      if !Truthy(given) then Served(LabelRequired, s)
      else match LabelOf(given)
        case None => Served(Unmodelled, s)
        case Some(l) =>
          var edges := if Committed(db, 0) then Filter(s.edges, (e: Edge) => e.source != l && e.target != l)
                       else s.edges;
          if Committed(db, 1) then
            var after := Store(Filter(s.nodes, (x: string) => x != l), edges);
            Served(Answer(200, GraphReply("deleted", after, db)), after)
          else Served(DatabaseError, Store(s.nodes, edges))
  }

  /** POST /delete-edge: one DELETE of the rows equal to (from, to). */
  function DeleteEdge(body: Option<Json>, db: Db, s: Store): (r: Served)
    ensures body.None? ==> r == Served(Rejected, s)
    ensures body.Some? && !body.value.JObj? ==> r == Served(Crashed, s)
    ensures (body.Some? && body.value.JObj? && Endpoints(body.value).None?)
              ==> r == Served(EndpointsRequired, s)
    ensures r.store.nodes == s.nodes
    ensures r.outcome.Answer? && r.outcome.status == 200 <==>
              body.Some? && body.value.JObj? && Endpoints(body.value).Some?
              && LabelOf(Endpoints(body.value).value.0).Some?
              && LabelOf(Endpoints(body.value).value.1).Some? && Committed(db, 0)
    ensures r.outcome.Answer? && r.outcome.status == 200 ==>
              var gone := Edge(LabelOf(Endpoints(body.value).value.0).value,
                               LabelOf(Endpoints(body.value).value.1).value);
              forall e :: e in r.store.edges <==> e in s.edges && e != gone
    ensures r.store != s ==> r.outcome.Answer? && r.outcome.status == 200
  {
    if body.None? then Served(Rejected, s)
    else if !body.value.JObj? then Served(Crashed, s)
    else match Endpoints(body.value)
      case None => Served(EndpointsRequired, s)
      case Some((uj, vj)) =>
        match (LabelOf(uj), LabelOf(vj))
        case (Some(u), Some(v)) =>
          if Committed(db, 0) then
            var after := Store(s.nodes, Filter(s.edges, (e: Edge) => e != Edge(u, v)));
            Served(Answer(200, GraphReply("edge_deleted", after, db)), after)
          else Served(DatabaseError, s)
        case _ => Served(Unmodelled, s)
  }

  /** The reply of a successful clear: a literal empty graph, not a SELECT. */
  function ClearedBody(): Json
  {
    JObj(map["status" := JStr("cleared"),
             "graph" := JObj(map["nodes" := JArr([]), "edges" := JArr([])])])
  }

  /** POST /clear: DELETE every edge, ignoring the result, then every node. */
  function Clear(db: Db, s: Store): (r: Served)
    ensures Committed(db, 0) ==> r.store.edges == []
    ensures !Committed(db, 0) ==> r.store.edges == s.edges
    ensures Committed(db, 1) <==> r.outcome == Answer(200, ClearedBody())
    ensures Committed(db, 1) ==> r.store.nodes == []
    ensures !Committed(db, 1) ==> r.store.nodes == s.nodes && r.outcome == DatabaseError
  {
    var edges := if Committed(db, 0) then [] else s.edges;
    if Committed(db, 1) then Served(Answer(200, ClearedBody()), Store([], edges))
    else Served(DatabaseError, Store(s.nodes, edges))
  }

  // ---------------------------------------------------------------------
  // Properties across handlers
  // ---------------------------------------------------------------------

  /** A missing or falsy label is refused by both label handlers, and nothing changes. */
  lemma LabelChecks(fields: map<string, Json>, schema: Schema, db: Db, s: Store)
    requires "label" !in fields || !Truthy(fields["label"])
    ensures AddNode(Some(JObj(fields)), schema, db, s) == Served(LabelRequired, s)
    ensures DeleteNode(Some(JObj(fields)), db, s) == Served(LabelRequired, s)
  {
  }

  /** Add-node adds a node: a committed insert of a non-empty string label
      answers 200 with the new state, and the normalised label is stored. */
  lemma AddNodeStoresLabel(given: string, schema: Schema, db: Db, s: Store)
    requires |given| > 0 && Committed(db, 0)
    ensures var r := AddNode(Some(Field("label", JStr(given))), schema, db, s);
            && r.outcome == Answer(200, GraphReply("processed", r.store, db))
            && Normalize(given) in r.store.nodes
            && r.store == Store(Insert(s.nodes, Normalize(given), schema.uniqueLabels), s.edges)
  {
  }

  /** A label of spaces is accepted and stored as the empty label. */
  lemma BlankLabelIsStored(ws: string, schema: Schema, db: Db, s: Store)
    requires |ws| > 0 && forall i :: 0 <= i < |ws| ==> PyIsSpace(ws[i])
    requires Committed(db, 0)
    ensures AddNode(Some(Field("label", JStr(ws))), schema, db, s).store.nodes
            == Insert(s.nodes, "", schema.uniqueLabels)
  {
    BlankLabelBecomesEmpty(ws);
  }

  /** When all three statements of add-edge commit, a closed graph stays closed. */
  lemma AddEdgeKeepsClosed(body: Json, schema: Schema, db: Db, s: Store)
    requires EdgesClosed(s)
    requires Committed(db, 0) && Committed(db, 1) && Committed(db, 2)
    ensures EdgesClosed(AddEdge(Some(body), schema, db, s).store)
  {
  }

  /** The endpoint inserts' results are ignored: when the insert of the source
      node fails and the edge insert commits, the reply is still 200 and the
      new edge's source is not a node. */
  lemma AddEdgeCanDangle(body: Json, schema: Schema, db: Db, s: Store, uj: Json, vj: Json, u: string, v: string)
    requires body.JObj? && Endpoints(body) == Some((uj, vj))
    requires LabelOf(uj) == Some(u) && LabelOf(vj) == Some(v) && u != v
    requires !Committed(db, 0) && Committed(db, 2) && u !in s.nodes
    ensures var r := AddEdge(Some(body), schema, db, s);
            r.outcome.Answer? && r.outcome.status == 200 && !EdgesClosed(r.store)
  {
    var after := AddEdgeOfLabels(body, schema, db, s, uj, vj, u, v);
    assert u !in after.nodes && Edge(u, v) in after.edges;
  }

  /** A committed edge insert: the nodes gain each endpoint whose own insert
      committed, and the edge is inserted. */
  lemma AddEdgeOfLabels(body: Json, schema: Schema, db: Db, s: Store, uj: Json, vj: Json, u: string, v: string)
    returns (after: Store)
    requires body.JObj? && Endpoints(body) == Some((uj, vj))
    requires LabelOf(uj) == Some(u) && LabelOf(vj) == Some(v) && Committed(db, 2)
    ensures AddEdge(Some(body), schema, db, s).store == after
    ensures after.edges == Insert(s.edges, Edge(u, v), schema.uniqueEdges)
    ensures forall x :: x in after.nodes <==> x in s.nodes || (Committed(db, 0) && x == u) || (Committed(db, 1) && x == v)
  {
    AddEdgeOfEndpoints(body, schema, db, s, uj, vj, u, v);
    var n1 := if Committed(db, 0) then Insert(s.nodes, u, schema.uniqueLabels) else s.nodes;
    var n2 := if Committed(db, 1) then Insert(n1, v, schema.uniqueLabels) else n1;
    after := Store(n2, Insert(s.edges, Edge(u, v), schema.uniqueEdges));
  }

  lemma AddEdgeOfEndpoints(body: Json, schema: Schema, db: Db, s: Store, uj: Json, vj: Json, u: string, v: string)
    requires body.JObj? && Endpoints(body) == Some((uj, vj))
    requires LabelOf(uj) == Some(u) && LabelOf(vj) == Some(v)
    ensures AddEdge(Some(body), schema, db, s) == InsertEdge(u, v, schema, db, s)
  {
  }

  /** When both statements of delete-node commit, no edge touches the label,
      the node is gone, and everything else stays. */
  lemma DeleteNodeCascades(body: Json, db: Db, s: Store, l: string)
    requires body.JObj? && Truthy(Get(body, "label").value)
    requires LabelOf(Get(body, "label").value) == Some(l)
    requires Committed(db, 0) && Committed(db, 1)
    ensures var r := DeleteNode(Some(body), db, s).store;
            l !in r.nodes
            && (forall e :: e in r.edges ==> e.source != l && e.target != l)
            && (forall x :: x != l ==> multiset(r.nodes)[x] == multiset(s.nodes)[x])
            && (forall e: Edge :: e.source != l && e.target != l ==>
                  multiset(r.edges)[e] == multiset(s.edges)[e])
  {
  }

  lemma DeleteNodeKeepsClosed(body: Json, db: Db, s: Store)
    requires EdgesClosed(s)
    requires Committed(db, 0) && Committed(db, 1)
    ensures EdgesClosed(DeleteNode(Some(body), db, s).store)
  {
  }

  /** delete-edge is directional: the reverse edge survives. */
  lemma DeleteEdgeIsDirected(u: string, v: string, db: Db, s: Store)
    requires Normalize(u) != Normalize(v) && |u| > 0 && |v| > 0
    requires Edge(Normalize(v), Normalize(u)) in s.edges
    ensures Edge(Normalize(v), Normalize(u))
            in DeleteEdge(Some(JObj(map["from" := JStr(u), "to" := JStr(v)])), db, s).store.edges
  {
    var data := JObj(map["from" := JStr(u), "to" := JStr(v)]);
    assert Get(data, "from") == Some(JStr(u));
    assert Get(data, "to") == Some(JStr(v));
  }

  /** When both deletes commit, clear leaves an empty graph, which is what it reports. */
  lemma ClearEmpties(db: Db, s: Store)
    requires Committed(db, 0) && Committed(db, 1)
    ensures Clear(db, s).store == Store([], [])
    ensures ReadState(Clear(db, s).outcome.body.fields["graph"]) == Some(Clear(db, s).store)
  {
  }

  /** clear reports an empty graph even when the edge delete did not commit. */
  lemma ClearReportsEmptyRegardless(db: Db, s: Store)
    requires !Committed(db, 0) && Committed(db, 1) && |s.edges| > 0
    ensures Clear(db, s).outcome.Answer? && Clear(db, s).outcome.status == 200
    ensures ReadState(Clear(db, s).outcome.body.fields["graph"]) == Some(Store([], []))
    ensures Clear(db, s).store.edges == s.edges
  {
  }
}
