# A verified model of the data-structure microservices

The system is a small set of web services behind one gateway, together with a
deployment driver:

- **Gateway** (`backend/app.py`). A Flask application that publishes thirteen
  routes. It validates `/stack/push` itself and forwards every other request
  to one of three upstream services. Each upstream call is retried with
  exponential backoff. Upstream replies pass through with their status, and
  transport failures become 503 or 504.
- **Stack service** (`stack/stack_server.c`). A C server with hand-written
  HTTP and JSON parsing over a PostgreSQL table used as a LIFO stack. It
  handles push, pop, the listing and health.
- **Linked-list service** (`linkedlist/LinkedListService.java`). A Java HTTP
  server over a table read in id order. It appends at the tail, removes the
  head or the tail, and lists the values as a JSON array of strings.
- **Graph service** (`graph/graph_service.py`). A Flask application over two
  tables, `nodes(label)` and `edges(source, target)`. Labels are normalised
  to upper case and every mutation replies with the whole graph.
- **Deployment driver** (`driver/manager.py`). The parts of it that compute
  something:
  - it reads `.env` into database credentials;
  - it reads `minikube docker-env` output into the environment of later
    commands;
  - it polls `kubectl get pods` until the system is up.

The model is pure Dafny. Each database is a value: a sequence of rows in the
order a SELECT returns them. An oracle says whether each statement commits.
The network becomes a script of per-attempt results. Sleeps become a trace of
requested delays. Command output arrives as parameters.

Files:

- `wrappers.dfy`: `Option`.
- `text.dfy`: the string primitives, with their specifications. They cover
  digit rendering, substring search, the three whitespace notions in play
  (C `isspace`, Python `str.strip`, Java `String.trim`), replace-all, join
  and split.
- `json.dfy`: JSON values and Python truthiness.
- `gateway.dfy`, `stack_server.dfy`, `linked_list.dfy`, `graph_service.dfy`,
  `driver.dfy`: one module per service, as listed above.
- `end_to_end.dfy`: follows a pushed value from the gateway into the stack
  service.

## Model

| member | source | states |
|---|---|---|
| Gateway.MustEnv | backend/app.py:17-22 | A missing or empty variable ends the process with status 1. Otherwise the URL is the value with its trailing '/' characters removed: a prefix of the value, not ending in '/', and only '/' was cut. |
| Gateway.LoadConfig | backend/app.py:25-32 | Start-up succeeds only if all three upstream URLs are set and non-empty and float() accepts the timeout and the base sleep. Each stored URL is its variable with exactly the trailing '/' characters cut. When those hold: without UPSTREAM_RETRY_ATTEMPTS the attempt count is 3; with it, start-up succeeds iff int() accepts the value, and the count is that value. Every failure exits with status 1. |
| Gateway.LoadConfigReadsBack | backend/app.py:17-32 | Start-up reads its environment back: URLs without a trailing '/' are stored unchanged, and a written-out attempt count is the count used. |
| Gateway.ParsePyIntOfIntToString | backend/app.py:137-140 | Python's int() reads back the decimal text of every integer, negative ones included. |
| Gateway.DropUnderscores | backend/app.py:137-140 | Removing the digit-group underscores int() allows leaves only digits, and leaves a plain digit string unchanged. |
| Gateway.JsonError | backend/app.py:49-52 | The error reply has the given status. Its keys are "error" plus the extra keys. Every extra key keeps its value, and "error" holds the message unless an extra key overrides it. |
| Gateway.GetJsonSilent | backend/app.py:55-56 | The body is the decoded JSON when it is present and truthy. An absent, invalid or falsy body (null, false, 0, 0.0, "", [], {}) gives {}. |
| Gateway.PyInt | backend/app.py:139 | int() of a finite float is its whole part, truncated toward zero. Of an infinity it raises OverflowError, and only there. Of null, an array or an object it raises TypeError. A string converts iff it is an integer literal. |
| Gateway.UpstreamJsonOrText | backend/app.py:76-83 | The flag is true exactly when the upstream body decodes. Otherwise the payload is {"upstream_raw": text}. |
| Gateway.ProxyUpstreamErrorIfAny | backend/app.py:86-94 | An upstream reply is handed back at once exactly when its status is 400 or more. |
| Gateway.RetryLoop | backend/app.py:59-73 | The loop returns the first response. Every earlier attempt raised, and a response exists iff some remaining attempt answers. Otherwise all attempts are made and the last exception is re-raised. Attempt k is followed by a sleep of base*2^(k-1) for every failed attempt. |
| Gateway.WithRetry | backend/app.py:59-73 | At most UPSTREAM_RETRY_ATTEMPTS calls are made, and none when the count is 0 or less. A response is received iff one of the allowed attempts answers. Exhaustion re-raises the last attempt's exception. The sleeps double from the base, one after every failure, the final one included. |
| Gateway.DoublingSum | backend/app.py:66 | A trace of sleeps base*2^(k-1) for k = 1..n sums to base*(2^n - 1). |
| Gateway.RetrySleepTotal | backend/app.py:59-73 | Whatever the outcome, a retry run that slept n times slept base*(2^n - 1) in total. |
| Gateway.AllFailuresSleepTotal | backend/app.py:59-73 | When all N attempts fail, the loop makes N calls and sleeps N times for base*(2^N - 1) in total. It then raises the N-th exception. |
| Gateway.RetryThenSucceed | backend/app.py:59-73 | When only the last allowed attempt answers, every allowed call is made, there is one sleep fewer than calls, and that response is returned. |
| Gateway.Respond | backend/app.py:149-159 | A response passes through with its own status and its decoded or wrapped body, whether it is below 400 or not. A final timeout gives 504 "<Service> service timeout". Any other transport error gives 503 with the exception text under "details". The assertion of a loop that made no call gives the framework's 500. |
| Gateway.RouteIsInterfaceTable | backend/app.py:100-385 | A (method, path) pair is routed iff it is a row of the thirteen-row interface table. It reaches exactly the upstream service and path the row lists, with the same method. /health is answered locally. |
| Gateway.InterfaceTableIsAFunction | backend/app.py:100-385 | The table has thirteen rows and no (method, path) pair appears twice. |
| Gateway.RouteServiceFollowsPrefix | backend/app.py:100-385 | The first path segment (/stack/, /list/, /graph/) selects the upstream service. |
| Gateway.Handle | backend/app.py:100-385 | A request makes no upstream call unless it is forwarded. It never makes more calls than the configured attempt count allows. |
| Gateway.HealthIsLocal | backend/app.py:100-102 | GET /health answers 200 {"status": "ok"} without any upstream call, whatever the upstreams do. |
| Gateway.RoutingMissIsLocal | backend/app.py:100-385 | A pair outside the table makes no upstream call. Its path used with the other method gets the framework's 405, and a path no rule has gets 404. |
| Gateway.PushValidationIsLocal | backend/app.py:131-140 | A push body with no "value", or one whose int() raises TypeError or ValueError, gets a 400 with an "error" field and no upstream call. |
| Gateway.PushOfInfinityIsFrameworkError | backend/app.py:137-140 | A value of plus or minus infinity (1e400 in the JSON) raises an OverflowError the handler does not catch. The reply is the framework's 500 and no call is made. |
| Gateway.PushOfFloatTruncates | backend/app.py:137-147 | A float value such as 5.7 passes the check, and its whole part (5) is what is sent upstream. |
| Gateway.PushWithoutValueIs400 | backend/app.py:133-135 | An absent, invalid or empty body, or an object without "value", gets exactly the "provide JSON body with integer field 'value'" error. |
| Gateway.PushForwardsExactValue | backend/app.py:137-147 | A push whose value int() accepts sends exactly {"value": int(value)} to STACK_URL/push. |
| Gateway.PassThrough | backend/app.py:149-154 | When the first k attempts raise and attempt k+1 answers, every forwarded route makes k+1 calls. It replies with that response's status and body. |
| Gateway.FailureClassification | backend/app.py:156-159 | When every attempt fails, all of them are made, and the last exception alone decides the reply: 504 for a timeout, 503 with its text as details otherwise. |
| Gateway.NoAttemptsIsAssertionFailure | backend/app.py:59-73 | With an attempt count of 0 or less a forwarded route makes no call, and the loop's assertion escapes as a 500. |
| StackServer.CStr | stack/stack_server.c:142-145 | What the string functions see of the read buffer is its longest NUL-free prefix. A shorter result stops at a NUL. |
| StackServer.StatusText | stack/stack_server.c:16-20 | Every status line is three digits and a space before the reason phrase. Any status other than 200, 400 and 404 is reported as "500 Internal Server Error". |
| StackServer.StatusTextLeadsWithCode | stack/stack_server.c:16-18 | 200, 400 and 404 each lead their status line with their own decimal digits. |
| StackServer.StatusTextSeparates | stack/stack_server.c:16-20 | The four status lines are pairwise distinct. |
| StackServer.FormatResponse | stack/stack_server.c:15-41 | A reply is sent as formatted iff the formatted text fits the buffer. It then starts with the status line, and "Content-Length: strlen(body)", a blank line and the body end it. A text that does not fit is cut by snprintf while write() still sends the full length, so no well-defined reply exists. |
| StackServer.ReplyFits | stack/stack_server.c:15-41 | A body that leaves 256 characters of the buffer free always fits, headers included. |
| StackServer.ParseRequestLine | stack/stack_server.c:43-61 | A parsed line starts with "method SP path SP". Neither part is empty or holds a space. The method is under 16 bytes and the path under 256. |
| StackServer.ParseRequestLineComplete | stack/stack_server.c:43-61 | Every line of that shape parses to exactly that method and path, so the parser accepts exactly those lines. |
| StackServer.AtoiOfNatToString | stack/stack_server.c:82-84 | atoi reads back a rendered natural number that is followed by a non-digit. |
| StackServer.KeyLineFrom | stack/stack_server.c:65-90 | The loop from a line start steps from line start to line start. It finds nothing exactly when no line start from there on holds "Content-Length:". Otherwise it finds the first line start that does. |
| StackServer.ScanFrom | stack/stack_server.c:65-90 | The scan visits only line starts. Without a "Content-Length:" line from there on it gives 0. Otherwise it gives atoi of the text after the first such line's key. |
| StackServer.HeaderContentLength | stack/stack_server.c:63-91 | The result is atoi of the text after the first line-starting "Content-Length:". Letters match in either case. With no such line the result is 0. |
| StackServer.SkipSpace | stack/stack_server.c:101 | The skip stops at the first non-space at or after the start, and everything skipped is space. |
| StackServer.Int32 | stack/stack_server.c:116 | The conversion to int lands in the 32-bit range and keeps every value already in it. |
| StackServer.ParseNumber | stack/stack_server.c:106-117 | A number is found iff the text starts with a digit, or with '-' and a digit. The value is in the 32-bit range. |
| StackServer.ExtractValue | stack/stack_server.c:93-118 | A body without "value" in quotes has no value, and a found value is in the 32-bit range. |
| StackServer.NumberStartOfShape | stack/stack_server.c:101-104 | After the key, white space, ':' and white space are skipped exactly. The number starts right after them. |
| StackServer.ParseNumberOfShape | stack/stack_server.c:106-117 | An optional '-', a digit run and a non-digit give the signed digit value wrapped to 32 bits. |
| StackServer.ExtractValueOfShape | stack/stack_server.c:93-118 | A body whose first key is followed by `ws : ws [-]digits tail` yields the signed value of the digits, wrapped to 32 bits. |
| StackServer.ExtractValueHasShape | stack/stack_server.c:93-118 | Conversely, a value is found only in a body of that shape, and it is the signed value of the digits there. |
| StackServer.ExtractValueRejectsQuoted | stack/stack_server.c:106-109 | A quoted number such as {"value": "5"} is rejected. |
| StackServer.ExtractValueOnlyFirstOccurrence | stack/stack_server.c:97-102 | When the first key is followed by neither space nor ':', the lookup fails, whatever later occurrences hold. |
| StackServer.PrefixOfFlattenGrows | stack/stack_server.c:122-126 | The buffer only grows by appending: what was read before is a prefix of what is read later. |
| StackServer.ReadFullRequest | stack/stack_server.c:120-139 | The buffer is the concatenation of the chunks taken, cut at the buffer capacity. The loop stops at the first chunk after which the headers and Content-Length bytes have arrived, at a failed read, or when the buffer is full, and never before. The result is true iff something was read. |
| StackServer.FitCount | stack/stack_server.c:244-250 | The corrected listing shows the longest prefix of rows that each pass the corrected space check when reached. That check counts the separator and keeps room for the reply headers. |
| StackServer.BuildStackBody | stack/stack_server.c:240-251 | The corrected builder writes "[" + the fitting rows joined by "," + "]". The reply carrying it fits send_response's buffer, and it stops only at a row that does not fit. |
| StackServer.AsWrittenRows | stack/stack_server.c:244-250 | The loop as written: after k rows the text is "[", the rows joined by ",", and one more "," if k is neither 0 nor the row count. It stops only at a row that does not fit. |
| StackServer.AsWrittenCutLeavesEmptyItem | stack/stack_server.c:244-251 | As written, a listing cut after some rows but before the last ends in ",]". Read back, it has an empty last item. |
| StackServer.AsWrittenCounterexample | stack/stack_server.c:244-251 | Six thousand rows of -2147483648 make the loop as written end its body with ",]". The reply carrying it overflows send_response's buffer. |
| StackServer.AsWrittenShowsAll | stack/stack_server.c:244-250 | The loop as written reaches the last row iff its space check passes at every row. |
| StackServer.AsWrittenUncut | stack/stack_server.c:240-251 | A listing the loop as written does not cut is exactly "[" + the rows joined by "," + "]". |
| StackServer.AsWrittenCutOverflowsReply | stack/stack_server.c:244-251 | When the loop as written cuts a listing of short rows, the reply is longer than send_response's buffer. |
| StackServer.StackBodyAgrees | stack/stack_server.c:240-251 | When the corrected builder shows every row, both builders produce the same full array. |
| StackServer.StackBodyItems | stack/stack_server.c:240-251 | The corrected builder's array reads back as exactly the rows shown. |
| StackServer.BodyOf | stack/stack_server.c:160-161 | The body is the text after the first "\r\n\r\n", with no earlier occurrence, or "" when the request has none. |
| StackServer.ParseRequest | stack/stack_server.c:149-161 | A request is recognised iff its request line parses, and then it has that method and path. |
| StackServer.NewestFirstPush | stack/stack_server.c:231 | The listing is ordered newest first: after a push the new value's "%d" text is the head row and the earlier rows follow unchanged. |
| StackServer.OptionsAnswersOk | stack/stack_server.c:155-158 | OPTIONS on any path is answered 200 {"status":"ok"} with no change. |
| StackServer.HealthIgnoresDb | stack/stack_server.c:163-166 | GET /health is answered 200 whether or not the database is reachable. |
| StackServer.NoConnectionIs500 | stack/stack_server.c:168-172 | Every other request, unknown routes included, gets 500 "DB connection failed" when there is no connection. |
| StackServer.UnknownRouteIs404 | stack/stack_server.c:259-260 | With a connection, a request matching none of the routes gets 404 "Route Not Found" and changes nothing. |
| StackServer.Dispatch | stack/stack_server.c:155-260 | Every reply is 200, 400, 404 or 500. The stack is unchanged, loses its top with a "popped" reply carrying that value, or gains exactly one value with a "pushed" reply. Only a POST with a working connection and query changes it, and values stay in the 32-bit range. |
| StackServer.HandleClient | stack/stack_server.c:141-261 | No reply is sent iff nothing was read. A request line that does not parse gets 400 "Bad Request". Only a successful query changes the stack, and 32-bit values stay 32-bit. |
| StackServer.CutListingOverflowsReply | stack/stack_server.c:230-256 | GET /stack answers with the listing as the loop writes it. When the loop cuts the listing, its reply does not fit send_response's buffer. |
| StackServer.PushThenPop | stack/stack_server.c:177-228 | A push of v followed by a pop returns v in the reply and restores the stack (last in, first out). |
| StackServer.PopEmpty | stack/stack_server.c:209-227 | Popping an empty stack, or when the query fails, reports "stack empty" and changes nothing. |
| StackServer.PushWithoutIntegerIs400 | stack/stack_server.c:177-183 | A push body without an integer "value" gets 400 and the stack is not written. |
| StackServer.ListingReadsBack | stack/stack_server.c:230-256 | When the loop writes every row and the reply fits, GET /stack answers 200 with the array of all stored values, newest first. An empty stack gives "[]". Otherwise there is one item per value, and each parses back to it. |
| StackServer.StackItemsReadBack | stack/stack_server.c:240-251 | For a non-empty stack, the full listing has one item per stored value, and each parses back to the value at that position, newest first. |
| StackServer.ParseNumberOfIntToString | stack/stack_server.c:106-117 | The number parser reads back every 32-bit value in "%d" form. |
| LinkedList.AddValue | linkedlist/LinkedListService.java:68 | The stored value contains no quote character and has no leading or trailing character that trim() removes. |
| LinkedList.AddValueOfCompactBody | linkedlist/LinkedListService.java:67-68 | For a body {"value":"X"} with X free of quotes, the stored value is X trimmed. |
| LinkedList.QuoteAll | linkedlist/LinkedListService.java:47 | Each item is quoted in place: the same count, and item i becomes "\"" + item + "\"". |
| LinkedList.BuildListText | linkedlist/LinkedListService.java:38-53 | The builder loop produces "[" + the delivered rows quoted and joined by "," + "]", whether or not the result set fails part-way. |
| LinkedList.ReadQuotedJoin | linkedlist/LinkedListService.java:44-49 | The joined quoted items read back as exactly the items, when no item contains a quote. |
| LinkedList.ListHandler | linkedlist/LinkedListService.java:35-57 | The listing is always 200 and never changes the table. With every row delivered it is the full list text. |
| LinkedList.AddHandler | linkedlist/LinkedListService.java:60-83 | A non-POST gets 405. A failing database gets 500 "DB Error" and no change. A POST whose insert commits appends the parsed value and echoes it with 200. Nothing else changes the table. |
| LinkedList.RemoveTailHandler | linkedlist/LinkedListService.java:86-111 | A POST drops the last item, or reports "list empty" when there is none. A failure gives 500 and a non-POST gives 405, both without change. |
| LinkedList.RemoveHeadHandler | linkedlist/LinkedListService.java:114-138 | A POST drops the first item, or reports "list empty" when there is none. A failure gives 500 and a non-POST gives 405, both without change. |
| LinkedList.Serve | linkedlist/LinkedListService.java:23-27 | A path is served iff one of the five contexts is a prefix of it. Only a successful POST changes the table, and a quote-free table stays quote-free. |
| LinkedList.ContextsArePrefixFree | linkedlist/LinkedListService.java:23-27 | No context is a prefix of another, so at most one context matches any path. |
| LinkedList.ServeByContext | linkedlist/LinkedListService.java:23-27 | A path that starts with a context, such as /listing or /add/x, reaches that context's handler. |
| LinkedList.AddThenList | linkedlist/LinkedListService.java:60-83 | After an add, the listing reads back as the old items followed by the value the reply echoed. |
| LinkedList.InterruptedListReadsBack | linkedlist/LinkedListService.java:40-53 | A listing whose result set fails after k rows still reads back, as the first k items. |
| LinkedList.HeadTailCommute | linkedlist/LinkedListService.java:86-138 | On a list of two or more, removing the head and the tail, in either order, leaves the middle. |
| GraphService.Insert | graph/graph_service.py:40-43 | An insert with ON CONFLICT DO NOTHING adds exactly the new row and keeps earlier rows in place. Without a uniqueness constraint it adds one copy. |
| GraphService.InsertKeepsDistinct | graph/graph_service.py:40-43 | A table with a uniqueness constraint never acquires a duplicate row. |
| GraphService.Filter | graph/graph_service.py:85-93 | A DELETE ... WHERE keeps exactly the rows that do not match. Each kept row keeps its multiplicity. |
| GraphService.FilterKeepsAll | graph/graph_service.py:85-93 | A delete that matches no row leaves the table as it was. |
| GraphService.UpperAscii | graph/graph_service.py:38 | upper() keeps the length, maps each character by itself, and leaves no lower-case ASCII letter. |
| GraphService.PyStr | graph/graph_service.py:38 | str() of a string is the string itself and of an integer its decimal text. Only arrays, objects and finite floats are left unrendered. |
| GraphService.PyStrOfSpecialFloat | graph/graph_service.py:38 | str() of an infinity is "inf" or "-inf", and of NaN "nan". |
| GraphService.Normalize | graph/graph_service.py:38 | A normalised label has no surrounding whitespace and no lower-case letter. |
| GraphService.NormalizeIdempotent | graph/graph_service.py:38 | Normalising a stored label again gives the same label. |
| GraphService.BlankLabelBecomesEmpty | graph/graph_service.py:35-38 | A label made only of whitespace normalises to "". |
| GraphService.StateJson | graph/graph_service.py:14-23 | The state has exactly the keys "nodes" and "edges". Each holds one entry per row of its table, or none when that SELECT fails. |
| GraphService.StateReadsBack | graph/graph_service.py:14-23 | When both SELECTs succeed the state reply reads back as the whole store. |
| GraphService.FailedReadsLookEmpty | graph/graph_service.py:20-21 | A failed SELECT reads back as an empty table. |
| GraphService.GetGraph | graph/graph_service.py:26-28 | GET /data answers 200 with the store, each table that fails to read showing as empty, and changes nothing. |
| GraphService.Health | graph/graph_service.py:132-134 | GET / answers {"status": "Graph Service Active"} and changes nothing. |
| GraphService.AddNode | graph/graph_service.py:30-48 | A body that is not JSON is refused and a non-object body crashes the handler. A falsy label gives 400. The reply is 200 iff the label is truthy and renderable and the insert commits. Then the nodes are the old ones with the normalised label inserted, and the reply carries the state read after the insert. A 500 means nothing changed. Edges never change. |
| GraphService.AddNodeStoresLabel | graph/graph_service.py:30-46 | A committed add-node of a non-empty string label answers 200 with the new state, and the normalised label is stored. |
| GraphService.AddEdge | graph/graph_service.py:50-73 | Both endpoints must be truthy, or 400. The reply is 200 iff the edge insert commits, and then the normalised edge is stored. The endpoint inserts' outcomes do not affect the reply. Nothing is ever removed. |
| GraphService.AddEdgeOfLabels | graph/graph_service.py:59-68 | When the edge insert commits, the node table gains exactly the endpoints whose own insert committed, and the edge table gains the normalised edge. |
| GraphService.DeleteNode | graph/graph_service.py:75-98 | The reply is 200 iff the node delete commits. The label is then gone from the nodes, and if the edge delete also committed, so is every edge touching it. Nothing is ever added. |
| GraphService.DeleteEdge | graph/graph_service.py:100-120 | Both endpoints must be truthy, or 400. The reply is 200 iff the delete commits, and then exactly the (from, to) edge rows are removed. Nodes never change. |
| GraphService.Clear | graph/graph_service.py:122-130 | The edges are emptied iff the first delete commits. The reply is the literal empty graph iff the node delete commits, which empties the nodes. Otherwise the reply is 500 and the nodes are unchanged. |
| GraphService.LabelChecks | graph/graph_service.py:33-36 | A missing or falsy label is refused with 400 by add-node and by delete-node, with no change. |
| GraphService.BlankLabelIsStored | graph/graph_service.py:35-43 | A label of spaces passes the check and is stored as the empty label. |
| GraphService.AddEdgeKeepsClosed | graph/graph_service.py:62-68 | When all three inserts commit, every edge still joins two nodes. |
| GraphService.AddEdgeCanDangle | graph/graph_service.py:62-73 | The insert of the source node may fail while the edge insert commits. The reply is then 200 and the stored edge's source is not a node. |
| GraphService.DeleteNodeCascades | graph/graph_service.py:85-93 | When both deletes commit, the label is gone and no edge touches it. Every other node and edge keeps its multiplicity. |
| GraphService.DeleteNodeKeepsClosed | graph/graph_service.py:85-93 | When both deletes commit, every edge still joins two nodes. |
| GraphService.DeleteEdgeIsDirected | graph/graph_service.py:112-115 | Deleting (u, v) leaves the reverse edge (v, u). |
| GraphService.ClearEmpties | graph/graph_service.py:122-130 | When both deletes commit the graph is empty, and the reply reads back as that graph. |
| GraphService.ClearReportsEmptyRegardless | graph/graph_service.py:124-128 | When the edge delete fails and the node delete commits, the reply still shows an empty graph while the edges remain. |
| Driver.CollectKeys | driver/manager.py:166-171 | After reading lines into a map, a key is present iff it was before or some line sets it. |
| Driver.CollectLastWins | driver/manager.py:166-171 | A key's value is the one from the last line that sets it. |
| Driver.CollectUntouched | driver/manager.py:140-146 | A key no line sets keeps its earlier value. |
| Driver.EnvLine | driver/manager.py:167-171 | A stripped line yields nothing iff it is empty, starts with '#', or has no '='. The key is the text before the first '=', not stripped again, and the value is the rest, stripped. |
| Driver.EnvLineOfAssignment | driver/manager.py:167-171 | A line K=V, with K not starting with space or '#' and free of '=', reads as (K, V stripped). V may itself contain '='. |
| Driver.ParseEnvReadsAssignment | driver/manager.py:164-171 | The last assignment to a key in the file is what the map holds. |
| Driver.Pick | driver/manager.py:177-179 | The primary variable is used when it is non-empty. Otherwise the fallback is used when present, even if empty. Otherwise the default. |
| Driver.SecretCredentials | driver/manager.py:177-179 | Each credential is picked from the DB_ key, then the POSTGRES_ key, then the defaults postgres, password and cloudrift. One is empty only if the file sets its POSTGRES_ fallback to empty. |
| Driver.DockerEnvLine | driver/manager.py:140-146 | A line is used iff it mentions "export" or "$Env:" and holds an '='. The key is stripped and the value has no surrounding quotes. |
| Driver.DockerEnvLineAt | driver/manager.py:142-146 | A recognised line is cut at its first '='. |
| Driver.DockerEnvExport | driver/manager.py:140-146 | `export K="V"` yields (K, V). |
| Driver.DockerEnvPowerShell | driver/manager.py:140-146 | `$Env:K = "V"` yields (K, V). |
| Driver.DockerEnvReadsExport | driver/manager.py:140-146 | After reading the output, a line `export K="V"` leaves K set to V for later commands. |
| Driver.WaitForPods | driver/manager.py:245-257 | The poll makes at most 40 checks, 3 seconds apart. It succeeds at the first output showing Running, backend and postgres, with no Error, CrashLoop or ContainerCreating. It times out iff all 40 outputs keep it waiting. A failed command ends it at that check. |
| EndToEnd.PushedValueArrives | stack/stack_server.c:93-118 | The stack service reads the gateway's {"value": v} body as v wrapped to 32 bits. |
| EndToEnd.PushThenPopThroughGateway | backend/app.py:131-159 | For a value in the int range, a push through the gateway sends exactly that value. The stack service stores it, and a pop returns it and restores the stack. |
| EndToEnd.PushAliasesModulo32 | stack/stack_server.c:116 | Values 2^32 apart both pass the gateway's check and arrive as the same stored number. |
| Text.TrimSpec | graph/graph_service.py:38 | Stripping removes exactly the leading and trailing characters of the chosen kind. |
| Text.SplitOnJoin | stack/stack_server.c:249 | Items free of the separator, joined by it, split back into exactly those items. |

## Left out

- Sockets, HTTP framing beyond the parts the services parse by hand, and process start-up are left out. A request is given as the values the handler reads.
- The database drivers (`graph/db_client.py`, `linkedlist/DBHelper.java`, `stack/db_client.c`) are replaced by oracles saying whether each statement commits. A commit followed by an exception is not distinguished.
- The Python stack service `stack/app.py` is not part of this model.
- Whitespace, stripping and upper-casing are modelled on ASCII. Unicode whitespace and case mapping are not.
- GraphService.PyStr: str() of an array, an object or a finite float label is not rendered, because it depends on repr, key order and float formatting. The handlers report such a label as Unmodelled.
- JSON floats keep only their whole part, whether they had a fraction, and infinities and NaN. Their exact value and text are not modelled.
- Flask's own reply to a body that is not JSON, and to an exception in a handler, are modelled as Rejected and Crashed without a status. The exact status depends on the Flask version.
- The upstream request timeout and the fractional sleep base are left out. Time is counted in whole units.
- Gateway.LoadConfig: float() itself is not modelled. Whether it accepts UPSTREAM_TIMEOUT_SECONDS and UPSTREAM_RETRY_BASE_SLEEP is a parameter; when it rejects either, start-up exits with status 1. The base sleep's value is a separate parameter, a non-negative whole number of time units. So a negative or NaN base sleep cannot be represented: for it, time.sleep raises ValueError after the first failed attempt and Flask answers 500. The timeout's value is not used.
- Python's int() is modelled on ASCII digits only.
- StackServer.ParseNumber: the C loop accumulates in a 64-bit `long`, which overflows once the digit value passes 2^63 - 1. The model keeps the unbounded digit value and wraps it to 32 bits, so it does not follow the source on such numbers.
- EndToEnd.PushedValueArrives: it holds for every integer in the model. In the source it holds only while the magnitude stays below 2^63, because of the same `long` overflow.
- StackServer.FormatResponse: a reply that does not fit is None. The bytes write() then sends, read past the buffer, are not modelled.
- StackServer.HeaderContentLength: atoi of a Content-Length beyond the int range is undefined in C. The model keeps the unbounded value.
- Flask's automatic HEAD and OPTIONS answers at the gateway are left out. The model knows only GET and POST requests.
- LinkedList.BuildListText: when getString throws, `,"` has already been appended, so the reply is not the listing of a prefix. The model lets the result set fail only between rows.
- GraphService.StateReadsBack: the SELECTs have no ORDER BY, so the row order PostgreSQL returns is assumed to be the stored order.
- `splitlines()` and iteration over the lines of a file are taken as given: the driver parsers receive lines.
- The commands the driver runs (minikube, kubectl, docker, terraform), the YAML secret file it writes and its logging are left out.
- The insert uniqueness of the graph tables is a parameter (`GraphService.Schema`), because the table definitions are not part of the service.

## Findings

`StackServer.Dispatch` follows the source's loop. `StackServer.StackBodyAgrees` shows that the corrected builder gives the same body whenever it shows every row.

| source | as written | input that shows it | evidently intended | confidence | as-written member | corrected member |
|---|---|---|---|---|---|---|
| stack/stack_server.c:244-251 | In the /stack listing a comma follows every row that is not the last of the result set, even when the space check then ends the loop, so a cut listing ends in ",]". The check also leaves no room for send_response's headers: any listing the loop cuts is over 65500 characters, and its reply does not fit the 65536-byte buffer (c:15-41). snprintf cuts the reply and write() sends its full length, reading past the buffer, so the client never receives a well-formed listing. | 6000 stored values of -2147483648 (11 characters each): the loop stops after some rows but before the last. | Separate only the rows actually written, and stop while the reply still fits, so a cut listing is a well-formed array of the rows shown. | not executed | StackServer.AsWrittenCounterexample | StackServer.BuildStackBody |
