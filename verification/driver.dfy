/** The text handling of the deployment driver: reading the .env file into
    database credentials, reading `minikube docker-env` output into the
    environment of later commands, and the pod-readiness poll. The commands
    themselves (minikube, kubectl, docker, terraform) are not modelled: their
    output arrives as parameters, already split into lines. */
module Driver {
  import opened Wrappers
  import opened Text

  // ---------------------------------------------------------------------
  // Collecting key/value lines into a map (later lines override earlier ones)
  // ---------------------------------------------------------------------

  /** The line sets key k under the given line parser. */
  predicate Sets(parse: string -> Option<(string, string)>, line: string, k: string)
  {
    parse(line).Some? && parse(line).value.0 == k
  }

  /** Feeds each line to parse and stores what it yields into env, in order. */
  function Collect(lines: seq<string>, parse: string -> Option<(string, string)>,
                   env: map<string, string>): map<string, string>
  {
    if |lines| == 0 then env
    else
      var m := Collect(lines[..|lines| - 1], parse, env);
      match parse(lines[|lines| - 1])
      case Some((k, v)) => m[k := v]
      case None => m
  }

  /** A key is present afterwards iff it was before or some line sets it. */
  lemma {:induction false} CollectKeys(lines: seq<string>, parse: string -> Option<(string, string)>,
                                       env: map<string, string>, k: string)
    ensures k in Collect(lines, parse, env) <==>
            k in env || exists i :: 0 <= i < |lines| && Sets(parse, lines[i], k)
    decreases |lines|
  {
    if |lines| > 0 {
      var n := |lines| - 1;
      CollectKeys(lines[..n], parse, env, k);
      if exists i :: 0 <= i < n && Sets(parse, lines[..n][i], k) {
        var i :| 0 <= i < n && Sets(parse, lines[..n][i], k);
        assert lines[..n][i] == lines[i];
      }
      if exists i :: 0 <= i < |lines| && Sets(parse, lines[i], k) {
        var i :| 0 <= i < |lines| && Sets(parse, lines[i], k);
        if i < n {
          assert lines[..n][i] == lines[i];
        }
      }
    }
  }

  /** The value of a key is the one on the last line that sets it. */
  lemma {:induction false} CollectLastWins(lines: seq<string>, parse: string -> Option<(string, string)>,
                                           env: map<string, string>, i: nat, k: string, v: string)
    requires i < |lines| && parse(lines[i]) == Some((k, v))
    requires forall j :: i < j < |lines| ==> !Sets(parse, lines[j], k)
    ensures k in Collect(lines, parse, env) && Collect(lines, parse, env)[k] == v
    decreases |lines|
  {
    var n := |lines| - 1;
    if i < n {
      forall j | i < j < n
        ensures !Sets(parse, lines[..n][j], k)
      {
        assert lines[..n][j] == lines[j];
      }
      assert lines[..n][i] == lines[i];
      CollectLastWins(lines[..n], parse, env, i, k, v);
      assert !Sets(parse, lines[n], k);
    }
  }

  /** A key no line sets keeps its earlier value. */
  lemma {:induction false} CollectUntouched(lines: seq<string>, parse: string -> Option<(string, string)>,
                                            env: map<string, string>, k: string)
    requires k in env
    requires forall i :: 0 <= i < |lines| ==> !Sets(parse, lines[i], k)
    ensures k in Collect(lines, parse, env) && Collect(lines, parse, env)[k] == env[k]
    decreases |lines|
  {
    if |lines| > 0 {
      var n := |lines| - 1;
      forall i | 0 <= i < n
        ensures !Sets(parse, lines[..n][i], k)
      {
        assert lines[..n][i] == lines[i];
      }
      CollectUntouched(lines[..n], parse, env, k);
      assert !Sets(parse, lines[n], k);
    }
  }

  // ---------------------------------------------------------------------
  // The .env file
  // ---------------------------------------------------------------------

  /** No surrounding whitespace. */
  predicate Stripped(s: string)
  {
    |s| > 0 ==> !PyIsSpace(s[0]) && !PyIsSpace(s[|s| - 1])
  }

  lemma NoEquals(s: string)
    requires IndexOf(s, "=", 0).None?
    ensures !HasChar(s, '=')
  {
    if HasChar(s, '=') {
      var i :| 0 <= i < |s| && s[i] == '=';
      assert OccursAt(s, "=", i);
    }
  }

  lemma EqualsAt(s: string, p: nat)
    requires OccursAt(s, "=", p)
    ensures p < |s| && s[p] == '='
  {
    assert s[p..p + 1][0] == s[p];
  }

  lemma CutAt(s: string, p: nat)
    requires p < |s| && s[p] == '='
    ensures s == s[..p] + "=" + s[p + 1..]
  {
  }

  lemma NoEqualsBefore(s: string, p: nat)
    requires p <= |s|
    requires forall j :: 0 <= j < p ==> !OccursAt(s, "=", j)
    ensures !HasChar(s[..p], '=')
  {
    if HasChar(s[..p], '=') {
      var i :| 0 <= i < p && s[..p][i] == '=';
      assert s[i..i + 1] == "=";
      assert OccursAt(s, "=", i);
    }
  }

  /** The first '=' cuts s into a key without '=' and the rest. */
  lemma SplitAtEquals(s: string, p: nat)
    requires IndexOf(s, "=", 0) == Some(p)
    ensures p < |s| && s[p] == '=' && s == s[..p] + "=" + s[p + 1..]
    ensures HasChar(s, '=') && !HasChar(s[..p], '=')
  {
    EqualsAt(s, p);
    CutAt(s, p);
    NoEqualsBefore(s, p);
  }

  /** One .env line: stripped; blank lines, comments and lines without '='
      yield nothing; otherwise the text before the first '=' is the key (not
      stripped again) and the stripped rest is the value. */
  function EnvLine(line: string): (r: Option<(string, string)>)
    ensures var t := Trim(line, PyWhitespace);
            r.None? <==> |t| == 0 || t[0] == '#' || !HasChar(t, '=')
    ensures r.Some? ==> !HasChar(r.value.0, '=') && Stripped(r.value.1)
    ensures r.Some? ==> exists rest :: Trim(line, PyWhitespace) == r.value.0 + "=" + rest
                                       && r.value.1 == Trim(rest, PyWhitespace)
  {
    var t := Trim(line, PyWhitespace);
    if |t| == 0 || t[0] == '#' then None
    else match IndexOf(t, "=", 0)
      case None => NoEquals(t); None
      case Some(p) =>
        SplitAtEquals(t, p);
        Some((t[..p], Trim(t[p + 1..], PyWhitespace)))
  }

  /** In a + "=" + b with no '=' in a, the first '=' is the one after a. */
  lemma FirstEquals(a: string, b: string)
    requires !HasChar(a, '=')
    ensures IndexOf(a + "=" + b, "=", 0) == Some(|a|)
    ensures (a + "=" + b)[..|a|] == a && (a + "=" + b)[|a| + 1..] == b
  {
    var line := a + "=" + b;
    forall j | 0 <= j < |a|
      ensures !OccursAt(line, "=", j)
    {
      assert line[j] == a[j];
    }
    assert OccursAt(line, "=", |a|);
    IndexOfIs(line, "=", 0, |a|);
  }

  /** A written assignment reads back as written: the key is taken verbatim,
      trailing spaces included, and the value may itself contain '='. */
  lemma EnvLineOfAssignment(k: string, v: string)
    requires |k| > 0 && !PyIsSpace(k[0]) && k[0] != '#' && !HasChar(k, '=')
    requires |v| > 0 ==> !PyIsSpace(v[|v| - 1])
    ensures EnvLine(k + "=" + v) == Some((k, Trim(v, PyWhitespace)))
  {
    var line := k + "=" + v;
    assert line[0] == k[0];
    assert line[|line| - 1] == if |v| > 0 then v[|v| - 1] else '=';
    TrimUntouched(line, PyWhitespace);
    FirstEquals(k, v);
  }

  /** The .env file as a map. */
  function ParseEnv(lines: seq<string>): map<string, string>
  {
    Collect(lines, EnvLine, map[])
  }

  /** The last assignment to a key in the file is what the map holds, with
      the key verbatim (trailing spaces kept) and the value stripped. */
  lemma ParseEnvReadsAssignment(before: seq<string>, k: string, v: string)
    requires |k| > 0 && !PyIsSpace(k[0]) && k[0] != '#' && !HasChar(k, '=')
    requires |v| > 0 ==> !PyIsSpace(v[|v| - 1])
    ensures var lines := before + [k + "=" + v];
            k in ParseEnv(lines) && ParseEnv(lines)[k] == Trim(v, PyWhitespace)
  {
    EnvLineOfAssignment(k, v);
    var lines := before + [k + "=" + v];
    CollectLastWins(lines, EnvLine, map[], |before|, k, Trim(v, PyWhitespace));
  }

  /** DB_USER if present and non-empty, else POSTGRES_USER if present (even
      when empty), else the default; likewise for the password and database. */
  function Pick(env: map<string, string>, primary: string, fallback: string, default: string): (r: string)
    ensures primary in env && env[primary] != "" ==> r == env[primary]
    ensures (primary !in env || env[primary] == "") && fallback in env ==> r == env[fallback]
    ensures (primary !in env || env[primary] == "") && fallback !in env ==> r == default
  {
    if primary in env && env[primary] != "" then env[primary]
    else if fallback in env then env[fallback]
    else default
  }

  datatype Credentials = Credentials(user: string, password: string, dbname: string)

  /** The credentials written into the Kubernetes secret: each one is picked
      from the parsed file, DB_ key first, POSTGRES_ key second, default last. */
  function SecretCredentials(lines: seq<string>): (c: Credentials)
    ensures c.user == Pick(ParseEnv(lines), "DB_USER", "POSTGRES_USER", "postgres")
    ensures c.password == Pick(ParseEnv(lines), "DB_PASSWORD", "POSTGRES_PASSWORD", "password")
    ensures c.dbname == Pick(ParseEnv(lines), "DB_NAME", "POSTGRES_DB", "cloudrift")
    ensures c.user == "" ==> exists i :: 0 <= i < |lines| && Sets(EnvLine, lines[i], "POSTGRES_USER")
    ensures c.password == "" ==> exists i :: 0 <= i < |lines| && Sets(EnvLine, lines[i], "POSTGRES_PASSWORD")
    ensures c.dbname == "" ==> exists i :: 0 <= i < |lines| && Sets(EnvLine, lines[i], "POSTGRES_DB")
  {
    var env := ParseEnv(lines);
    CollectKeys(lines, EnvLine, map[], "POSTGRES_USER");
    CollectKeys(lines, EnvLine, map[], "POSTGRES_PASSWORD");
    CollectKeys(lines, EnvLine, map[], "POSTGRES_DB");
    Credentials(Pick(env, "DB_USER", "POSTGRES_USER", "postgres"),
                Pick(env, "DB_PASSWORD", "POSTGRES_PASSWORD", "password"),
                Pick(env, "DB_NAME", "POSTGRES_DB", "cloudrift"))
  }

  // ---------------------------------------------------------------------
  // docker-env output
  // ---------------------------------------------------------------------

  /** One line of `minikube docker-env`: only lines mentioning "export" or
      "$Env:" and holding an '='. The key is the text before the first '='
      with every "export " and "$Env:" removed, then stripped; the value is
      the rest, stripped of whitespace and then of surrounding quotes. */
  function DockerEnvLine(line: string): (r: Option<(string, string)>)
    ensures r.None? <==> !(Contains(line, "export") || Contains(line, "$Env:")) || !HasChar(line, '=')
    ensures r.Some? ==> Stripped(r.value.0)
    ensures r.Some? ==> Unquoted(r.value.1)
  {
    if !(Contains(line, "export") || Contains(line, "$Env:")) then None
    else match IndexOf(line, "=", 0)
      case None => NoEquals(line); None
      case Some(p) =>
        SplitAtEquals(line, p);
        Some((DockerKey(line[..p]), DockerValue(line[p + 1..])))
  }

  function DockerKey(raw: string): (k: string)
    ensures Stripped(k)
  {
    Trim(ReplaceAll(ReplaceAll(raw, "export ", ""), "$Env:", ""), PyWhitespace)
  }

  function DockerValue(raw: string): (v: string)
    ensures Unquoted(v)
  {
    Trim(Trim(raw, PyWhitespace), DoubleQuote)
  }

  /** A recognised line is cut at its first '='. */
  lemma DockerEnvLineAt(a: string, b: string)
    requires Contains(a + "=" + b, "export") || Contains(a + "=" + b, "$Env:")
    requires !HasChar(a, '=')
    ensures DockerEnvLine(a + "=" + b) == Some((DockerKey(a), DockerValue(b)))
  {
    FirstEquals(a, b);
  }

  /** A key the two removals leave alone: neither "export" nor "$Env:" occurs in it. */
  predicate PlainKey(k: string)
  {
    |k| > 0 && Stripped(k) && !HasChar(k, '=')
    && (forall i :: 0 <= i < |k| ==> !OccursAt(k, "export", i) && !OccursAt(k, "$Env:", i))
  }

  /** A value the unquoting leaves alone. */
  predicate Unquoted(v: string)
  {
    |v| > 0 ==> v[0] != '"' && v[|v| - 1] != '"'
  }

  /** A key free of "export" is free of "export ". */
  lemma ExportSpaceFree(k: string)
    requires PlainKey(k)
    ensures forall i :: 0 <= i < |k| ==> !OccursAt(k, "export ", i)
  {
    forall i | 0 <= i < |k|
      ensures !OccursAt(k, "export ", i)
    {
      if OccursAt(k, "export ", i) {
        assert k[i..i + 6] == k[i..i + 7][..6];
        assert OccursAt(k, "export", i);
      }
    }
  }

  lemma NoEqualsInConcat(a: string, b: string)
    requires !HasChar(a, '=') && !HasChar(b, '=')
    ensures !HasChar(a + b, '=')
  {
  }

  lemma KeyOfExport(k: string)
    requires PlainKey(k)
    ensures DockerKey("export " + k) == k
  {
    var head := "export " + k;
    assert head[..7] == "export " && head[7..] == k;
    ExportSpaceFree(k);
    ReplaceAllNoOccurrence(k, "export ", "");
    assert ReplaceAll(head, "export ", "") == k;
    ReplaceAllNoOccurrence(k, "$Env:", "");
    TrimUntouched(k, PyWhitespace);
  }

  lemma KeyOfEnv(k: string)
    requires PlainKey(k)
    ensures DockerKey("$Env:" + k + " ") == k
  {
    ExportFreeHead(k);
    KeyThenSpace(k);
    TrimBehind(k, ' ', PyWhitespace);
    assert k + [' '] == k + " ";
  }

  lemma ValueOfQuoted(v: string, pad: string)
    requires Unquoted(v) && (pad == "" || pad == " ")
    ensures DockerValue(pad + ("\"" + v + "\"")) == v
  {
    var quoted := "\"" + v + "\"";
    if pad == "" {
      assert pad + quoted == quoted;
      TrimUntouched(quoted, PyWhitespace);
    } else {
      assert pad + quoted == [' '] + quoted;
      TrimBefore(' ', quoted, PyWhitespace);
    }
    TrimAround('"', v, '"', DoubleQuote);
    assert ['"'] + v + ['"'] == quoted;
  }

  /** The POSIX form `export K="V"` yields (K, V). */
  lemma DockerEnvExport(k: string, v: string)
    requires PlainKey(k) && Unquoted(v)
    ensures DockerEnvLine("export " + k + "=\"" + v + "\"") == Some((k, v))
  {
    var head := "export " + k;
    var quoted := "\"" + v + "\"";
    assert head + "=" + quoted == "export " + k + "=\"" + v + "\"";
    assert OccursAt(head + "=" + quoted, "export", 0);
    assert !HasChar("export ", '=');
    NoEqualsInConcat("export ", k);
    DockerEnvLineAt(head, quoted);
    KeyOfExport(k);
    ValueOfQuoted(v, "");
    assert "" + quoted == quoted;
  }

  /** The PowerShell form `$Env:K = "V"` yields (K, V). */
  lemma DockerEnvPowerShell(k: string, v: string)
    requires PlainKey(k) && Unquoted(v)
    ensures DockerEnvLine("$Env:" + k + " = \"" + v + "\"") == Some((k, v))
  {
    var head := "$Env:" + k + " ";
    var quoted := "\"" + v + "\"";
    assert head + "=" + (" " + quoted) == "$Env:" + k + " = \"" + v + "\"";
    assert OccursAt(head + "=" + (" " + quoted), "$Env:", 0);
    assert !HasChar("$Env:", '=') && !HasChar(" ", '=');
    NoEqualsInConcat("$Env:", k);
    NoEqualsInConcat("$Env:" + k, " ");
    DockerEnvLineAt(head, " " + quoted);
    KeyOfEnv(k);
    ValueOfQuoted(v, " ");
  }

  /** "$Env:" + k + " " has no "export " in it. */
  lemma ExportFreeHead(k: string)
    requires PlainKey(k)
    ensures ReplaceAll("$Env:" + k + " ", "export ", "") == "$Env:" + k + " "
  {
    var h := "$Env:" + k + " ";
    forall i | 0 <= i < |h|
      ensures !OccursAt(h, "export ", i)
    {
      if i + 7 <= |h| {
        assert h[i] == h[i..i + 7][0];
        if i >= 5 {
          assert h[5..5 + |k|] == k;
          assert h[i..i + 6] == h[5..5 + |k|][i - 5..i + 1];
          assert !OccursAt(k, "export", i - 5);
          assert h[i..i + 6] == h[i..i + 7][..6];
        }
      }
    }
    ReplaceAllNoOccurrence(h, "export ", "");
  }

  /** The leading "$Env:" comes off and the key is left as it is. */
  lemma KeyThenSpace(k: string)
    requires PlainKey(k)
    ensures ReplaceAll("$Env:" + k + " ", "$Env:", "") == k + " "
  {
    var t := k + " ";
    var h := "$Env:" + k + " ";
    assert h == "$Env:" + t;
    assert h[..5] == "$Env:";
    assert h[5..] == t;
    forall i | 0 <= i < |t|
      ensures !OccursAt(t, "$Env:", i)
    {
      if i + 5 <= |k| {
        assert t[i..i + 5] == k[i..i + 5];
        assert !OccursAt(k, "$Env:", i);
      } else if i + 5 <= |t| {
        assert t[i..i + 5][4] == ' ';
      }
    }
    ReplaceAllNoOccurrence(t, "$Env:", "");
  }

  /** self.env after reading docker-env: each recognised line sets its key. */
  function DockerEnv(lines: seq<string>, env: map<string, string>): map<string, string>
  {
    Collect(lines, DockerEnvLine, env)
  }

  /** Reading `export K="V"` sets K to V for later commands, whatever came before. */
  lemma DockerEnvReadsExport(before: seq<string>, k: string, v: string, env: map<string, string>)
    requires PlainKey(k) && Unquoted(v)
    ensures var lines := before + ["export " + k + "=\"" + v + "\""];
            k in DockerEnv(lines, env) && DockerEnv(lines, env)[k] == v
  {
    DockerEnvExport(k, v);
    var lines := before + ["export " + k + "=\"" + v + "\""];
    CollectLastWins(lines, DockerEnvLine, env, |before|, k, v);
  }

  // ---------------------------------------------------------------------
  // Waiting for the pods
  // ---------------------------------------------------------------------

  /** `kubectl get pods` output that shows the system up. */
  predicate Ready(output: string)
  {
    && Contains(output, "Running")
    && !Contains(output, "Error")
    && !Contains(output, "CrashLoop")
    && !Contains(output, "ContainerCreating")
    && Contains(output, "backend")
    && Contains(output, "postgres")
  }

  /** One poll: the command's output, or its failure (which exits the driver). */
  datatype Poll = Output(text: string) | CommandFailed

  predicate KeepsWaiting(p: Poll) { p.Output? && !Ready(p.text) }

  datatype Wait = AllRunning(checks: nat) | TimedOut | Exited(checks: nat)

  const MaxChecks := 40
  const PollSeconds := 3

  /** The readiness poll: at most 40 checks, three seconds apart; `poll(i)` is
      what the i-th check sees. */
  method WaitForPods(poll: nat -> Poll) returns (w: Wait, slept: nat)
    ensures w.AllRunning? ==>
              1 <= w.checks <= MaxChecks && poll(w.checks - 1).Output? && Ready(poll(w.checks - 1).text)
              && slept == PollSeconds * (w.checks - 1)
    ensures w.Exited? ==> 1 <= w.checks <= MaxChecks && poll(w.checks - 1) == CommandFailed
    ensures w.AllRunning? || w.Exited? ==> forall j :: 0 <= j < w.checks - 1 ==> KeepsWaiting(poll(j))
    ensures w.TimedOut? <==> forall j :: 0 <= j < MaxChecks ==> KeepsWaiting(poll(j))
    ensures w.TimedOut? ==> slept == PollSeconds * MaxChecks
  {
    var retries := 0;
    slept := 0;
    while retries < MaxChecks
      invariant 0 <= retries <= MaxChecks
      invariant slept == PollSeconds * retries
      invariant forall j :: 0 <= j < retries ==> KeepsWaiting(poll(j))
    {
      var p := poll(retries);
      if p.CommandFailed? {
        return Exited(retries + 1), slept;
      }
      if Ready(p.text) {
        return AllRunning(retries + 1), slept;
      }
      slept := slept + PollSeconds;
      retries := retries + 1;
    }
    w := TimedOut;
  }
}
