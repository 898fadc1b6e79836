/** What happens to a pushed value on its way from the gateway to the C stack
    server: the gateway forwards {"value": v} as the JSON text Python's
    json.dumps writes, and the server scans that text for the number. */
module EndToEnd {
  import opened Wrappers
  import opened Text
  import StackServer
  import Gateway
  import opened JsonValue

  /** json.dumps({"value": v}) with its default separators ", " and ": ". */
  function PushBodyText(v: int): string
  {
    "{\"value\": " + IntToString(v) + "}"
  }

  /** The same text, cut where the server's scan cuts it. */
  lemma PushBodyShape(v: int)
    ensures PushBodyText(v) == "{" + (StackServer.ValueNeedle + ("" + (":" + (" " + (StackServer.SignText(v < 0)
              + ((if v < 0 then IntToString(v)[1..] else IntToString(v)) + "}"))))))
  {
    var t := IntToString(v);
    var digits := if v < 0 then t[1..] else t;
    assert t == StackServer.SignText(v < 0) + digits by {
      if v < 0 { assert t == "-" + t[1..]; }
    }
    PushBodyRegroup(StackServer.SignText(v < 0), digits);
  }

  lemma PushBodyRegroup(sign: string, digits: string)
    ensures "{\"value\": " + (sign + digits) + "}"
            == "{" + (StackServer.ValueNeedle + ("" + (":" + (" " + (sign + (digits + "}"))))))
  {
    assert "{\"value\": " == "{" + StackServer.ValueNeedle + ":" + " ";
  }

  /** The server reads back the gateway's value, wrapped to 32 bits: a value
      outside the int range is stored as a different number. */
  lemma PushedValueArrives(v: int)
    ensures StackServer.ExtractValue(PushBodyText(v)) == Some(StackServer.Int32(v))
  {
    var s := PushBodyText(v);
    var digits := if v < 0 then IntToString(v)[1..] else IntToString(v);
    PushBodyShape(v);
    assert OccursAt(s, StackServer.ValueNeedle, 1) by {
      assert s[1..8] == StackServer.ValueNeedle;
    }
    assert !OccursAt(s, StackServer.ValueNeedle, 0) by { assert s[0] == '{'; }
    IndexOfIs(s, StackServer.ValueNeedle, 0, 1);
    assert s[1 + |StackServer.ValueNeedle|..] == "" + (":" + (" " + (StackServer.SignText(v < 0) + (digits + "}"))));
    assert StackServer.AllSpace(" ");
    StackServer.ExtractValueOfShape(s, 1, "", " ", v < 0, digits, "}");
    assert StackServer.Signed(v < 0, DigitsValue(digits)) == v;
  }

  /** For a value in the int range, a push through the gateway followed by a
      pop returns that value and leaves the stack as it was. */
  lemma PushThenPopThroughGateway(cfg: Gateway.Config, fields: map<string, Json>, script: seq<Gateway.Attempt>,
                                  db: StackServer.Db, stack: seq<int>, v: int)
    requires cfg.attempts <= |script|
    requires "value" in fields && Gateway.PyInt(fields["value"]) == Gateway.IntValue(v)
    requires -StackServer.TwoTo31 <= v < StackServer.TwoTo31
    requires db.connects && db.queryOk
    ensures Gateway.Handle(cfg, Gateway.Request(Gateway.Post, "/stack/push", Some(JObj(fields))), script).call
            == Some(Gateway.UpstreamCall(Gateway.Post, cfg.stackUrl + "/push", Some(Field("value", JInt(v)))))
    ensures var push := StackServer.Request("POST", "/push", PushBodyText(v));
            var pop := StackServer.Request("POST", "/pop", "");
            StackServer.Dispatch(push, db, stack).stack == stack + [v]
            && StackServer.Dispatch(pop, db, stack + [v]) == StackServer.Served(Some(StackServer.Reply(200, StackServer.PoppedBody(v))), stack)
  {
    Gateway.PushForwardsExactValue(cfg, fields, script);
    PushedValueArrives(v);
    StackServer.PushThenPop(StackServer.Request("POST", "/push", PushBodyText(v)),
                            StackServer.Request("POST", "/pop", ""), db, stack, v);
  }

  lemma ModShift(a: int)
    ensures (a + StackServer.TwoTo32) % StackServer.TwoTo32 == a % StackServer.TwoTo32
  {
  }

  /** Values 2^32 apart both pass the gateway's int() check and reach the
      stack as the same number. */
  lemma PushAliasesModulo32(v: int)
    ensures StackServer.ExtractValue(PushBodyText(v + StackServer.TwoTo32))
            == StackServer.ExtractValue(PushBodyText(v))
  {
    PushedValueArrives(v);
    PushedValueArrives(v + StackServer.TwoTo32);
    ModShift(v + StackServer.TwoTo31);
    assert StackServer.Int32(v + StackServer.TwoTo32) == StackServer.Int32(v);
  }
}
