/** The C stack service (stack/stack_server.c): its hand-written HTTP and JSON
    parsing, the "request fully read" test, the status line, the /stack array
    builder and the request dispatch over an abstract stack.

    C strings are modelled as NUL-free `string`s; a raw buffer is first cut at
    its first NUL (`CStr`), which is what every str* function sees. The
    database is a `seq<int>` (oldest value first) plus an oracle saying whether
    the connection and the handler's query succeed. */
module StackServer {
  import opened Wrappers
  import opened Text

  const BufferSize: nat := 65536

  predicate NoNul(s: string) { forall i :: 0 <= i < |s| ==> s[i] != '\0' }

  /** What a str* function sees of a buffer: everything before the first NUL. */
  function CStr(buf: string): (s: string)
    ensures |s| <= |buf| && s == buf[..|s|] && NoNul(s)
    ensures |s| < |buf| ==> buf[|s|] == '\0'
  {
    if |buf| == 0 || buf[0] == '\0' then ""
    else
      var rest := CStr(buf[1..]);
      assert buf[..1 + |rest|] == [buf[0]] + rest;
      [buf[0]] + rest
  }

  // =====================================================================
  // Status line (send_response)
  // =====================================================================

  /** 200, 400 and 404 have their own reason phrase; every other status is
      reported as "500 Internal Server Error". */
  function StatusText(status: int): (t: string)
    ensures |t| > 4 && t[3] == ' ' && AllDigits(t[..3])
    ensures status !in {200, 400, 404} ==> t == "500 Internal Server Error"
  {
    if status == 200 then "200 OK"
    else if status == 400 then "400 Bad Request"
    else if status == 404 then "404 Not Found"
    else "500 Internal Server Error"
  }

  /** 200, 400 and 404 lead their status line with their own digits. */
  lemma StatusTextLeadsWithCode(status: int)
    requires status in {200, 400, 404}
    ensures StatusText(status)[..3] == NatToString(status)
  {
    var n := status;
    var d := NatToString(n / 10);
    assert NatToString(n) == d + [('0' as int + n % 10) as char];
    assert d == NatToString(n / 10 / 10) + [('0' as int + n / 10 % 10) as char];
    assert NatToString(n / 10 / 10) == [('0' as int + n / 10 / 10) as char];
  }

  /** The four status lines are pairwise different, so the mapping loses
      nothing but the statuses it folds into 500. */
  lemma StatusTextSeparates(a: int, b: int)
    requires a in {200, 400, 404, 500} && b in {200, 400, 404, 500} && a != b
    ensures StatusText(a) != StatusText(b)
  {
    var ta, tb := StatusText(a), StatusText(b);
    assert ta[0] != tb[0] || ta[2] != tb[2];
  }

  const FixedHeaders :=
    "Content-Type: application/json\r\n"
    + "Access-Control-Allow-Origin: *\r\n"
    + "Access-Control-Allow-Methods: GET, POST, OPTIONS\r\n"
    + "Access-Control-Allow-Headers: Content-Type\r\n"
    + "Connection: close\r\n"

  /** The last header, announcing n bytes, and the blank line after it. */
  function LengthHeader(n: nat): string
  {
    "Content-Length: " + NatToString(n) + "\r\n" + "\r\n"
  }

  function StatusLine(status: int): string
  {
    "HTTP/1.1 " + StatusText(status) + "\r\n"
  }

  /** The text snprintf formats before the buffer limit applies. */
  function ResponseText(status: int, body: string): string
  {
    StatusLine(status) + FixedHeaders + LengthHeader(|body|) + body
  }

  /** send_response: snprintf formats the status line, the fixed headers, a
      Content-Length equal to strlen(body), a blank line and the body into a
      BUFFER_SIZE buffer, and write() sends the `len` bytes snprintf reports.
      A text that does not fit is cut by snprintf, which still reports its
      full length, so write() reads past the end of the buffer: the
      behaviour is undefined and the result is None. */
  function FormatResponse(status: int, body: string): (r: Option<string>)
    requires NoNul(body)
    ensures r.Some? <==> |ResponseText(status, body)| < BufferSize
    ensures r.Some? ==> |r.value| < BufferSize && IsPrefixOf(StatusLine(status), r.value)
    ensures r.Some? ==> |r.value| >= |LengthHeader(|body|)| + |body|
                        && r.value[|r.value| - |LengthHeader(|body|)| - |body|..] == LengthHeader(|body|) + body
  {
    var t := ResponseText(status, body);
    if |t| < BufferSize then
      var front := StatusLine(status) + FixedHeaders;
      assert t == front + (LengthHeader(|body|) + body);
      assert t[..|StatusLine(status)|] == StatusLine(status);
      assert t[|front|..] == LengthHeader(|body|) + body;
      Some(t)
    else None
  }

  /** A reply for a body shorter than 100000 characters needs at most this
      many characters in front of the body. */
  const HeadRoom: nat := 256

  function Pow10(k: nat): (r: nat)
    ensures r >= 1
  {
    if k == 0 then 1 else 10 * Pow10(k - 1)
  }

  lemma {:induction false} NatToStringShort(n: nat, k: nat)
    requires 1 <= k && n < Pow10(k)
    ensures |NatToString(n)| <= k
    decreases k
  {
    if n >= 10 {
      NatToStringShort(n / 10, k - 1);
    }
  }

  /** A body that leaves HeadRoom characters of the buffer free fits, with
      its headers, into send_response's buffer. */
  lemma ReplyFits(status: int, body: string)
    requires status in {200, 400, 404, 500}
    requires |body| + HeadRoom <= BufferSize
    ensures |ResponseText(status, body)| < BufferSize
  {
    assert Pow10(5) == 100000;
    NatToStringShort(|body|, 5);
  }

  /** Any reply is at least 214 characters longer than its body. */
  lemma ReplyLength(status: int, body: string)
    ensures |ResponseText(status, body)| >= 214 + |body|
  {
  }

  // =====================================================================
  // parse_request_line
  // =====================================================================

  /** s starts with method, a space, path and a space, where neither part has
      a space and both fit their buffers (16 and 256 bytes with the NUL). */
  predicate RequestLineShape(s: string, m: string, p: string)
  {
    && 1 <= |m| < 16 && 1 <= |p| < 256
    && !HasChar(m, ' ') && !HasChar(p, ' ')
    && |m| + |p| + 2 <= |s|
    && s[..|m|] == m && s[|m|] == ' '
    && s[|m| + 1..|m| + 1 + |p|] == p && s[|m| + 1 + |p|] == ' '
  }

  /** The method is the text before the first space, the path the text
      between the first and the second space. */
  function ParseRequestLine(s: string): (r: Option<(string, string)>)
    ensures r.Some? ==> RequestLineShape(s, r.value.0, r.value.1)
  {
    match IndexOf(s, " ", 0)
    case None => None
    case Some(sp1) =>
      match IndexOf(s, " ", sp1 + 1)
      case None => None
      case Some(sp2) =>
        var m := s[..sp1];
        var p := s[sp1 + 1..sp2];
        if |m| == 0 || |m| >= 16 || |p| == 0 || |p| >= 256 then None
        else
          assert !HasChar(m, ' ') by {
            forall i | 0 <= i < |m| ensures m[i] != ' ' { assert !OccursAt(s, " ", i); }
          }
          assert !HasChar(p, ' ') by {
            forall i | 0 <= i < |p| ensures p[i] != ' ' { assert !OccursAt(s, " ", sp1 + 1 + i); }
          }
          Some((m, p))
  }

  /** Conversely, every request of that shape is split into exactly those two parts. */
  lemma ParseRequestLineComplete(s: string, m: string, p: string)
    requires RequestLineShape(s, m, p)
    ensures ParseRequestLine(s) == Some((m, p))
  {
    forall j | 0 <= j < |m| ensures !OccursAt(s, " ", j) {
      assert s[j] == m[j];
      assert s[j..j + 1] == [s[j]];
    }
    assert OccursAt(s, " ", |m|);
    IndexOfIs(s, " ", 0, |m|);
    forall j | |m| + 1 <= j < |m| + 1 + |p| ensures !OccursAt(s, " ", j) {
      assert s[j] == p[j - |m| - 1];
      assert s[j..j + 1] == [s[j]];
    }
    assert OccursAt(s, " ", |m| + 1 + |p|);
    IndexOfIs(s, " ", |m| + 1, |m| + 1 + |p|);
  }

  // =====================================================================
  // header_content_length
  // =====================================================================

  const ContentLengthKey := "content-length:"

  function LowerAscii(c: char): char
  {
    if 'A' <= c <= 'Z' then (c as int + 32) as char else c
  }

  /** "Content-Length:" at p, letters in either case, '-' and ':' exact. */
  predicate KeyAt(s: string, p: int)
  {
    0 <= p && p + 15 <= |s| && forall k :: 0 <= k < 15 ==> LowerAscii(s[p + k]) == ContentLengthKey[k]
  }

  /** The positions the scan visits: the start and every position right after "\r\n". */
  predicate LineStart(s: string, p: int)
  {
    p == 0 || (2 <= p <= |s| && s[p - 2] == '\r' && s[p - 1] == '\n')
  }

  /** C's atoi: leading white space, an optional sign, then the digits,
      accumulated left to right. */
  function Atoi(s: string): int
  {
    AtoiFrom(s, 0)
  }

  function AtoiFrom(s: string, i: nat): int
    requires i <= |s|
    decreases |s| - i
  {
    if i < |s| && CIsSpace(s[i]) then AtoiFrom(s, i + 1)
    else if i < |s| && s[i] == '-' then -(Accumulate(s, i + 1, 0) as int)
    else if i < |s| && s[i] == '+' then Accumulate(s, i + 1, 0)
    else Accumulate(s, i, 0)
  }

  /** The digit loop: acc * 10 + digit while a digit follows. */
  function Accumulate(s: string, i: nat, acc: nat): nat
    requires i <= |s|
    decreases |s| - i
  {
    if i < |s| && IsDigit(s[i]) then Accumulate(s, i + 1, 10 * acc + (s[i] as int - '0' as int)) else acc
  }

  /** Accumulating over a digit run appends its value to acc. */
  lemma {:induction false} AccumulateRun(s: string, i: nat, j: nat, acc: nat)
    requires i <= j <= |s| && AllDigits(s[i..j])
    ensures Accumulate(s, i, acc) == Accumulate(s, j, acc * Pow10(j - i) + DigitsValue(s[i..j]))
    decreases j - i
  {
    if i < j {
      DigitsValueSnoc(s, i, j);
      AccumulateRun(s, i, j - 1, acc);
      var a := acc * Pow10(j - 1 - i) + DigitsValue(s[i..j - 1]);
      assert Accumulate(s, j - 1, a) == Accumulate(s, j, 10 * a + (s[j - 1] as int - '0' as int));
      ScaleByTen(acc, Pow10(j - 1 - i));
    }
  }

  /** The value of a digit run is ten times the value without its last digit, plus that digit. */
  lemma DigitsValueSnoc(s: string, i: nat, j: nat)
    requires i < j <= |s| && AllDigits(s[i..j])
    ensures AllDigits(s[i..j - 1]) && IsDigit(s[j - 1])
    ensures DigitsValue(s[i..j]) == 10 * DigitsValue(s[i..j - 1]) + (s[j - 1] as int - '0' as int)
  {
    assert s[i..j][..j - 1 - i] == s[i..j - 1];
    assert s[j - 1] == s[i..j][j - 1 - i];
  }

  lemma ScaleByTen(acc: nat, p: nat)
    ensures acc * (10 * p) == 10 * (acc * p)
  {
  }

  /** atoi reads back a rendered natural number followed by a non-digit. */
  lemma AtoiOfNatToString(n: nat, tail: string)
    requires |tail| > 0 ==> !IsDigit(tail[0])
    ensures Atoi(NatToString(n) + tail) == n
  {
    var d := NatToString(n);
    var s := d + tail;
    assert s[0] == d[0] && IsDigit(d[0]);
    assert s[0..|d|] == d;
    AccumulateRun(s, 0, |d|, 0);
    assert |d| < |s| ==> s[|d|] == tail[0];
  }

  /** The line start after p is right behind a "\r\n" that begins at or after p. */
  lemma LineStartAfter(s: string, p: nat, q: int)
    requires LineStart(s, p) && p < q && LineStart(s, q)
    ensures p <= q - 2 && OccursAt(s, "\r\n", q - 2)
  {
    assert s[q - 2..q] == "\r\n";
  }

  /** No line from p on starts with the key. */
  predicate NoKeyFrom(s: string, p: nat)
  {
    forall q :: p <= q < |s| && LineStart(s, q) ==> !KeyAt(s, q)
  }

  /** q is the first line start from p on that holds the key. */
  predicate FirstKeyFrom(s: string, p: nat, q: nat)
  {
    && p <= q < |s| && LineStart(s, q) && KeyAt(s, q)
    && forall q' :: p <= q' < q && LineStart(s, q') ==> !KeyAt(s, q')
  }

  lemma FirstKeyUnique(s: string, p: nat, q1: nat, q2: nat)
    requires FirstKeyFrom(s, p, q1) && FirstKeyFrom(s, p, q2)
    ensures q1 == q2
  {
    assert q1 < q2 ==> !KeyAt(s, q1);
    assert q2 < q1 ==> !KeyAt(s, q2);
  }

  /** Skipping from line start p, which has no key, to p2 with no line start
      in between finds the same key line. */
  lemma KeySkip(s: string, p: nat, p2: nat)
    requires p < p2 <= |s| && !KeyAt(s, p)
    requires forall q :: p < q < p2 ==> !LineStart(s, q)
    ensures NoKeyFrom(s, p2) ==> NoKeyFrom(s, p)
    ensures forall q :: FirstKeyFrom(s, p2, q) ==> FirstKeyFrom(s, p, q)
  {
  }

  /** The scan loop from line start p: the first line start from there on
      that holds the key, if any. */
  function KeyLineFrom(s: string, p: nat): (r: Option<nat>)
    requires p <= |s| && LineStart(s, p)
    ensures r.None? ==> NoKeyFrom(s, p)
    ensures r.Some? ==> FirstKeyFrom(s, p, r.value)
    decreases |s| - p
  {
    if p == |s| then None
    else if KeyAt(s, p) then Some(p)
    else
      match IndexOf(s, "\r\n", p)
      case None =>
        forall q | p < q <= |s| && LineStart(s, q) ensures false {
          LineStartAfter(s, p, q);
        }
        KeySkip(s, p, |s|);
        None
      case Some(nl) =>
        forall q | p < q < nl + 2 && LineStart(s, q) ensures false {
          LineStartAfter(s, p, q);
        }
        assert LineStart(s, nl + 2) by {
          assert OccursAt(s, "\r\n", nl);
          assert s[nl] == s[nl..nl + 2][0] && s[nl + 1] == s[nl..nl + 2][1];
        }
        KeySkip(s, p, nl + 2);
        KeyLineFrom(s, nl + 2)
  }

  /** What the scan from line start p gives: 0 when no line from p on starts
      with the key, and otherwise atoi of the text after the first such key. */
  ghost predicate ScanResult(s: string, p: nat, r: int)
  {
    && (NoKeyFrom(s, p) ==> r == 0)
    && forall q :: FirstKeyFrom(s, p, q) ==> r == Atoi(s[q + 15..])
  }

  lemma ScanValue(s: string, p: nat, q: nat)
    requires FirstKeyFrom(s, p, q)
    ensures ScanResult(s, p, Atoi(s[q + 15..]))
  {
    forall q2 | FirstKeyFrom(s, p, q2) ensures q2 == q {
      FirstKeyUnique(s, p, q, q2);
    }
  }

  /** The scan from line start p, with atoi applied to the line it finds. */
  function ScanFrom(s: string, p: nat): (r: int)
    requires p <= |s| && LineStart(s, p)
    ensures ScanResult(s, p, r)
  {
    match KeyLineFrom(s, p)
    case None =>
      assert forall q :: !FirstKeyFrom(s, p, q);
      0
    case Some(q) =>
      ScanValue(s, p, q);
      Atoi(s[q + 15..])
  }

  /** header_content_length: the value after the first "Content-Length:" that
      starts a line, or 0 when no line starts with it. */
  function HeaderContentLength(s: string): (r: int)
    ensures (forall q :: 0 <= q < |s| && LineStart(s, q) ==> !KeyAt(s, q)) ==> r == 0
    ensures forall q :: 0 <= q < |s| && LineStart(s, q) && KeyAt(s, q)
              && (forall q' :: 0 <= q' < q && LineStart(s, q') ==> !KeyAt(s, q'))
              ==> r == Atoi(s[q + 15..])
  {
    ScanFrom(s, 0)
  }

  // =====================================================================
  // extract_json_int_value (called with key "value")
  // =====================================================================

  const ValueNeedle := "\"value\""

  /** The first position at or after i that is not white space. */
  function SkipSpace(s: string, i: nat): (j: nat)
    requires i <= |s|
    ensures i <= j <= |s|
    ensures forall k :: i <= k < j ==> CIsSpace(s[k])
    ensures j < |s| ==> !CIsSpace(s[j])
    decreases |s| - i
  {
    if i < |s| && CIsSpace(s[i]) then SkipSpace(s, i + 1) else i
  }

  const TwoTo31: int := 0x8000_0000
  const TwoTo32: int := 0x1_0000_0000

  /** The conversion of the accumulated long to int (two's-complement wrap, as GCC does). */
  function Int32(x: int): (r: int)
    ensures -TwoTo31 <= r < TwoTo31
    ensures -TwoTo31 <= x < TwoTo31 ==> r == x
  {
    (x + TwoTo31) % TwoTo32 - TwoTo31
  }

  function Signed(neg: bool, v: int): int { if neg then -v else v }

  /** After the key: white space, ':' and white space; the number starts at
      the returned position. */
  function NumberStart(s: string, i: nat): (r: Option<nat>)
    requires i <= |s|
    ensures r.Some? ==> i < r.value <= |s|
  {
    var a := SkipSpace(s, i);
    if a == |s| || s[a] != ':' then None else Some(SkipSpace(s, a + 1))
  }

  /** An optional '-' and at least one digit at the start of t; the value is
      the sign times the whole digit run, narrowed to int. */
  function ParseNumber(t: string): (r: Option<int>)
    ensures r.Some? <==> (|t| > 0 && IsDigit(t[0])) || (|t| > 1 && t[0] == '-' && IsDigit(t[1]))
    ensures r.Some? ==> -TwoTo31 <= r.value < TwoTo31
  {
    var neg := |t| > 0 && t[0] == '-';
    var u := if neg then t[1..] else t;
    var n := DigitRun(u);
    if n == 0 then None
    else Some(Int32(Signed(neg, DigitsValue(u[..n]))))
  }

  /** Only the first occurrence of "value" in quotes is considered. */
  function ExtractValue(json: string): (r: Option<int>)
    ensures !Contains(json, ValueNeedle) ==> r.None?
    ensures r.Some? ==> -TwoTo31 <= r.value < TwoTo31
  {
    match IndexOf(json, ValueNeedle, 0)
    case None => None
    case Some(p) =>
      match NumberStart(json, p + |ValueNeedle|)
      case None => None
      case Some(b) => ParseNumber(json[b..])
  }

  predicate AllSpace(w: string) { forall i :: 0 <= i < |w| ==> CIsSpace(w[i]) }

  function SignText(neg: bool): string { if neg then "-" else "" }

  lemma SplitAt(s: string, i: nat, x: string, y: string)
    requires i <= |s| && s[i..] == x + y
    ensures s[i..i + |x|] == x && s[i + |x|..] == y
    ensures |y| > 0 ==> s[i + |x|] == y[0]
  {
    assert s[i..][..|x|] == x;
    assert s[i..][|x|..] == y;
  }

  lemma SkipSpaceStops(s: string, i: nat, j: nat)
    requires i <= j <= |s|
    requires forall k :: i <= k < j ==> CIsSpace(s[k])
    requires j < |s| ==> !CIsSpace(s[j])
    ensures SkipSpace(s, i) == j
    decreases j - i
  {
    if i < j { SkipSpaceStops(s, i + 1, j); }
  }

  /** White space followed by something else is skipped exactly. */
  lemma SkipSpaceOver(s: string, i: nat, ws: string, rest: string)
    requires i <= |s| && s[i..] == ws + rest
    requires AllSpace(ws)
    requires |rest| > 0 ==> !CIsSpace(rest[0])
    ensures SkipSpace(s, i) == i + |ws|
    ensures s[i + |ws|..] == rest
  {
    SplitAt(s, i, ws, rest);
    forall k | i <= k < i + |ws| ensures CIsSpace(s[k]) {
      assert s[k] == s[i..i + |ws|][k - i];
    }
    SkipSpaceStops(s, i, i + |ws|);
  }

  /** `<ws>:<ws>` followed by something that is not white space. */
  lemma NumberStartOfShape(s: string, i: nat, ws1: string, ws2: string, rest: string)
    requires i <= |s| && s[i..] == ws1 + (":" + (ws2 + rest))
    requires AllSpace(ws1) && AllSpace(ws2)
    requires |rest| > 0 ==> !CIsSpace(rest[0])
    ensures NumberStart(s, i) == Some(i + |ws1| + 1 + |ws2|)
    ensures i + |ws1| + 1 + |ws2| <= |s| && s[i + |ws1| + 1 + |ws2|..] == rest
  {
    SkipSpaceOver(s, i, ws1, ":" + (ws2 + rest));
    var a := i + |ws1|;
    SplitAt(s, a, ":", ws2 + rest);
    SkipSpaceOver(s, a + 1, ws2, rest);
  }

  lemma ParseNumberOfShape(neg: bool, digits: string, tail: string)
    requires |digits| > 0 && AllDigits(digits)
    requires |tail| > 0 ==> !IsDigit(tail[0])
    ensures ParseNumber(SignText(neg) + (digits + tail)) == Some(Int32(Signed(neg, DigitsValue(digits))))
  {
    var t := SignText(neg) + (digits + tail);
    if neg { assert t[1..] == digits + tail; } else { assert t == digits + tail; }
    DigitRunOfDigitsThenOther(digits, tail);
    assert (digits + tail)[..|digits|] == digits;
  }

  lemma ExtractValueAt(s: string, p: nat, b: nat)
    requires IndexOf(s, ValueNeedle, 0) == Some(p)
    requires NumberStart(s, p + |ValueNeedle|) == Some(b)
    ensures ExtractValue(s) == ParseNumber(s[b..])
  {
  }

  /** The body's first key is followed by `<ws>:<ws>[-]<digits><tail>`, with
      white space runs, a non-empty digit run and a tail not starting with a digit. */
  predicate ValueShape(s: string, p: nat, ws1: string, ws2: string, neg: bool, digits: string, tail: string)
  {
    && IndexOf(s, ValueNeedle, 0) == Some(p)
    && p + |ValueNeedle| <= |s|
    && s[p + |ValueNeedle|..] == ws1 + (":" + (ws2 + (SignText(neg) + (digits + tail))))
    && AllSpace(ws1) && AllSpace(ws2)
    && |digits| > 0 && AllDigits(digits)
    && (|tail| > 0 ==> !IsDigit(tail[0]))
  }

  /** A body of that shape yields the signed digit value (wrapped to 32 bits). */
  lemma ExtractValueOfShape(s: string, p: nat, ws1: string, ws2: string, neg: bool, digits: string, tail: string)
    requires ValueShape(s, p, ws1, ws2, neg, digits, tail)
    ensures ExtractValue(s) == Some(Int32(Signed(neg, DigitsValue(digits))))
  {
    var rest := SignText(neg) + (digits + tail);
    var i := p + |ValueNeedle|;
    var b := i + |ws1| + 1 + |ws2|;
    assert ExtractValue(s) == ParseNumber(rest) by {
      assert NumberStart(s, i) == Some(b) && s[b..] == rest by {
        assert rest[0] == if neg then '-' else digits[0];
        NumberStartOfShape(s, i, ws1, ws2, rest);
      }
      ExtractValueAt(s, p, b);
    }
    ParseNumberOfShape(neg, digits, tail);
  }

  /** Conversely, a value is only ever found in a body of that shape, and it
      is the signed value of the digits there: the lookup succeeds exactly on
      such bodies. */
  lemma ExtractValueHasShape(s: string, x: int)
    requires ExtractValue(s) == Some(x)
    ensures exists p: nat, ws1: string, ws2: string, neg: bool, digits: string, tail: string ::
              ValueShape(s, p, ws1, ws2, neg, digits, tail) && x == Int32(Signed(neg, DigitsValue(digits)))
  {
    var p, a, b := ExtractValueSteps(s, x);
    var neg, digits, tail := NumberParts(s[b..]);
    var ws1, ws2 := ShapeAt(s, p, a, b, neg, digits, tail);
    assert ValueShape(s, p, ws1, ws2, neg, digits, tail) && x == Int32(Signed(neg, DigitsValue(digits)));
  }

  /** The positions ExtractValueSteps finds cut the body into the parts of a ValueShape. */
  lemma ShapeAt(s: string, p: nat, a: nat, b: nat, neg: bool, digits: string, tail: string)
    returns (ws1: string, ws2: string)
    requires IndexOf(s, ValueNeedle, 0) == Some(p) && p + |ValueNeedle| <= a < b <= |s|
    requires a == SkipSpace(s, p + |ValueNeedle|) && s[a] == ':' && b == SkipSpace(s, a + 1)
    requires s[b..] == SignText(neg) + (digits + tail)
    requires |digits| > 0 && AllDigits(digits) && (|tail| > 0 ==> !IsDigit(tail[0]))
    ensures ValueShape(s, p, ws1, ws2, neg, digits, tail)
  {
    var i := p + |ValueNeedle|;
    ws1 := SpaceRun(s, i, a);
    ws2 := SpaceRun(s, a + 1, b);
    SliceGlue(s, i, a, b);
    assert s[i..] == ws1 + (":" + (ws2 + (SignText(neg) + (digits + tail))));
    ShapeOfParts(s, p, ws1, ws2, neg, digits, tail);
  }

  /** The positions a successful lookup passes: the key at p, the ':' at a and the number at b. */
  lemma ExtractValueSteps(s: string, x: int) returns (p: nat, a: nat, b: nat)
    requires ExtractValue(s) == Some(x)
    ensures IndexOf(s, ValueNeedle, 0) == Some(p) && p + |ValueNeedle| <= a < b <= |s|
    ensures a == SkipSpace(s, p + |ValueNeedle|) && s[a] == ':' && b == SkipSpace(s, a + 1)
    ensures ParseNumber(s[b..]) == Some(x)
  {
    p := IndexOf(s, ValueNeedle, 0).value;
    a := SkipSpace(s, p + |ValueNeedle|);
    b := NumberStart(s, p + |ValueNeedle|).value;
  }

  lemma ShapeOfParts(s: string, p: nat, ws1: string, ws2: string, neg: bool, digits: string, tail: string)
    requires IndexOf(s, ValueNeedle, 0) == Some(p) && p + |ValueNeedle| <= |s|
    requires s[p + |ValueNeedle|..] == ws1 + (":" + (ws2 + (SignText(neg) + (digits + tail))))
    requires AllSpace(ws1) && AllSpace(ws2)
    requires |digits| > 0 && AllDigits(digits) && (|tail| > 0 ==> !IsDigit(tail[0]))
    ensures ValueShape(s, p, ws1, ws2, neg, digits, tail)
  {
  }

  /** What SkipSpace passed over is a white space run. */
  lemma SpaceRun(s: string, i: nat, j: nat) returns (ws: string)
    requires i <= j <= |s| && j == SkipSpace(s, i)
    ensures ws == s[i..j] && AllSpace(ws)
  {
    ws := s[i..j];
    forall k | 0 <= k < |ws| ensures CIsSpace(ws[k]) {
      assert ws[k] == s[i + k];
    }
  }

  /** A number ParseNumber accepts splits into sign, digit run and tail. */
  lemma NumberParts(t: string) returns (neg: bool, digits: string, tail: string)
    requires ParseNumber(t).Some?
    ensures t == SignText(neg) + (digits + tail)
    ensures |digits| > 0 && AllDigits(digits) && (|tail| > 0 ==> !IsDigit(tail[0]))
    ensures ParseNumber(t) == Some(Int32(Signed(neg, DigitsValue(digits))))
  {
    neg := |t| > 0 && t[0] == '-';
    var u := if neg then t[1..] else t;
    var n := DigitRun(u);
    digits, tail := u[..n], u[n..];
    assert u == digits + tail;
    if neg { assert t == "-" + u; }
  }

  /** s[i..] cut at a (a ':' there) and at b. */
  lemma SliceGlue(s: string, i: nat, a: nat, b: nat)
    requires i <= a < b <= |s| && s[a] == ':'
    ensures s[i..] == s[i..a] + (":" + (s[a + 1..b] + s[b..]))
  {
    assert s[a..] == [s[a]] + s[a + 1..];
    assert s[a + 1..] == s[a + 1..b] + s[b..];
    assert s[i..] == s[i..a] + s[a..];
  }

  /** A quoted number such as {"value": "5"} is rejected. */
  lemma ExtractValueRejectsQuoted(s: string, p: nat, ws1: string, ws2: string, rest: string)
    requires IndexOf(s, ValueNeedle, 0) == Some(p)
    requires s[p + |ValueNeedle|..] == ws1 + (":" + (ws2 + ("\"" + rest)))
    requires AllSpace(ws1) && AllSpace(ws2)
    ensures ExtractValue(s) == None
  {
    var i := p + |ValueNeedle|;
    NumberStartOfShape(s, i, ws1, ws2, "\"" + rest);
    var b := i + |ws1| + 1 + |ws2|;
    ExtractValueAt(s, p, b);
    assert s[b..][0] == '"';
  }

  /** A first occurrence not followed by white space or ':' makes the lookup
      fail, whatever follows later in the body. */
  lemma ExtractValueOnlyFirstOccurrence(s: string, p: nat)
    requires IndexOf(s, ValueNeedle, 0) == Some(p)
    requires p + |ValueNeedle| < |s|
    requires s[p + |ValueNeedle|] != ':' && !CIsSpace(s[p + |ValueNeedle|])
    ensures ExtractValue(s) == None
  {
    NoColonNoNumber(s, p + |ValueNeedle|);
  }

  lemma NoColonNoNumber(s: string, k: nat)
    requires k < |s| && s[k] != ':' && !CIsSpace(s[k])
    ensures NumberStart(s, k) == None
  {
    assert SkipSpace(s, k) == k;
  }

  // =====================================================================
  // read_full_http_request
  // =====================================================================

  /** The header block has arrived ("\r\n\r\n" is in the buffer) and so have
      max(Content-Length, 0) bytes after it. `buf` holds every byte read;
      the search functions see only the part before its first NUL. */
  predicate RequestComplete(buf: string)
  {
    var s := CStr(buf);
    match IndexOf(s, "\r\n\r\n", 0)
    case None => false
    case Some(h) =>
      var cl := HeaderContentLength(s);
      |buf| >= h + 4 + (if cl > 0 then cl else 0)
  }

  lemma FlattenSnoc(parts: seq<string>, i: nat)
    requires i < |parts|
    ensures Flatten(parts[..i + 1]) == Flatten(parts[..i]) + parts[i]
  {
    assert parts[..i + 1][..i] == parts[..i];
  }

  lemma PrefixOfFlattenGrows(parts: seq<string>, i: nat, j: nat)
    requires i <= j <= |parts|
    ensures |Flatten(parts[..i])| <= |Flatten(parts[..j])|
    ensures Flatten(parts[..j])[..|Flatten(parts[..i])|] == Flatten(parts[..i])
    decreases j - i
  {
    if i < j {
      PrefixOfFlattenGrows(parts, i, j - 1);
      FlattenSnoc(parts, j - 1);
    }
  }

  /** The read loop over the successive results of read(): an empty chunk
      is a read returning 0 or less; a script that runs out counts as one.
      A read never returns more than the space left, so a longer chunk is cut
      there and the buffer is then full. `taken` is how many chunks were
      taken. The loop stops at the first chunk after which the request is
      complete, at a failed read, or when the buffer is full. */
  method ReadFullRequest(chunks: seq<string>) returns (ok: bool, buf: string, taken: nat)
    ensures taken <= |chunks|
    ensures |buf| <= BufferSize - 1
    ensures buf == Flatten(chunks[..taken])
            || (|buf| == BufferSize - 1 && |buf| < |Flatten(chunks[..taken])| && buf == Flatten(chunks[..taken])[..|buf|])
    ensures ok <==> |buf| > 0
    ensures RequestComplete(buf) || |buf| == BufferSize - 1 || taken == |chunks| || chunks[taken] == ""
    ensures forall k :: 0 <= k < taken ==> !RequestComplete(Flatten(chunks[..k]))
  {
    buf := "";
    taken := 0;
    assert chunks[..0] == [];
    while |buf| < BufferSize - 1
      invariant 0 <= taken <= |chunks|
      invariant |buf| <= BufferSize - 1
      invariant buf == Flatten(chunks[..taken])
                || (|buf| == BufferSize - 1 && |buf| < |Flatten(chunks[..taken])| && buf == Flatten(chunks[..taken])[..|buf|])
      invariant |buf| < BufferSize - 1 ==> !RequestComplete(buf)
      invariant forall k :: 0 <= k < taken ==> !RequestComplete(Flatten(chunks[..k]))
      decreases BufferSize - |buf|
    {
      if taken == |chunks| || chunks[taken] == "" {
        ok := |buf| > 0;
        return;
      }
      var room := BufferSize - 1 - |buf|;
      var piece := if |chunks[taken]| <= room then chunks[taken] else chunks[taken][..room];
      FlattenSnoc(chunks, taken);
      ghost var before := buf;
      assert before == Flatten(chunks[..taken]) && !RequestComplete(before);
      buf := buf + piece;
      taken := taken + 1;
      forall k | 0 <= k < taken ensures !RequestComplete(Flatten(chunks[..k])) {
        if k == taken - 1 {
          assert Flatten(chunks[..k]) == before;
        }
      }
      if RequestComplete(buf) {
        ok := true;
        return;
      }
    }
    ok := |buf| > 0;
  }

  // =====================================================================
  // The /stack array builder
  // =====================================================================

  function JsonArrayText(rows: seq<string>): string
  {
    "[" + Join(rows, ",") + "]"
  }

  lemma JoinSnoc(rows: seq<string>, i: nat, sep: string)
    requires i < |rows|
    ensures Join(rows[..i + 1], sep) == if i == 0 then rows[0] else Join(rows[..i], sep) + sep + rows[i]
  {
    assert rows[..i + 1][..i] == rows[..i];
  }

  /** The corrected space check: row i is written only if the array with its
      separator, the row and the closing bracket still leaves HeadRoom
      characters of the buffer for send_response's headers. */
  predicate RowFits(rows: seq<string>, i: nat)
    requires i < |rows|
  {
    1 + |Join(rows[..i], ",")| + (if i > 0 then 1 else 0) + |rows[i]| + 1 + HeadRoom <= BufferSize
  }

  /** The number of leading rows the corrected builder writes. */
  function FitCount(rows: seq<string>, from: nat): (k: nat)
    requires from <= |rows|
    ensures from <= k <= |rows|
    ensures forall i :: from <= i < k ==> RowFits(rows, i)
    ensures k < |rows| ==> !RowFits(rows, k)
    decreases |rows| - from
  {
    if from == |rows| || !RowFits(rows, from) then from else FitCount(rows, from + 1)
  }

  /** The corrected listing: the rows that fit, as a JSON array. */
  function StackBody(rows: seq<string>): string
  {
    JsonArrayText(rows[..FitCount(rows, 0)])
  }

  /** The corrected builder loop: the separator is written before each row
      after the first, so a cut never leaves a dangling comma, and the space
      check keeps room for the headers, so the reply always fits. */
  method BuildStackBody(rows: seq<string>) returns (body: string, shown: nat)
    ensures shown <= |rows| && body == JsonArrayText(rows[..shown])
    ensures body == StackBody(rows)
    ensures |ResponseText(200, body)| < BufferSize
    ensures shown < |rows| ==> !RowFits(rows, shown)
  {
    var out := "[";
    var i := 0;
    while i < |rows| && |out| + (if i > 0 then 1 else 0) + |rows[i]| + 1 + HeadRoom <= BufferSize
      invariant 0 <= i <= |rows|
      invariant out == "[" + Join(rows[..i], ",")
      invariant |out| + 1 + HeadRoom <= BufferSize
      invariant FitCount(rows, 0) == FitCount(rows, i)
    {
      var sep := if i > 0 then "," else "";
      ghost var j := Join(rows[..i], ",");
      assert Join(rows[..i + 1], ",") == j + sep + rows[i] by {
        JoinSnoc(rows, i, ",");
      }
      assert FitCount(rows, i) == FitCount(rows, i + 1);
      out := out + sep + rows[i];
      Bracketed(j, sep, rows[i]);
      i := i + 1;
    }
    body := out + "]";
    shown := i;
    ReplyFits(200, body);
  }

  lemma Bracketed(j: string, sep: string, row: string)
    ensures "[" + j + sep + row == "[" + (j + sep + row)
  {
  }

  /** What the loop as originally written has produced after k rows: a comma
      follows every row that is not the last of the whole result set. */
  function AsWrittenText(rows: seq<string>, k: nat): string
    requires k <= |rows|
  {
    "[" + Join(rows[..k], ",") + (if 0 < k < |rows| then "," else "")
  }

  /** The loop exactly as the original writes it, from row i with `out`
      written so far. Returns the text and the index at which it stopped. */
  function AsWrittenRows(rows: seq<string>, i: nat, out: string): (r: (string, nat))
    requires i <= |rows|
    requires out == AsWrittenText(rows, i)
    ensures i <= r.1 <= |rows| && r.0 == AsWrittenText(rows, r.1)
    ensures r.1 < |rows| ==> |r.0| + |rows[r.1]| + 4 >= BufferSize
    ensures |out| < BufferSize ==> |r.0| < BufferSize
    decreases |rows| - i
  {
    if i == |rows| then (out, i)
    else if |out| + |rows[i]| + 4 >= BufferSize then (out, i)
    else
      JoinSnoc(rows, i, ",");
      AsWrittenRows(rows, i + 1, out + rows[i] + (if i < |rows| - 1 then "," else ""))
  }

  function StackBodyAsWritten(rows: seq<string>): string
  {
    AsWrittenRows(rows, 0, "[").0 + "]"
  }

  /** When the loop as written is not cut, its text is the plain array. */
  lemma AsWrittenUncut(rows: seq<string>)
    requires forall j :: 0 <= j < |rows| ==> AsWrittenFits(rows, j)
    ensures StackBodyAsWritten(rows) == JsonArrayText(rows)
  {
    AsWrittenShowsAll(rows, 0, "[");
    AsWrittenBody(rows);
    AsWrittenTextComplete(rows);
  }

  /** The loop as written has room for row i: what it has written before,
      the row and four more characters stay below BUFFER_SIZE. */
  predicate AsWrittenFits(rows: seq<string>, i: nat)
    requires i < |rows|
  {
    1 + |Join(rows[..i], ",")| + (if i > 0 then 1 else 0) + |rows[i]| + 4 < BufferSize
  }

  /** The loop as written reaches the end of the listing exactly when it
      has room for every row. */
  lemma {:induction false} AsWrittenShowsAll(rows: seq<string>, i: nat, out: string)
    requires i <= |rows| && out == AsWrittenText(rows, i)
    ensures AsWrittenRows(rows, i, out).1 == |rows| <==> forall j :: i <= j < |rows| ==> AsWrittenFits(rows, j)
    decreases |rows| - i
  {
    if i < |rows| {
      AsWrittenStep(rows, i, out);
      if AsWrittenFits(rows, i) {
        AsWrittenShowsAll(rows, i + 1, AsWrittenText(rows, i + 1));
        FitsFromSplit(rows, i);
      }
    }
  }

  /** One turn of the loop as written: it goes on exactly when the row fits. */
  lemma AsWrittenStep(rows: seq<string>, i: nat, out: string)
    requires i < |rows| && out == AsWrittenText(rows, i)
    ensures AsWrittenFits(rows, i) ==> AsWrittenRows(rows, i, out) == AsWrittenRows(rows, i + 1, AsWrittenText(rows, i + 1))
    ensures !AsWrittenFits(rows, i) ==> AsWrittenRows(rows, i, out).1 == i
  {
    assert |out| == 1 + |Join(rows[..i], ",")| + (if i > 0 then 1 else 0);
    JoinSnoc(rows, i, ",");
    var sep := if i < |rows| - 1 then "," else "";
    if i == 0 {
      assert rows[..0] == [];
      assert out == "[";
    } else {
      assert out + rows[i] + sep == "[" + (Join(rows[..i], ",") + "," + rows[i]) + sep;
    }
    assert out + rows[i] + sep == AsWrittenText(rows, i + 1);
  }

  lemma FitsFromSplit(rows: seq<string>, i: nat)
    requires i < |rows|
    ensures (forall j :: i <= j < |rows| ==> AsWrittenFits(rows, j))
            <==> AsWrittenFits(rows, i) && (forall j :: i + 1 <= j < |rows| ==> AsWrittenFits(rows, j))
  {
  }

  lemma AsWrittenBody(rows: seq<string>)
    ensures StackBodyAsWritten(rows) == AsWrittenText(rows, AsWrittenRows(rows, 0, "[").1) + "]"
  {
  }

  lemma AsWrittenTextComplete(rows: seq<string>)
    ensures AsWrittenText(rows, |rows|) + "]" == JsonArrayText(rows)
  {
    assert rows[..|rows|] == rows;
  }

  /** The two builders agree on every listing the corrected one shows in
      full: its check is the stricter, so the loop as written is not cut there. */
  lemma StackBodyAgrees(rows: seq<string>)
    requires FitCount(rows, 0) == |rows|
    ensures StackBodyAsWritten(rows) == StackBody(rows) == JsonArrayText(rows)
  {
    forall j | 0 <= j < |rows| ensures AsWrittenFits(rows, j) {
      assert RowFits(rows, j);
    }
    AsWrittenUncut(rows);
    CorrectedUncut(rows);
  }

  lemma CorrectedUncut(rows: seq<string>)
    requires FitCount(rows, 0) == |rows|
    ensures StackBody(rows) == JsonArrayText(rows)
  {
    assert rows[..|rows|] == rows;
  }

  /** The loop as written cuts a listing only once the text is within a row
      of BUFFER_SIZE, so the reply carrying it is longer than send_response's
      buffer: snprintf cuts it and write() reads past the buffer. A cut
      listing is never delivered as it stands in `out`. */
  lemma AsWrittenCutOverflowsReply(rows: seq<string>)
    requires AsWrittenRows(rows, 0, "[").1 < |rows|
    requires forall i :: 0 <= i < |rows| ==> |rows[i]| <= 200
    ensures |ResponseText(200, StackBodyAsWritten(rows))| >= BufferSize
  {
    var r := AsWrittenRows(rows, 0, "[");
    assert |r.0| + |rows[r.1]| + 4 >= BufferSize;
    ReplyLength(200, StackBodyAsWritten(rows));
  }

  /** As written, a loop that stops after at least one row but before the
      last leaves a trailing comma: read back, the array has an empty last
      item, which is not a number. */
  lemma AsWrittenCutLeavesEmptyItem(rows: seq<string>)
    requires 0 < AsWrittenRows(rows, 0, "[").1 < |rows|
    ensures var b := StackBodyAsWritten(rows);
            var k := AsWrittenRows(rows, 0, "[").1;
            |b| >= 2 && b[|b| - 2..] == ",]" && SplitOn(Inner(b), ',') == SplitOn(Join(rows[..k], ","), ',') + [""]
  {
    var k := AsWrittenRows(rows, 0, "[").1;
    var b := StackBodyAsWritten(rows);
    var j := Join(rows[..k], ",");
    assert b == "[" + j + "," + "]";
    assert b[|b| - 2..] == ",]";
    assert Inner(b) == j + [','] + "";
    SplitOnConcat(Join(rows[..k], ","), "", ',');
  }

  lemma {:induction false} JoinUniformLength(rows: seq<string>, len: nat)
    requires |rows| > 0
    requires forall i :: 0 <= i < |rows| ==> |rows[i]| == len
    ensures |Join(rows, ",")| == |rows| * (len + 1) - 1
    decreases |rows|
  {
    if |rows| > 1 {
      JoinUniformLength(rows[..|rows| - 1], len);
    }
  }

  /** The smallest 32-bit value, 11 characters long, 6000 times on the stack:
      the cut comes after some rows but before the last, so the body ends
      ",]", and the reply carrying it overflows send_response's buffer. */
  lemma AsWrittenCounterexample()
    ensures var rows := seq(6000, _ => "-2147483648");
            var b := StackBodyAsWritten(rows);
            |b| >= 2 && b[|b| - 2..] == ",]" && |ResponseText(200, b)| >= BufferSize
  {
    var rows := seq(6000, _ => "-2147483648");
    var r := AsWrittenRows(rows, 0, "[");
    assert rows[..0] == [];
    assert r.1 > 0 by {
      assert |rows[0]| == 11;
    }
    assert r.1 < |rows| by {
      if r.1 == |rows| {
        assert rows[..r.1] == rows;
        JoinUniformLength(rows, 11);
      }
    }
    AsWrittenCutLeavesEmptyItem(rows);
    AsWrittenCutOverflowsReply(rows);
  }

  /** The corrected builder never leaves an empty item: the array reads back
      as exactly the rows it shows. */
  lemma StackBodyItems(rows: seq<string>)
    requires forall i :: 0 <= i < |rows| ==> |rows[i]| > 0 && !HasChar(rows[i], ',')
    requires FitCount(rows, 0) > 0
    ensures SplitOn(Inner(StackBody(rows)), ',') == rows[..FitCount(rows, 0)]
  {
    var k := FitCount(rows, 0);
    assert Inner(StackBody(rows)) == Join(rows[..k], ",");
    SplitOnJoin(rows[..k], ',');
  }

  // =====================================================================
  // handle_client
  // =====================================================================

  /** What the database does for one connection: whether get_db_connection
      succeeds and whether the handler's query (INSERT, DELETE ... RETURNING
      or SELECT) succeeds. The CREATE TABLE result is ignored by the original. */
  datatype Db = Db(connects: bool, queryOk: bool)

  datatype Reply = Reply(status: int, body: string)

  /** The reply sent (None: the connection is closed without one) and the
      stack afterwards, oldest value first. */
  datatype Served = Served(reply: Option<Reply>, stack: seq<int>)

  /** A parsed request: method, path and the body after the header block. */
  datatype Request = Request(verb: string, path: string, body: string)

  const BadRequestBody := "{\"error\":\"Bad Request\"}"
  const StatusOkBody := "{\"status\":\"ok\"}"
  const DbConnectionFailedBody := "{\"error\":\"DB connection failed\"}"
  const InvalidPushBody := "{\"error\":\"Invalid JSON: expected {\\\"value\\\": <int>}\"}"
  const InsertFailedBody := "{\"error\":\"DB insert failed\"}"
  const PushedBody := "{\"status\":\"pushed\"}"
  const StackEmptyBody := "{\"status\":\"stack empty\"}"
  const SelectFailedBody := "{\"error\":\"DB select failed\"}"
  const RouteNotFoundBody := "{\"error\":\"Route Not Found\"}"

  function PoppedBody(v: int): string
  {
    "{\"status\":\"popped\",\"value\":" + IntToString(v) + "}"
  }

  /** The text after the first "\r\n\r\n", or "" without one. */
  function BodyOf(s: string): (b: string)
    ensures !Contains(s, "\r\n\r\n") ==> b == ""
    ensures forall h :: OccursAt(s, "\r\n\r\n", h) && (forall k :: 0 <= k < h ==> !OccursAt(s, "\r\n\r\n", k))
              ==> b == s[h + 4..]
  {
    match IndexOf(s, "\r\n\r\n", 0)
    case None => ""
    case Some(h) => s[h + 4..]
  }

  /** The request as handle_client sees it in the read buffer. */
  function ParseRequest(s: string): (r: Option<Request>)
    ensures r.Some? ==> RequestLineShape(s, r.value.verb, r.value.path)
    ensures r.None? <==> ParseRequestLine(s).None?
  {
    match ParseRequestLine(s)
    case None => None
    case Some((m, p)) => Some(Request(m, p, BodyOf(s)))
  }

  /** GET /stack lists the stack newest first (ORDER BY id DESC), each row in
      "%d" form. */
  function NewestFirst(stack: seq<int>): (rows: seq<string>)
    ensures |rows| == |stack|
  {
    seq(|stack|, i requires 0 <= i < |stack| => IntToString(stack[|stack| - 1 - i]))
  }

  /** A push shows up at the head of the next listing, ahead of the rows that
      were already there; a pop removes the head row. */
  lemma NewestFirstPush(stack: seq<int>, v: int)
    ensures NewestFirst(stack + [v]) == [IntToString(v)] + NewestFirst(stack)
    ensures NewestFirst(stack + [v])[1..] == NewestFirst(stack)
  {
    var a := NewestFirst(stack + [v]);
    var b := [IntToString(v)] + NewestFirst(stack);
    assert |a| == |b|;
    forall i | 0 <= i < |a| ensures a[i] == b[i] {
      if i > 0 {
        assert (stack + [v])[|stack| - i] == stack[|stack| - 1 - (i - 1)];
      }
    }
  }

  predicate Int32Values(stack: seq<int>)
  {
    forall i :: 0 <= i < |stack| ==> -TwoTo31 <= stack[i] < TwoTo31
  }

  /** The routes after a successful request-line parse. */
  function Dispatch(req: Request, db: Db, stack: seq<int>): (r: Served)
    ensures r.reply.Some? && r.reply.value.status in {200, 400, 404, 500}
    ensures r.stack == stack
            || (|stack| > 0 && r.stack == stack[..|stack| - 1] && r.reply == Some(Reply(200, PoppedBody(stack[|stack| - 1]))))
            || (|r.stack| == |stack| + 1 && r.stack[..|stack|] == stack && r.reply == Some(Reply(200, PushedBody)))
    ensures r.stack != stack ==> db.connects && db.queryOk && req.verb == "POST"
    ensures Int32Values(stack) ==> Int32Values(r.stack)
  {
    if req.verb == "OPTIONS" then Served(Some(Reply(200, StatusOkBody)), stack)
    else if req.verb == "GET" && req.path == "/health" then Served(Some(Reply(200, StatusOkBody)), stack)
    else if !db.connects then Served(Some(Reply(500, DbConnectionFailedBody)), stack)
    else if req.verb == "POST" && req.path == "/push" then
      match ExtractValue(req.body)
      case None => Served(Some(Reply(400, InvalidPushBody)), stack)
      case Some(v) =>
        if !db.queryOk then Served(Some(Reply(500, InsertFailedBody)), stack)
        else Served(Some(Reply(200, PushedBody)), stack + [v])
    else if req.verb == "POST" && req.path == "/pop" then
      if db.queryOk && |stack| > 0 then
        Served(Some(Reply(200, PoppedBody(stack[|stack| - 1]))), stack[..|stack| - 1])
      else Served(Some(Reply(200, StackEmptyBody)), stack)
    else if req.verb == "GET" && req.path == "/stack" then
      if !db.queryOk then Served(Some(Reply(500, SelectFailedBody)), stack)
      else Served(Some(Reply(200, StackBodyAsWritten(NewestFirst(stack)))), stack)
    else Served(Some(Reply(404, RouteNotFoundBody)), stack)
  }

  /** handle_client on the bytes read (an empty buffer is a failed read). */
  function HandleClient(buf: string, db: Db, stack: seq<int>): (r: Served)
    ensures r.reply.None? <==> |buf| == 0
    ensures |buf| > 0 && ParseRequestLine(CStr(buf)).None? ==> r == Served(Some(Reply(400, BadRequestBody)), stack)
    ensures r.stack != stack ==> db.connects && db.queryOk
    ensures Int32Values(stack) ==> Int32Values(r.stack)
  {
    if |buf| == 0 then Served(None, stack)
    else
      match ParseRequest(CStr(buf))
      case None => Served(Some(Reply(400, BadRequestBody)), stack)
      case Some(req) => Dispatch(req, db, stack)
  }

  /** Pushing a value and then popping returns that value and restores the
      stack: the service is last in, first out. */
  lemma PushThenPop(push: Request, pop: Request, db: Db, stack: seq<int>, v: int)
    requires push.verb == "POST" && push.path == "/push" && ExtractValue(push.body) == Some(v)
    requires pop.verb == "POST" && pop.path == "/pop"
    requires db.connects && db.queryOk
    ensures Dispatch(push, db, stack).stack == stack + [v]
    ensures Dispatch(pop, db, stack + [v]) == Served(Some(Reply(200, PoppedBody(v))), stack)
  {
    assert (stack + [v])[..|stack|] == stack;
  }

  /** Popping an empty stack, or when the query fails, reports "stack empty"
      and changes nothing. */
  lemma PopEmpty(pop: Request, db: Db, stack: seq<int>)
    requires pop.verb == "POST" && pop.path == "/pop"
    requires db.connects && (|stack| == 0 || !db.queryOk)
    ensures Dispatch(pop, db, stack) == Served(Some(Reply(200, StackEmptyBody)), stack)
  {
  }

  /** A push whose body has no integer "value" is refused before the
      database is written, whatever the database would do. */
  lemma PushWithoutIntegerIs400(push: Request, db: Db, stack: seq<int>)
    requires push.verb == "POST" && push.path == "/push" && ExtractValue(push.body).None?
    requires db.connects
    ensures Dispatch(push, db, stack) == Served(Some(Reply(400, InvalidPushBody)), stack)
  {
  }

  /** OPTIONS is answered 200 on any path, before the body, the database or the route is looked at. */
  lemma OptionsAnswersOk(req: Request, db: Db, stack: seq<int>)
    requires req.verb == "OPTIONS"
    ensures Dispatch(req, db, stack) == Served(Some(Reply(200, StatusOkBody)), stack)
  {
  }

  /** GET /health is answered 200 whether or not the database is reachable. */
  lemma HealthIgnoresDb(req: Request, db: Db, stack: seq<int>)
    requires req.verb == "GET" && req.path == "/health"
    ensures Dispatch(req, db, stack) == Served(Some(Reply(200, StatusOkBody)), stack)
  {
  }

  /** Every other request needs the connection: without it the answer is 500, even for an unknown route. */
  lemma NoConnectionIs500(req: Request, db: Db, stack: seq<int>)
    requires !db.connects && req.verb != "OPTIONS" && !(req.verb == "GET" && req.path == "/health")
    ensures Dispatch(req, db, stack) == Served(Some(Reply(500, DbConnectionFailedBody)), stack)
  {
  }

  /** With the connection up, a request that is none of the five routes gets 404 and changes nothing. */
  lemma UnknownRouteIs404(req: Request, db: Db, stack: seq<int>)
    requires db.connects && req.verb != "OPTIONS"
    requires !(req.verb == "GET" && req.path in {"/health", "/stack"})
    requires !(req.verb == "POST" && req.path in {"/push", "/pop"})
    ensures Dispatch(req, db, stack) == Served(Some(Reply(404, RouteNotFoundBody)), stack)
  {
  }

  /** GET /stack answers with the listing as the original loop writes it. A
      listing that loop cuts never reaches the client intact: the reply is
      longer than send_response's buffer. */
  lemma CutListingOverflowsReply(req: Request, db: Db, stack: seq<int>)
    requires req.verb == "GET" && req.path == "/stack" && db.connects && db.queryOk
    requires Int32Values(stack)
    requires AsWrittenRows(NewestFirst(stack), 0, "[").1 < |stack|
    ensures Dispatch(req, db, stack) == Served(Some(Reply(200, StackBodyAsWritten(NewestFirst(stack)))), stack)
    ensures |ResponseText(200, StackBodyAsWritten(NewestFirst(stack)))| >= BufferSize
  {
    RowsAreShort(stack);
    AsWrittenCutOverflowsReply(NewestFirst(stack));
  }

  /** Reading the listing back: when the loop shows every row and the reply
      fits send_response's buffer, the client receives the array of all the
      stored values, newest first: "[]" for an empty stack, and otherwise one
      item per value that parses back to it. */
  lemma ListingReadsBack(req: Request, db: Db, stack: seq<int>)
    requires req.verb == "GET" && req.path == "/stack" && db.connects && db.queryOk
    requires Int32Values(stack)
    requires forall j :: 0 <= j < |stack| ==> AsWrittenFits(NewestFirst(stack), j)
    requires |ResponseText(200, JsonArrayText(NewestFirst(stack)))| < BufferSize
    ensures Dispatch(req, db, stack) == Served(Some(Reply(200, JsonArrayText(NewestFirst(stack)))), stack)
    ensures NoNul(JsonArrayText(NewestFirst(stack))) && FormatResponse(200, JsonArrayText(NewestFirst(stack))).Some?
    ensures |stack| == 0 ==> JsonArrayText(NewestFirst(stack)) == "[]"
    ensures |stack| > 0 ==>
              var items := SplitOn(Inner(JsonArrayText(NewestFirst(stack))), ',');
              && |items| == |stack|
              && forall i :: 0 <= i < |items| ==> ParseNumber(items[i]) == Some(stack[|stack| - 1 - i])
  {
    AsWrittenUncut(NewestFirst(stack));
    ListingHasNoNul(stack);
    if |stack| == 0 {
      assert NewestFirst(stack) == [];
      assert JsonArrayText([]) == "[]";
    } else {
      StackItemsReadBack(stack);
    }
  }

  /** Every item of the full listing parses back to the stored value at that position, newest first. */
  lemma StackItemsReadBack(stack: seq<int>)
    requires Int32Values(stack) && |stack| > 0
    ensures var items := SplitOn(Inner(JsonArrayText(NewestFirst(stack))), ',');
            && |items| == |stack|
            && forall i :: 0 <= i < |items| ==> ParseNumber(items[i]) == Some(stack[|stack| - 1 - i])
  {
    var rows := NewestFirst(stack);
    RowsHaveNoComma(stack);
    assert Inner(JsonArrayText(rows)) == Join(rows, ",");
    SplitOnJoin(rows, ',');
    RowsParseBack(stack);
  }

  lemma ListingHasNoNul(stack: seq<int>)
    ensures NoNul(JsonArrayText(NewestFirst(stack)))
  {
    var rows := NewestFirst(stack);
    forall i | 0 <= i < |rows| ensures NoNul(rows[i]) {
      IntToStringHasNoNul(stack[|stack| - 1 - i]);
    }
    JoinHasNoNul(rows);
  }

  lemma {:induction false} JoinHasNoNul(rows: seq<string>)
    requires forall i :: 0 <= i < |rows| ==> NoNul(rows[i])
    ensures NoNul(Join(rows, ","))
    decreases |rows|
  {
    if |rows| > 1 {
      JoinHasNoNul(rows[..|rows| - 1]);
    }
  }

  lemma IntToStringHasNoNul(v: int)
    ensures NoNul(IntToString(v))
  {
    var t := IntToString(v);
    if v < 0 {
      assert forall i :: 1 <= i < |t| ==> t[i] == t[1..][i - 1];
    }
  }

  /** Every "%d" row of a 32-bit value is at most 11 characters long. */
  lemma RowsAreShort(stack: seq<int>)
    requires Int32Values(stack)
    ensures forall i :: 0 <= i < |NewestFirst(stack)| ==> |NewestFirst(stack)[i]| <= 200
  {
    forall i | 0 <= i < |stack| ensures |NewestFirst(stack)[i]| <= 200 {
      var v := stack[|stack| - 1 - i];
      assert NewestFirst(stack)[i] == IntToString(v);
      IntToStringShort(v);
    }
  }

  /** The "%d" text of a 32-bit value has at most 11 characters: a sign and ten digits. */
  lemma IntToStringShort(v: int)
    requires -TwoTo31 <= v < TwoTo31
    ensures |IntToString(v)| <= 11
  {
    assert Pow10(10) == 10000000000;
    NatToStringShort(if v < 0 then -v else v, 10);
  }

  lemma RowsHaveNoComma(stack: seq<int>)
    ensures forall i :: 0 <= i < |NewestFirst(stack)| ==>
              |NewestFirst(stack)[i]| > 0 && !HasChar(NewestFirst(stack)[i], ',')
  {
    var rows := NewestFirst(stack);
    forall i | 0 <= i < |rows| ensures |rows[i]| > 0 && !HasChar(rows[i], ',') {
      IntToStringHasNoComma(stack[|stack| - 1 - i]);
    }
  }

  lemma RowsParseBack(stack: seq<int>)
    requires Int32Values(stack)
    ensures forall i :: 0 <= i < |NewestFirst(stack)| ==>
              ParseNumber(NewestFirst(stack)[i]) == Some(stack[|stack| - 1 - i])
  {
    forall i | 0 <= i < |stack| ensures ParseNumber(NewestFirst(stack)[i]) == Some(stack[|stack| - 1 - i]) {
      RowParsesBack(stack, i);
    }
  }

  lemma RowParsesBack(stack: seq<int>, i: nat)
    requires i < |stack| && -TwoTo31 <= stack[|stack| - 1 - i] < TwoTo31
    ensures ParseNumber(NewestFirst(stack)[i]) == Some(stack[|stack| - 1 - i])
  {
    var v := stack[|stack| - 1 - i];
    assert NewestFirst(stack)[i] == IntToString(v);
    ParseNumberOfIntToString(v);
  }

  lemma IntToStringHasNoComma(v: int)
    ensures !HasChar(IntToString(v), ',')
  {
    var t := IntToString(v);
    if v < 0 {
      assert forall i :: 1 <= i < |t| ==> t[i] == t[1..][i - 1];
    }
  }

  /** The number parser reads "%d" output back. */
  lemma ParseNumberOfIntToString(v: int)
    requires -TwoTo31 <= v < TwoTo31
    ensures ParseNumber(IntToString(v)) == Some(v)
  {
    if v < 0 {
      var d := NatToString(-v);
      assert IntToString(v) == SignText(true) + (d + "");
      ParseNumberOfShape(true, d, "");
    } else {
      var d := NatToString(v);
      assert IntToString(v) == SignText(false) + (d + "");
      ParseNumberOfShape(false, d, "");
    }
  }
}
