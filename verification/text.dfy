/** String helpers shared by the services: decimal digits, substring search,
    trimming and the left-to-right replace-all of Java and Python. */
module Text {
  import opened Wrappers

  // ---------------------------------------------------------------------
  // Decimal digits
  // ---------------------------------------------------------------------

  predicate IsDigit(c: char) { '0' <= c <= '9' }

  predicate AllDigits(s: string) { forall i :: 0 <= i < |s| ==> IsDigit(s[i]) }

  /** The value of a run of decimal digits (leading zeros allowed). */
  function DigitsValue(s: string): nat
    requires AllDigits(s)
  {
    if |s| == 0 then 0 else 10 * DigitsValue(s[..|s| - 1]) + (s[|s| - 1] as int - '0' as int)
  }

  /** Decimal rendering of a natural number, as printf's "%d" writes it. */
  function NatToString(n: nat): (r: string)
    ensures |r| > 0 && AllDigits(r)
    ensures DigitsValue(r) == n
    ensures |r| > 1 ==> r[0] != '0'
  {
    if n < 10 then [('0' as int + n) as char]
    else
      var prefix := NatToString(n / 10);
      var r := prefix + [('0' as int + n % 10) as char];
      assert r[..|r| - 1] == prefix;
      r
  }

  /** Decimal rendering of an integer with a leading '-' when negative. */
  function IntToString(i: int): (r: string)
    ensures |r| > 0
    ensures i < 0 ==> r[0] == '-' && AllDigits(r[1..]) && DigitsValue(r[1..]) == -i
    ensures i >= 0 ==> AllDigits(r) && DigitsValue(r) == i
  {
    if i < 0 then
      var r := "-" + NatToString(-i);
      assert r[1..] == NatToString(-i);
      r
    else NatToString(i)
  }

  /** Length of the maximal run of digits at the start of s. */
  function DigitRun(s: string): (n: nat)
    ensures n <= |s| && AllDigits(s[..n])
    ensures n < |s| ==> !IsDigit(s[n])
  {
    if |s| > 0 && IsDigit(s[0]) then
      var n := 1 + DigitRun(s[1..]);
      assert s[..n] == [s[0]] + s[1..][..n - 1];
      n
    else 0
  }

  lemma {:induction false} DigitRunOfDigitsThenOther(d: string, t: string)
    requires AllDigits(d)
    requires |t| > 0 ==> !IsDigit(t[0])
    ensures DigitRun(d + t) == |d|
    decreases |d|
  {
    if |d| > 0 {
      assert (d + t)[1..] == d[1..] + t;
      DigitRunOfDigitsThenOther(d[1..], t);
    }
  }

  // ---------------------------------------------------------------------
  // Substring search
  // ---------------------------------------------------------------------

  predicate OccursAt(s: string, pat: string, i: int)
  {
    0 <= i && i + |pat| <= |s| && s[i..i + |pat|] == pat
  }

  /** Python's `pat in s` and C's `strstr(s, pat) != NULL`. */
  predicate Contains(s: string, pat: string)
  {
    exists i :: 0 <= i <= |s| && OccursAt(s, pat, i)
  }

  predicate HasChar(s: string, c: char)
  {
    exists i :: 0 <= i < |s| && s[i] == c
  }

  /** The first occurrence of pat in s at or after `from` (C's strstr / Java's indexOf). */
  function IndexOf(s: string, pat: string, from: nat): (r: Option<nat>)
    ensures r.Some? ==> from <= r.value && OccursAt(s, pat, r.value)
    ensures r.Some? ==> forall j :: from <= j < r.value ==> !OccursAt(s, pat, j)
    ensures r.None? ==> forall j :: from <= j ==> !OccursAt(s, pat, j)
    decreases |s| - from
  {
    if from + |pat| > |s| then None
    else if s[from..from + |pat|] == pat then Some(from)
    else IndexOf(s, pat, from + 1)
  }

  /** A found occurrence is the one IndexOf reports when nothing earlier matches. */
  lemma IndexOfIs(s: string, pat: string, from: nat, i: nat)
    requires from <= i && OccursAt(s, pat, i)
    requires forall j :: from <= j < i ==> !OccursAt(s, pat, j)
    ensures IndexOf(s, pat, from) == Some(i)
  {
  }

  // ---------------------------------------------------------------------
  // Trimming
  // ---------------------------------------------------------------------

  /** C's isspace in the "C" locale. */
  predicate CIsSpace(c: char) { c == ' ' || '\t' <= c <= '\r' }

  /** Python's str.isspace on ASCII: the C set plus the separators 0x1C..0x1F. */
  predicate PyIsSpace(c: char) { CIsSpace(c) || '\U{1c}' <= c <= '\U{1f}' }

  /** Java's String.trim drops every character at or below U+0020. */
  predicate JavaTrimmable(c: char) { c <= ' ' }

  /** Which characters a strip operation removes. */
  datatype Strip = CWhitespace | PyWhitespace | JavaBlank | Slash | DoubleQuote

  predicate Drops(k: Strip, c: char)
  {
    match k
    case CWhitespace => CIsSpace(c)
    case PyWhitespace => PyIsSpace(c)
    case JavaBlank => JavaTrimmable(c)
    case Slash => c == '/'
    case DoubleQuote => c == '"'
  }

  predicate DroppedFront(s: string, t: string, drop: Strip)
  {
    |t| <= |s| && t == s[|s| - |t|..] && forall i :: 0 <= i < |s| - |t| ==> Drops(drop, s[i])
  }

  predicate DroppedBack(t: string, r: string, drop: Strip)
  {
    |r| <= |t| && r == t[..|r|] && forall i :: |r| <= i < |t| ==> Drops(drop, t[i])
  }

  function TrimStart(s: string, drop: Strip): (r: string)
    ensures DroppedFront(s, r, drop)
    ensures |r| > 0 ==> !Drops(drop, r[0])
    decreases |s|
  {
    if |s| > 0 && Drops(drop, s[0]) then
      var r := TrimStart(s[1..], drop);
      assert forall i :: 1 <= i < |s| - |r| ==> s[i] == s[1..][i - 1];
      r
    else s
  }

  function TrimEnd(s: string, drop: Strip): (r: string)
    ensures DroppedBack(s, r, drop)
    ensures |r| > 0 ==> !Drops(drop, r[|r| - 1])
    decreases |s|
  {
    if |s| > 0 && Drops(drop, s[|s| - 1]) then
      var r := TrimEnd(s[..|s| - 1], drop);
      assert forall i :: |r| <= i < |s| - 1 ==> s[i] == s[..|s| - 1][i];
      r
    else s
  }

  /** r is s with a characters dropped at the front and the rest after r dropped at the back. */
  ghost predicate TrimmedFrom(s: string, r: string, drop: Strip, a: int)
  {
    && 0 <= a <= |s| - |r|
    && r == s[a..a + |r|]
    && (forall i :: 0 <= i < a ==> Drops(drop, s[i]))
    && (forall i :: a + |r| <= i < |s| ==> Drops(drop, s[i]))
  }

  /** Both ends: Python's strip() and Java's trim(), depending on the strip kind. */
  function Trim(s: string, drop: Strip): (r: string)
    ensures |r| > 0 ==> !Drops(drop, r[0]) && !Drops(drop, r[|r| - 1])
  {
    var t := TrimStart(s, drop);
    TrimEnd(t, drop)
  }

  lemma TrimSpec(s: string, drop: Strip)
    ensures TrimmedFrom(s, Trim(s, drop), drop, |s| - |TrimStart(s, drop)|)
  {
    TrimEndInside(s, TrimStart(s, drop), Trim(s, drop), drop);
  }

  lemma TrimEndInside(s: string, t: string, r: string, drop: Strip)
    requires DroppedFront(s, t, drop) && DroppedBack(t, r, drop)
    ensures TrimmedFrom(s, r, drop, |s| - |t|)
  {
    var a := |s| - |t|;
    assert r == s[a..a + |r|];
    forall i | a + |r| <= i < |s|
      ensures Drops(drop, s[i])
    {
      assert s[i] == t[i - a];
    }
  }

  lemma TrimUntouched(s: string, drop: Strip)
    requires |s| > 0 ==> !Drops(drop, s[0]) && !Drops(drop, s[|s| - 1])
    ensures Trim(s, drop) == s
  {
  }

  /** A droppable first character comes off the front. */
  lemma TrimStartDrop(c: char, t: string, drop: Strip)
    requires Drops(drop, c)
    ensures TrimStart([c] + t, drop) == TrimStart(t, drop)
  {
    assert ([c] + t)[1..] == t;
  }

  /** A droppable last character comes off the back. */
  lemma TrimEndDrop(t: string, d: char, drop: Strip)
    requires Drops(drop, d)
    ensures TrimEnd(t + [d], drop) == TrimEnd(t, drop)
  {
    assert (t + [d])[..|t|] == t;
  }

  /** Trimming s + [d] at the front trims s there, when s does not start droppable. */
  lemma TrimStartOfSnoc(s: string, d: char, drop: Strip)
    requires Drops(drop, d)
    requires |s| > 0 ==> !Drops(drop, s[0])
    ensures TrimStart(s + [d], drop) == if |s| == 0 then [] else s + [d]
  {
    if |s| == 0 {
      assert s + [d] == [d] + [];
      TrimStartDrop(d, [], drop);
    } else {
      assert (s + [d])[0] == s[0];
    }
  }

  /** One droppable character in front of s and one behind it come off. */
  lemma TrimAround(c: char, s: string, d: char, drop: Strip)
    requires Drops(drop, c) && Drops(drop, d)
    requires |s| > 0 ==> !Drops(drop, s[0]) && !Drops(drop, s[|s| - 1])
    ensures Trim([c] + s + [d], drop) == s
  {
    var x := [c] + s + [d];
    var t := TrimStart(x, drop);
    assert t == if |s| == 0 then [] else s + [d] by {
      assert x == [c] + (s + [d]);
      TrimStartDrop(c, s + [d], drop);
      TrimStartOfSnoc(s, d, drop);
    }
    assert TrimEnd(t, drop) == s by {
      if |s| > 0 {
        TrimEndDrop(s, d, drop);
      }
    }
  }

  /** A droppable character in front of s comes off. */
  lemma TrimBefore(c: char, s: string, drop: Strip)
    requires Drops(drop, c)
    requires |s| > 0 ==> !Drops(drop, s[0]) && !Drops(drop, s[|s| - 1])
    ensures Trim([c] + s, drop) == s
  {
    TrimStartDrop(c, s, drop);
  }

  /** A droppable character behind s comes off. */
  lemma TrimBehind(s: string, d: char, drop: Strip)
    requires Drops(drop, d)
    requires |s| > 0 ==> !Drops(drop, s[0]) && !Drops(drop, s[|s| - 1])
    ensures Trim(s + [d], drop) == s
  {
    TrimStartOfSnoc(s, d, drop);
    if |s| > 0 {
      TrimEndDrop(s, d, drop);
    }
  }

  // ---------------------------------------------------------------------
  // Replace-all (Java String.replace, Python str.replace)
  // ---------------------------------------------------------------------

  /** Replaces the leftmost non-overlapping occurrences of pat, scanning once
      from left to right; replacements are not rescanned. */
  function ReplaceAll(s: string, pat: string, rep: string): string
    requires |pat| > 0
  {
    if |s| < |pat| then s
    else if s[..|pat|] == pat then rep + ReplaceAll(s[|pat|..], pat, rep)
    else [s[0]] + ReplaceAll(s[1..], pat, rep)
  }

  /** Text in which no occurrence starts is copied unchanged in front of the rest. */
  lemma {:induction false} ReplaceAllSkipsPrefix(a: string, b: string, pat: string, rep: string)
    requires |pat| > 0
    requires forall i :: 0 <= i < |a| ==> !OccursAt(a + b, pat, i)
    ensures ReplaceAll(a + b, pat, rep) == a + ReplaceAll(b, pat, rep)
    decreases |a|
  {
    if |a| == 0 {
      assert a + b == b;
    } else {
      var s := a + b;
      if |s| < |pat| {
        assert |b| < |pat|;
      } else {
        var t := a[1..] + b;
        assert s[1..] == t;
        ReplaceAllHead(s, pat, rep);
        NoOccurrenceShifts(a, b, pat);
        ReplaceAllSkipsPrefix(a[1..], b, pat, rep);
        assert a == [a[0]] + a[1..];
      }
    }
  }

  lemma ReplaceAllHead(s: string, pat: string, rep: string)
    requires 0 < |pat| <= |s| && !OccursAt(s, pat, 0)
    ensures ReplaceAll(s, pat, rep) == [s[0]] + ReplaceAll(s[1..], pat, rep)
  {
    assert s[..|pat|] == s[0..|pat|];
  }

  lemma NoOccurrenceShifts(a: string, b: string, pat: string)
    requires |a| > 0
    requires forall i :: 0 <= i < |a| ==> !OccursAt(a + b, pat, i)
    ensures forall i :: 0 <= i < |a| - 1 ==> !OccursAt(a[1..] + b, pat, i)
  {
    var s := a + b;
    var t := a[1..] + b;
    forall i | 0 <= i < |a| - 1
      ensures !OccursAt(t, pat, i)
    {
      assert !OccursAt(s, pat, i + 1);
      if i + |pat| <= |t| {
        assert s[i + 1..i + 1 + |pat|] == t[i..i + |pat|];
      }
    }
  }

  lemma ReplaceAllNoOccurrence(s: string, pat: string, rep: string)
    requires |pat| > 0
    requires forall i :: 0 <= i < |s| ==> !OccursAt(s, pat, i)
    ensures ReplaceAll(s, pat, rep) == s
  {
    assert s + "" == s;
    ReplaceAllSkipsPrefix(s, "", pat, rep);
  }

  /** Deleting every occurrence of a one-character pattern leaves none of it. */
  lemma {:induction false} RemoveCharRemovesAll(s: string, c: char)
    ensures !HasChar(ReplaceAll(s, [c], ""), c)
    decreases |s|
  {
    if |s| >= 1 {
      RemoveCharRemovesAll(s[1..], c);
      if s[..1] != [c] {
        assert s[0] != c;
        var r := [s[0]] + ReplaceAll(s[1..], [c], "");
        assert forall i :: 1 <= i < |r| ==> r[i] == ReplaceAll(s[1..], [c], "")[i - 1];
      }
    }
  }

  // ---------------------------------------------------------------------
  // Joining
  // ---------------------------------------------------------------------

  /** Items separated by sep (Python's sep.join). */
  function Join(items: seq<string>, sep: string): string
  {
    if |items| == 0 then ""
    else if |items| == 1 then items[0]
    else Join(items[..|items| - 1], sep) + sep + items[|items| - 1]
  }

  /** The text between the first and the last character, as between the
      brackets of a JSON array. */
  function Inner(body: string): string
    requires |body| >= 2
  {
    body[1..|body| - 1]
  }

  predicate IsPrefixOf(p: string, s: string) { |p| <= |s| && s[..|p|] == p }

  function Flatten(parts: seq<string>): string
  {
    if |parts| == 0 then "" else Flatten(parts[..|parts| - 1]) + parts[|parts| - 1]
  }

  function TotalLength(parts: seq<string>): nat
  {
    if |parts| == 0 then 0 else TotalLength(parts[..|parts| - 1]) + |parts[|parts| - 1]|
  }

  /** Python's str.split with a one-character separator: every separator
      ends an item, so n separators give n + 1 items (some maybe empty). */
  function SplitOn(s: string, c: char): (r: seq<string>)
    ensures |r| > 0
  {
    if |s| == 0 then [""]
    else if s[0] == c then [""] + SplitOn(s[1..], c)
    else
      var rest := SplitOn(s[1..], c);
      [[s[0]] + rest[0]] + rest[1..]
  }

  lemma {:induction false} SplitOnNoSeparator(s: string, c: char)
    requires !HasChar(s, c)
    ensures SplitOn(s, c) == [s]
    decreases |s|
  {
    if |s| > 0 {
      SplitOnNoSeparator(s[1..], c);
      assert s == [s[0]] + s[1..];
    }
  }

  /** Splitting at a separator splits the two sides independently. */
  lemma {:induction false} SplitOnConcat(a: string, b: string, c: char)
    ensures SplitOn(a + [c] + b, c) == SplitOn(a, c) + SplitOn(b, c)
    decreases |a|
  {
    if |a| == 0 {
      assert a + [c] + b == [c] + b;
      assert ([c] + b)[1..] == b;
    } else {
      var t := a + [c] + b;
      assert t[0] == a[0];
      assert t[1..] == a[1..] + [c] + b;
      SplitOnConcat(a[1..], b, c);
    }
  }

  /** Joining items that do not contain the separator and splitting again
      gives the items back. */
  lemma {:induction false} SplitOnJoin(items: seq<string>, c: char)
    requires |items| > 0
    requires forall i :: 0 <= i < |items| ==> !HasChar(items[i], c)
    ensures SplitOn(Join(items, [c]), c) == items
    decreases |items|
  {
    var n := |items|;
    if n == 1 {
      SplitOnNoSeparator(items[0], c);
    } else {
      var init := items[..n - 1];
      SplitOnJoin(init, c);
      SplitOnConcat(Join(init, [c]), items[n - 1], c);
      SplitOnNoSeparator(items[n - 1], c);
      assert init + [items[n - 1]] == items;
    }
  }
}
