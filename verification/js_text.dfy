/** The pieces of JavaScript's string handling that the calculator relies
    on: the `\s` character class, `split(/\s+/)`, `parseInt(s, 10)` and the
    decimal rendering of an integer by `toString`. JavaScript strings are
    sequences of UTF-16 code units, while a Dafny `char` is a Unicode scalar
    value; the difference does not reach `\s` or `\d`, whose characters all
    lie in the Basic Multilingual Plane. */
module JsText {
  import opened Wrappers

  /** The characters matched by `\s` (WhiteSpace and LineTerminator), which
      are also the ones `parseInt` strips from the front of its argument. */
  predicate IsWs(c: char)
  {
    || c == '\t' || c == '\n' || c == '\U{000B}' || c == '\U{000C}' || c == '\r'
    || c == ' ' || c == '\U{00A0}' || c == '\U{1680}'
    || ('\U{2000}' <= c <= '\U{200A}')
    || c == '\U{2028}' || c == '\U{2029}' || c == '\U{202F}' || c == '\U{205F}'
    || c == '\U{3000}' || c == '\U{FEFF}'
  }

  predicate NoWs(s: string)
  {
    forall i :: 0 <= i < |s| ==> !IsWs(s[i])
  }

  /** The characters matched by `\d` (ASCII digits only). */
  predicate IsDigit(c: char)
  {
    '0' <= c <= '9'
  }

  predicate AllWs(s: string)
  {
    forall i :: 0 <= i < |s| ==> IsWs(s[i])
  }

  predicate AllDigits(s: string)
  {
    forall i :: 0 <= i < |s| ==> IsDigit(s[i])
  }

  predicate HasDigit(s: string)
  {
    exists i :: 0 <= i < |s| && IsDigit(s[i])
  }

  function DigitValue(c: char): nat
    requires IsDigit(c)
  {
    c as int - '0' as int
  }

  function DigitChar(d: nat): (c: char)
    requires d < 10
    ensures IsDigit(c) && DigitValue(c) == d
  {
    ('0' as int + d) as char
  }

  /** The number a string of decimal digits denotes. */
  function DigitsValue(s: string): nat
    requires AllDigits(s)
  {
    if |s| == 0 then 0 else DigitsValue(s[..|s| - 1]) * 10 + DigitValue(s[|s| - 1])
  }

  /** Every character of `s[lo..hi]` is a digit. */
  predicate DigitsBetween(s: string, lo: nat, hi: nat)
    requires lo <= hi <= |s|
  {
    forall i :: lo <= i < hi ==> IsDigit(s[i])
  }

  /** Every character of `s[lo..hi]` is whitespace. */
  predicate WsBetween(s: string, lo: nat, hi: nat)
    requires lo <= hi <= |s|
  {
    forall i :: lo <= i < hi ==> IsWs(s[i])
  }

  /** Where a greedy `\d+` (or `\d*`) starting at `p` stops. */
  function DigitsEnd(s: string, p: nat): (e: nat)
    requires p <= |s|
    ensures p <= e <= |s| && DigitsBetween(s, p, e)
    ensures e < |s| ==> !IsDigit(s[e])
    decreases |s| - p
  {
    if p < |s| && IsDigit(s[p]) then DigitsEnd(s, p + 1) else p
  }

  /** Where a greedy `\s*` starting at `p` stops. */
  function WsEnd(s: string, p: nat): (e: nat)
    requires p <= |s|
    ensures p <= e <= |s| && WsBetween(s, p, e)
    ensures e < |s| ==> !IsWs(s[e])
    decreases |s| - p
  {
    if p < |s| && IsWs(s[p]) then WsEnd(s, p + 1) else p
  }

  lemma {:induction false} DigitsEndExact(s: string, p: nat, k: nat)
    requires p <= k <= |s| && DigitsBetween(s, p, k)
    requires k == |s| || !IsDigit(s[k])
    ensures DigitsEnd(s, p) == k
    decreases k - p
  {
    if p < k {
      DigitsEndExact(s, p + 1, k);
    }
  }

  lemma {:induction false} DigitsEndAtLeast(s: string, p: nat, k: nat)
    requires p <= k <= |s| && DigitsBetween(s, p, k)
    ensures DigitsEnd(s, p) >= k
    decreases k - p
  {
    if p < k {
      DigitsEndAtLeast(s, p + 1, k);
    }
  }

  lemma {:induction false} WsEndExact(s: string, p: nat, k: nat)
    requires p <= k <= |s| && WsBetween(s, p, k) && (k == |s| || !IsWs(s[k]))
    ensures WsEnd(s, p) == k
    decreases k - p
  {
    if p < k {
      WsEndExact(s, p + 1, k);
    }
  }

  lemma DigitsBetweenSlice(s: string, lo: nat, hi: nat)
    requires lo <= hi <= |s| && DigitsBetween(s, lo, hi)
    ensures AllDigits(s[lo..hi])
  {
    assert forall i :: 0 <= i < hi - lo ==> s[lo..hi][i] == s[lo + i];
  }

  /** `s` without its leading whitespace. */
  function SkipWs(s: string): (r: string)
  {
    s[WsEnd(s, 0)..]
  }

  /** `s` without its trailing whitespace. */
  function TrimTrailingWs(s: string): (r: string)
    ensures |r| <= |s| && r == s[..|r|]
    ensures |r| == 0 || !IsWs(r[|r| - 1])
    ensures forall i :: |r| <= i < |s| ==> IsWs(s[i])
  {
    if |s| > 0 && IsWs(s[|s| - 1]) then TrimTrailingWs(s[..|s| - 1]) else s
  }

  /** Position of the first occurrence of `c`. */
  function IndexOf(s: string, c: char): (r: Option<nat>)
    ensures r.Some? ==> r.value < |s| && s[r.value] == c && c !in s[..r.value]
    ensures r.None? ==> c !in s
  {
    if |s| == 0 then None
    else if s[0] == c then Some(0)
    else match IndexOf(s[1..], c)
      case Some(i) => Some(i + 1)
      case None => None
  }

  // ---------------------------------------------------------------------
  // split(/\s+/)

  /** `s.split(/\s+/)`: the pieces between maximal runs of whitespace. A
      leading or trailing run leaves an empty first or last piece, and the
      empty string splits to one empty piece. */
  function SplitWs(s: string): (r: seq<string>)
    ensures |r| >= 1
    ensures forall i :: 0 <= i < |r| ==> NoWs(r[i])
    ensures forall i :: 0 < i < |r| - 1 ==> r[i] != ""
    ensures r[0] == "" <==> |s| == 0 || IsWs(s[0])
    ensures r[|r| - 1] == "" <==> |s| == 0 || IsWs(s[|s| - 1])
    decreases |s|
  {
    if |s| == 0 then [""]
    else if IsWs(s[0]) then [""] + SplitWs(SkipWs(s))
    else
      var rest := SplitWs(s[1..]);
      [[s[0]] + rest[0]] + rest[1..]
  }

  lemma {:induction false} SplitWsPrefix(t: string, u: string)
    requires NoWs(t) && |t| >= 1
    ensures SplitWs(t + u) == [t + SplitWs(u)[0]] + SplitWs(u)[1..]
    decreases |t|
  {
    assert (t + u)[1..] == t[1..] + u;
    if |t| > 1 {
      SplitWsPrefix(t[1..], u);
      assert [t[0]] + (t[1..] + SplitWs(u)[0]) == t + SplitWs(u)[0];
    } else {
      assert t[1..] + u == u;
      assert [t[0]] + SplitWs(u)[0] == t + SplitWs(u)[0];
    }
  }

  /** A leading whitespace run, however long and whatever it is made of,
      leaves one empty piece. */
  lemma SplitWsLeadingRun(w: string, u: string)
    requires |w| >= 1 && AllWs(w)
    requires |u| == 0 || !IsWs(u[0])
    ensures SplitWs(w + u) == [""] + SplitWs(u)
  {
    var v := w + u;
    assert WsEnd(v, 0) == |w| by {
      assert forall i :: 0 <= i < |w| ==> v[i] == w[i];
      assert |w| < |v| ==> v[|w|] == u[0];
      WsEndExact(v, 0, |w|);
    }
    assert v[|w|..] == u;
    assert IsWs(v[0]);
  }

  /** A whitespace run separates the text before it from the text after it,
      and leaves no trace in the pieces. */
  lemma SplitWsAfterRun(t: string, w: string, u: string)
    requires NoWs(t)
    requires |w| >= 1 && AllWs(w)
    requires |u| == 0 || !IsWs(u[0])
    ensures SplitWs(t + (w + u)) == [t] + SplitWs(u)
  {
    if |t| >= 1 {
      SplitWsPrefixRun(t, w, u);
    } else {
      assert t + (w + u) == w + u;
      SplitWsLeadingRun(w, u);
    }
  }

  lemma SplitWsPrefixRun(t: string, w: string, u: string)
    requires NoWs(t) && |t| >= 1
    requires |w| >= 1 && AllWs(w)
    requires |u| == 0 || !IsWs(u[0])
    ensures SplitWs(t + (w + u)) == [t] + SplitWs(u)
  {
    var r := SplitWs(w + u);
    SplitWsLeadingRun(w, u);
    SplitWsPrefix(t, w + u);
    assert t + r[0] == t;
    assert r[1..] == SplitWs(u);
  }

  /** The pieces joined back with any non-empty whitespace run between
      consecutive pieces: `gaps[i]` separates `ts[i]` from `ts[i + 1]`. */
  function JoinWithRuns(ts: seq<string>, gaps: seq<string>): string
    requires |ts| >= 1 && |gaps| == |ts| - 1
  {
    if |ts| == 1 then ts[0] else ts[0] + (gaps[0] + JoinWithRuns(ts[1..], gaps[1..]))
  }

  /** Splitting recovers the pieces whatever whitespace runs separate them:
      tabs, newlines and repeated spaces split exactly like one space. */
  lemma {:induction false} SplitJoinRunsRoundTrip(ts: seq<string>, gaps: seq<string>)
    requires |ts| >= 1 && |gaps| == |ts| - 1
    requires forall i :: 0 <= i < |ts| ==> NoWs(ts[i])
    requires forall i :: 0 < i < |ts| - 1 ==> ts[i] != ""
    requires forall i :: 0 <= i < |gaps| ==> |gaps[i]| >= 1 && AllWs(gaps[i])
    ensures SplitWs(JoinWithRuns(ts, gaps)) == ts
  {
    if |ts| == 1 {
      SplitWsSingle(ts[0]);
    } else {
      var rest, more := ts[1..], gaps[1..];
      var u := JoinWithRuns(rest, more);
      assert JoinWithRuns(ts, gaps) == ts[0] + (gaps[0] + u);
      assert SplitWs(u) == rest by {
        assert forall i :: 0 <= i < |rest| ==> rest[i] == ts[i + 1];
        assert forall i :: 0 <= i < |more| ==> more[i] == gaps[i + 1];
        SplitJoinRunsRoundTrip(rest, more);
      }
      assert |u| == 0 || !IsWs(u[0]) by {
        JoinRunsHead(rest, more);
      }
      SplitWsAfterRun(ts[0], gaps[0], u);
      assert [ts[0]] + rest == ts;
    }
  }

  lemma JoinRunsHead(ts: seq<string>, gaps: seq<string>)
    requires |ts| >= 1 && |gaps| == |ts| - 1 && NoWs(ts[0])
    requires |ts| >= 2 ==> ts[0] != ""
    ensures |JoinWithRuns(ts, gaps)| == 0 || !IsWs(JoinWithRuns(ts, gaps)[0])
  {
    if |ts| >= 2 {
      assert JoinWithRuns(ts, gaps)[0] == ts[0][0];
    }
  }

  /** Text without whitespace is one piece. */
  lemma SplitWsSingle(t: string)
    requires NoWs(t)
    ensures SplitWs(t) == [t]
  {
    if |t| >= 1 {
      SplitWsPrefix(t, "");
      assert t + "" == t;
    }
  }

  // ---------------------------------------------------------------------
  // Integer to decimal text and back

  /** The decimal digits of a natural number, without leading zeros. */
  function NatToString(n: nat): (s: string)
    ensures |s| >= 1 && AllDigits(s) && DigitsValue(s) == n
    ensures |s| > 1 ==> s[0] != '0'
  {
    if n < 10 then [DigitChar(n)]
    else
      var s := NatToString(n / 10) + [DigitChar(n % 10)];
      assert s[..|s| - 1] == NatToString(n / 10);
      s
  }

  /** `toString` of an integer-valued number: an optional minus sign, then
      the digits. (Exponent notation, used from 1e21 on, is not modelled.) */
  function IntToString(i: int): string
  {
    if i < 0 then "-" + NatToString(-i) else NatToString(i)
  }

  /** `parseInt(s, 10)`: skip leading whitespace, read an optional sign and
      then the longest run of digits; no digits gives NaN (here None). */
  function ParseInt(s: string): (r: Option<int>)
    ensures r.Some? && r.value < 0 ==> WsEnd(s, 0) < |s| && s[WsEnd(s, 0)] == '-'
  {
    var t := WsEnd(s, 0);
    if t < |s| && s[t] == '-' then
      match DigitRunValue(s, t + 1)
      case Some(m) => Some(-(m as int))
      case None => None
    else if t < |s| && s[t] == '+' then DigitRunValue(s, t + 1)
    else DigitRunValue(s, t)
  }

  /** `parseInt` of text without a digit is NaN. */
  lemma ParseIntNeedsDigit(s: string)
    ensures ParseInt(s).Some? ==> HasDigit(s)
  {
    var t := WsEnd(s, 0);
    var p := if t < |s| && (s[t] == '-' || s[t] == '+') then t + 1 else t;
    assert ParseInt(s).Some? ==> DigitRunValue(s, p).Some?;
  }

  /** The value of the digits that start at `p`, if any do. */
  function DigitRunValue(s: string, p: nat): (r: Option<nat>)
    requires p <= |s|
    ensures r.Some? ==> p < |s| && IsDigit(s[p])
  {
    var e := DigitsEnd(s, p);
    if e == p then None
    else
      DigitsBetweenSlice(s, p, e);
      Some(DigitsValue(s[p..e]))
  }

  /** The text `toString` writes for an integer, with no whitespace, no slash
      and a digit at each end of the digits. */
  lemma IntToStringShape(i: int)
    ensures var s := IntToString(i);
      |s| >= 1 && NoWs(s) && '/' !in s && IsDigit(s[|s| - 1]) && !IsWs(s[0])
  {
  }

  /** `parseInt` reads back what `toString` wrote for an integer, whatever
      non-digit text follows it. */
  lemma ParseIntRoundTrip(i: int, tail: string)
    requires |tail| == 0 || !IsDigit(tail[0])
    ensures ParseInt(IntToString(i) + tail) == Some(i)
  {
    if i < 0 {
      var d := NatToString(-i);
      var s := IntToString(i) + tail;
      assert |s| >= 1 && s[0] == '-' && s[1..] == d + tail by {
        assert IntToString(i) == "-" + d;
        DropSign(d, tail);
      }
      ParseNegativeDigits(s, d, tail);
    } else {
      ParseDigits(NatToString(i), tail);
    }
  }

  lemma DropSign(d: string, tail: string)
    ensures var s := "-" + d + tail;
      |s| >= 1 && s[0] == '-' && s[1..] == d + tail
  {
  }

  /** `parseInt` of a run of digits followed by something other than a
      digit. */
  lemma ParseDigits(d: string, tail: string)
    requires |d| >= 1 && AllDigits(d)
    requires |tail| == 0 || !IsDigit(tail[0])
    ensures ParseInt(d + tail) == Some(DigitsValue(d))
  {
    var u := d + tail;
    assert DigitsEnd(u, 0) == |d| by {
      assert forall i :: 0 <= i < |d| ==> u[i] == d[i];
      DigitsEndExact(u, 0, |d|);
    }
    assert u[0..|d|] == d;
    ParseUnsignedAt(u, |d|);
  }

  /** The same after a minus sign. */
  lemma ParseNegativeDigits(s: string, d: string, tail: string)
    requires |d| >= 1 && AllDigits(d)
    requires |tail| == 0 || !IsDigit(tail[0])
    requires |s| >= 1 && s[0] == '-' && s[1..] == d + tail
    ensures ParseInt(s) == Some(-(DigitsValue(d) as int))
  {
    assert DigitsEnd(s, 1) == |d| + 1 by {
      assert forall i :: 1 <= i <= |d| ==> s[i] == d[i - 1];
      DigitsEndExact(s, 1, |d| + 1);
    }
    assert s[1..|d| + 1] == d;
    ParseNegativeAt(s, |d| + 1);
  }

  /** Text that starts with digits reads as those digits. */
  lemma ParseUnsignedAt(s: string, e: nat)
    requires 0 < e <= |s| && DigitsEnd(s, 0) == e
    ensures AllDigits(s[0..e]) && ParseInt(s) == Some(DigitsValue(s[0..e]))
  {
    assert WsEnd(s, 0) == 0 by {
      assert !IsWs(s[0]);
    }
    DigitsBetweenSlice(s, 0, e);
    assert DigitRunValue(s, 0) == Some(DigitsValue(s[0..e]));
  }

  /** Text that starts with a minus sign and digits reads as the negated
      digits. */
  lemma ParseNegativeAt(s: string, e: nat)
    requires 1 < e <= |s| && s[0] == '-' && DigitsEnd(s, 1) == e
    ensures AllDigits(s[1..e]) && ParseInt(s) == Some(-(DigitsValue(s[1..e]) as int))
  {
    assert WsEnd(s, 0) == 0 by {
      assert !IsWs(s[0]);
    }
    DigitsBetweenSlice(s, 1, e);
    assert DigitRunValue(s, 1) == Some(DigitsValue(s[1..e]));
  }
}
