/** The value of one input field (the token fold inside `parseInputValues`
    in main.ts): the field is split on whitespace runs, and the tokens are
    added from left to right starting at 0. A token holding
    `(\d+)\s*\/\s*(\d+)` anywhere contributes numerator/denominator of the
    first match; any other token contributes `parseFloat(token)`. */
module InputParser {
  import opened Wrappers
  import opened JsNumber
  import opened JsText

  /** Where the fraction pattern matched: the numerator digits are
      `s[start..numEnd]`, the slash is at `slash`, and the denominator digits
      are `s[denStart..denEnd]`. */
  datatype FractionMatch = FractionMatch(start: nat, numEnd: nat, slash: nat, denStart: nat, denEnd: nat)


  /** The text at `m` has the pattern's shape: digits, optional whitespace,
      a slash, optional whitespace, digits. */
  predicate Layout(s: string, m: FractionMatch)
  {
    && m.start < m.numEnd <= m.slash < m.denStart < m.denEnd <= |s|
    && DigitsBetween(s, m.start, m.numEnd)
    && WsBetween(s, m.numEnd, m.slash)
    && s[m.slash] == '/'
    && WsBetween(s, m.slash + 1, m.denStart)
    && DigitsBetween(s, m.denStart, m.denEnd)
  }

  /** The pattern tried at position `p`. Each `\d+` and `\s*` takes as much
      as it can; giving any of it back cannot help, because the character
      that stopped it is never the one the next part of the pattern needs. */
  function MatchAt(s: string, p: nat): (r: Option<FractionMatch>)
    requires p <= |s|
    ensures r.Some? ==> r.value.start == p && Layout(s, r.value)
    ensures r.Some? ==> r.value.denEnd == |s| || !IsDigit(s[r.value.denEnd])
    ensures p == |s| || !IsDigit(s[p]) ==> r.None?
  {
    var a := DigitsEnd(s, p);
    if a == p then None
    else
      var b := WsEnd(s, a);
      if b == |s| || s[b] != '/' then None
      else
        var c := WsEnd(s, b + 1);
        var e := DigitsEnd(s, c);
        if e == c then None
        else Some(FractionMatch(p, a, b, c, e))
  }

  /** Wherever the text has the pattern's shape, the pattern matches there,
      with the same numerator, slash and start of the denominator, and a
      denominator at least as long. */
  lemma MatchAtComplete(s: string, m: FractionMatch)
    requires Layout(s, m)
    ensures MatchAt(s, m.start).Some?
    ensures var r := MatchAt(s, m.start).value;
      r.numEnd == m.numEnd && r.slash == m.slash && r.denStart == m.denStart && r.denEnd >= m.denEnd
  {
    assert IsWs(s[m.numEnd]) || s[m.numEnd] == '/';
    DigitsEndExact(s, m.start, m.numEnd);
    WsEndExact(s, m.numEnd, m.slash);
    WsEndExact(s, m.slash + 1, m.denStart);
    DigitsEndAtLeast(s, m.denStart, m.denEnd);
  }

  /** Where the text has the pattern's shape and the denominator cannot be
      extended, the pattern matches there with exactly that shape. */
  lemma MatchAtExact(s: string, m: FractionMatch)
    requires Layout(s, m) && (m.denEnd == |s| || !IsDigit(s[m.denEnd]))
    ensures MatchAt(s, m.start) == Some(m)
  {
    assert IsWs(s[m.numEnd]) || s[m.numEnd] == '/';
    DigitsEndExact(s, m.start, m.numEnd);
    WsEndExact(s, m.numEnd, m.slash);
    WsEndExact(s, m.slash + 1, m.denStart);
    DigitsEndExact(s, m.denStart, m.denEnd);
  }

  lemma MatchNeedsSlashAndDigit(s: string, q: nat)
    requires q <= |s|
    ensures MatchAt(s, q).Some? ==> '/' in s && q < |s| && IsDigit(s[q])
  {
  }

  /** Text without a slash, or without a digit, holds no fraction. */
  lemma NoFractionWithoutSlashOrDigit(s: string)
    ensures '/' !in s || (forall i :: 0 <= i < |s| ==> !IsDigit(s[i])) ==> FirstMatch(s, 0) == None
  {
    if '/' !in s || forall i :: 0 <= i < |s| ==> !IsDigit(s[i]) {
      forall q | 0 <= q < |s|
        ensures MatchAt(s, q).None?
      {
        MatchNeedsSlashAndDigit(s, q);
      }
      FirstMatchSkips(s, 0, |s|);
    }
  }

  /** The pattern tried at each position of `s` (nothing past its end). */
  function Matcher(s: string): nat -> Option<FractionMatch>
  {
    (q: nat) => if q <= |s| then MatchAt(s, q) else None
  }

  /** The first position in `p..n` where `f` finds something. */
  function FirstFound<T>(f: nat -> Option<T>, p: nat, n: nat): (r: Option<nat>)
    ensures r.Some? ==> p <= r.value < n && f(r.value).Some?
    decreases n - p
  {
    if p >= n then None
    else if f(p).Some? then Some(p)
    else FirstFound(f, p + 1, n)
  }

  /** Nothing is found before the first find, and when nothing is found,
      `f` finds nothing anywhere in `p..n`. */
  lemma {:induction false} FirstFoundLeftmost<T>(f: nat -> Option<T>, p: nat, n: nat)
    ensures FirstFound(f, p, n).Some? ==> forall q :: p <= q < FirstFound(f, p, n).value ==> f(q).None?
    ensures FirstFound(f, p, n).None? ==> forall q :: p <= q < n ==> f(q).None?
    decreases n - p
  {
    if p < n && f(p).None? {
      FirstFoundLeftmost(f, p + 1, n);
    }
  }

  /** Positions where `f` finds nothing can be skipped. */
  lemma {:induction false} FirstFoundSkips<T>(f: nat -> Option<T>, p: nat, k: nat, n: nat)
    requires p <= k && forall q :: p <= q < k ==> f(q).None?
    ensures FirstFound(f, p, n) == FirstFound(f, k, n)
    decreases k - p
  {
    if p < k {
      FirstFoundSkips(f, p + 1, k, n);
    }
  }

  /** `s.match(...)` searched from position `p`: the match at the first
      position from which the pattern matches. */
  function FirstMatch(s: string, p: nat): (r: Option<FractionMatch>)
    requires p <= |s|
    ensures r.Some? ==> p <= r.value.start < |s| && MatchAt(s, r.value.start) == r
  {
    match FirstFound(Matcher(s), p, |s|)
    case Some(i) => MatchAt(s, i)
    case None => None
  }

  /** The match found is the leftmost one: nothing matches before it, and
      when nothing is found, nothing matches anywhere. */
  lemma FirstMatchLeftmost(s: string, p: nat)
    requires p <= |s|
    ensures FirstMatch(s, p).Some? ==> forall q :: p <= q < FirstMatch(s, p).value.start ==> MatchAt(s, q).None?
    ensures FirstMatch(s, p).None? ==> forall q :: p <= q <= |s| ==> MatchAt(s, q).None?
  {
    FirstFoundLeftmost(Matcher(s), p, |s|);
    assert MatchAt(s, |s|).None?;
    forall q | p <= q <= |s|
      ensures Matcher(s)(q) == MatchAt(s, q)
    {
    }
  }

  /** The integer values of the two captured groups. */
  function Numerator(s: string, m: FractionMatch): nat
    requires Layout(s, m)
  {
    DigitsBetweenSlice(s, m.start, m.numEnd);
    DigitsValue(s[m.start..m.numEnd])
  }

  function Denominator(s: string, m: FractionMatch): nat
    requires Layout(s, m)
  {
    DigitsBetweenSlice(s, m.denStart, m.denEnd);
    DigitsValue(s[m.denStart..m.denEnd])
  }

  /** What one token adds to the field. `parseFloat` is a parameter: its
      grammar is not part of this model. */
  function TokenValue(token: string, parseFloat: string -> Num): (r: Num)
    ensures '/' !in token ==> r == parseFloat(token)
  {
    NoFractionWithoutSlashOrDigit(token);
    match FirstMatch(token, 0)
    case Some(m) =>
      Divide(Numerator(token, m), Denominator(token, m))
    case None => parseFloat(token)
  }

  /** The fold `tokens.reduce((result, part) => result += ..., 0)`. */
  function SumTokens(tokens: seq<string>, parseFloat: string -> Num): (r: Num)
    ensures |tokens| >= 1 && TokenValue(tokens[|tokens| - 1], parseFloat).NaN? ==> r.NaN?
  {
    if |tokens| == 0 then Val(0.0)
    else Add(SumTokens(tokens[..|tokens| - 1], parseFloat), TokenValue(tokens[|tokens| - 1], parseFloat))
  }

  /** The value of an input field's text. */
  function FieldValue(text: string, parseFloat: string -> Num): (r: Num)
    ensures TokenValue("", parseFloat) == NaN && (|text| == 0 || IsWs(text[0]) || IsWs(text[|text| - 1])) ==> r == NaN
  {
    OuterEmptyToken(text, parseFloat);
    SumTokens(SplitWs(text), parseFloat)
  }

  /** Text that cannot begin a number for `parseFloat`: empty, or starting
      with something other than whitespace, a sign, a digit, a point, or the
      `I` of `Infinity`. */
  predicate NoNumericStart(s: string)
  {
    |s| == 0 || (!IsWs(s[0]) && s[0] !in "+-.0123456789I")
  }

  /** The one thing the model assumes of `parseFloat`: it gives NaN for text
      that cannot begin a number. */
  ghost predicate ParseFloatRejects(parseFloat: string -> Num)
  {
    forall s :: NoNumericStart(s) ==> parseFloat(s) == NaN
  }

  // ---------------------------------------------------------------------
  // Properties of the fold

  /** One NaN token makes the whole field NaN. */
  lemma {:induction false} NaNTokenPoisonsSum(tokens: seq<string>, parseFloat: string -> Num, i: nat)
    requires i < |tokens| && TokenValue(tokens[i], parseFloat) == NaN
    ensures SumTokens(tokens, parseFloat) == NaN
  {
    var last := |tokens| - 1;
    if i < last {
      var init := tokens[..last];
      assert init[i] == tokens[i];
      NaNTokenPoisonsSum(init, parseFloat, i);
      assert SumTokens(tokens, parseFloat) == Add(SumTokens(init, parseFloat), TokenValue(tokens[last], parseFloat));
    }
  }

  /** Finite tokens add up to a finite value. */
  lemma {:induction false} FiniteTokensFiniteSum(tokens: seq<string>, parseFloat: string -> Num)
    requires forall i :: 0 <= i < |tokens| ==> TokenValue(tokens[i], parseFloat).Val?
    ensures SumTokens(tokens, parseFloat).Val?
  {
    if |tokens| > 0 {
      var init := tokens[..|tokens| - 1];
      assert forall i :: 0 <= i < |init| ==> init[i] == tokens[i];
      FiniteTokensFiniteSum(init, parseFloat);
    }
  }

  lemma AddAssociative(a: Num, b: Num, c: Num)
    ensures Add(Add(a, b), c) == Add(a, Add(b, c))
  {
  }

  /** Splitting the tokens in two and adding the two sums gives the same
      value: the fold is the sum of the token values. */
  lemma {:induction false} SumTokensAppend(a: seq<string>, b: seq<string>, parseFloat: string -> Num)
    ensures SumTokens(a + b, parseFloat) == Add(SumTokens(a, parseFloat), SumTokens(b, parseFloat))
    decreases |b|
  {
    if |b| == 0 {
      assert a + b == a;
      assert Add(SumTokens(a, parseFloat), Val(0.0)) == SumTokens(a, parseFloat) by {
        assert SumTokens(a, parseFloat).Val? ==> SumTokens(a, parseFloat).v + 0.0 == SumTokens(a, parseFloat).v;
      }
    } else {
      var last := |b| - 1;
      assert (a + b)[..|a + b| - 1] == a + b[..last];
      assert (a + b)[|a + b| - 1] == b[last];
      SumTokensAppend(a, b[..last], parseFloat);
      AddAssociative(SumTokens(a, parseFloat), SumTokens(b[..last], parseFloat), TokenValue(b[last], parseFloat));
    }
  }

  /** Whitespace at either end of a field, or an empty field, leaves an
      empty token first or last. */
  lemma OuterEmptyToken(text: string, parseFloat: string -> Num)
    ensures TokenValue("", parseFloat) == NaN && (|text| == 0 || IsWs(text[0]) || IsWs(text[|text| - 1])) ==>
      SumTokens(SplitWs(text), parseFloat) == NaN
  {
    if TokenValue("", parseFloat) == NaN && (|text| == 0 || IsWs(text[0]) || IsWs(text[|text| - 1])) {
      var i := EmptyPiece(text);
      EmptyTokenPoisonsSum(SplitWs(text), parseFloat, i);
    }
  }

  /** Where the empty piece that outer whitespace leaves is. */
  lemma EmptyPiece(text: string) returns (i: nat)
    requires |text| == 0 || IsWs(text[0]) || IsWs(text[|text| - 1])
    ensures i < |SplitWs(text)| && SplitWs(text)[i] == ""
  {
    var tokens := SplitWs(text);
    if |text| == 0 || IsWs(text[0]) {
      i := 0;
    } else {
      i := |tokens| - 1;
    }
  }

  lemma EmptyTokenPoisonsSum(tokens: seq<string>, parseFloat: string -> Num, i: nat)
    requires i < |tokens| && tokens[i] == "" && TokenValue("", parseFloat) == NaN
    ensures SumTokens(tokens, parseFloat) == NaN
  {
    NaNTokenPoisonsSum(tokens, parseFloat, i);
  }

  /** An empty field is NaN, not 0: it splits to one empty token, and
      `parseFloat("")` is NaN. */
  lemma EmptyFieldIsNaN(parseFloat: string -> Num)
    requires ParseFloatRejects(parseFloat)
    ensures FieldValue("", parseFloat) == NaN
  {
    assert NoNumericStart("");
    assert SplitWs("") == [""];
    assert FirstMatch("", 0) == None;
    NaNTokenPoisonsSum([""], parseFloat, 0);
  }

  /** Whitespace at either end of a field leaves an empty token, so the field
      is NaN. */
  lemma OuterWhitespaceIsNaN(text: string, parseFloat: string -> Num)
    requires ParseFloatRejects(parseFloat)
    requires |text| > 0 && (IsWs(text[0]) || IsWs(text[|text| - 1]))
    ensures FieldValue(text, parseFloat) == NaN
  {
    var tokens := SplitWs(text);
    assert NoNumericStart("");
    assert FirstMatch("", 0) == None;
    if IsWs(text[0]) {
      NaNTokenPoisonsSum(tokens, parseFloat, 0);
    } else {
      NaNTokenPoisonsSum(tokens, parseFloat, |tokens| - 1);
    }
  }

  /** A token with no fraction in it is whatever `parseFloat` makes of it. */
  lemma PlainToken(s: string, parseFloat: string -> Num)
    requires '/' !in s || forall i :: 0 <= i < |s| ==> !IsDigit(s[i])
    ensures TokenValue(s, parseFloat) == parseFloat(s)
  {
    NoFractionWithoutSlashOrDigit(s);
  }

  /** A field holding a single token adds that token to 0. */
  lemma OneTokenField(t: string, parseFloat: string -> Num)
    requires |t| >= 1 && NoWs(t)
    ensures FieldValue(t, parseFloat) == Add(Val(0.0), TokenValue(t, parseFloat))
  {
    SplitWsSingle(t);
    assert [t][..0] == [];
    assert SumTokens([t], parseFloat) == Add(SumTokens([], parseFloat), TokenValue(t, parseFloat));
  }

  /** A field holding two tokens adds them to 0 from left to right. */
  lemma TwoTokenField(t: string, u: string, parseFloat: string -> Num)
    requires |t| >= 1 && NoWs(t) && |u| >= 1 && NoWs(u)
    ensures FieldValue(t + " " + u, parseFloat) == Add(Add(Val(0.0), TokenValue(t, parseFloat)), TokenValue(u, parseFloat))
  {
    assert SplitWs(t + " " + u) == [t, u] by {
      assert t + " " + u == t + (" " + u);
      TwoPieces(t, u);
    }
    assert [t, u][..1] == [t] && [t][..0] == [];
    assert SumTokens([t], parseFloat) == Add(SumTokens([], parseFloat), TokenValue(t, parseFloat));
    assert SumTokens([t, u], parseFloat) == Add(SumTokens([t], parseFloat), TokenValue(u, parseFloat));
  }

  /** Any whitespace run between two tokens reads like one space: "3\t1/2"
      and "3  1/2" are "3 1/2". */
  lemma SeparatedTokensField(t: string, gap: string, u: string, parseFloat: string -> Num)
    requires |t| >= 1 && NoWs(t) && |u| >= 1 && NoWs(u)
    requires |gap| >= 1 && AllWs(gap)
    ensures FieldValue(t + (gap + u), parseFloat) == FieldValue(t + " " + u, parseFloat)
    ensures FieldValue(t + (gap + u), parseFloat) == Add(Add(Val(0.0), TokenValue(t, parseFloat)), TokenValue(u, parseFloat))
  {
    assert SplitWs(t + (gap + u)) == [t, u] by {
      SplitWsAfterRun(t, gap, u);
      SplitWsSingle(u);
    }
    assert [t, u][..1] == [t] && [t][..0] == [];
    assert SumTokens([t], parseFloat) == Add(SumTokens([], parseFloat), TokenValue(t, parseFloat));
    assert SumTokens([t, u], parseFloat) == Add(SumTokens([t], parseFloat), TokenValue(u, parseFloat));
    TwoTokenField(t, u, parseFloat);
  }

  lemma SpacedSlashPieces(a: string, b: string)
    requires |a| >= 1 && NoWs(a) && |b| >= 1 && NoWs(b)
    ensures SplitWs(a + " / " + b) == [a, "/", b]
  {
    var rest := "/" + (" " + b);
    SpacedSlashText(a, b);
    SlashThenToken(b);
    SplitWsAfterRun(a, " ", rest);
  }

  lemma SpacedSlashText(a: string, b: string)
    ensures a + " / " + b == a + (" " + ("/" + (" " + b)))
  {
  }

  lemma SlashThenToken(b: string)
    requires |b| >= 1 && NoWs(b)
    ensures SplitWs("/" + (" " + b)) == ["/", b]
  {
    assert NoWs("/");
    TwoPieces("/", b);
  }

  /** Two pieces without whitespace around one space split back apart. */
  lemma TwoPieces(t: string, u: string)
    requires |t| >= 1 && NoWs(t) && |u| >= 1 && NoWs(u)
    ensures SplitWs(t + (" " + u)) == [t, u]
  {
    SplitWsAfterRun(t, " ", u);
    SplitWsSingle(u);
  }

  /** A slash standing alone between spaces is a token of its own that is
      neither a fraction nor a number, so the field is NaN: "3 / 4" is NaN. */
  lemma SpacedSlashIsNaN(a: string, b: string, parseFloat: string -> Num)
    requires ParseFloatRejects(parseFloat)
    requires |a| >= 1 && NoWs(a) && |b| >= 1 && NoWs(b)
    ensures FieldValue(a + " / " + b, parseFloat) == NaN
  {
    var tokens := [a, "/", b];
    SpacedSlashPieces(a, b);
    assert TokenValue("/", parseFloat) == NaN by {
      assert !IsDigit("/"[0]);
      PlainToken("/", parseFloat);
      assert NoNumericStart("/");
    }
    NaNTokenPoisonsSum(tokens, parseFloat, 1);
  }

  /** A token that starts with the fraction's shape and ends with its
      denominator is that fraction. */
  lemma SimpleFractionToken(s: string, m: FractionMatch)
    requires Layout(s, m) && m.start == 0 && m.denEnd == |s|
    ensures FirstMatch(s, 0) == Some(m)
  {
    MatchAtExact(s, m);
    FirstMatchAtStart(s, 0);
  }

  /** Digits, a slash and digits after any prefix have the pattern's shape. */
  lemma DigitsSlashDigitsLayout(pre: string, a: string, b: string)
    requires |a| >= 1 && AllDigits(a) && |b| >= 1 && AllDigits(b)
    ensures var s := pre + a + "/" + b;
      var k := |pre|;
      && Layout(s, FractionMatch(k, k + |a|, k + |a|, k + |a| + 1, |s|))
      && s[k..k + |a|] == a && s[k + |a| + 1..|s|] == b
  {
    var s := pre + a + "/" + b;
    var k := |pre|;
    assert forall i :: k <= i < k + |a| ==> s[i] == a[i - k];
    assert forall i :: k + |a| + 1 <= i < |s| ==> s[i] == b[i - k - |a| - 1];
    assert s[k..k + |a|] == a;
    assert s[k + |a| + 1..|s|] == b;
  }

  /** A token made of two digit strings around a slash is their quotient. */
  lemma DigitsFractionToken(a: string, b: string, parseFloat: string -> Num)
    requires |a| >= 1 && AllDigits(a) && |b| >= 1 && AllDigits(b)
    ensures TokenValue(a + "/" + b, parseFloat) == Divide(DigitsValue(a), DigitsValue(b))
  {
    var s := a + "/" + b;
    DigitsSlashLayout(a, b);
    SimpleFractionToken(s, FractionMatch(0, |a|, |a|, |a| + 1, |s|));
  }

  lemma DigitsSlashLayout(a: string, b: string)
    requires |a| >= 1 && AllDigits(a) && |b| >= 1 && AllDigits(b)
    ensures var s := a + "/" + b;
      && Layout(s, FractionMatch(0, |a|, |a|, |a| + 1, |s|))
      && s[0..|a|] == a && s[|a| + 1..|s|] == b
  {
    var s := a + "/" + b;
    assert forall i :: 0 <= i < |a| ==> s[i] == a[i];
    assert forall i :: |a| + 1 <= i < |s| ==> s[i] == b[i - |a| - 1];
    assert s[0..|a|] == a;
    assert s[|a| + 1..|s|] == b;
  }

  /** The text `toString` writes for two naturals around a slash reads back
      as their quotient. */
  lemma FractionTokenValue(p: nat, q: nat, parseFloat: string -> Num)
    ensures TokenValue(NatToString(p) + "/" + NatToString(q), parseFloat) == Divide(p, q)
  {
    DigitsFractionToken(NatToString(p), NatToString(q), parseFloat);
  }

  /** A whole number, a space and a fraction add up: "3 1/2" is 3.5 whenever
      `parseFloat("3")` is 3. */
  lemma MixedNumberField(w: string, a: string, b: string, parseFloat: string -> Num)
    requires |w| >= 1 && NoWs(w) && '/' !in w
    requires |a| >= 1 && AllDigits(a) && |b| >= 1 && AllDigits(b)
    ensures FieldValue(w + " " + (a + "/" + b), parseFloat) == Add(parseFloat(w), Divide(DigitsValue(a), DigitsValue(b)))
  {
    var f := a + "/" + b;
    assert NoWs(f) by {
      assert forall i :: 0 <= i < |f| ==> f[i] == (if i < |a| then a[i] else if i == |a| then '/' else b[i - |a| - 1]);
    }
    TwoTokenField(w, f, parseFloat);
    PlainToken(w, parseFloat);
    DigitsFractionToken(a, b, parseFloat);
  }

  /** With no slash in the first `k` characters, a match can only start
      before `k` if the character at `k - 1` is a digit or whitespace. */
  lemma MatchInPrefixShape(s: string, q: nat, k: nat)
    requires q < k <= |s| && forall i :: 0 <= i < k ==> s[i] != '/'
    ensures MatchAt(s, q).Some? ==> IsDigit(s[k - 1]) || IsWs(s[k - 1])
  {
  }

  /** A search that starts where the pattern matches finds that match. */
  lemma FirstMatchAtStart(s: string, p: nat)
    requires p < |s| && MatchAt(s, p).Some?
    ensures FirstMatch(s, p) == MatchAt(s, p)
  {
    assert Matcher(s)(p) == MatchAt(s, p);
  }

  /** Where nothing matches before `k`, the search from `p` finds what the
      search from `k` finds. */
  lemma FirstMatchSkips(s: string, p: nat, k: nat)
    requires p <= k <= |s|
    requires forall q :: p <= q < k ==> MatchAt(s, q).None?
    ensures FirstMatch(s, p) == FirstMatch(s, k)
  {
    forall q | p <= q < k
      ensures Matcher(s)(q).None?
    {
    }
    FirstFoundSkips(Matcher(s), p, k, |s|);
  }

  /** After a prefix without a slash that ends in neither a digit nor
      whitespace, the first match is the fraction that follows. */
  lemma FirstMatchAfterPrefix(pre: string, a: string, b: string)
    requires |pre| >= 1 && '/' !in pre && !IsDigit(pre[|pre| - 1]) && !IsWs(pre[|pre| - 1])
    requires |a| >= 1 && AllDigits(a) && |b| >= 1 && AllDigits(b)
    ensures var s := pre + a + "/" + b;
      var k := |pre|;
      FirstMatch(s, 0) == Some(FractionMatch(k, k + |a|, k + |a|, k + |a| + 1, |s|))
  {
    var s := pre + a + "/" + b;
    var k := |pre|;
    SkipPrefix(pre, a, b);
    MatchAfterPrefix(pre, a, b);
    FirstMatchAtStart(s, k);
  }

  lemma SkipPrefix(pre: string, a: string, b: string)
    requires |pre| >= 1 && '/' !in pre && !IsDigit(pre[|pre| - 1]) && !IsWs(pre[|pre| - 1])
    ensures var s := pre + a + "/" + b;
      |pre| <= |s| && FirstMatch(s, 0) == FirstMatch(s, |pre|)
  {
    var s := pre + a + "/" + b;
    assert forall i :: 0 <= i < |pre| ==> s[i] == pre[i];
    NoMatchBefore(s, |pre|);
  }

  lemma MatchAfterPrefix(pre: string, a: string, b: string)
    requires |a| >= 1 && AllDigits(a) && |b| >= 1 && AllDigits(b)
    ensures var s := pre + a + "/" + b;
      var k := |pre|;
      k < |s| && MatchAt(s, k) == Some(FractionMatch(k, k + |a|, k + |a|, k + |a| + 1, |s|))
  {
    var s := pre + a + "/" + b;
    var k := |pre|;
    DigitsSlashDigitsLayout(pre, a, b);
    MatchAtExact(s, FractionMatch(k, k + |a|, k + |a|, k + |a| + 1, |s|));
  }

  /** Before a character that is neither a digit nor whitespace, with no
      slash in front of it, nothing matches. */
  lemma NoMatchBefore(s: string, k: nat)
    requires 1 <= k <= |s| && !IsDigit(s[k - 1]) && !IsWs(s[k - 1])
    requires forall i :: 0 <= i < k ==> s[i] != '/'
    ensures FirstMatch(s, 0) == FirstMatch(s, k)
  {
    forall q | 0 <= q < k
      ensures MatchAt(s, q).None?
    {
      MatchInPrefixShape(s, q, k);
    }
    FirstMatchSkips(s, 0, k);
  }

  /** The pattern is not anchored: after a prefix without a slash that ends
      in neither a digit nor whitespace, the fraction that follows is the
      token's value. So "1.5/2" is 5/2 and `parseFloat` is never asked. */
  lemma UnanchoredFractionToken(pre: string, a: string, b: string, parseFloat: string -> Num)
    requires |pre| >= 1 && '/' !in pre && !IsDigit(pre[|pre| - 1]) && !IsWs(pre[|pre| - 1])
    requires |a| >= 1 && AllDigits(a) && |b| >= 1 && AllDigits(b)
    ensures TokenValue(pre + a + "/" + b, parseFloat) == Divide(DigitsValue(a), DigitsValue(b))
  {
    var s := pre + a + "/" + b;
    var k := |pre|;
    var m := FractionMatch(k, k + |a|, k + |a|, k + |a| + 1, |s|);
    assert FirstMatch(s, 0) == Some(m) by {
      FirstMatchAfterPrefix(pre, a, b);
    }
    assert Layout(s, m) && s[m.start..m.numEnd] == a && s[m.denStart..m.denEnd] == b by {
      DigitsSlashDigitsLayout(pre, a, b);
    }
    FractionTokenAt(s, m, a, b, parseFloat);
  }

  /** A token whose first match is `m` is the quotient of `m`'s two groups. */
  lemma FractionTokenAt(s: string, m: FractionMatch, a: string, b: string, parseFloat: string -> Num)
    requires FirstMatch(s, 0) == Some(m) && Layout(s, m)
    requires s[m.start..m.numEnd] == a && s[m.denStart..m.denEnd] == b
    ensures AllDigits(a) && AllDigits(b)
    ensures TokenValue(s, parseFloat) == Divide(DigitsValue(a), DigitsValue(b))
  {
    DigitsBetweenSlice(s, m.start, m.numEnd);
    DigitsBetweenSlice(s, m.denStart, m.denEnd);
  }
}
