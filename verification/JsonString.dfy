/** `JSON.stringify` of a string: the quoting of section 7 of RFC 8259, with lone surrogates escaped,
    and a reader for it. */
module JsonString {
  import opened Utf16

  datatype Parsed<T> = Read(value: T, rest: Text) | Unreadable

  const QUOTE: CodeUnit := 34
  const BACKSLASH: CodeUnit := 92

  predicate High(u: CodeUnit) { 0xD800 <= u < 0xDC00 }

  predicate Low(u: CodeUnit) { 0xDC00 <= u < 0xE000 }

  function HexDigit(n: nat): CodeUnit
    requires n < 16
  {
    if n < 10 then 48 + n else 87 + n
  }

  function Hex4(u: CodeUnit): Text {
    [HexDigit(u / 4096), HexDigit(u / 256 % 16), HexDigit(u / 16 % 16), HexDigit(u % 16)]
  }

  /** The one-letter escape of a unit, or 0 when it has none. */
  function Letter(u: CodeUnit): CodeUnit {
    if u == 8 then 98 else if u == 9 then 116 else if u == 10 then 110
    else if u == 12 then 102 else if u == 13 then 114
    else if u == QUOTE then QUOTE else if u == BACKSLASH then BACKSLASH else 0
  }

  function Escape(u: CodeUnit): Text {
    if Letter(u) != 0 then [BACKSLASH, Letter(u)]
    else if u < 32 || High(u) || Low(u) then [BACKSLASH, 117] + Hex4(u)
    else [u]
  }

  predicate PairAt(s: Text) { |s| >= 2 && High(s[0]) && Low(s[1]) }

  /** The escaped units, without the quotes. A surrogate pair is printed as it is. */
  function QuoteBody(s: Text): Text {
    if s == [] then []
    else if PairAt(s) then s[..2] + QuoteBody(s[2..])
    else Escape(s[0]) + QuoteBody(s[1..])
  }

  function Quote(s: Text): Text { [QUOTE] + QuoteBody(s) + [QUOTE] }

  /** The text of a unit on its own, in literal units: as itself outside the cases of section 7 of RFC 8259 and of lone
      surrogates; as backslash and a letter for the seven units that have one; else as backslash, `u` and four
      digits. */
  lemma EscapeExactly(u: CodeUnit)
    ensures |Escape(u)| == 1 <==> u >= 32 && u != 34 && u != 92 && !(0xD800 <= u < 0xE000)
    ensures |Escape(u)| == 1 ==> Escape(u) == [u]
    ensures |Escape(u)| == 2 <==> u in {8, 9, 10, 12, 13, 34, 92}
    ensures u == 8 ==> Escape(u) == [92, 98]
    ensures u == 9 ==> Escape(u) == [92, 116]
    ensures u == 10 ==> Escape(u) == [92, 110]
    ensures u == 12 ==> Escape(u) == [92, 102]
    ensures u == 13 ==> Escape(u) == [92, 114]
    ensures u == 34 ==> Escape(u) == [92, 34]
    ensures u == 92 ==> Escape(u) == [92, 92]
    ensures |Escape(u)| in {1, 2, 6}
    ensures |Escape(u)| == 6 ==> Escape(u)[..2] == [92, 117] && Digits(Escape(u)[2..], u)
  {
    if |Escape(u)| == 6 {
      assert Escape(u)[2..] == Hex4(u);
      HexDigits(u);
    }
  }

  /** Four lower-case hexadecimal digits that stand for the number. */
  predicate Digits(t: Text, u: CodeUnit) {
    && |t| == 4 && (forall i :: 0 <= i < 4 ==> 48 <= t[i] < 58 || 97 <= t[i] < 103)
    && var d := (x: CodeUnit) => if x < 58 then x - 48 else x - 87;
       u == d(t[0]) * 4096 + d(t[1]) * 256 + d(t[2]) * 16 + d(t[3])
  }

  lemma HexDigits(u: CodeUnit)
    ensures Digits(Hex4(u), u)
  {
    assert u == u / 4096 * 4096 + u / 256 % 16 * 256 + u / 16 % 16 * 16 + u % 16;
  }

  /** A surrogate pair is printed as it is; any other unit stands alone. */
  lemma QuoteNext(s: Text)
    requires s != []
    ensures QuoteBody(s) == if |s| >= 2 && 0xD800 <= s[0] < 0xDC00 && 0xDC00 <= s[1] < 0xE000
                            then s[..2] + QuoteBody(s[2..]) else Escape(s[0]) + QuoteBody(s[1..])
  {}

  /** Every surrogate is half of a pair, so UTF-8 encoding loses nothing. */
  predicate WellFormed(t: Text) {
    t == [] || (PairAt(t) && WellFormed(t[2..])) || (!High(t[0]) && !Low(t[0]) && WellFormed(t[1..]))
  }

  /** The unit at `i` is no surrogate without its other half. */
  ghost predicate Paired(t: Text, i: int)
    requires 0 <= i < |t|
  {
    && (0xD800 <= t[i] < 0xDC00 ==> i + 1 < |t| && 0xDC00 <= t[i + 1] < 0xE000)
    && (0xDC00 <= t[i] < 0xE000 ==> i > 0 && 0xD800 <= t[i - 1] < 0xDC00)
  }

  lemma PairedBehind(t: Text, n: nat)
    requires n <= |t| && (n < |t| && n > 0 ==> !(0xDC00 <= t[n] < 0xE000) && !(0xD800 <= t[n - 1] < 0xDC00))
    requires forall i :: 0 <= i < n ==> Paired(t, i)
    ensures (forall i :: 0 <= i < |t| ==> Paired(t, i)) <==> forall i :: 0 <= i < |t[n..]| ==> Paired(t[n..], i)
  {
    if forall i :: 0 <= i < |t| ==> Paired(t, i) {
      forall i | 0 <= i < |t[n..]| ensures Paired(t[n..], i) { assert Paired(t, n + i); }
    }
    if forall i :: 0 <= i < |t[n..]| ==> Paired(t[n..], i) {
      forall i | n <= i < |t| ensures Paired(t, i) { assert Paired(t[n..], i - n); }
    }
  }

  /** A text is well formed exactly when each high surrogate is followed by a low one and each low one follows a high
      one. */
  lemma {:induction false} WellFormedExactly(t: Text)
    ensures WellFormed(t) <==> forall i :: 0 <= i < |t| ==> Paired(t, i)
  {
    if t == [] {
    } else if PairAt(t) {
      WellFormedExactly(t[2..]);
      assert Paired(t, 0) && Paired(t, 1);
      if |t| > 2 && Low(t[2]) {
        assert !Paired(t, 2) && !Paired(t[2..], 0);
      } else {
        PairedBehind(t, 2);
      }
    } else if High(t[0]) || Low(t[0]) {
      assert !Paired(t, 0);
    } else {
      WellFormedExactly(t[1..]);
      assert Paired(t, 0);
      if |t| > 1 && Low(t[1]) {
        assert !Paired(t, 1) && !Paired(t[1..], 0);
      } else {
        PairedBehind(t, 1);
      }
    }
  }

  /** So well-formed text without quote, backslash or control unit is printed as it is. */
  lemma {:induction false} QuoteUnescaped(s: Text)
    requires WellFormed(s) && forall i :: 0 <= i < |s| ==> s[i] >= 32 && s[i] != 34 && s[i] != 92
    ensures QuoteBody(s) == s && Quote(s) == [34] + s + [34]
  {
    if s == [] {
    } else if PairAt(s) {
      QuoteNext(s);
      QuoteUnescaped(s[2..]);
      assert s == s[..2] + s[2..];
    } else {
      QuoteNext(s);
      EscapeExactly(s[0]);
      QuoteUnescaped(s[1..]);
      assert s == [s[0]] + s[1..];
    }
  }

  // ---- Reading ----------------------------------------------------------------------------------

  function HexValue(u: CodeUnit): int {
    if 48 <= u < 58 then u - 48 else if 97 <= u < 103 then u - 87 else -1
  }

  function ReadHex4(t: Text): (r: Parsed<CodeUnit>)
    ensures r.Read? ==> |t| >= 4 && r.rest == t[4..]
  {
    if |t| < 4 || HexValue(t[0]) < 0 || HexValue(t[1]) < 0 || HexValue(t[2]) < 0 || HexValue(t[3]) < 0
    then Unreadable
    else Read(HexValue(t[0]) * 4096 + HexValue(t[1]) * 256 + HexValue(t[2]) * 16 + HexValue(t[3]), t[4..])
  }

  function LetterValue(u: CodeUnit): (r: int)
    ensures r < 0x10000
  {
    if u == 98 then 8 else if u == 116 then 9 else if u == 110 then 10
    else if u == 102 then 12 else if u == 114 then 13
    else if u == QUOTE then QUOTE else if u == BACKSLASH then BACKSLASH else -1
  }

  /** One printed unit: itself, or the unit its escape names. */
  function ReadUnit(t: Text): (r: Parsed<CodeUnit>)
    ensures r.Read? ==> |r.rest| < |t|
  {
    if t == [] then Unreadable
    else if t[0] != BACKSLASH then Read(t[0], t[1..])
    else if |t| < 2 then Unreadable
    else if t[1] == 117 then ReadHex4(t[2..])
    else if LetterValue(t[1]) >= 0 then Read(LetterValue(t[1]), t[2..])
    else Unreadable
  }

  /** Reads units up to the closing quote. */
  function ReadBody(t: Text): (r: Parsed<Text>)
    ensures r.Read? ==> |r.rest| < |t|
    decreases |t|
  {
    if t != [] && t[0] == QUOTE then Read([], t[1..])
    else
      var u := ReadUnit(t);
      if u.Unreadable? then Unreadable
      else
        var tail := ReadBody(u.rest);
        if tail.Unreadable? then Unreadable else Read([u.value] + tail.value, tail.rest)
  }

  lemma HexDigitReads(n: nat)
    requires n < 16
    ensures HexValue(HexDigit(n)) == n
  {}

  lemma HexSum(u: CodeUnit)
    ensures u / 4096 < 16
    ensures u / 4096 * 4096 + u / 256 % 16 * 256 + u / 16 % 16 * 16 + u % 16 == u
  {
    assert u / 256 == u / 4096 * 16 + u / 256 % 16;
    assert u / 16 == u / 256 * 16 + u / 16 % 16;
  }

  lemma HexReads(u: CodeUnit, rest: Text)
    ensures ReadHex4(Hex4(u) + rest) == Read(u, rest)
  {
    HexSum(u);
    HexDigitReads(u / 4096);
    HexDigitReads(u / 256 % 16);
    HexDigitReads(u / 16 % 16);
    HexDigitReads(u % 16);
    assert (Hex4(u) + rest)[4..] == rest;
  }

  lemma EscapeReads(u: CodeUnit, rest: Text)
    ensures ReadUnit(Escape(u) + rest) == Read(u, rest)
    ensures Escape(u)[0] != QUOTE
  {
    var t := Escape(u) + rest;
    if Letter(u) != 0 {
      assert t[2..] == rest;
    } else if u < 32 || High(u) || Low(u) {
      HexReads(u, rest);
      assert t[2..] == Hex4(u) + rest;
    } else {
      assert t[1..] == rest;
    }
  }

  lemma UnitThenBody(p: Text, u: CodeUnit, after: Text, tail: Text, rest: Text)
    requires p != [] && p[0] != QUOTE && ReadUnit(p + after) == Read(u, after)
    requires ReadBody(after) == Read(tail, rest)
    ensures ReadBody(p + after) == Read([u] + tail, rest)
  {}

  lemma RawThenBody(u: CodeUnit, after: Text, tail: Text, rest: Text)
    requires u != QUOTE && u != BACKSLASH && ReadBody(after) == Read(tail, rest)
    ensures ReadBody([u] + after) == Read([u] + tail, rest)
  {
    assert ([u] + after)[1..] == after;
    UnitThenBody([u], u, after, tail, rest);
  }

  lemma EscapeThenBody(u: CodeUnit, after: Text, tail: Text, rest: Text)
    requires ReadBody(after) == Read(tail, rest)
    ensures ReadBody(Escape(u) + after) == Read([u] + tail, rest)
  {
    EscapeReads(u, after);
    UnitThenBody(Escape(u), u, after, tail, rest);
  }

  lemma PairThenBody(a: CodeUnit, b: CodeUnit, after: Text, tail: Text, rest: Text)
    requires High(a) && Low(b) && ReadBody(after) == Read(tail, rest)
    ensures ReadBody([a, b] + after) == Read([a, b] + tail, rest)
  {
    RawThenBody(b, after, tail, rest);
    RawThenBody(a, [b] + after, [b] + tail, rest);
    assert [a] + ([b] + tail) == [a, b] + tail;
    assert [a] + ([b] + after) == [a, b] + after;
  }

  lemma Regroup(a: Text, b: Text, c: Text, d: Text)
    ensures (a + b) + c + d == a + (b + c + d)
  {}

  /** The reader undoes the printer and stops right after the closing quote. */
  lemma {:induction false} BodyReads(s: Text, rest: Text)
    ensures ReadBody(QuoteBody(s) + [QUOTE] + rest) == Read(s, rest)
    decreases |s|
  {
    if s == [] {
      assert ([QUOTE] + rest)[1..] == rest;
      assert [] + [QUOTE] + rest == [QUOTE] + rest;
    } else {
      var n := if PairAt(s) then 2 else 1;
      BodyReads(s[n..], rest);
      var after := QuoteBody(s[n..]) + [QUOTE] + rest;
      assert s == s[..n] + s[n..];
      if PairAt(s) {
        assert s[..2] == [s[0], s[1]];
        PairThenBody(s[0], s[1], after, s[2..], rest);
        Regroup(s[..2], QuoteBody(s[2..]), [QUOTE], rest);
      } else {
        assert s[..1] == [s[0]];
        EscapeThenBody(s[0], after, s[1..], rest);
        Regroup(Escape(s[0]), QuoteBody(s[1..]), [QUOTE], rest);
      }
    }
  }

  // ---- Well-formed UTF-16 -------------------------------------------------------------------------

  lemma {:induction false} WellFormedConcat(a: Text, b: Text)
    requires WellFormed(a) && WellFormed(b)
    ensures WellFormed(a + b)
    decreases |a|
  {
    if a == [] {
      assert a + b == b;
    } else if PairAt(a) && WellFormed(a[2..]) {
      WellFormedConcat(a[2..], b);
      assert (a + b)[2..] == a[2..] + b;
    } else {
      WellFormedConcat(a[1..], b);
      assert (a + b)[1..] == a[1..] + b;
    }
  }

  lemma {:induction false} PlainWellFormed(t: Text)
    requires forall i :: 0 <= i < |t| ==> !High(t[i]) && !Low(t[i])
    ensures WellFormed(t)
  {
    if t != [] { PlainWellFormed(t[1..]); }
  }

  lemma {:induction false} BodyWellFormed(s: Text)
    ensures WellFormed(QuoteBody(s))
    decreases |s|
  {
    if s == [] {
    } else if PairAt(s) {
      BodyWellFormed(s[2..]);
      assert s[..2][2..] == [];
      WellFormedConcat(s[..2], QuoteBody(s[2..]));
    } else {
      BodyWellFormed(s[1..]);
      PlainWellFormed(Escape(s[0]));
      WellFormedConcat(Escape(s[0]), QuoteBody(s[1..]));
    }
  }

  /** The printed string has no lone surrogate, whatever the input. */
  lemma QuoteWellFormed(s: Text)
    ensures WellFormed(Quote(s))
  {
    BodyWellFormed(s);
    PlainWellFormed([QUOTE]);
    WellFormedConcat([QUOTE], QuoteBody(s));
    WellFormedConcat([QUOTE] + QuoteBody(s), [QUOTE]);
  }
}
