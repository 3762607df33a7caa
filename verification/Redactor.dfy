/** The harness redactor: registered secrets never survive `apply`. */
module Redaction {
  import opened Utf16

  /** "[REDACTED]" */
  const MARKER: Text := [91, 82, 69, 68, 65, 67, 84, 69, 68, 93]

  /** `text.includes(part)`. */
  predicate Contains(text: Text, part: Text) {
    part <= text || (text != [] && Contains(text[1..], part))
  }

  /** `text.replaceAll(secret, MARKER)`: occurrences from the left, without overlap. An empty secret
      matches before every unit and at the end. */
  function ReplaceAll(text: Text, secret: Text): Text {
    if secret == [] then
      if text == [] then MARKER else MARKER + [text[0]] + ReplaceAll(text[1..], secret)
    else if text == [] then []
    else if secret <= text then MARKER + ReplaceAll(text[|secret|..], secret)
    else [text[0]] + ReplaceAll(text[1..], secret)
  }

  /** One match of the header rule: `keep` units stay, the next `hide` become the marker. */
  datatype Span = Span(keep: nat, hide: nat)

  predicate Fits(text: Text, spans: seq<Span>) {
    spans == [] || (spans[0].hide > 0 && spans[0].keep + spans[0].hide <= |text|
                    && Fits(text[spans[0].keep + spans[0].hide..], spans[1..]))
  }

  /** The header rule's replacement for the matches it found, from left to right. */
  function MaskHeaders(text: Text, spans: seq<Span>): Text
    requires Fits(text, spans)
  {
    if spans == [] then text
    else text[..spans[0].keep] + MARKER + MaskHeaders(text[spans[0].keep + spans[0].hide..], spans[1..])
  }

  /** No unit of the text occurs in the marker; hexadecimal secrets are like this. */
  ghost predicate Unmarked(text: Text) { forall u :: u in text ==> u !in MARKER }

  // ---- Replacing cannot create an unmarked text -----------------------------------------------------

  lemma {:induction false} ContainsAt(text: Text, part: Text)
    ensures Contains(text, part) <==> exists i :: 0 <= i <= |text| && part <= text[i..]
  {
    if part <= text {
      assert text[0..] == text;
    } else if text != [] {
      ContainsAt(text[1..], part);
      if Contains(text[1..], part) {
        var i :| 0 <= i <= |text[1..]| && part <= text[1..][i..];
        assert text[i + 1..] == text[1..][i..];
      }
      if exists i :: 0 <= i <= |text| && part <= text[i..] {
        var i :| 0 <= i <= |text| && part <= text[i..];
        assert i > 0 by { assert text[0..] == text; }
        assert text[i..] == text[1..][i - 1..];
      }
    }
  }

  lemma {:induction false} ContainsLater(before: Text, text: Text, part: Text)
    ensures Contains(text, part) ==> Contains(before + text, part)
  {
    if before == [] {
      assert before + text == text;
    } else {
      ContainsLater(before[1..], text, part);
      assert (before + text)[1..] == before[1..] + text;
    }
  }

  lemma {:induction false} ContainsMore(text: Text, after: Text, part: Text)
    ensures Contains(text, part) ==> Contains(text + after, part)
  {
    if text == [] {
      assert text + after == after;
    } else {
      ContainsMore(text[1..], after, part);
      assert (text + after)[1..] == text[1..] + after;
    }
  }

  /** An unmarked text inside `before + MARKER + after` lies inside `before` or inside `after`. */
  lemma {:induction false} MarkerSeparates(before: Text, after: Text, part: Text)
    requires part != [] && Unmarked(part)
    requires Contains(before + MARKER + after, part)
    ensures Contains(before, part) || Contains(after, part)
    decreases |before|
  {
    var text := before + MARKER + after;
    if before == [] {
      assert text == MARKER + after;
      SkipMarker(MARKER, after, part);
    } else if part <= text {
      assert forall k :: 0 <= k < |part| ==> part[k] in part;
      assert text[|before|] == MARKER[0];
      assert |part| <= |before|;
      assert part == text[..|part|] == before[..|part|];
    } else {
      assert text[1..] == before[1..] + MARKER + after;
      MarkerSeparates(before[1..], after, part);
    }
  }

  lemma {:induction false} SkipMarker(marks: Text, after: Text, part: Text)
    requires part != [] && Unmarked(part) && (forall u :: u in marks ==> u in MARKER)
    ensures Contains(marks + after, part) ==> Contains(after, part)
  {
    if marks == [] {
      assert marks + after == after;
    } else {
      assert marks[0] in marks && part[0] in part;
      assert (marks + after)[0] == marks[0] != part[0];
      assert (marks + after)[1..] == marks[1..] + after;
      SkipMarker(marks[1..], after, part);
    }
  }

  /** What `replaceAll` leaves of a prefix was a prefix before. */
  lemma {:induction false} PrefixSurvives(text: Text, secret: Text, part: Text)
    requires secret != [] && Unmarked(part) && part <= ReplaceAll(text, secret)
    ensures part <= text
  {
    if part != [] && text != [] {
      assert part[0] in part;
      if !(secret <= text) {
        PrefixSurvives(text[1..], secret, part[1..]);
        assert text == [text[0]] + text[1..] && part == [part[0]] + part[1..];
      }
    }
  }

  /** `replaceAll` creates no unmarked text and leaves no occurrence of an unmarked secret. */
  lemma {:induction false} ReplaceAllClears(text: Text, secret: Text, part: Text)
    requires secret != [] && part != [] && Unmarked(part)
    requires part == secret || !Contains(text, part)
    ensures !Contains(ReplaceAll(text, secret), part)
    decreases |text|
  {
    if text == [] {
    } else if secret <= text {
      var after := text[|secret|..];
      ContainsLater(text[..|secret|], after, part);
      assert text[..|secret|] + after == text;
      ReplaceAllClears(after, secret, part);
      SkipMarker(MARKER, ReplaceAll(after, secret), part);
    } else {
      ReplaceAllClears(text[1..], secret, part);
      var replaced := ReplaceAll(text, secret);
      assert replaced[1..] == ReplaceAll(text[1..], secret);
      if part <= replaced { PrefixSurvives(text, secret, part); }
    }
  }

  /** The header rule creates no unmarked text. */
  lemma {:induction false} MaskCreatesNothing(text: Text, spans: seq<Span>, part: Text)
    requires Fits(text, spans) && part != [] && Unmarked(part) && !Contains(text, part)
    ensures !Contains(MaskHeaders(text, spans), part)
  {
    if spans != [] {
      var k, h := spans[0].keep, spans[0].hide;
      var before, after := text[..k], text[k + h..];
      assert text == text[..k + h] + after && text == before + text[k..];
      ContainsLater(text[..k + h], after, part);
      ContainsMore(before, text[k..], part);
      MaskCreatesNothing(after, spans[1..], part);
      if Contains(MaskHeaders(text, spans), part) {
        MarkerSeparates(before, MaskHeaders(after, spans[1..]), part);
      }
    }
  }

  /** A text without the secret stays as it is. */
  lemma {:induction false} ReplaceNothing(text: Text, secret: Text)
    requires secret != [] && !Contains(text, secret)
    ensures ReplaceAll(text, secret) == text
  {
    if text != [] {
      ReplaceNothing(text[1..], secret);
      assert text == [text[0]] + text[1..];
    }
  }

  /** No occurrence of the secret begins within the first part. */
  ghost predicate NoneWithin(before: Text, rest: Text, secret: Text) {
    forall k :: 0 <= k < |before| ==> !(secret <= (before + rest)[k..])
  }

  lemma NoneWithinTail(before: Text, rest: Text, secret: Text)
    requires before != [] && NoneWithin(before, rest, secret)
    ensures !(secret <= before + rest) && NoneWithin(before[1..], rest, secret)
  {
    assert (before + rest)[0..] == before + rest;
    forall k | 0 <= k < |before[1..]| ensures !(secret <= (before[1..] + rest)[k..]) {
      assert (before[1..] + rest)[k..] == (before + rest)[k + 1..];
    }
  }

  lemma ReplaceSteps(text: Text, secret: Text, head: Text, rest: Text)
    requires secret != [] && text == head + rest
    ensures head == secret ==> ReplaceAll(text, secret) == MARKER + ReplaceAll(rest, secret)
    ensures |head| == 1 && !(secret <= text) ==> ReplaceAll(text, secret) == head + ReplaceAll(rest, secret)
  {
    assert text[|head|..] == rest;
    if head == secret { assert text[..|secret|] == secret; }
    if |head| == 1 { assert [text[0]] == head; }
  }

  lemma Cons(t: Text, more: Text)
    requires t != []
    ensures [t[0]] + (t[1..] + more) == t + more
  {}

  /** Before the leftmost occurrence everything stays, then comes "[REDACTED]" for it, and what follows is treated
      alike. */
  lemma {:induction false} ReplaceFirst(before: Text, secret: Text, after: Text)
    requires secret != [] && NoneWithin(before, secret + after, secret)
    ensures ReplaceAll(before + (secret + after), secret) == before + (MARKER + ReplaceAll(after, secret))
    ensures MARKER == [91, 82, 69, 68, 65, 67, 84, 69, 68, 93]
  {
    var found, replaced := secret + after, MARKER + ReplaceAll(after, secret);
    if before == [] {
      ReplaceSteps(found, secret, secret, after);
      assert before + found == found && before + replaced == replaced;
    } else {
      NoneWithinTail(before, found, secret);
      ReplaceFirst(before[1..], secret, after);
      Cons(before, found);
      Cons(before, replaced);
      ReplaceSteps(before + found, secret, [before[0]], before[1..] + found);
    }
  }

  /** An empty secret puts the marker before each of the units and at the end. */
  lemma {:induction false} ReplaceEmpty(text: Text)
    ensures |ReplaceAll(text, [])| == 11 * |text| + 10
    ensures forall i :: 0 <= i < |text| ==> ReplaceAll(text, [])[11 * i + 10] == text[i]
    ensures forall i :: 0 <= i <= |text| ==> ReplaceAll(text, [])[11 * i..11 * i + 10] == MARKER
  {
    if text != [] {
      var rest, all := ReplaceAll(text[1..], []), ReplaceAll(text, []);
      ReplaceEmpty(text[1..]);
      assert all == MARKER + [text[0]] + rest && all[11..] == rest;
      forall i | 1 <= i <= |text| ensures all[11 * i..11 * i + 10] == MARKER {
        assert all[11 * i..11 * i + 10] == rest[11 * (i - 1)..11 * (i - 1) + 10];
      }
      forall i | 1 <= i < |text| ensures all[11 * i + 10] == text[i] {
        assert all[11 * i + 10] == rest[11 * (i - 1) + 10] == text[1..][i - 1];
      }
    }
  }

  /** Around its first match the header rule keeps what it keeps and hides the rest behind the marker. */
  lemma MaskExactly(before: Text, hidden: Text, after: Text, spans: seq<Span>)
    requires hidden != [] && Fits(after, spans)
    ensures MaskHeaders(after, []) == after
    ensures var found := [Span(|before|, |hidden|)] + spans;
            && Fits(before + hidden + after, found)
            && MaskHeaders(before + hidden + after, found) == before + MARKER + MaskHeaders(after, spans)
  {
    var text, found := before + hidden + after, [Span(|before|, |hidden|)] + spans;
    assert found[0] == Span(|before|, |hidden|) && found[1..] == spans;
    assert text[|before| + |hidden|..] == after && text[..|before|] == before;
  }

  // ---- The redactor -----------------------------------------------------------------------------------

  /** The replacements of all registered secrets, in registration order. */
  function Replaced(secrets: seq<Text>, text: Text): Text {
    if secrets == [] then text
    else ReplaceAll(Replaced(secrets[..|secrets| - 1], text), secrets[|secrets| - 1])
  }

  /** A later secret is replaced in what the earlier ones left. */
  lemma ReplacedInTurn(secrets: seq<Text>, secret: Text, text: Text)
    ensures Replaced([], text) == text
    ensures Replaced(secrets + [secret], text) == ReplaceAll(Replaced(secrets, text), secret)
  {
    var all := secrets + [secret];
    assert all[..|all| - 1] == secrets && all[|all| - 1] == secret;
  }

  /** Secrets as the harness makes them: non-empty, and no unit shared with the marker. */
  ghost predicate Usable(secrets: seq<Text>) {
    forall i :: 0 <= i < |secrets| ==> secrets[i] != [] && Unmarked(secrets[i])
  }

  predicate Leaks(secrets: seq<Text>, text: Text) {
    exists i :: 0 <= i < |secrets| && Contains(text, secrets[i])
  }

  /** The part stands in the text from position `k` on. */
  ghost predicate StandsAt(text: Text, part: Text, k: int) { 0 <= k <= |text| && part <= text[k..] }

  lemma LeaksSomewhere(secrets: seq<Text>, text: Text)
    ensures Leaks(secrets, text) <==> exists i, k :: 0 <= i < |secrets| && StandsAt(text, secrets[i], k)
  {
    forall i | 0 <= i < |secrets| ensures Contains(text, secrets[i]) <==> exists k :: StandsAt(text, secrets[i], k) {
      ContainsAt(text, secrets[i]);
      if Contains(text, secrets[i]) {
        var k :| 0 <= k <= |text| && secrets[i] <= text[k..];
        assert StandsAt(text, secrets[i], k);
      }
    }
  }

  class Redactor {
    /** The Set of registered secrets, in insertion order. */
    var secrets: seq<Text>

    ghost predicate Valid()
      reads this
    {
      forall i, j :: 0 <= i < j < |secrets| ==> secrets[i] != secrets[j]
    }

    constructor ()
      ensures Valid() && secrets == []
    {
      secrets := [];
    }

    method Register(secret: Text)
      requires Valid()
      modifies this
      ensures Valid()
      ensures secrets == if secret in old(secrets) then old(secrets) else old(secrets) + [secret]
    {
      if secret !in secrets {
        secrets := secrets + [secret];
      }
    }

    /** `header` stands for the matches of the header expression on a text. */
    method Apply(text: Text, header: Text -> seq<Span>) returns (redacted: Text)
      requires forall t :: Fits(t, header(t))
      ensures redacted == MaskHeaders(Replaced(secrets, text), header(Replaced(secrets, text)))
      ensures Usable(secrets) ==> !exists i, k :: 0 <= i < |secrets| && StandsAt(redacted, secrets[i], k)
    {
      redacted := text;
      for i := 0 to |secrets|
        invariant redacted == Replaced(secrets[..i], text)
      {
        assert secrets[..i + 1][..i] == secrets[..i];
        redacted := ReplaceAll(redacted, secrets[i]);
      }
      assert secrets[..|secrets|] == secrets;
      redacted := MaskHeaders(redacted, header(redacted));
      if Usable(secrets) {
        NothingLeaks(secrets, text, header(Replaced(secrets, text)));
        LeaksSomewhere(secrets, redacted);
      }
    }

    method LeaksInto(text: Text) returns (leaked: bool)
      ensures leaked <==> exists i, k :: 0 <= i < |secrets| && StandsAt(text, secrets[i], k)
    {
      leaked := false;
      for i := 0 to |secrets|
        invariant leaked == Leaks(secrets[..i], text)
      {
        leaked := leaked || Contains(text, secrets[i]);
        assert forall k :: 0 <= k < i ==> secrets[..i + 1][k] == secrets[..i][k];
        assert secrets[..i + 1][i] == secrets[i];
      }
      assert secrets[..|secrets|] == secrets;
      LeaksSomewhere(secrets, text);
    }
  }

  /** A lower-case hexadecimal text, as `randomBytes(n).toString("hex")` gives it. */
  predicate Hex(secret: Text) {
    forall i :: 0 <= i < |secret| ==> 48 <= secret[i] < 58 || 97 <= secret[i] < 103
  }

  /** The values that `secret` registers, made of the units of "0" to "9" and "a" to "f", share no unit with the
      marker. */
  lemma HexIsUnmarked(secret: Text)
    ensures Hex(secret) <==> forall u :: u in secret ==> 48 <= u <= 57 || 97 <= u <= 102
    ensures Hex(secret) ==> Unmarked(secret)
  {
    assert forall i :: 0 <= i < |secret| ==> secret[i] in secret;
    assert forall u :: u in MARKER ==> u == 91 || u == 93 || 65 <= u <= 84;
  }

  /** After the replacements, no secret replaced so far occurs. */
  lemma {:induction false} ReplacedClears(secrets: seq<Text>, text: Text, i: nat)
    requires i < |secrets|
    requires Usable(secrets)
    ensures !Contains(Replaced(secrets, text), secrets[i])
  {
    var n := |secrets| - 1;
    if i < n { ReplacedClears(secrets[..n], text, i); }
    ReplaceAllClears(Replaced(secrets[..n], text), secrets[n], secrets[i]);
  }

  /** Whatever the registration order and the header matches, no registered secret is left. */
  lemma NothingLeaks(secrets: seq<Text>, text: Text, spans: seq<Span>)
    requires Usable(secrets)
    requires Fits(Replaced(secrets, text), spans)
    ensures !Leaks(secrets, MaskHeaders(Replaced(secrets, text), spans))
  {
    forall i | 0 <= i < |secrets| ensures !Contains(MaskHeaders(Replaced(secrets, text), spans), secrets[i]) {
      ReplacedClears(secrets, text, i);
      MaskCreatesNothing(Replaced(secrets, text), spans, secrets[i]);
    }
  }

  /** Redaction of every text, under every set of header matches, leaves no registered secret. */
  ghost predicate LeakFree(secrets: seq<Text>) {
    forall text, spans :: Fits(Replaced(secrets, text), spans) ==>
        !Leaks(secrets, MaskHeaders(Replaced(secrets, text), spans))
  }

  lemma EmptySecretLeaks(secrets: seq<Text>, i: nat, text: Text)
    requires i < |secrets| && secrets[i] == []
    ensures Leaks(secrets, text)
  {
    assert Contains(text, secrets[i]);
  }

  /** For secrets without marker units, redaction is leak-free exactly when no secret is empty. */
  lemma LeakFreeExactly(secrets: seq<Text>)
    requires forall i :: 0 <= i < |secrets| ==> Unmarked(secrets[i])
    ensures LeakFree(secrets) <==> forall i :: 0 <= i < |secrets| ==> secrets[i] != []
  {
    if Usable(secrets) {
      forall text, spans | Fits(Replaced(secrets, text), spans)
        ensures !Leaks(secrets, MaskHeaders(Replaced(secrets, text), spans))
      {
        NothingLeaks(secrets, text, spans);
      }
    } else {
      var i :| 0 <= i < |secrets| && secrets[i] == [];
      assert Fits(Replaced(secrets, []), []);
      EmptySecretLeaks(secrets, i, MaskHeaders(Replaced(secrets, []), []));
    }
  }

  // ---- Files written as UTF-8 and read back byte by byte -----------------------------------------------

  /** `bytes`, read as one unit per byte, encode the text: an ASCII unit is its own byte, any other unit gives
      one or more bytes from 128 up (of a surrogate pair's four, two each). */
  predicate Encodes(text: Text, bytes: Text) {
    if text == [] then bytes == []
    else if text[0] < 128 then bytes != [] && bytes[0] == text[0] && Encodes(text[1..], bytes[1..])
    else exists k :: 1 <= k <= |bytes| && High(bytes[..k]) && Encodes(text[1..], bytes[k..])
  }

  predicate High(units: Text) { forall i :: 0 <= i < |units| ==> units[i] >= 128 }

  predicate Ascii(units: Text) { forall i :: 0 <= i < |units| ==> units[i] < 128 }

  lemma HighTail(units: Text)
    requires High(units) && units != []
    ensures High(units[1..])
  {}

  lemma {:induction false} SkipHigh(bytes: Text, k: nat, part: Text)
    requires k <= |bytes| && High(bytes[..k]) && part != [] && Ascii(part)
    ensures Contains(bytes, part) ==> Contains(bytes[k..], part)
  {
    if k == 0 {
      assert bytes[0..] == bytes;
    } else {
      assert bytes[..k][0] == bytes[0];
      HighTail(bytes[..k]);
      assert bytes[1..][..k - 1] == bytes[..k][1..];
      SkipHigh(bytes[1..], k - 1, part);
      assert bytes[1..][k - 1..] == bytes[k..];
    }
  }

  lemma HighFirst(text: Text, bytes: Text)
    requires Encodes(text, bytes) && text != [] && text[0] >= 128
    ensures bytes != [] && bytes[0] >= 128
  {
    var k :| 1 <= k <= |bytes| && High(bytes[..k]) && Encodes(text[1..], bytes[k..]);
    assert bytes[..k][0] == bytes[0];
  }

  lemma {:induction false} EncodedPrefix(text: Text, bytes: Text, part: Text)
    requires Encodes(text, bytes) && Ascii(part) && part <= bytes
    ensures part <= text
  {
    if text != [] && text[0] >= 128 { HighFirst(text, bytes); }
    if part != [] && text != [] && text[0] < 128 {
      EncodedPrefix(text[1..], bytes[1..], part[1..]);
      assert text == [text[0]] + text[1..] && part == [part[0]] + part[1..];
    }
  }

  /** An ASCII text that occurs among the bytes occurs in the text they encode. */
  lemma {:induction false} EncodedContains(text: Text, bytes: Text, part: Text)
    requires Encodes(text, bytes) && part != [] && Ascii(part) && Contains(bytes, part)
    ensures Contains(text, part)
  {
    if text != [] {
      if text[0] >= 128 {
        var k :| 1 <= k <= |bytes| && High(bytes[..k]) && Encodes(text[1..], bytes[k..]);
        SkipHigh(bytes, k, part);
        EncodedContains(text[1..], bytes[k..], part);
      } else if part <= bytes {
        EncodedPrefix(text, bytes, part);
      } else {
        EncodedContains(text[1..], bytes[1..], part);
      }
    }
  }

  /** Of hexadecimal secrets the bytes of a redacted file show one exactly when one of them is empty. */
  lemma RedactedFileLeaksExactly(secrets: seq<Text>, text: Text, spans: seq<Span>, bytes: Text)
    requires forall i :: 0 <= i < |secrets| ==> Hex(secrets[i])
    requires Fits(Replaced(secrets, text), spans) && Encodes(MaskHeaders(Replaced(secrets, text), spans), bytes)
    ensures Leaks(secrets, bytes) <==> [] in secrets
  {
    if i :| 0 <= i < |secrets| && secrets[i] == [] {
      EmptySecretLeaks(secrets, i, bytes);
    } else {
      forall i | 0 <= i < |secrets| ensures Unmarked(secrets[i]) { HexIsUnmarked(secrets[i]); }
      NothingLeaks(secrets, text, spans);
      forall i | 0 <= i < |secrets| ensures !Contains(bytes, secrets[i]) {
        if Contains(bytes, secrets[i]) {
          EncodedContains(MaskHeaders(Replaced(secrets, text), spans), bytes, secrets[i]);
        }
      }
    }
  }

  /** A secret that shares units with the marker can be reassembled: "]x[" from "]x[x]x[". */
  lemma MarkedSecretReassembled()
    ensures Leaks([[93, 120, 91]], Replaced([[93, 120, 91]], [93, 120, 91, 120, 93, 120, 91]))
  {
    var s: Text := [93, 120, 91];
    var t: Text := s + [120] + s;
    assert s <= t && t[3..] == [120] + s;
    assert ReplaceAll([], s) == [];
    assert s[3..] == [];
    assert ReplaceAll(s, s) == MARKER + [];
    assert ([120] + s)[1..] == s;
    assert ([120] + s)[0] == 120;
    assert ReplaceAll([120] + s, s) == [120] + (MARKER + []);
    var r := ReplaceAll(t, s);
    assert r == MARKER + ([120] + (MARKER + []));
    assert |r| > 11 && r[9] == 93 && r[10] == 120 && r[11] == 91;
    assert r[9..][..3] == s;
    ContainsAt(r, s);
    assert [s][..0] == [];
    assert t == [93, 120, 91, 120, 93, 120, 91];
    assert Replaced([s], t) == r;
    assert Contains(Replaced([s], t), [s][0]);
  }
}
