/** The bounded log that the harness keeps of one process. */
module LogTails {
  import opened Counting
  import opened Utf16

  const LOG_TAIL_CHARACTERS: nat := 131072

  /** `text.slice(-characters)`. */
  function Tail(text: Text, characters: nat): Text
    requires characters > 0
  {
    if |text| <= characters then text else text[|text| - characters..]
  }

  class LogTail {
    var text: Text
    /** Every chunk appended so far. */
    ghost var chunks: seq<Text>

    /** Truncating at every append agrees with truncating the whole output once. */
    ghost predicate Valid()
      reads this
    {
      text == Tail(Concat(chunks), LOG_TAIL_CHARACTERS)
    }

    constructor ()
      ensures Valid() && chunks == []
    {
      text := [];
      chunks := [];
    }

    method Append(chunk: Text)
      requires Valid()
      modifies this
      ensures Valid() && chunks == old(chunks) + [chunk]
    {
      TailAbsorbs(Concat(chunks), chunk, LOG_TAIL_CHARACTERS);
      text := Tail(text + chunk, LOG_TAIL_CHARACTERS);
      chunks := chunks + [chunk];
      assert chunks[..|chunks| - 1] == old(chunks);
    }

    /** The last 131072 characters of everything that was written. */
    method Read() returns (r: Text)
      requires Valid()
      ensures |Concat(chunks)| <= 131072 ==> r == Concat(chunks)
      ensures |Concat(chunks)| > 131072 ==> |r| == 131072 && r == Concat(chunks)[|Concat(chunks)| - 131072..]
    {
      r := text;
    }
  }

  /** A text within the limit is kept whole; of a longer one exactly the last units are kept. */
  lemma TailExactly(text: Text, characters: nat)
    requires characters > 0
    ensures |text| <= characters ==> Tail(text, characters) == text
    ensures |text| > characters ==>
              |Tail(text, characters)| == characters
              && text[..|text| - characters] + Tail(text, characters) == text
  {
    if |text| > characters { assert text == text[..|text| - characters] + text[|text| - characters..]; }
  }

  lemma DropTwice(all: Text, i: nat, j: nat)
    requires i + j <= |all|
    ensures all[i..][j..] == all[i + j..]
  {}

  lemma DropAppended(before: Text, chunk: Text, cut: nat)
    requires cut <= |before|
    ensures before[cut..] + chunk == (before + chunk)[cut..]
  {}

  lemma TailCut(text: Text, characters: nat)
    requires 0 < characters <= |text|
    ensures Tail(text, characters) == text[|text| - characters..]
  {}

  lemma TailOfDrop(all: Text, cut: nat, characters: nat)
    requires 0 < characters && cut + characters <= |all|
    ensures Tail(all[cut..], characters) == Tail(all, characters)
  {
    TailCut(all[cut..], characters);
    TailCut(all, characters);
    DropTwice(all, cut, |all| - cut - characters);
  }

  lemma TailAbsorbs(before: Text, chunk: Text, characters: nat)
    requires characters > 0
    ensures Tail(Tail(before, characters) + chunk, characters) == Tail(before + chunk, characters)
  {
    if |before| > characters {
      var cut := |before| - characters;
      DropAppended(before, chunk, cut);
      TailOfDrop(before + chunk, cut, characters);
    }
  }

  /** Truncating after each chunk gives the last characters of the concatenation of all chunks. */
  lemma {:induction false} TruncateEachStep(chunks: seq<Text>, characters: nat)
    requires characters > 0
    ensures Stepwise(chunks, characters) == Tail(Concat(chunks), characters)
  {
    if chunks != [] {
      TruncateEachStep(chunks[..|chunks| - 1], characters);
      TailAbsorbs(Concat(chunks[..|chunks| - 1]), chunks[|chunks| - 1], characters);
    }
  }

  function Stepwise(chunks: seq<Text>, characters: nat): Text
    requires characters > 0
  {
    if chunks == [] then []
    else Tail(Stepwise(chunks[..|chunks| - 1], characters) + chunks[|chunks| - 1], characters)
  }
}
