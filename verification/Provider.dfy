/** The loopback notification provider: interleaved requests, bounded buffering, recorded attempts. */
module Provider {
  import opened Counting
  import opened Options

  type Byte = n: int | 0 <= n < 256
  type Bytes = seq<Byte>
  type RequestId = nat

  datatype Mode = Accept | Fail

  /** What the headers of a request say, with the receiver's own route and token already compared. */
  datatype Head = Head(routed: bool, credentialed: bool, json: bool, key: Option<string>)

  datatype Attempt = Attempt(
    sequence: nat, mode: Mode, key: Option<string>, status: nat, rejection: Option<string>, body: Option<Bytes>)

  /** One thing that happens at the receiver. `decodes` is the outcome of JSON decoding. */
  datatype Event =
    | Open(id: RequestId)
    | Data(id: RequestId, chunk: Bytes)
    | End(id: RequestId, head: Head, decodes: bool)
    | Close(id: RequestId)
    | SetMode(mode: Mode)

  // ---- What a history of events means, independently of the counters ---------------------------------

  /** The requests whose response is open: opened and not yet closed. */
  function OpenIds(log: seq<Event>): set<RequestId> {
    if log == [] then {}
    else
      var last, before := log[|log| - 1], OpenIds(log[..|log| - 1]);
      if last.Open? then before + {last.id} else if last.Close? then before - {last.id} else before
  }

  /** The requests whose body ended. */
  function EndedIds(log: seq<Event>): set<RequestId> {
    if log == [] then {}
    else
      var last, before := log[|log| - 1], EndedIds(log[..|log| - 1]);
      if last.End? then before + {last.id} else before
  }

  function OpenNow(log: seq<Event>): nat { |OpenIds(log)| }

  /** The largest number of open responses over the history. */
  function Peak(log: seq<Event>): nat {
    if log == [] then 0
    else
      var earlier := Peak(log[..|log| - 1]);
      if OpenNow(log) > earlier then OpenNow(log) else earlier
  }

  lemma {:induction false} PeakIsLargest(log: seq<Event>)
    ensures forall i :: 0 <= i <= |log| ==> OpenNow(log[..i]) <= Peak(log)
    ensures exists i :: 0 <= i <= |log| && OpenNow(log[..i]) == Peak(log)
  {
    assert log[..|log|] == log;
    if log == [] {
      assert OpenNow(log[..0]) == Peak(log);
    } else {
      var before := log[..|log| - 1];
      PeakIsLargest(before);
      forall i | 0 <= i <= |log| ensures OpenNow(log[..i]) <= Peak(log) {
        if i < |log| { assert log[..i] == before[..i]; }
      }
      var k :| 0 <= k <= |before| && OpenNow(before[..k]) == Peak(before);
      assert before[..k] == log[..k];
      assert OpenNow(log[..k]) == Peak(log) || OpenNow(log[..|log|]) == Peak(log);
    }
  }

  /** The body chunks of one request, in arrival order. */
  function Chunks(log: seq<Event>, id: RequestId): seq<Bytes> {
    if log == [] then []
    else
      var last, before := log[|log| - 1], Chunks(log[..|log| - 1], id);
      if last.Data? && last.id == id then before + [last.chunk] else before
  }

  /** `kept` joins the longest run of leading chunks that totals at most `limit` bytes. */
  ghost predicate LongestPrefix(chunks: seq<Bytes>, limit: nat, kept: Bytes) {
    exists k: nat :: EndsAt(chunks, limit, kept, k)
  }

  /** `kept` joins the first `k` chunks, which fit, and the next one would not. */
  ghost predicate EndsAt(chunks: seq<Bytes>, limit: nat, kept: Bytes, k: nat) {
    && k <= |chunks| && kept == Concat(chunks[..k]) && |kept| <= limit
    && (k < |chunks| ==> |Concat(chunks[..k + 1])| > limit)
  }

  lemma {:induction false} ConcatGrows(chunks: seq<Bytes>, k: nat)
    requires k <= |chunks|
    ensures Concat(chunks[..k]) <= Concat(chunks)
  {
    if k < |chunks| {
      var before := chunks[..|chunks| - 1];
      ConcatGrows(before, k);
      assert before[..k] == chunks[..k];
    } else {
      assert chunks[..k] == chunks;
    }
  }

  /** The description determines the kept bytes. */
  lemma LongestPrefixUnique(chunks: seq<Bytes>, limit: nat, a: Bytes, b: Bytes)
    requires LongestPrefix(chunks, limit, a) && LongestPrefix(chunks, limit, b)
    ensures a == b
  {
    var i: nat :| EndsAt(chunks, limit, a, i);
    var j: nat :| EndsAt(chunks, limit, b, j);
    LongestNotShorter(chunks, limit, i, j);
    LongestNotShorter(chunks, limit, j, i);
  }

  lemma LongestNotShorter(chunks: seq<Bytes>, limit: nat, i: nat, j: nat)
    requires i <= |chunks| && j <= |chunks| && |Concat(chunks[..j])| <= limit
    requires i < |chunks| ==> |Concat(chunks[..i + 1])| > limit
    ensures j <= i
  {
    if i + 1 <= j { TotalsGrow(chunks, i + 1, j); }
  }

  lemma TotalsGrow(chunks: seq<Bytes>, i: nat, j: nat)
    requires i <= j <= |chunks|
    ensures |Concat(chunks[..i])| <= |Concat(chunks[..j])|
  {
    ConcatGrows(chunks[..j], i);
    assert chunks[..j][..i] == chunks[..i];
  }

  /** What remains after keeping each chunk only while the running total fits. */
  function Kept(chunks: seq<Bytes>, limit: nat): Bytes {
    if chunks == [] then []
    else
      var before := Kept(chunks[..|chunks| - 1], limit);
      if |Concat(chunks)| <= limit then before + chunks[|chunks| - 1] else before
  }

  /** Dropping chunks one by one as they overshoot keeps the longest fitting prefix. */
  lemma {:induction false} KeptIsLongestPrefix(chunks: seq<Bytes>, limit: nat)
    ensures LongestPrefix(chunks, limit, Kept(chunks, limit))
  {
    if chunks == [] {
      assert chunks[..0] == chunks;
      assert EndsAt(chunks, limit, Kept(chunks, limit), 0);
    } else {
      var n := |chunks| - 1;
      var before := chunks[..n];
      KeptIsLongestPrefix(before, limit);
      if |Concat(chunks)| <= limit {
        WithinLimitArrivesWhole(before, limit, Kept(before, limit));
        assert chunks[..|chunks|] == chunks;
        assert EndsAt(chunks, limit, Kept(chunks, limit), |chunks|);
      } else {
        PrefixExtends(chunks, limit, Kept(before, limit));
      }
    }
  }

  lemma PrefixExtends(chunks: seq<Bytes>, limit: nat, kept: Bytes)
    requires chunks != [] && LongestPrefix(chunks[..|chunks| - 1], limit, kept) && |Concat(chunks)| > limit
    ensures LongestPrefix(chunks, limit, kept)
  {
    var before := chunks[..|chunks| - 1];
    var k: nat :| EndsAt(before, limit, kept, k);
    assert before[..k] == chunks[..k];
    if k < |before| {
      assert before[..k + 1] == chunks[..k + 1];
    } else {
      assert chunks[..k + 1] == chunks;
    }
    assert EndsAt(chunks, limit, kept, k);
  }

  /** The longest prefix of a body within the limit is the whole body. */
  lemma WithinLimitArrivesWhole(chunks: seq<Bytes>, limit: nat, kept: Bytes)
    requires LongestPrefix(chunks, limit, kept) && |Concat(chunks)| <= limit
    ensures kept == Concat(chunks)
  {
    assert chunks[..|chunks|] == chunks;
    assert EndsAt(chunks, limit, Concat(chunks), |chunks|);
    LongestPrefixUnique(chunks, limit, kept, Concat(chunks));
  }

  /** An oversize body is seen as oversize exactly when some leading chunks total one byte too many. */
  lemma SizeRejectionExactly(chunks: seq<Bytes>, maxBodyBytes: nat, kept: Bytes)
    requires LongestPrefix(chunks, maxBodyBytes + 1, kept)
    ensures |kept| > maxBodyBytes <==>
      exists k :: 0 <= k <= |chunks| && |Concat(chunks[..k])| == maxBodyBytes + 1
  {
    var i: nat :| EndsAt(chunks, maxBodyBytes + 1, kept, i);
    if exists k :: 0 <= k <= |chunks| && |Concat(chunks[..k])| == maxBodyBytes + 1 {
      var k :| 0 <= k <= |chunks| && |Concat(chunks[..k])| == maxBodyBytes + 1;
      LongestNotShorter(chunks, maxBodyBytes + 1, i, k);
      TotalsGrow(chunks, k, i);
    }
  }

  /** Not every oversize body is refused: two chunks of two bytes against a limit of two pass as one. */
  lemma OversizeBodyCanPass()
    ensures var chunks: seq<Bytes> := [[1, 2], [3, 4]];
            |Concat(chunks)| > 2 && LongestPrefix(chunks, 3, [1, 2])
  {
    var chunks: seq<Bytes> := [[1, 2], [3, 4]];
    assert chunks[..1] == [[1, 2]] && chunks[..2] == chunks;
    assert [[1, 2]][..0] == [];
    assert Concat<Byte>([]) == [];
    assert Concat([[1, 2]]) == [1, 2];
    assert Concat(chunks) == [1, 2, 3, 4];
    assert EndsAt(chunks, 3, [1, 2], 1);
  }

  // ---- The receiver ---------------------------------------------------------------------------------

  /** The route, credential, media and size checks, in order. */
  function Rejection(head: Head, bytes: Bytes, maxBodyBytes: nat): Option<(nat, string)> {
    if !head.routed then Some((404, "route"))
    else if !head.credentialed then Some((401, "credential"))
    else if !head.json then Some((415, "media-type"))
    else if |bytes| > maxBodyBytes then Some((413, "size"))
    else None
  }

  function Respond(sequence: nat, mode: Mode, head: Head, decodes: bool, bytes: Bytes, maxBodyBytes: nat): Attempt {
    var rejection := Rejection(head, bytes, maxBodyBytes);
    var status := if rejection.Some? then rejection.value.0
                  else if !decodes then 400
                  else if mode.Accept? then 204 else 503;
    Attempt(sequence, mode, head.key, status,
            if rejection.Some? then Some(rejection.value.1) else if status == 400 then Some("json") else None,
            if rejection.None? then Some(bytes) else None)
  }

  /** The answer 413 is given exactly to a well-addressed request some of whose leading chunks total
      one byte over the limit; a body within the limit is recorded whole. */
  lemma SizeAnswers(sequence: nat, mode: Mode, head: Head, decodes: bool, chunks: seq<Bytes>, maxBodyBytes: nat)
    ensures var attempt := Respond(sequence, mode, head, decodes, Kept(chunks, maxBodyBytes + 1), maxBodyBytes);
            (attempt.status == 413 <==>
               head.routed && head.credentialed && head.json
               && exists k :: 0 <= k <= |chunks| && |Concat(chunks[..k])| == maxBodyBytes + 1)
            && (head.routed && head.credentialed && head.json && |Concat(chunks)| <= maxBodyBytes ==>
                  attempt.body == Some(Concat(chunks))
                  && attempt.status == if !decodes then 400 else if mode.Accept? then 204 else 503)
  {
    KeptIsLongestPrefix(chunks, maxBodyBytes + 1);
    SizeRejectionExactly(chunks, maxBodyBytes, Kept(chunks, maxBodyBytes + 1));
    if |Concat(chunks)| <= maxBodyBytes {
      WithinLimitArrivesWhole(chunks, maxBodyBytes + 1, Kept(chunks, maxBodyBytes + 1));
    }
  }

  /** Some leading chunks total one byte over the limit: what the receiver sees as oversize. */
  ghost predicate SeenOversize(chunks: seq<Bytes>, maxBodyBytes: nat) {
    exists k :: 0 <= k <= |chunks| && |Concat(chunks[..k])| == maxBodyBytes + 1
  }

  /** Each status has one cause: the first test a request fails, else its body, else the mode. An attempt is
      rejected without a reason exactly when it is answered 204 or 503, and only then was it acknowledged or
      refused on behalf of the mode. */
  lemma AnsweredExactly(sequence: nat, mode: Mode, head: Head, decodes: bool, chunks: seq<Bytes>, maxBodyBytes: nat)
    ensures var attempt := Respond(sequence, mode, head, decodes, Kept(chunks, maxBodyBytes + 1), maxBodyBytes);
            var addressed := head.routed && head.credentialed && head.json;
            var read := addressed && !SeenOversize(chunks, maxBodyBytes);
            && (attempt.status == 404 <==> !head.routed)
            && (attempt.status == 401 <==> head.routed && !head.credentialed)
            && (attempt.status == 415 <==> head.routed && head.credentialed && !head.json)
            && (attempt.status == 413 <==> addressed && SeenOversize(chunks, maxBodyBytes))
            && (attempt.status == 400 <==> read && !decodes)
            && (attempt.status == 204 <==> read && decodes && mode.Accept?)
            && (attempt.status == 503 <==> read && decodes && !mode.Accept?)
            && (attempt.rejection == None <==> attempt.status == 204 || attempt.status == 503)
            && (attempt.rejection == Some("route") <==> attempt.status == 404)
            && (attempt.rejection == Some("credential") <==> attempt.status == 401)
            && (attempt.rejection == Some("media-type") <==> attempt.status == 415)
            && (attempt.rejection == Some("size") <==> attempt.status == 413)
            && (attempt.rejection == Some("json") <==> attempt.status == 400)
            && (attempt.body.Some? <==> read)
            && (read ==> LongestPrefix(chunks, maxBodyBytes + 1, attempt.body.value))
            && attempt.sequence == sequence && attempt.mode == mode && attempt.key == head.key
  {
    KeptIsLongestPrefix(chunks, maxBodyBytes + 1);
    SizeRejectionExactly(chunks, maxBodyBytes, Kept(chunks, maxBodyBytes + 1));
  }

  function ModeAfter(log: seq<Event>): Mode {
    if log == [] then Accept
    else if log[|log| - 1].SetMode? then log[|log| - 1].mode
    else ModeAfter(log[..|log| - 1])
  }

  /** Per request: the bytes seen so far and the chunks kept of them. */
  datatype Buffer = Buffer(size: nat, kept: Bytes)

  ghost function BufferOf(log: seq<Event>, id: RequestId, maxBodyBytes: nat): Buffer {
    Buffer(|Concat(Chunks(log, id))|, Kept(Chunks(log, id), maxBodyBytes + 1))
  }

  function BufferIn(buffers: map<RequestId, Buffer>, id: RequestId): Buffer {
    if id in buffers then buffers[id] else Buffer(0, [])
  }

  /** One more chunk of the request. */
  function Buffered(b: Buffer, chunk: Bytes, limit: nat): Buffer {
    var size := b.size + |chunk|;
    Buffer(size, if size <= limit then b.kept + chunk else b.kept)
  }

  ghost predicate BuffersFollow(buffers: map<RequestId, Buffer>, log: seq<Event>, maxBodyBytes: nat) {
    forall id :: BufferIn(buffers, id) == BufferOf(log, id, maxBodyBytes)
  }

  class Receiver {
    const maxBodyBytes: nat
    var mode: Mode
    var active: int
    var maxActive: int
    var attempts: seq<Attempt>
    var buffers: map<RequestId, Buffer>
    /** Everything that happened. */
    ghost var log: seq<Event>

    /** The fields say of the history exactly what they are named for. */
    ghost predicate Valid()
      reads this
    {
      && mode == ModeAfter(log)
      && active == OpenNow(log)
      && maxActive == Peak(log)
      && (forall id :: id in OpenIds(log) ==> id in buffers)
      && |attempts| == |EndedIds(log)|
      && (forall i :: 0 <= i < |attempts| ==> attempts[i].sequence == i + 1)
      && BuffersFollow(buffers, log, maxBodyBytes)
    }

    constructor (maxBodyBytes: nat)
      ensures Valid() && log == [] && buffers == map[] && attempts == [] && this.maxBodyBytes == maxBodyBytes
    {
      this.maxBodyBytes := maxBodyBytes;
      mode, active, maxActive, attempts := Accept, 0, 0, [];
      buffers, log := map[], [];
    }

    method OpenRequest(id: RequestId)
      requires Valid() && id !in buffers
      modifies this
      ensures Valid() && log == old(log) + [Open(id)] && attempts == old(attempts)
      ensures buffers == old(buffers)[id := Buffer(0, [])]
      ensures OpenIds(log) == old(OpenIds(log)) + {id} && active == old(active) + 1
    {
      Opens(log, id);
      BuffersOpen(buffers, log, id, maxBodyBytes);
      active := active + 1;
      maxActive := if active > maxActive then active else maxActive;
      buffers := buffers[id := Buffer(0, [])];
      log := log + [Open(id)];
    }

    method ReceiveData(id: RequestId, chunk: Bytes)
      requires Valid() && id in buffers
      modifies this
      ensures Valid() && log == old(log) + [Data(id, chunk)] && attempts == old(attempts)
      ensures buffers.Keys == old(buffers).Keys && buffers[id].size == old(buffers[id].size) + |chunk|
      ensures buffers[id].kept == if old(buffers[id].size) + |chunk| <= maxBodyBytes + 1
                                  then old(buffers[id].kept) + chunk
                                  else old(buffers[id].kept)
      ensures forall other :: other in buffers && other != id ==> buffers[other] == old(buffers[other])
    {
      Unmoved(log, Data(id, chunk));
      BuffersExtend(buffers, log, Data(id, chunk), maxBodyBytes);
      var size := buffers[id].size + |chunk|;
      var kept := buffers[id].kept;
      if size <= maxBodyBytes + 1 { kept := kept + chunk; }
      assert Buffer(size, kept) == Buffered(BufferIn(buffers, id), chunk, maxBodyBytes + 1);
      buffers := buffers[id := Buffer(size, kept)];
      log := log + [Data(id, chunk)];
    }

    /** The end of a body answers at once, with the mode in force and the bytes that were kept. */
    method EndRequest(id: RequestId, head: Head, decodes: bool)
      requires Valid() && id in buffers && id !in EndedIds(log)
      modifies this
      ensures Valid() && log == old(log) + [End(id, head, decodes)] && buffers == old(buffers)
      ensures attempts == old(attempts)
        + [Respond(|EndedIds(log)|, ModeAfter(log), head, decodes,
                   Kept(Chunks(log, id), maxBodyBytes + 1), maxBodyBytes)]
    {
      Unmoved(log, End(id, head, decodes));
      BuffersExtend(buffers, log, End(id, head, decodes), maxBodyBytes);
      attempts := attempts + [Respond(|attempts| + 1, mode, head, decodes, BufferIn(buffers, id).kept, maxBodyBytes)];
      log := log + [End(id, head, decodes)];
      assert BufferIn(buffers, id) == BufferOf(log, id, maxBodyBytes);
    }

    /** A response closes once; until then it is open. */
    method CloseResponse(id: RequestId)
      requires Valid() && id in OpenIds(log)
      modifies this
      ensures Valid() && log == old(log) + [Close(id)] && attempts == old(attempts) && buffers == old(buffers)
      ensures OpenIds(log) == old(OpenIds(log)) - {id} && active == old(active) - 1 && maxActive == old(maxActive)
    {
      Extend(log, Close(id));
      BuffersExtend(buffers, log, Close(id), maxBodyBytes);
      active := active - 1;
      log := log + [Close(id)];
    }

    method ChangeMode(mode: Mode)
      requires Valid()
      modifies this
      ensures Valid() && log == old(log) + [SetMode(mode)] && attempts == old(attempts) && buffers == old(buffers)
    {
      Unmoved(log, SetMode(mode));
      BuffersExtend(buffers, log, SetMode(mode), maxBodyBytes);
      this.mode := mode;
      log := log + [SetMode(mode)];
    }
  }

  /** One more event, in terms of the history before it. */
  lemma Extend(log: seq<Event>, e: Event)
    ensures OpenIds(log + [e]) ==
      if e.Open? then OpenIds(log) + {e.id} else if e.Close? then OpenIds(log) - {e.id} else OpenIds(log)
    ensures EndedIds(log + [e]) == if e.End? then EndedIds(log) + {e.id} else EndedIds(log)
    ensures Peak(log + [e]) == if OpenNow(log + [e]) > Peak(log) then OpenNow(log + [e]) else Peak(log)
    ensures ModeAfter(log + [e]) == if e.SetMode? then e.mode else ModeAfter(log)
    ensures Peak(log) >= OpenNow(log)
  {
    assert (log + [e])[..|log|] == log;
  }

  lemma Opens(log: seq<Event>, id: RequestId)
    requires id !in OpenIds(log)
    ensures OpenIds(log + [Open(id)]) == OpenIds(log) + {id}
    ensures OpenNow(log + [Open(id)]) == OpenNow(log) + 1
    ensures Peak(log + [Open(id)]) == if OpenNow(log) + 1 > Peak(log) then OpenNow(log) + 1 else Peak(log)
    ensures EndedIds(log + [Open(id)]) == EndedIds(log) && ModeAfter(log + [Open(id)]) == ModeAfter(log)
  {
    Extend(log, Open(id));
  }

  /** Other events move no count of responses. */
  lemma Unmoved(log: seq<Event>, e: Event)
    requires !e.Open? && !e.Close?
    ensures OpenIds(log + [e]) == OpenIds(log) && Peak(log + [e]) == Peak(log)
    ensures EndedIds(log + [e]) == if e.End? then EndedIds(log) + {e.id} else EndedIds(log)
    ensures ModeAfter(log + [e]) == if e.SetMode? then e.mode else ModeAfter(log)
  {
    Extend(log, e);
  }

  /** Only data changes a buffer, and only the buffer of its own request. */
  lemma BuffersExtend(buffers: map<RequestId, Buffer>, log: seq<Event>, e: Event, maxBodyBytes: nat)
    requires BuffersFollow(buffers, log, maxBodyBytes)
    ensures !e.Data? ==> BuffersFollow(buffers, log + [e], maxBodyBytes)
    ensures e.Data? ==>
      var buffered := Buffered(BufferIn(buffers, e.id), e.chunk, maxBodyBytes + 1);
      BuffersFollow(buffers[e.id := buffered], log + [e], maxBodyBytes)
  {
    assert (log + [e])[..|log|] == log;
    if e.Data? {
      assert BufferIn(buffers, e.id) == BufferOf(log, e.id, maxBodyBytes);
      KeptNext(Chunks(log, e.id), e.chunk, maxBodyBytes + 1);
    }
    forall id | !e.Data? || e.id != id ensures BufferIn(buffers, id) == BufferOf(log + [e], id, maxBodyBytes) {
      assert BufferIn(buffers, id) == BufferOf(log, id, maxBodyBytes);
    }
  }

  lemma BuffersOpen(buffers: map<RequestId, Buffer>, log: seq<Event>, id: RequestId, maxBodyBytes: nat)
    requires BuffersFollow(buffers, log, maxBodyBytes) && id !in buffers
    ensures BuffersFollow(buffers[id := Buffer(0, [])], log + [Open(id)], maxBodyBytes)
  {
    BuffersExtend(buffers, log, Open(id), maxBodyBytes);
    forall other
      ensures BufferIn(buffers[id := Buffer(0, [])], other) == BufferOf(log + [Open(id)], other, maxBodyBytes)
    {
      assert BufferIn(buffers, other) == BufferOf(log + [Open(id)], other, maxBodyBytes);
    }
  }

  lemma KeptNext(chunks: seq<Bytes>, chunk: Bytes, limit: nat)
    ensures Concat(chunks + [chunk]) == Concat(chunks) + chunk
    ensures Kept(chunks + [chunk], limit) ==
      if |Concat(chunks)| + |chunk| <= limit then Kept(chunks, limit) + chunk else Kept(chunks, limit)
  {
    assert (chunks + [chunk])[..|chunks|] == chunks;
  }
}
