/** The mailbox that records each mail once with its attempts, and the check that compares it with the
    outbox by size and by row. */
module Mailboxes {
  import opened Counting
  import opened Options

  /** A delivery id and the bytes sent under it. */
  datatype Message = Message(id: nat, bytes: nat)

  /** A request: whether it carries the token, its idempotency key, and the strict mail request it holds. */
  datatype Post = Post(authorized: bool, key: nat, body: Option<Message>)

  datatype Delivered = Delivered(message: Message, attempts: nat)

  predicate Accepted(post: Post) { post.authorized && post.body.Some? && post.body.value.id == post.key }

  /** The messages of the accepted requests, in order. */
  function Messages(posts: seq<Post>): seq<Message> {
    if posts == [] then []
    else
      var before := Messages(posts[..|posts| - 1]);
      var post := posts[|posts| - 1];
      if Accepted(post) then before + [post.body.value] else before
  }

  function Record(delivered: map<nat, Delivered>, message: Message): map<nat, Delivered> {
    if message.id in delivered
    then delivered[message.id := delivered[message.id].(attempts := delivered[message.id].attempts + 1)]
    else delivered[message.id := Delivered(message, 1)]
  }

  function Recorded(messages: seq<Message>): map<nat, Delivered> {
    if messages == [] then map[] else Record(Recorded(messages[..|messages| - 1]), messages[|messages| - 1])
  }

  class Mailbox {
    var delivered: map<nat, Delivered>
    var refused: nat

    /** The requests so far. */
    ghost var posts: seq<Post>

    ghost predicate Valid()
      reads this
    {
      delivered == Recorded(Messages(posts)) && refused == |posts| - |Messages(posts)|
    }

    constructor ()
      ensures Valid() && posts == []
    {
      delivered, refused, posts := map[], 0, [];
    }

    /** Records a strict request under its delivery id, or refuses it and records nothing. */
    method Receive(post: Post) returns (status: int)
      requires Valid()
      modifies this
      ensures Valid() && posts == old(posts) + [post]
      ensures status == 401 <==> !post.authorized
      ensures status == 400 <==> post.authorized && !(exists m :: post.body == Some(m) && m.id == post.key)
      ensures status == 200 || ((status == 400 || status == 401)
                                && delivered == old(delivered) && refused == old(refused) + 1)
      ensures status == 200 && post.key in old(delivered) ==>
        delivered == old(delivered)[post.key := Delivered(old(delivered)[post.key].message,
                                                          old(delivered)[post.key].attempts + 1)]
      ensures status == 200 && post.key !in old(delivered) ==>
        delivered == old(delivered)[post.key := Delivered(post.body.value, 1)]
      ensures status == 200 ==> refused == old(refused)
    {
      posts := posts + [post];
      assert posts[..|posts| - 1] == old(posts);
      if !post.authorized {
        refused := refused + 1;
        return 401;
      }
      if post.body.None? || post.body.value.id != post.key {
        refused := refused + 1;
        return 400;
      }
      var message := post.body.value;
      if message.id in delivered {
        delivered := delivered[message.id := delivered[message.id].(attempts := delivered[message.id].attempts + 1)];
      } else {
        delivered := delivered[message.id := Delivered(message, 1)];
      }
      assert Messages(posts)[..|Messages(posts)| - 1] == Messages(old(posts));
      return 200;
    }
  }

  function Ids(messages: seq<Message>): (ids: seq<nat>)
    ensures |ids| == |messages| && forall i :: 0 <= i < |messages| ==> ids[i] == messages[i].id
  {
    seq(|messages|, i requires 0 <= i < |messages| => messages[i].id)
  }

  /** `delivered` tells of one id what the messages so far tell. */
  ghost predicate Tells(delivered: map<nat, Delivered>, ids: seq<nat>, messages: seq<Message>, id: nat) {
    && (id in delivered <==> id in ids)
    && (id in delivered ==>
          && delivered[id].attempts == multiset(ids)[id]
          && delivered[id].message.id == id && delivered[id].message in messages)
  }

  lemma RecordTells(delivered: map<nat, Delivered>, ids: seq<nat>, messages: seq<Message>, message: Message, id: nat)
    requires Tells(delivered, ids, messages, id)
    ensures Tells(Record(delivered, message), ids + [message.id], messages + [message], id)
  {
    assert multiset(ids + [message.id]) == multiset(ids) + multiset{message.id};
    assert id !in ids ==> multiset(ids)[id] == 0;
    assert message in messages + [message];
  }

  /** Each id counts its requests and keeps a message sent under it. */
  lemma {:induction false} RecordedIs(messages: seq<Message>, id: nat)
    ensures Tells(Recorded(messages), Ids(messages), messages, id)
  {
    if messages != [] {
      var n := |messages| - 1;
      RecordedIs(messages[..n], id);
      RecordTells(Recorded(messages[..n]), Ids(messages[..n]), messages[..n], messages[n], id);
      assert messages == messages[..n] + [messages[n]];
      assert Ids(messages) == Ids(messages[..n]) + [messages[n].id];
    }
  }

  /** The check: as many recorded ids as rows, and each row recorded once with its own bytes. */
  predicate Matches(rows: seq<Message>, delivered: map<nat, Delivered>) {
    |delivered| == |rows|
    && forall i :: 0 <= i < |rows| ==> rows[i].id in delivered && delivered[rows[i].id] == Delivered(rows[i], 1)
  }

  lemma CountedTwice(ids: seq<nat>, i: nat, j: nat)
    requires i < j < |ids| && ids[i] == ids[j]
    ensures multiset(ids)[ids[i]] >= 2
  {
    assert ids == ids[..j] + ids[j..];
    assert ids[i] in ids[..j] && ids[j] in ids[j..];
  }

  /** An id counted once stands at one place. */
  lemma OnePlace(messages: seq<Message>, k: nat)
    requires k < |messages| && multiset(Ids(messages))[messages[k].id] == 1
    ensures forall i :: 0 <= i < |messages| && i != k ==> messages[i].id != messages[k].id
  {
    forall i | 0 <= i < |messages| && i != k ensures messages[i].id != messages[k].id {
      if messages[i].id == messages[k].id {
        CountedTwice(Ids(messages), if i < k then i else k, if i < k then k else i);
      }
    }
  }

  lemma AloneOnce(messages: seq<Message>, k: nat)
    requires k < |messages| && forall i :: 0 <= i < |messages| && i != k ==> messages[i] != messages[k]
    ensures multiset(messages)[messages[k]] == 1
  {
    Split(messages, k);
    assert messages[k] !in messages[..k] && messages[k] !in messages[k + 1..];
  }

  /** A message whose id was counted once is the only one under it. */
  lemma CountedOnce(messages: seq<Message>, m: Message)
    requires m in messages && multiset(Ids(messages))[m.id] == 1
    ensures multiset(messages)[m] == 1 && forall other :: other in messages && other.id == m.id ==> other == m
  {
    var k :| 0 <= k < |messages| && messages[k] == m;
    OnePlace(messages, k);
    AloneOnce(messages, k);
  }

  lemma DistinctIdsOnce(messages: seq<Message>)
    requires Distinct(Ids(messages))
    ensures Distinct(messages)
  {
    forall i, j | 0 <= i < j < |messages|
      ensures messages[i] != messages[j]
    {
      assert Ids(messages)[i] != Ids(messages)[j];
    }
  }

  lemma IdsWithout(before: seq<Message>, m: Message, after: seq<Message>)
    ensures multiset(Ids(before + [m] + after)) == multiset(Ids(before + after)) + multiset{m.id}
  {
    assert Ids(before + [m] + after) == Ids(before) + [m.id] + Ids(after);
    assert Ids(before + after) == Ids(before) + Ids(after);
  }

  /** The same messages without one of them. */
  lemma WithoutOne(a: seq<Message>, b: seq<Message>) returns (k: nat)
    requires a != [] && multiset(a) == multiset(b)
    ensures k < |b| && b[k] == a[|a| - 1] && multiset(b[..k] + b[k + 1..]) == multiset(a[..|a| - 1])
    ensures b == b[..k] + [b[k]] + b[k + 1..]
  {
    var n := |a| - 1;
    Split(a, n);
    assert a[n] in multiset(b);
    k :| 0 <= k < |b| && b[k] == a[n];
    Split(b, k);
    assert a[..n] + a[n + 1..] == a[..n];
    assert multiset(b[..k] + b[k + 1..]) == multiset(b) - multiset{a[n]};
    assert multiset(a[..n]) == multiset(a) - multiset{a[n]};
  }

  /** Equal collections of messages count the same ids. */
  lemma {:induction false} SameIds(a: seq<Message>, b: seq<Message>)
    requires multiset(a) == multiset(b)
    ensures multiset(Ids(a)) == multiset(Ids(b))
  {
    if a == [] {
      assert |multiset(b)| == 0;
    } else {
      var k := WithoutOne(a, b);
      var n := |a| - 1;
      SameIds(a[..n], b[..k] + b[k + 1..]);
      IdsWithout(a[..n], a[n], []);
      assert a == a[..n] + [a[n]] + [] && a[..n] == a[..n] + [];
      IdsWithout(b[..k], b[k], b[k + 1..]);
    }
  }

  /** The check passes exactly when the accepted requests were the queued envelopes, each sent once. */
  lemma MatchesExactly(rows: seq<Message>, posts: seq<Post>)
    requires Distinct(Ids(rows))
    ensures Matches(rows, Recorded(Messages(posts))) <==> multiset(Messages(posts)) == multiset(rows)
  {
    var messages := Messages(posts);
    if Matches(rows, Recorded(messages)) { MatchedOnce(rows, messages); }
    if multiset(messages) == multiset(rows) { OnceMatches(rows, messages); }
  }

  /** Every recorded message is a row, sent once. */
  lemma MatchedMessage(rows: seq<Message>, messages: seq<Message>, m: Message)
    requires Distinct(Ids(rows)) && Matches(rows, Recorded(messages)) && m in messages
    ensures m in rows && multiset(messages)[m] == 1
  {
    DistinctFill(Ids(rows), Recorded(messages).Keys);
    RecordedIs(messages, m.id);
    var i :| 0 <= i < |messages| && messages[i] == m;
    assert Ids(messages)[i] == m.id;
    assert m.id in Ids(rows);
    var k :| 0 <= k < |rows| && Ids(rows)[k] == m.id;
    CountedOnce(messages, rows[k]);
  }

  lemma MatchedOnce(rows: seq<Message>, messages: seq<Message>)
    requires Distinct(Ids(rows)) && Matches(rows, Recorded(messages))
    ensures multiset(messages) == multiset(rows)
  {
    DistinctIdsOnce(rows);
    forall m ensures multiset(messages)[m] == multiset(rows)[m] {
      DistinctCounts(rows, m);
      if m in rows { RecordedIs(messages, m.id); }
      if m in messages { MatchedMessage(rows, messages, m); }
    }
  }

  lemma OnceMatchesRow(rows: seq<Message>, messages: seq<Message>, i: nat)
    requires Distinct(Ids(rows)) && multiset(messages) == multiset(rows) && i < |rows|
    ensures rows[i].id in Recorded(messages) && Recorded(messages)[rows[i].id] == Delivered(rows[i], 1)
  {
    var id := rows[i].id;
    SameIds(messages, rows);
    assert Ids(rows)[i] == id;
    assert id in multiset(Ids(rows));
    assert id in Ids(messages);
    RecordedIs(messages, id);
    DistinctCounts(Ids(rows), id);
    RowUnder(rows, i, Recorded(messages)[id].message) by {
      assert Recorded(messages)[id].message in multiset(messages);
    }
  }

  lemma RowUnder(rows: seq<Message>, i: nat, m: Message)
    requires Distinct(Ids(rows)) && i < |rows| && m in rows && m.id == rows[i].id
    ensures m == rows[i]
  {
    var k :| 0 <= k < |rows| && rows[k] == m;
    assert Ids(rows)[k] == Ids(rows)[i];
  }

  lemma RecordedSize(rows: seq<Message>, messages: seq<Message>)
    requires Distinct(Ids(rows)) && multiset(messages) == multiset(rows)
    ensures |Recorded(messages)| == |rows|
  {
    SameIds(messages, rows);
    var keys := Recorded(messages).Keys;
    forall id ensures id in keys <==> id in Ids(rows) {
      RecordedIs(messages, id);
      assert id in Ids(messages) <==> id in multiset(Ids(messages));
      assert id in Ids(rows) <==> id in multiset(Ids(rows));
    }
    DistinctSize(Ids(rows), keys);
  }

  lemma OnceMatches(rows: seq<Message>, messages: seq<Message>)
    requires Distinct(Ids(rows)) && multiset(messages) == multiset(rows)
    ensures Matches(rows, Recorded(messages))
  {
    RecordedSize(rows, messages);
    forall i | 0 <= i < |rows|
      ensures rows[i].id in Recorded(messages) && Recorded(messages)[rows[i].id] == Delivered(rows[i], 1)
    {
      OnceMatchesRow(rows, messages, i);
    }
  }

  lemma {:induction false} DistinctSize(keys: seq<nat>, s: set<nat>)
    requires Distinct(keys) && forall k :: k in s <==> k in keys
    ensures |s| == |keys|
  {
    if keys == [] {
      assert s == {};
    } else {
      var n := |keys| - 1;
      assert keys == keys[..n] + [keys[n]];
      assert keys[n] in s;
      DistinctSize(keys[..n], s - {keys[n]});
    }
  }
}
