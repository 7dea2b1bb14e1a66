/**
 Auditing a POST body: the gateway buffers messages from the ASGI receive channel
 and hands the application a channel that replays them first.
 */
module BodyReplay {
  import opened Support

  /** A request event, or the disconnect that every exhausted channel keeps delivering. */
  datatype Message = Chunk(body: Bytes, more: bool) | Disconnect {
    function Body(): Bytes { if Chunk? then body else [] }
    function More(): bool { Chunk? && more }
  }

  const BODY_LIMIT: nat := 2_000_000

  /** The n-th message still to come from a channel holding `pending`. */
  function At(pending: seq<Message>, n: nat): Message {
    if n < |pending| then pending[n] else Disconnect
  }

  function Drop(pending: seq<Message>, n: nat): seq<Message> {
    if n <= |pending| then pending[n..] else []
  }

  /** Two channels that deliver the same messages for ever. */
  ghost predicate SameStream(a: seq<Message>, b: seq<Message>) {
    forall n: nat :: At(a, n) == At(b, n)
  }

  function Total(chunks: seq<Message>): nat {
    if chunks == [] then 0 else Total(chunks[..|chunks| - 1]) + |chunks[|chunks| - 1].Body()|
  }

  function Joined(chunks: seq<Message>): Bytes {
    if chunks == [] then [] else Joined(chunks[..|chunks| - 1]) + chunks[|chunks| - 1].Body()
  }

  /** The joined body is empty at first and grows by exactly the body of each chunk; its length is the total. */
  lemma {:induction false} JoinedIs(chunks: seq<Message>, k: nat)
    requires k < |chunks|
    ensures Joined([]) == [] && |Joined(chunks[..k])| == Total(chunks[..k])
    ensures Joined(chunks[..k + 1]) == Joined(chunks[..k]) + (match chunks[k] case Chunk(body, _) => body case Disconnect => [])
  {
    assert chunks[..k + 1][..k] == chunks[..k];
    if k > 0 {
      JoinedIs(chunks, k - 1);
      assert chunks[..k][..k - 1] == chunks[..k - 1];
    }
  }

  /** Buffering ends with the body, or as soon as the body is too long. */
  predicate Stops(chunks: seq<Message>)
    requires chunks != []
  {
    !chunks[|chunks| - 1].More() || Total(chunks) > 2_000_000
  }

  /** `chunks` is what buffering takes from `pending`: a start of the stream, cut at the first stop. */
  ghost predicate IsBuffered(pending: seq<Message>, chunks: seq<Message>) {
    && chunks != [] && IsStart(pending, chunks)
    && Stops(chunks) && OnlyLastStops(chunks)
  }

  /** `messages` are the first ones of the stream, in order. */
  ghost predicate IsStart(pending: seq<Message>, chunks: seq<Message>) {
    forall i :: 0 <= i < |chunks| ==> chunks[i] == At(pending, i)
  }

  lemma SameStarts(a: seq<Message>, b: seq<Message>, messages: seq<Message>)
    requires SameStream(a, b) && IsStart(a, messages)
    ensures IsStart(b, messages)
  {}

  lemma StartGrows(pending: seq<Message>, chunks: seq<Message>, rest: seq<Message>)
    requires IsStart(pending, chunks) && rest == Drop(pending, |chunks|)
    ensures IsStart(pending, chunks + [At(rest, 0)])
    ensures Drop(rest, 1) == Drop(pending, |chunks| + 1)
  {}

  /** Delivering a taken start first and then the rest is the original stream. */
  lemma ReplayedFirst(pending: seq<Message>, chunks: seq<Message>)
    requires IsStart(pending, chunks)
    ensures SameStream(chunks + Drop(pending, |chunks|), pending)
  {}

  ghost predicate OnlyLastStops(chunks: seq<Message>) {
    forall n :: 0 < n < |chunks| ==> !Stops(chunks[..n])
  }

  /** Receiving one more message after one that did not stop. */
  lemma OneMore(chunks: seq<Message>, m: Message)
    requires OnlyLastStops(chunks) && (chunks == [] || !Stops(chunks))
    ensures OnlyLastStops(chunks + [m])
    ensures Total(chunks + [m]) == Total(chunks) + |m.Body()|
  {
    var longer := chunks + [m];
    assert longer[..|chunks|] == chunks;
    forall n | 0 < n < |longer|
      ensures !Stops(longer[..n])
    {
      assert longer[..n] == chunks[..n];
      assert chunks[..|chunks|] == chunks;
    }
  }

  /** The buffered messages are determined by the stream alone. */
  lemma BufferedIsUnique(pending: seq<Message>, a: seq<Message>, b: seq<Message>)
    requires IsBuffered(pending, a) && IsBuffered(pending, b)
    ensures a == b
  {
    if |a| < |b| {
      SharePrefix(pending, a, b);
    } else if |b| < |a| {
      SharePrefix(pending, b, a);
    }
  }

  lemma SharePrefix(pending: seq<Message>, a: seq<Message>, b: seq<Message>)
    requires |a| <= |b|
    requires forall i :: 0 <= i < |a| ==> a[i] == At(pending, i)
    requires forall i :: 0 <= i < |b| ==> b[i] == At(pending, i)
    ensures b[..|a|] == a
  {}

  class Channel {
    var pending: seq<Message>

    constructor (pending: seq<Message>)
      ensures this.pending == pending
    {
      this.pending := pending;
    }

    method Receive() returns (m: Message)
      modifies this
      ensures m == At(old(pending), 0)
      ensures pending == Drop(old(pending), 1)
    {
      if pending == [] {
        return Disconnect;
      }
      m := pending[0];
      pending := pending[1..];
    }
  }

  method Buffer(channel: Channel) returns (chunks: seq<Message>, body: Bytes)
    modifies channel
    ensures IsBuffered(old(channel.pending), chunks)
    ensures channel.pending == Drop(old(channel.pending), |chunks|)
    ensures body == Joined(chunks)
  {
    chunks := [];
    var more, total := true, 0;
    ghost var original := channel.pending;
    while more
      invariant channel.pending == Drop(original, |chunks|)
      invariant IsStart(original, chunks)
      invariant total == Total(chunks)
      invariant OnlyLastStops(chunks)
      invariant more ==> chunks == [] || !Stops(chunks)
      invariant !more ==> chunks != [] && Stops(chunks)
      decreases more, |channel.pending|
    {
      StartGrows(original, chunks, channel.pending);
      var msg := channel.Receive();
      OneMore(chunks, msg);
      chunks := chunks + [msg];
      total := total + |msg.Body()|;
      more := msg.More();
      if total > BODY_LIMIT {
        break;
      }
    }
    body := Joined(chunks);
  }

  class Replay {
    var queue: seq<Message>
    const channel: Channel

    constructor (queue: seq<Message>, channel: Channel)
      ensures this.queue == queue && this.channel == channel
    {
      this.queue := queue;
      this.channel := channel;
    }

    /** What is still to come: the replay queue, then the channel. */
    ghost function Rest(): seq<Message>
      reads this, channel
    {
      queue + channel.pending
    }

    method Receive() returns (m: Message)
      modifies this, channel
      ensures m == At(old(Rest()), 0)
      ensures Rest() == Drop(old(Rest()), 1)
    {
      if queue != [] {
        m := queue[0];
        queue := queue[1..];
      } else {
        m := channel.Receive();
      }
    }
  }

  /** The channel handed to the application; only POST bodies are buffered and audited. */
  method ForApplication(post: bool, channel: Channel) returns (replay: Replay, audited: Bytes)
    modifies channel
    ensures fresh(replay) && replay.channel == channel
    ensures SameStream(replay.Rest(), old(channel.pending))
    ensures post ==> IsBuffered(old(channel.pending), replay.queue) && audited == Joined(replay.queue)
    ensures !post ==> replay.queue == [] && channel.pending == old(channel.pending) && audited == []
  {
    var chunks;
    chunks, audited := [], [];
    if post {
      ghost var original := channel.pending;
      chunks, audited := Buffer(channel);
      ReplayedFirst(original, chunks);
    }
    replay := new Replay(chunks, channel);
  }

  /** One more receive, appended to those of the stream already received. */
  method ReceiveOne(replay: Replay, ghost stream: seq<Message>, received: seq<Message>) returns (messages: seq<Message>)
    requires IsStart(stream, received) && replay.Rest() == Drop(stream, |received|)
    modifies replay, replay.channel
    ensures |messages| == |received| + 1 && IsStart(stream, messages)
    ensures replay.Rest() == Drop(stream, |messages|)
  {
    StartGrows(stream, received, replay.Rest());
    var m := replay.Receive();
    return received + [m];
  }

  /**
   Transparency: whatever the stream and wherever buffering stopped, the application's
   n-th receive yields the n-th original message.
   */
  method ApplicationReceives(post: bool, channel: Channel, count: nat) returns (messages: seq<Message>)
    modifies channel
    ensures |messages| == count
    ensures IsStart(old(channel.pending), messages)
  {
    var replay, _ := ForApplication(post, channel);
    ghost var stream := replay.Rest();
    ghost var original := old(channel.pending);
    messages := [];
    while |messages| < count
      invariant |messages| <= count
      invariant IsStart(stream, messages)
      invariant replay.Rest() == Drop(stream, |messages|)
    {
      messages := ReceiveOne(replay, stream, messages);
    }
    SameStarts(stream, original, messages);
  }

  /** A body that ends within the limit is audited whole. */
  lemma {:induction false} ShortBodyAuditedWhole(pending: seq<Message>, end: nat, chunks: seq<Message>)
    requires IsBuffered(pending, chunks)
    requires end < |pending| && Total(pending[..end + 1]) <= 2_000_000
    requires !pending[end].More() && forall i :: 0 <= i < end ==> pending[i].More()
    ensures chunks == pending[..end + 1]
  {
    var whole := pending[..end + 1];
    forall n | 0 < n < |whole|
      ensures !Stops(whole[..n])
    {
      TotalMonotone(whole, n);
    }
    BufferedIsUnique(pending, chunks, whole);
  }

  lemma {:induction false} TotalMonotone(chunks: seq<Message>, n: nat)
    requires n <= |chunks|
    ensures Total(chunks[..n]) <= Total(chunks)
    decreases |chunks|
  {
    if n < |chunks| {
      var shorter := chunks[..|chunks| - 1];
      assert shorter[..n] == chunks[..n];
      TotalMonotone(shorter, n);
    } else {
      assert chunks[..n] == chunks;
    }
  }
}
