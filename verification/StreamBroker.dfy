/** One subscriber's connection: its broker subscription and the socket its records are sent on. */
module StreamChannel {
  import opened BridgeLog

  datatype SubscriptionState = Buffering | Live | Overflowed | Closed

  /** accepts says which of the socket's send attempts succeed; a failed one closes the socket. */
  datatype Socket = Socket(open: bool, sent: seq<Record>, attempts: nat, accepts: nat -> bool)

  datatype Channel = Channel(
    streamKey: string,
    state: SubscriptionState,
    buffer: seq<Record>,
    overflows: nat,
    socket: Socket
  )

  /** Sends one frame carrying the given records. */
  function Send(k: Socket, frame: seq<Record>): Socket {
    if !k.open then k
    else if k.accepts(k.attempts) then k.(sent := k.sent + frame, attempts := k.attempts + 1)
    else k.(open := false, attempts := k.attempts + 1)
  }

  /** Closing the socket unsubscribes, which drops the buffer. */
  function WithSocket(c: Channel, k: Socket): Channel {
    if k.open then c.(socket := k) else c.(state := Closed, buffer := [], socket := k)
  }

  function Deliver(c: Channel, r: Record): Channel {
    WithSocket(c, Send(c.socket, [r]))
  }

  function DeliverAll(c: Channel, rs: seq<Record>): Channel
    decreases |rs|
  {
    if rs == [] then c else DeliverAll(Deliver(c, rs[0]), rs[1..])
  }

  function Close(c: Channel): Channel {
    WithSocket(c, c.socket.(open := false))
  }

  /** What one published record does to a subscription of its stream. */
  function PublishTo(c: Channel, r: Record, maxBuffered: nat): Channel {
    match c.state
    case Closed => c
    case Overflowed => c
    case Buffering =>
      if |c.buffer| >= maxBuffered then Close(c.(overflows := c.overflows + 1))
      else c.(buffer := c.buffer + [r])
    case Live => Deliver(c, r)
  }

  function After(sequence: int): Record -> bool {
    (r: Record) => r.sequence > sequence
  }

  function InsertSorted(r: Record, rs: seq<Record>): seq<Record> {
    if rs == [] || r.sequence <= rs[0].sequence then [r] + rs else [rs[0]] + InsertSorted(r, rs[1..])
  }

  /** Stable sort by sequence. */
  function SortBySequence(rs: seq<Record>): seq<Record> {
    if rs == [] then [] else InsertSorted(rs[0], SortBySequence(rs[1..]))
  }

  ghost predicate DistinctSequences(rs: seq<Record>) {
    forall i, j :: 0 <= i < j < |rs| ==> rs[i].sequence != rs[j].sequence
  }

  lemma PrependLeast(r: Record, rs: seq<Record>)
    requires Increasing(rs) && forall x :: x in rs ==> r.sequence < x.sequence
    ensures Increasing([r] + rs)
  {
    assert forall j :: 0 <= j < |rs| ==> rs[j] in rs;
  }

  lemma {:induction false} InsertSortedExact(r: Record, rs: seq<Record>)
    requires Increasing(rs) && forall x :: x in rs ==> x.sequence != r.sequence
    ensures Increasing(InsertSorted(r, rs))
    ensures forall x :: x in InsertSorted(r, rs) <==> x == r || x in rs
  {
    if rs != [] {
      assert rs == [rs[0]] + rs[1..] && rs[0] in rs;
      if r.sequence <= rs[0].sequence {
        PrependLeast(r, rs);
      } else {
        InsertSortedExact(r, rs[1..]);
        PrependLeast(rs[0], InsertSorted(r, rs[1..]));
      }
    }
  }

  /** Sorting keeps the records and puts them in strictly increasing order. */
  lemma {:induction false} SortExact(rs: seq<Record>)
    requires DistinctSequences(rs)
    ensures Increasing(SortBySequence(rs))
    ensures forall x :: x in SortBySequence(rs) <==> x in rs
  {
    if rs != [] {
      assert rs == [rs[0]] + rs[1..];
      SortExact(rs[1..]);
      InsertSortedExact(rs[0], SortBySequence(rs[1..]));
    }
  }

  /** Drains what the buffer holds beyond the given sequence, in order, and turns the subscription live. */
  function GoLive(c: Channel, afterSequence: nat): Channel {
    if c.state != Buffering then c
    else
      DeliverAll(c.(state := Live, buffer := []), SortBySequence(Filter(c.buffer, After(afterSequence))))
  }

  function LastDelivered(backlog: seq<Record>, cursor: nat): nat {
    if backlog == [] then cursor else backlog[|backlog| - 1].sequence
  }

  /** The rest of the subscribe handshake once the backlog has been read. */
  function FinishSubscribe(c: Channel, backlog: seq<Record>, cursor: nat): Channel {
    if !c.socket.open then c
    else
      var sent := WithSocket(c, Send(c.socket, backlog));
      if !sent.socket.open then sent else GoLive(sent, LastDelivered(backlog, cursor))
  }

  // ---- an open socket loses nothing

  lemma {:induction false} DeliverAllSends(c: Channel, rs: seq<Record>)
    ensures DeliverAll(c, rs).socket.open ==>
      DeliverAll(c, rs) == c.(socket := DeliverAll(c, rs).socket)
      && DeliverAll(c, rs).socket.sent == c.socket.sent + rs
      && c.socket.open
    ensures c.socket.open && (forall n :: c.socket.accepts(n)) ==> DeliverAll(c, rs).socket.open
    ensures DeliverAll(c, rs).socket.accepts == c.socket.accepts
    ensures DeliverAll(c, rs).socket.open ==> DeliverAll(c, rs).socket.attempts == c.socket.attempts + |rs|
    ensures DeliverAll(c, rs).overflows == c.overflows
    ensures |DeliverAll(c, rs).buffer| <= |c.buffer|
    ensures !c.socket.open && c.state == Closed ==> DeliverAll(c, rs).socket.sent == c.socket.sent
    ensures c.socket.sent <= DeliverAll(c, rs).socket.sent
    decreases |rs|
  {
    if rs != [] {
      DeliverAllSends(Deliver(c, rs[0]), rs[1..]);
      assert rs == [rs[0]] + rs[1..];
    }
  }

  /**
   * The rest of a subscribe handshake that keeps the socket open sent the backlog in one frame, even
   * an empty one, and then each drained record in its own.
   */
  lemma FinishSubscribeSends(c: Channel, backlog: seq<Record>, cursor: nat)
    requires c.state == Buffering && c.socket.open
    ensures var d := FinishSubscribe(c, backlog, cursor);
      && (d.socket.open ==>
            var drained := SortBySequence(Filter(c.buffer, After(LastDelivered(backlog, cursor))));
            d.socket.sent == c.socket.sent + backlog + drained
            && d.socket.attempts == c.socket.attempts + 1 + |drained|)
      && ((forall n :: c.socket.accepts(n)) ==> d.socket.open && d.socket.accepts == c.socket.accepts)
  {
    var sent := WithSocket(c, Send(c.socket, backlog));
    if sent.socket.open {
      var drained := SortBySequence(Filter(c.buffer, After(LastDelivered(backlog, cursor))));
      DeliverAllSends(sent.(state := Live, buffer := []), drained);
    }
  }
}

/** The publish-subscribe broker and the callbacks of the sockets subscribed to it. */
module StreamBroker {
  import opened BridgeLog
  import opened StreamChannel

  type Id = nat
  type Channels = map<Id, Channel>
  type Buckets = map<string, set<Id>>

  ghost predicate InBucket(buckets: Buckets, key: string, id: Id) {
    key in buckets && id in buckets[key]
  }

  /** No bucket is empty, and a bucket lists exactly the subscriptions of its stream that are not closed. */
  ghost predicate Books(buckets: Buckets, channels: Channels) {
    && (forall key :: key in buckets ==> buckets[key] != {})
    && (forall key, id :: InBucket(buckets, key, id) <==>
          id in channels && channels[id].streamKey == key && channels[id].state != Closed)
  }

  ghost predicate BuffersBounded(channels: Channels, maxBuffered: nat) {
    forall id :: id in channels ==> |channels[id].buffer| <= maxBuffered
  }

  function WithoutId(buckets: Buckets, key: string, id: Id): Buckets {
    if key !in buckets then buckets
    else if buckets[key] - {id} == {} then buckets - {key}
    else buckets[key := buckets[key] - {id}]
  }

  lemma WithoutIdLists(buckets: Buckets, key: string, id: Id)
    ensures forall k, i :: InBucket(WithoutId(buckets, key, id), k, i) <==>
      InBucket(buckets, k, i) && !(k == key && i == id)
  {
    forall i | key in buckets && i in buckets[key] && i != id ensures buckets[key] - {id} != {} {
      assert i in buckets[key] - {id};
    }
  }

  /** Changing a subscription without closing it leaves the books right. */
  lemma UpdateKeepsBooks(buckets: Buckets, channels: Channels, id: Id, c: Channel)
    requires Books(buckets, channels) && id in channels
    requires c.streamKey == channels[id].streamKey
    requires c.state == Closed <==> channels[id].state == Closed
    ensures Books(buckets, channels[id := c])
  {
  }

  class BridgeStreamBroker {
    const maxBufferedRecords: nat
    // Every subscription ever made, by subscriber id; a handle keeps reaching its own after removal.
    var channels: Channels
    // The active subscriptions of each stream.
    var buckets: Buckets
    var nextId: Id

    constructor (maxBufferedRecords: nat)
      requires maxBufferedRecords > 0
      ensures Valid() && channels == map[] && this.maxBufferedRecords == maxBufferedRecords
    {
      this.maxBufferedRecords := maxBufferedRecords;
      channels, buckets, nextId := map[], map[], 0;
    }

    ghost predicate Valid()
      reads this
    {
      && maxBufferedRecords > 0
      && Books(buckets, channels)
      && BuffersBounded(channels, maxBufferedRecords)
      && (forall id :: id in channels ==> id < nextId)
    }

    method Subscribe(streamKey: string, socket: Socket) returns (id: Id)
      requires Valid()
      modifies this
      ensures Valid() && id !in old(channels)
      ensures channels == old(channels)[id := Channel(streamKey, Buffering, [], 0, socket)]
    {
      id := nextId;
      nextId := nextId + 1;
      var bucket := if streamKey in buckets then buckets[streamKey] else {};
      channels := channels[id := Channel(streamKey, Buffering, [], 0, socket)];
      buckets := buckets[streamKey := bucket + {id}];
      assert forall k, i :: InBucket(buckets, k, i) <==>
        InBucket(old(buckets), k, i) || (k == streamKey && i == id);
    }

    /** Removes the subscription from its bucket, and the bucket when it was the last one. */
    method Unsubscribe(id: Id)
      requires Valid() && id in channels
      modifies this`channels, this`buckets
      ensures Valid()
      ensures channels == old(channels)[id := old(channels[id]).(state := Closed, buffer := [])]
    {
      var c := channels[id];
      channels := channels[id := c.(state := Closed, buffer := [])];
      if c.state != Closed {
        WithoutIdLists(buckets, c.streamKey, id);
        buckets := WithoutId(buckets, c.streamKey, id);
      }
    }

    /** Replaces the socket of a subscription, unsubscribing it when the socket has closed. */
    method SetSocket(id: Id, socket: Socket)
      requires Valid() && id in channels
      modifies this`channels, this`buckets
      ensures Valid()
      ensures channels == old(channels)[id := WithSocket(old(channels[id]), socket)]
    {
      UpdateKeepsBooks(buckets, channels, id, channels[id].(socket := socket));
      channels := channels[id := channels[id].(socket := socket)];
      if !socket.open {
        Unsubscribe(id);
      }
    }

    /** The adapter's send: a failed one closes the socket, which unsubscribes. */
    method SendFrame(id: Id, frame: seq<Record>)
      requires Valid() && id in channels
      modifies this`channels, this`buckets
      ensures Valid()
      ensures channels == old(channels)[id := WithSocket(old(channels[id]), Send(old(channels[id]).socket, frame))]
    {
      SetSocket(id, Send(channels[id].socket, frame));
    }

    method CloseSocket(id: Id)
      requires Valid() && id in channels
      modifies this`channels, this`buckets
      ensures Valid() && channels == old(channels)[id := Close(old(channels[id]))]
    {
      SetSocket(id, channels[id].socket.(open := false));
    }

    /** Live from before the first drained record is handed over; a closed socket ignores the rest. */
    method GoLive(id: Id, afterSequence: nat)
      requires Valid() && id in channels
      modifies this`channels, this`buckets
      ensures Valid()
      ensures channels == old(channels)[id := StreamChannel.GoLive(old(channels[id]), afterSequence)]
    {
      var c := channels[id];
      if c.state != Buffering {
        assert channels == channels[id := c];
        return;
      }
      var drained := SortBySequence(Filter(c.buffer, After(afterSequence)));
      c := c.(buffer := [], state := Live);
      UpdateKeepsBooks(buckets, channels, id, c);
      channels := channels[id := c];
      var i := 0;
      while i < |drained|
        invariant 0 <= i <= |drained|
        invariant Valid() && id in channels
        invariant channels == old(channels)[id := channels[id]]
        invariant DeliverAll(channels[id], drained[i..]) == DeliverAll(c, drained)
      {
        assert drained[i..][0] == drained[i] && drained[i..][1..] == drained[i + 1..];
        SendFrame(id, [drained[i]]);
        i := i + 1;
      }
    }

    /** Backlog frame first, then the drain of what was published meanwhile. */
    method FinishSubscribe(id: Id, backlog: seq<Record>, cursor: nat)
      requires Valid() && id in channels
      modifies this`channels, this`buckets
      ensures Valid()
      ensures channels == old(channels)[id := StreamChannel.FinishSubscribe(old(channels[id]), backlog, cursor)]
    {
      if !channels[id].socket.open {
        assert channels == channels[id := channels[id]];
        return;
      }
      SendFrame(id, backlog);
      if channels[id].socket.open {
        GoLive(id, LastDelivered(backlog, cursor));
      }
    }

    method PublishOne(id: Id, r: Record)
      requires Valid() && id in channels
      modifies this`channels, this`buckets
      ensures Valid()
      ensures channels == old(channels)[id := PublishTo(old(channels[id]), r, maxBufferedRecords)]
    {
      var c := channels[id];
      if c.state == Closed || c.state == Overflowed {
        assert channels == channels[id := c];
        return;
      }
      if c.state == Buffering {
        if |c.buffer| >= maxBufferedRecords {
          c := c.(state := Overflowed, buffer := [], overflows := c.overflows + 1);
          UpdateKeepsBooks(buckets, channels, id, c);
          channels := channels[id := c];
          CloseSocket(id);
        } else {
          c := c.(buffer := c.buffer + [r]);
          UpdateKeepsBooks(buckets, channels, id, c);
          channels := channels[id := c];
        }
        return;
      }
      SendFrame(id, [r]);
    }

    /** Reaches every subscription of the stream, each on its own, and no other. */
    method Publish(streamKey: string, r: Record)
      requires Valid()
      modifies this`channels, this`buckets
      ensures Valid() && channels == Published(old(channels), streamKey, r, maxBufferedRecords)
    {
      var todo := if streamKey in buckets then buckets[streamKey] else {};
      ghost var before, bucket, done := channels, todo, {};
      BucketCovers(buckets, channels, streamKey, r, maxBufferedRecords);
      while todo != {}
        invariant Valid()
        invariant todo + done == bucket && todo !! done && bucket <= before.Keys
        invariant channels == PublishedIn(before, done, r, maxBufferedRecords)
      {
        var id :| id in todo;
        PublishOne(id, r);
        PublishedInNext(before, done, id, r, maxBufferedRecords);
        todo, done := todo - {id}, done + {id};
      }
    }
  }

  /** Every subscription of the stream takes the record on its own; the others are untouched. */
  ghost function Published(channels: Channels, streamKey: string, r: Record, maxBuffered: nat): Channels {
    map id | id in channels ::
      if channels[id].streamKey == streamKey then PublishTo(channels[id], r, maxBuffered) else channels[id]
  }

  ghost function PublishedIn(channels: Channels, ids: set<Id>, r: Record, maxBuffered: nat): Channels {
    map id | id in channels :: if id in ids then PublishTo(channels[id], r, maxBuffered) else channels[id]
  }

  lemma PublishedInNext(channels: Channels, ids: set<Id>, id: Id, r: Record, maxBuffered: nat)
    requires id in channels && id !in ids
    ensures PublishedIn(channels, ids, r, maxBuffered)[id := PublishTo(channels[id], r, maxBuffered)]
      == PublishedIn(channels, ids + {id}, r, maxBuffered)
  {
  }

  /** Reaching the bucket reaches the stream: what the bucket leaves out is closed. */
  lemma BucketCovers(buckets: Buckets, channels: Channels, streamKey: string, r: Record, maxBuffered: nat)
    requires Books(buckets, channels)
    ensures var bucket := if streamKey in buckets then buckets[streamKey] else {};
      bucket <= channels.Keys
      && PublishedIn(channels, bucket, r, maxBuffered) == Published(channels, streamKey, r, maxBuffered)
      && PublishedIn(channels, {}, r, maxBuffered) == channels
  {
    var bucket := if streamKey in buckets then buckets[streamKey] else {};
    forall id | id in bucket ensures id in channels && channels[id].streamKey == streamKey {
      assert InBucket(buckets, streamKey, id);
    }
    forall id | id in channels && channels[id].streamKey == streamKey && id !in bucket
      ensures PublishTo(channels[id], r, maxBuffered) == channels[id]
    {
      assert !InBucket(buckets, streamKey, id);
    }
  }
}
