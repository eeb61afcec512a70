/**
 Sending a stream into a sink by polling: one item is buffered when the sink is busy, and the stream is
 given back when something fails. The sink and the stream answer as they like.
 */
module SendAll {
  import opened Base

  // ---------------------------------------------------------------------------------------------
  // The stream and the sink
  // ---------------------------------------------------------------------------------------------

  /** What polling a stream yields. */
  datatype Event<T> = Item(item: T) | Pending | Broken(error: int) | End

  /** A stream: everything it yields when polled, and how often it was polled. Past the end it is not ready. */
  datatype Stream<T> = Stream(events: seq<Event<T>>, next: nat)

  /** A stream that is not polled again once it has ended. */
  datatype Fuse<T> = Fuse(inner: Stream<T>, done: bool)

  /** What a sink answers to being offered an item, flushed or closed. */
  datatype Answer = Yes | NotYet | Refuse(error: int)

  datatype Call<T> = Offered(item: T, answer: Answer) | Flushed(answer: Answer) | Closed(answer: Answer)

  /** A sink: everything it answers, in order, and the calls it has answered. Past the end it is not ready. */
  datatype Sink<T> = Sink(answers: seq<Answer>, calls: seq<Call<T>>)

  datatype Outcome<T> = NotReady | Finished(sink: Sink<T>, stream: Stream<T>) | Failed(stream: Stream<T>, error: int)

  function PollStream<T>(f: Fuse<T>): (Event<T>, Fuse<T>) {
    if f.done then (End, f)
    else if f.inner.next >= |f.inner.events| then (Pending, f)
    else
      var event := f.inner.events[f.inner.next];
      (event, Fuse(Stream(f.inner.events, f.inner.next + 1), event.End?))
  }

  function AnswerAt(answers: seq<Answer>, i: nat): Answer {
    if i < |answers| then answers[i] else NotYet
  }

  function Answering<T>(s: Sink<T>): Answer {
    AnswerAt(s.answers, |s.calls|)
  }

  function StartSend<T>(s: Sink<T>, item: T): Sink<T> {
    s.(calls := s.calls + [Offered(item, Answering(s))])
  }

  function PollComplete<T>(s: Sink<T>): Sink<T> {
    s.(calls := s.calls + [Flushed(Answering(s))])
  }

  function CloseSink<T>(s: Sink<T>): Sink<T> {
    s.(calls := s.calls + [Closed(Answering(s))])
  }

  // ---------------------------------------------------------------------------------------------
  // What was sent and what there is to send
  // ---------------------------------------------------------------------------------------------

  predicate Taken<T>(call: Call<T>) {
    call.Offered? && call.answer.Yes?
  }

  /** The items a sink took. */
  function Accepted<T>(calls: seq<Call<T>>): seq<T> {
    if calls == [] then []
    else
      var init, last := calls[..|calls| - 1], calls[|calls| - 1];
      if Taken(last) then Accepted(init) + [last.item] else Accepted(init)
  }

  lemma AcceptedAfter<T>(calls: seq<Call<T>>, call: Call<T>)
    ensures Accepted(calls + [call]) == if Taken(call) then Accepted(calls) + [call.item] else Accepted(calls)
  {
  }

  /** The items in the first `n` events, after what was there before. */
  function Due<T>(base: seq<T>, events: seq<Event<T>>, n: nat): seq<T>
    requires n <= |events|
  {
    if n == 0 then base
    else if events[n - 1].Item? then Due(base, events, n - 1) + [events[n - 1].item]
    else Due(base, events, n - 1)
  }

  /** The items a stream delivers until it ends. */
  function Items<T>(events: seq<Event<T>>): seq<T> {
    if events == [] || events[0].End? then []
    else if events[0].Item? then [events[0].item] + Items(events[1..])
    else Items(events[1..])
  }

  function AsSeq<T>(x: Option<T>): seq<T> {
    if x.Some? then [x.value] else []
  }

  /** Among the first `n` events the stream neither ended nor broke. */
  predicate Open<T>(events: seq<Event<T>>, n: nat)
    requires n <= |events|
  {
    n == 0 || (!events[n - 1].End? && !events[n - 1].Broken? && Open(events, n - 1))
  }

  /** The calls after `before` were answered as the sink answers; none failed and the sink is not closed. */
  predicate AllWell<T(==)>(answers: seq<Answer>, before: seq<Call<T>>, calls: seq<Call<T>>) {
    if |calls| <= |before| then calls == before
    else
      var n := |calls| - 1;
      && calls[n].answer == AnswerAt(answers, n) && !calls[n].answer.Refuse? && calls[n] != Closed(Yes)
      && AllWell(answers, before, calls[..n])
  }

  /** What is still to come after `n` polls. */
  function Rest<T>(events: seq<Event<T>>, n: nat): seq<T>
    requires n <= |events|
  {
    if n > 0 && events[n - 1].End? then [] else Items(events[n..])
  }

  lemma RestStep<T>(events: seq<Event<T>>, n: nat)
    requires n < |events| && (n > 0 ==> !events[n - 1].End?)
    ensures Rest(events, n) == if events[n].Item? then [events[n].item] + Rest(events, n + 1) else Rest(events, n + 1)
  {
    assert events[n..][1..] == events[n + 1..];
  }

  /** What was polled and what is still to come are what the stream delivers. */
  lemma {:induction false} PolledThenRest<T>(base: seq<T>, events: seq<Event<T>>, n: nat)
    requires n <= |events| && (n > 0 ==> Open(events, n - 1))
    ensures Due(base, events, n) + Rest(events, n) == base + Items(events)
  {
    if n == 0 {
      assert events[0..] == events;
    } else {
      PolledThenRest(base, events, n - 1);
      RestStep(events, n - 1);
      var before, item, rest := Due(base, events, n - 1), events[n - 1], Rest(events, n);
      if item.Item? {
        assert (before + [item.item]) + rest == before + ([item.item] + rest);
      }
    }
  }

  // ---------------------------------------------------------------------------------------------
  // The future
  // ---------------------------------------------------------------------------------------------

  class SendAllFuture<T(==)> {
    var sink: Option<Sink<T>>
    var stream: Option<Fuse<T>>
    var buffered: Option<T>
    ghost const events: seq<Event<T>>
    ghost const answers: seq<Answer>
    ghost const before: seq<Call<T>>
    ghost const base: seq<T>

    constructor (sink: Sink<T>, events: seq<Event<T>>)
      ensures Conserves() && this.events == events && answers == sink.answers && before == sink.calls
      ensures base == Accepted(sink.calls)
      ensures this.sink == Some(sink) && stream == Some(Fuse(Stream(events, 0), false)) && buffered == None
    {
      this.sink, stream, buffered := Some(sink), Some(Fuse(Stream(events, 0), false)), None;
      this.events, answers, before, base := events, sink.answers, sink.calls, Accepted(sink.calls);
    }

    /** The stream is the one given; its end or its failure, if polled, was the last thing polled. */
    ghost predicate Polled(s: Stream<T>) {
      s.events == events && s.next <= |events| && (s.next > 0 ==> Open(events, s.next - 1))
    }

    ghost predicate Running()
      reads this
    {
      && sink.Some? && stream.Some? && Polled(stream.value.inner)
      && sink.value.answers == answers && AllWell(answers, before, sink.value.calls)
      && var n := stream.value.inner.next;
      if stream.value.done then n > 0 && events[n - 1].End? else Open(events, n)
    }

    /** What the sink took and at most one item more are the items in the first `n` events, in order. */
    ghost predicate Accounts(calls: seq<Call<T>>, x: Option<T>, n: nat)
      requires n <= |events|
    {
      Due(base, events, n) == if x.Some? then Accepted(calls) + [x.value] else Accepted(calls)
    }

    /** What the sink took and the buffered item are the items polled so far, in order. */
    ghost predicate Conserves()
      reads this
    {
      Running() && Accounts(sink.value.calls, buffered, stream.value.inner.next)
    }

    /** The stream and the sink are at least as far as they were. */
    ghost predicate Since(calls: seq<Call<T>>, n: nat)
      reads this
    {
      sink.Some? && stream.Some? && calls <= sink.value.calls && n <= stream.value.inner.next
    }

    /**
     Why a poll ends without a result: a busy sink keeps the item, the sink is not closed yet, or the stream
     is not ready and the sink is flushed.
     */
    ghost predicate Stalled(calls: seq<Call<T>>, n: nat)
      requires Running()
      reads this
    {
      var now, at := sink.value.calls, stream.value.inner.next;
      && Since(calls, n) && |calls| < |now|
      && var last := now[|now| - 1];
      && (last.Offered? ==> last.answer.NotYet? && buffered == Some(last.item))
      && (!last.Offered? ==> buffered == None)
      && (last.Closed? ==> stream.value.done)
      && (last.Flushed? ==> at == |events| || (n < at && events[at - 1].Pending?))
    }

    /** The last call of the sink is `call`, answered as the sink answers, and all was well before it. */
    ghost predicate EndsWith(s: Sink<T>, call: Call<T>) {
      && s.answers == answers && |s.calls| > |before| && s.calls[|s.calls| - 1] == call
      && call.answer == AnswerAt(answers, |s.calls| - 1) && AllWell(answers, before, s.calls[..|s.calls| - 1])
    }

    /** Everything was polled and taken, and the sink is closed. */
    ghost predicate FinishedWith(s: Sink<T>, from: Stream<T>)
      reads this
    {
      && sink == None && stream == None && buffered == None
      && EndsWith(s, Closed(Yes))
      && Polled(from) && from.next > 0 && events[from.next - 1].End?
      && Accepted(s.calls) == base + Items(events)
    }

    /** The item that was lost: the one the sink refused, if it refused one. */
    ghost function Lost(calls: seq<Call<T>>): Option<T> {
      if |calls| > |before| && calls[|calls| - 1].Offered? && calls[|calls| - 1].answer.Refuse?
      then Some(calls[|calls| - 1].item) else None
    }

    /** The stream given back continues after the polled part; the failure is the sink's last answer or the stream's. */
    ghost predicate FailedWith(from: Stream<T>, error: int)
      reads this
    {
      && sink.Some? && stream == None && buffered == None && Polled(from)
      && var calls := sink.value.calls;
      && (if AllWell(answers, before, calls)
          then from.next > 0 && events[from.next - 1] == Broken(error)
          else calls != [] && calls[|calls| - 1].answer == Refuse(error) && EndsWith(sink.value, calls[|calls| - 1]))
      && Accounts(calls, Lost(calls), from.next)
    }

    /** After a failure: what was taken, the refused item and what the stream still delivers are everything. */
    lemma FailureLosesAtMostTheRefused(from: Stream<T>, error: int)
      requires FailedWith(from, error)
      ensures Accepted(sink.value.calls) + AsSeq(Lost(sink.value.calls)) + Rest(events, from.next) ==
              base + Items(events)
    {
      PolledThenRest(base, events, from.next);
    }

    // -------------------------------------------------------------------------------------------

    lemma OneMoreCall(s: Sink<T>, call: Call<T>)
      requires s.answers == answers && AllWell(answers, before, s.calls) && call.answer == Answering(s)
      ensures var s' := s.(calls := s.calls + [call]);
              && EndsWith(s', call)
              && (AllWell(answers, before, s'.calls) <==> !call.answer.Refuse? && call != Closed(Yes))
      ensures Accepted(s.calls + [call]) == if Taken(call) then Accepted(s.calls) + [call.item] else Accepted(s.calls)
    {
    }

    lemma OneMoreOffer(s: Sink<T>, item: T, n: nat)
      requires s.answers == answers && AllWell(answers, before, s.calls)
      requires n <= |events| && Accounts(s.calls, Some(item), n)
      ensures var s' := StartSend(s, item);
              && EndsWith(s', Offered(item, Answering(s)))
              && (AllWell(answers, before, s'.calls) <==> !Answering(s).Refuse?)
              && Accounts(s'.calls, if Answering(s).Yes? then None else Some(item), n)
    {
    }

    /** Offers an item to the sink and keeps it if the sink is busy. An item the sink refuses is lost. */
    method TryStartSend(item: T) returns (answer: Answer)
      requires sink.Some? && buffered == None
      modifies this`sink, this`buffered
      ensures sink.Some? && sink.value == StartSend(old(sink.value), item) && answer == Answering(old(sink.value))
      ensures Accepted(sink.value.calls) == Accepted(old(sink.value.calls)) + if answer.Yes? then [item] else []
      ensures buffered == if answer.NotYet? then Some(item) else None
    {
      answer := Answering(sink.value);
      AcceptedAfter(sink.value.calls, Offered(item, answer));
      sink := Some(StartSend(sink.value, item));
      if answer.NotYet? {
        buffered := Some(item);
      }
    }

    method TakeStream() returns (s: Stream<T>)
      requires stream.Some?
      modifies this`stream
      ensures s == old(stream.value.inner) && stream == None
    {
      s := stream.value.inner;
      stream := None;
    }

    /**
     One poll. Nothing is lost, duplicated or reordered; success means that everything was accepted and the
     sink was closed; a failure gives back exactly the part of the stream that was not polled.
     */
    method Poll() returns (r: Outcome<T>)
      requires Conserves()
      modifies this
      ensures r.NotReady? ==> Conserves() && Stalled(old(sink.value.calls), old(stream.value.inner.next))
      ensures r.Finished? ==> FinishedWith(r.sink, r.stream) && old(sink.value.calls) <= r.sink.calls
      ensures r.Failed? ==>
                && FailedWith(r.stream, r.error)
                && old(sink.value.calls) <= sink.value.calls && old(stream.value.inner.next) <= r.stream.next
    {
      ghost var calls, n := sink.value.calls, stream.value.inner.next;
      if buffered.Some? {
        var item := buffered.value;
        buffered := None;
        r := Offer(item, calls, n);
        if !r.NotReady? || buffered.Some? {
          return;
        }
      }
      r := PollStreamAndSend(calls, n);
    }

    /** Polls the stream and offers what it yields until somebody is not ready, the stream ends or something fails. */
    method PollStreamAndSend(ghost calls: seq<Call<T>>, ghost n: nat) returns (r: Outcome<T>)
      requires Conserves() && Since(calls, n) && buffered == None
      modifies this
      ensures r.NotReady? ==> Conserves() && Stalled(calls, n)
      ensures r.Finished? ==> FinishedWith(r.sink, r.stream) && calls <= r.sink.calls
      ensures r.Failed? ==> FailedWith(r.stream, r.error) && calls <= sink.value.calls && n <= r.stream.next
    {
      while true
        invariant Conserves() && Since(calls, n) && buffered == None
        decreases |events| - stream.value.inner.next
      {
        var event := NextEvent(calls, n);
        match event {
          case Broken(error) =>
            r := Break(error, calls, n);
            return;
          case Item(item) =>
            r := Offer(item, calls, n);
            if !r.NotReady? || buffered.Some? {
              return;
            }
          case End =>
            r := Close(calls, n);
            return;
          case Pending =>
            r := Flush(calls, n);
            return;
        }
      }
    }

    /** The stream broke just now. */
    ghost predicate BrokeWith(error: int)
      reads this
    {
      && sink.Some? && stream.Some? && buffered == None && Polled(stream.value.inner)
      && AllWell(answers, before, sink.value.calls)
      && var at := stream.value.inner.next;
      && at > 0 && events[at - 1] == Broken(error)
      && Accounts(sink.value.calls, None, at)
    }

    /** One event is taken off the stream, unless it has ended or has nothing to yield. */
    method NextEvent(ghost calls: seq<Call<T>>, ghost n: nat) returns (event: Event<T>)
      requires Conserves() && Since(calls, n) && buffered == None
      modifies this`stream
      ensures Since(calls, n)
      ensures if event.Broken? then BrokeWith(event.error) else Running()
      ensures event.Item? ==>
                && stream.value.inner.next > old(stream.value.inner.next)
                && Accounts(sink.value.calls, Some(event.item), stream.value.inner.next)
      ensures event.End? ==> Conserves() && stream.value.done
      ensures event.Pending? ==>
                && Conserves()
                && var at := stream.value.inner.next; at == |events| || (n < at && events[at - 1].Pending?)
    {
      var (x, fuse) := PollStream(stream.value);
      event, stream := x, Some(fuse);
    }

    /** The stream broke: it is given back with its error. */
    method Break(error: int, ghost calls: seq<Call<T>>, ghost n: nat) returns (r: Outcome<T>)
      requires BrokeWith(error) && Since(calls, n)
      modifies this`stream
      ensures r.Failed? && FailedWith(r.stream, r.error) && calls <= sink.value.calls && n <= r.stream.next
    {
      var rest := TakeStream();
      r := Failed(rest, error);
    }

    /** Offers an item; `NotReady` with nothing buffered means that it was accepted and the poll goes on. */
    method Offer(item: T, ghost calls: seq<Call<T>>, ghost n: nat) returns (r: Outcome<T>)
      requires Running() && Since(calls, n) && buffered == None
      requires Accounts(sink.value.calls, Some(item), stream.value.inner.next)
      modifies this
      ensures r.NotReady? ==> Conserves() && Since(calls, n) && stream == old(stream)
      ensures r.NotReady? && buffered.Some? ==> Stalled(calls, n)
      ensures !r.Finished?
      ensures r.Failed? ==>
                && FailedWith(r.stream, r.error) && r.stream == old(stream.value.inner)
                && sink.value == StartSend(old(sink.value), item)
    {
      OneMoreOffer(sink.value, item, stream.value.inner.next);
      var answer := TryStartSend(item);
      if answer.Refuse? {
        var rest := TakeStream();
        return Failed(rest, answer.error);
      }
      r := NotReady;
    }

    /** The stream has ended: the sink is closed. */
    method Close(ghost calls: seq<Call<T>>, ghost n: nat) returns (r: Outcome<T>)
      requires Conserves() && Since(calls, n) && buffered == None && stream.value.done
      modifies this
      ensures r.NotReady? ==> Conserves() && Stalled(calls, n)
      ensures r.Finished? ==> FinishedWith(r.sink, r.stream) && calls <= r.sink.calls
      ensures r.Failed? ==>
                && FailedWith(r.stream, r.error) && r.stream == old(stream.value.inner)
                && sink.value == CloseSink(old(sink.value))
    {
      var answer := Answering(sink.value);
      OneMoreCall(sink.value, Closed(answer));
      sink := Some(CloseSink(sink.value));
      match answer {
        case NotYet =>
          r := NotReady;
        case Refuse(error) =>
          var rest := TakeStream();
          r := Failed(rest, error);
        case Yes =>
          PolledThenRest(base, events, stream.value.inner.next);
          r := Finished(sink.value, stream.value.inner);
          sink, stream := None, None;
      }
    }

    /** The stream is not ready: the sink is flushed. */
    method Flush(ghost calls: seq<Call<T>>, ghost n: nat) returns (r: Outcome<T>)
      requires Conserves() && Since(calls, n) && buffered == None
      requires var at := stream.value.inner.next; at == |events| || (n < at && events[at - 1].Pending?)
      modifies this
      ensures r.NotReady? ==> Conserves() && Stalled(calls, n)
      ensures !r.Finished?
      ensures r.Failed? ==>
                && FailedWith(r.stream, r.error) && r.stream == old(stream.value.inner)
                && sink.value == PollComplete(old(sink.value))
    {
      var answer := Answering(sink.value);
      OneMoreCall(sink.value, Flushed(answer));
      sink := Some(PollComplete(sink.value));
      if answer.Refuse? {
        var rest := TakeStream();
        r := Failed(rest, answer.error);
      } else {
        r := NotReady;
      }
    }

    /** Polled as often as one likes, until something other than "not ready" comes out. */
    method Drive(times: nat) returns (r: Outcome<T>)
      requires Conserves()
      modifies this
      ensures r.NotReady? ==> Conserves() && Since(old(sink.value.calls), old(stream.value.inner.next))
      ensures r.Finished? ==> FinishedWith(r.sink, r.stream) && old(sink.value.calls) <= r.sink.calls
      ensures r.Failed? ==>
                && FailedWith(r.stream, r.error)
                && old(sink.value.calls) <= sink.value.calls && old(stream.value.inner.next) <= r.stream.next
    {
      r := NotReady;
      for i := 0 to times
        invariant r == NotReady && Conserves() && Since(old(sink.value.calls), old(stream.value.inner.next))
      {
        r := Poll();
        if !r.NotReady? {
          return;
        }
      }
    }
  }
}
