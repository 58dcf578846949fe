/**
 * The client side of Ollama's `/api/generate` call: one POST of the model name and
 * the prompt with streaming switched on, then a loop that decodes the streamed
 * answer chunk by chunk and prints each chunk's text as it arrives.
 *
 * The HTTP connection and the JSON decoder are abstracted: the POST either fails or
 * yields a body whose successive decode outcomes are given as a sequence, and an
 * exhausted body decodes as end-of-stream. The console and the body's closing are
 * recorded as events of a `Host`.
 */
module OllamaSender {
  import opened Wrappers
  import opened Strings

  /** The JSON body of the request (`model`, `prompt`, `stream`). */
  datatype OllamaRequest = OllamaRequest(model: string, prompt: string, stream: bool)

  /** One streamed JSON object of the answer (`model`, `created_at`, `response`, `done`). */
  datatype OllamaResponse = OllamaResponse(model: string, createdAt: string, response: string, done: bool)

  /** One result of decoding the next value from the body. */
  datatype Decoded = Chunk(part: OllamaResponse) | EOF | DecodeError(msg: string)

  /** What the POST yields: a refusal with its cause, or a body with its decode outcomes. */
  datatype Transport = Refused(cause: string) | Streams(outcomes: seq<Decoded>)

  /** The errors `AskOllama` returns. */
  datatype Error = Unreachable(cause: string) | DecodeFailed(msg: string)

  /** What the program does to the outside world, in order. */
  datatype Event = Posted(url: string, req: OllamaRequest) | Read(d: Decoded) | Wrote(text: string) | Closed

  const Url := "http://localhost:11434/api/generate"

  predicate Unfinished(d: Decoded) {
    d.Chunk? && !d.part.done
  }

  /** `cs` are chunks none of which is marked done. */
  predicate AllUnfinished(cs: seq<Decoded>) {
    forall i | 0 <= i < |cs| :: Unfinished(cs[i])
  }

  /** The texts of the chunks `cs`, in order. */
  function Responses(cs: seq<Decoded>): (r: seq<string>)
    requires AllUnfinished(cs)
    ensures |r| == |cs| && forall i | 0 <= i < |cs| :: r[i] == cs[i].part.response
  {
    if cs == [] then [] else [cs[0].part.response] + Responses(cs[1..])
  }

  // ---------------------------------------------------------------------------
  // What the loop consumes and prints, as a function of the decode outcomes.

  /** How the loop ends: end-of-stream, a chunk marked done, or a decode error. */
  datatype Ending = AtEOF | AtDone | AtError(msg: string)

  /** The texts the loop prints, how it ends, and how many outcomes of the body it takes. */
  datatype Run = Run(fragments: seq<string>, ending: Ending, consumed: nat)

  /** The run of the decode loop over the outcomes `s`. */
  function Consume(s: seq<Decoded>): (r: Run)
    ensures |r.fragments| <= r.consumed <= |s|
  {
    if s == [] then Run([], AtEOF, 0)
    else
      match s[0]
      case EOF => Run([], AtEOF, 1)
      case DecodeError(m) => Run([], AtError(m), 1)
      case Chunk(p) =>
        if p.done then Run([p.response], AtDone, 1)
        else
          var r := Consume(s[1..]);
          Run([p.response] + r.fragments, r.ending, r.consumed + 1)
  }

  /** The events of the decode loop over `s`: each read, and after each chunk the print of its text. */
  function LoopEvents(s: seq<Decoded>): seq<Event> {
    if s == [] then [Read(EOF)]
    else
      match s[0]
      case EOF => [Read(EOF)]
      case DecodeError(_) => [Read(s[0])]
      case Chunk(p) => [Read(s[0]), Wrote(p.response)] + if p.done then [] else LoopEvents(s[1..])
  }

  /** The events after a successful POST: the loop, the final newline unless it failed, and the closing of the body. */
  function Exchange(s: seq<Decoded>): seq<Event> {
    LoopEvents(s) + if Consume(s).ending.AtError? then [Closed] else [Wrote("\n"), Closed]
  }

  /** Everything printed by the events `ev`. */
  function Output(ev: seq<Event>): string {
    if ev == [] then "" else if ev[0].Wrote? then ev[0].text + Output(ev[1..]) else Output(ev[1..])
  }

  /** The outcomes read by the events `ev`. */
  function Reads(ev: seq<Event>): seq<Decoded> {
    if ev == [] then [] else if ev[0].Read? then [ev[0].d] + Reads(ev[1..]) else Reads(ev[1..])
  }

  /** The events of reading and printing the unfinished chunks `cs`. */
  function ChunkEvents(cs: seq<Decoded>): seq<Event>
    requires AllUnfinished(cs)
  {
    if cs == [] then [] else [Read(cs[0]), Wrote(cs[0].part.response)] + ChunkEvents(cs[1..])
  }

  /** The events of the read that stops the loop, with the print of a done chunk's text. */
  function StopEvents(d: Decoded): seq<Event> {
    if d.Chunk? then [Read(d), Wrote(d.part.response)] else [Read(d)]
  }

  // ---------------------------------------------------------------------------
  // The environment and the client.

  /** The HTTP endpoint, the response body being read and the console, as one object. */
  class Host {
    const transport: Transport
    /** Outcomes of the current body decoded so far. */
    var pos: nat
    var closed: bool
    var trace: seq<Event>

    constructor (transport: Transport)
      ensures this.transport == transport && pos == 0 && !closed && trace == []
    {
      this.transport := transport;
      pos := 0;
      closed := false;
      trace := [];
    }

    /** `http.Post`: sends `req` to `url`; on success a new, unread body is open. */
    method Post(url: string, req: OllamaRequest) returns (ok: bool, cause: string)
      modifies this
      ensures ok == transport.Streams?
      ensures !ok ==> cause == transport.cause
      ensures trace == old(trace) + [Posted(url, req)]
      ensures pos == 0 && !closed
    {
      trace := trace + [Posted(url, req)];
      pos := 0;
      closed := false;
      ok := transport.Streams?;
      cause := if ok then "" else transport.cause;
    }

    /** `decoder.Decode`: the next outcome of the open body, end-of-stream once it is exhausted. */
    method Decode() returns (d: Decoded)
      requires transport.Streams? && !closed
      modifies this
      ensures old(pos) < |transport.outcomes| ==> d == transport.outcomes[old(pos)] && pos == old(pos) + 1
      ensures old(pos) >= |transport.outcomes| ==> d == EOF && pos == old(pos)
      ensures trace == old(trace) + [Read(d)] && closed == old(closed)
    {
      if pos < |transport.outcomes| {
        d := transport.outcomes[pos];
        pos := pos + 1;
      } else {
        d := EOF;
      }
      trace := trace + [Read(d)];
    }

    /** `fmt.Print`. */
    method Print(text: string)
      modifies this
      ensures trace == old(trace) + [Wrote(text)] && pos == old(pos) && closed == old(closed)
    {
      trace := trace + [Wrote(text)];
    }

    /** `resp.Body.Close`. */
    method Close()
      modifies this
      ensures trace == old(trace) + [Closed] && pos == old(pos) && closed
    {
      trace := trace + [Closed];
      closed := true;
    }
  }

  /** `AskOllama`: post the streaming request, print the answer as it arrives and a final
      newline, and close the body on every return once the POST succeeded. */
  method AskOllama(host: Host, modelName: string, prompt: string) returns (err: Option<Error>)
    modifies host
    ensures host.transport.Refused? ==>
              && err == Some(Unreachable(host.transport.cause))
              && host.trace == old(host.trace) + [Posted(Url, OllamaRequest(modelName, prompt, true))]
    ensures host.transport.Streams? ==>
              var run := Consume(host.transport.outcomes);
              && err == (if run.ending.AtError? then Some(DecodeFailed(run.ending.msg)) else None)
              && host.trace == old(host.trace) + [Posted(Url, OllamaRequest(modelName, prompt, true))]
                                               + Exchange(host.transport.outcomes)
              && host.closed
  {
    var reqBody := OllamaRequest(modelName, prompt, true);
    var ok, cause := host.Post(Url, reqBody);
    if !ok {
      return Some(Unreachable(cause));
    }
    err := Receive(host);
  }

  /** The decode loop of `AskOllama` on the freshly opened body, with the final newline
      and the deferred closing of the body. */
  method Receive(host: Host) returns (err: Option<Error>)
    requires host.transport.Streams? && host.pos == 0 && !host.closed
    modifies host
    ensures var run := Consume(host.transport.outcomes);
            && err == (if run.ending.AtError? then Some(DecodeFailed(run.ending.msg)) else None)
            && host.trace == old(host.trace) + Exchange(host.transport.outcomes)
            && host.closed
  {
    ghost var s := host.transport.outcomes;
    ghost var t0 := host.trace;
    while true
      invariant host.pos <= |s| && !host.closed
      invariant AllUnfinished(s[..host.pos])
      invariant host.trace == t0 + ChunkEvents(s[..host.pos])
      decreases |s| - host.pos
    {
      ghost var at := host.pos;
      var part := host.Decode();
      if part == EOF {
        LoopEndsAt(s, at, t0, host.trace);
        RunEndsAt(s, at);
        break;
      } else if part.DecodeError? {
        LoopEndsAt(s, at, t0, host.trace);
        RunEndsAt(s, at);
        host.Close();
        FinishTrace(s, t0, host.trace);
        return Some(DecodeFailed(part.msg));
      }
      host.Print(part.part.response);
      if part.part.done {
        LoopEndsAt(s, at, t0, host.trace);
        RunEndsAt(s, at);
        break;
      }
      ChunkEventsStep(s, at, t0, host.trace);
    }
    host.Print("\n");
    host.Close();
    FinishTrace(s, t0, host.trace);
    err := None;
  }

  // ---------------------------------------------------------------------------
  // Lemmas.

  /** The run reads a prefix of the outcomes: the texts of the unfinished chunks it meets,
      then exactly one stop (a done chunk, whose text is printed too, a decode error or an
      end-of-stream), unless the body runs out first. */
  lemma {:induction false} ConsumeShape(s: seq<Decoded>)
    ensures var r := Consume(s);
            && |r.fragments| <= r.consumed <= |s|
            && (forall i | 0 <= i < |r.fragments| :: s[i].Chunk? && r.fragments[i] == s[i].part.response)
            && (forall i | 0 <= i < |r.fragments| && !(r.ending == AtDone && i == |r.fragments| - 1) :: Unfinished(s[i]))
            && (r.ending == AtDone ==>
                  r.consumed == |r.fragments| >= 1 && s[r.consumed - 1].Chunk? && s[r.consumed - 1].part.done)
            && (r.ending.AtError? ==> r.consumed == |r.fragments| + 1 && s[r.consumed - 1] == DecodeError(r.ending.msg))
            && (r.ending == AtEOF ==>
                  r.consumed == |r.fragments| == |s| || (r.consumed == |r.fragments| + 1 && s[r.consumed - 1] == EOF))
  {
    if s != [] && Unfinished(s[0]) {
      ConsumeShape(s[1..]);
    }
  }

  /** The read that stops the loop: its events, and how the run ends there. */
  lemma StopsWith(s: seq<Decoded>)
    requires s == [] || !Unfinished(s[0])
    ensures var d := if s == [] then EOF else s[0];
            && LoopEvents(s) == StopEvents(d)
            && Consume(s).ending == (if d.EOF? then AtEOF else if d.DecodeError? then AtError(d.msg) else AtDone)
  {
  }

  /** Where the loop stops after `i` unfinished chunks: the events so far (`tr` after `t0`)
      are all the loop's events. */
  lemma LoopEndsAt(s: seq<Decoded>, i: nat, t0: seq<Event>, tr: seq<Event>)
    requires i <= |s| && AllUnfinished(s[..i]) && (i == |s| || !Unfinished(s[i]))
    requires tr == t0 + ChunkEvents(s[..i]) + StopEvents(if i == |s| then EOF else s[i])
    ensures tr == t0 + LoopEvents(s)
  {
    LoopEventsAfter(s, i);
    StopsWith(s[i..]);
    assert tr == t0 + (ChunkEvents(s[..i]) + LoopEvents(s[i..]));
  }

  /** Where the loop stops after `i` unfinished chunks: how the run ends. */
  lemma RunEndsAt(s: seq<Decoded>, i: nat)
    requires i <= |s| && AllUnfinished(s[..i]) && (i == |s| || !Unfinished(s[i]))
    ensures var d := if i == |s| then EOF else s[i];
            Consume(s).ending == (if d.EOF? then AtEOF else if d.DecodeError? then AtError(d.msg) else AtDone)
  {
    ConsumeAfter(s, i);
    StopsWith(s[i..]);
  }

  /** The closing events after the loop's complete the exchange. */
  lemma FinishTrace(s: seq<Decoded>, t0: seq<Event>, tr: seq<Event>)
    requires Consume(s).ending.AtError? ==> tr == t0 + LoopEvents(s) + [Closed]
    requires !Consume(s).ending.AtError? ==> tr == t0 + LoopEvents(s) + [Wrote("\n")] + [Closed]
    ensures tr == t0 + Exchange(s)
  {
  }

  /** Reading and printing one more unfinished chunk extends the events of those before it. */
  lemma ChunkEventsStep(s: seq<Decoded>, i: nat, t0: seq<Event>, tr: seq<Event>)
    requires i < |s| && AllUnfinished(s[..i + 1])
    requires tr == t0 + ChunkEvents(s[..i]) + [Read(s[i])] + [Wrote(s[i].part.response)]
    ensures tr == t0 + ChunkEvents(s[..i + 1])
  {
    ChunkEventsConcat(s[..i], [s[i]]);
    assert s[..i + 1] == s[..i] + [s[i]];
  }

  lemma {:induction false} ChunkEventsConcat(a: seq<Decoded>, b: seq<Decoded>)
    requires AllUnfinished(a) && AllUnfinished(b)
    ensures ChunkEvents(a + b) == ChunkEvents(a) + ChunkEvents(b)
  {
    if a != [] {
      assert (a + b)[1..] == a[1..] + b;
      ChunkEventsConcat(a[1..], b);
    } else {
      assert a + b == b;
    }
  }

  /** Unfinished chunks in front of a stream add their reads and prints before the loop's events on it. */
  lemma {:induction false} LoopEventsAppend(cs: seq<Decoded>, rest: seq<Decoded>)
    requires AllUnfinished(cs)
    ensures LoopEvents(cs + rest) == ChunkEvents(cs) + LoopEvents(rest)
  {
    if cs != [] {
      assert Unfinished(cs[0]);
      assert AllUnfinished(cs[1..]);
      assert (cs + rest)[0] == cs[0];
      assert (cs + rest)[1..] == cs[1..] + rest;
      LoopEventsAppend(cs[1..], rest);
    } else {
      assert cs + rest == rest;
    }
  }

  /** After `i` unfinished chunks the loop's events continue with those of the rest of the stream. */
  lemma LoopEventsAfter(s: seq<Decoded>, i: nat)
    requires i <= |s| && AllUnfinished(s[..i])
    ensures LoopEvents(s) == ChunkEvents(s[..i]) + LoopEvents(s[i..])
  {
    assert s == s[..i] + s[i..];
    LoopEventsAppend(s[..i], s[i..]);
  }

  /** Unfinished chunks in front of a stream add their texts and their count to the run on it. */
  lemma {:induction false} ConsumeAppend(cs: seq<Decoded>, rest: seq<Decoded>)
    requires AllUnfinished(cs)
    ensures var r := Consume(rest);
            Consume(cs + rest) == Run(Responses(cs) + r.fragments, r.ending, |cs| + r.consumed)
  {
    if cs != [] {
      assert Unfinished(cs[0]);
      assert AllUnfinished(cs[1..]);
      assert (cs + rest)[0] == cs[0];
      assert (cs + rest)[1..] == cs[1..] + rest;
      ConsumeAppend(cs[1..], rest);
    } else {
      assert cs + rest == rest;
    }
  }

  /** After `i` unfinished chunks the run continues with the run of the rest of the stream. */
  lemma ConsumeAfter(s: seq<Decoded>, i: nat)
    requires i <= |s| && AllUnfinished(s[..i])
    ensures var r := Consume(s[i..]);
            Consume(s) == Run(Responses(s[..i]) + r.fragments, r.ending, i + r.consumed)
  {
    assert s == s[..i] + s[i..];
    ConsumeAppend(s[..i], s[i..]);
  }

  /** End-of-stream after unfinished chunks: their texts are printed and the run stops successfully. */
  lemma StopsAtEof(cs: seq<Decoded>, rest: seq<Decoded>)
    requires AllUnfinished(cs)
    ensures Consume(cs + [EOF] + rest) == Run(Responses(cs), AtEOF, |cs| + 1)
  {
    var s := cs + [EOF] + rest;
    ConsumeAfter(s, |cs|);
    assert s[..|cs|] == cs;
    assert s[|cs|..][0] == EOF;
  }

  /** A decode error after unfinished chunks: their texts stay printed and the run fails with that error. */
  lemma StopsAtError(cs: seq<Decoded>, msg: string, rest: seq<Decoded>)
    requires AllUnfinished(cs)
    ensures Consume(cs + [DecodeError(msg)] + rest) == Run(Responses(cs), AtError(msg), |cs| + 1)
  {
    var s := cs + [DecodeError(msg)] + rest;
    ConsumeAfter(s, |cs|);
    assert s[..|cs|] == cs;
    assert s[|cs|..][0] == DecodeError(msg);
  }

  /** A chunk marked done after unfinished chunks: its text is printed too, and nothing after it is read. */
  lemma StopsAtDone(cs: seq<Decoded>, p: OllamaResponse, rest: seq<Decoded>)
    requires AllUnfinished(cs)
    requires p.done
    ensures Consume(cs + [Chunk(p)] + rest) == Run(Responses(cs) + [p.response], AtDone, |cs| + 1)
  {
    var s := cs + [Chunk(p)] + rest;
    ConsumeAfter(s, |cs|);
    assert s[..|cs|] == cs;
    assert s[|cs|..][0] == Chunk(p);
  }

  /** A body that runs out after unfinished chunks reads as end-of-stream. */
  lemma StopsWhenExhausted(cs: seq<Decoded>)
    requires AllUnfinished(cs)
    ensures Consume(cs) == Run(Responses(cs), AtEOF, |cs|)
  {
    ConsumeAfter(cs, |cs|);
    assert cs[..|cs|] == cs;
    assert cs[|cs|..] == [];
  }

  /** Outcomes after the one that stops the loop are never read. */
  lemma {:induction false} NothingReadAfterStop(a: seq<Decoded>, b: seq<Decoded>)
    requires Consume(a).consumed > |Consume(a).fragments| || Consume(a).ending == AtDone
    ensures Consume(a + b) == Consume(a)
  {
    if a != [] {
      assert (a + b)[0] == a[0];
      assert (a + b)[1..] == a[1..] + b;
      if Unfinished(a[0]) {
        NothingReadAfterStop(a[1..], b);
      }
    }
  }

  /** The loop prints exactly the run's fragments. */
  lemma {:induction false} LoopOutput(s: seq<Decoded>)
    ensures Output(LoopEvents(s)) == Join(Consume(s).fragments, "")
  {
    if s != [] && Unfinished(s[0]) {
      LoopOutput(s[1..]);
      var ev := LoopEvents(s);
      assert ev[1..] == [Wrote(s[0].part.response)] + LoopEvents(s[1..]);
      assert ev[1..][1..] == LoopEvents(s[1..]);
      assert Consume(s).fragments[1..] == Consume(s[1..]).fragments;
      JoinNoSeparatorFront(Consume(s).fragments);
    } else if s != [] && s[0].Chunk? {
      var ev := LoopEvents(s);
      assert ev[1..][1..] == [];
      assert Output(ev[1..]) == s[0].part.response + Output([]);
      assert Join([s[0].part.response], "") == s[0].part.response + "";
    }
  }

  /** The loop reads the outcomes in order, and one more than the texts it prints unless it
      stops at a done chunk; an exhausted body reads as one end-of-stream. */
  lemma {:induction false} LoopReads(s: seq<Decoded>)
    ensures Reads(LoopEvents(s)) == (s + [EOF])[..ReadCount(Consume(s))]
  {
    if s != [] && Unfinished(s[0]) {
      LoopReads(s[1..]);
      ReadsOfUnfinished(s);
      var n := ReadCount(Consume(s[1..]));
      assert ReadCount(Consume(s)) == n + 1;
      assert (s + [EOF])[..n + 1] == [s[0]] + (s[1..] + [EOF])[..n];
    } else {
      StopReads(s);
    }
  }

  /** The number of reads of a run: one per printed text, and the stopping read unless that was a done chunk. */
  function ReadCount(r: Run): nat {
    |r.fragments| + if r.ending == AtDone then 0 else 1
  }

  lemma StopReads(s: seq<Decoded>)
    requires s == [] || !Unfinished(s[0])
    ensures ReadCount(Consume(s)) == 1 && Reads(LoopEvents(s)) == (s + [EOF])[..1]
  {
    var d := if s == [] then EOF else s[0];
    StopsWith(s);
    var ev := StopEvents(d);
    if d.Chunk? {
      assert ev[1..][1..] == [];
      assert Reads(ev[1..]) == Reads([]);
    } else {
      assert ev[1..] == [];
    }
    assert Reads(ev) == [d];
    assert (s + [EOF])[..1] == [d];
  }

  lemma ReadsOfUnfinished(s: seq<Decoded>)
    requires s != [] && Unfinished(s[0])
    ensures Reads(LoopEvents(s)) == [s[0]] + Reads(LoopEvents(s[1..]))
  {
    var head := [Read(s[0]), Wrote(s[0].part.response)];
    ReadsConcat(head, LoopEvents(s[1..]));
    assert head[1..][1..] == [];
    assert Reads(head) == [s[0]];
  }

  lemma {:induction false} ReadsConcat(a: seq<Event>, b: seq<Event>)
    ensures Reads(a + b) == Reads(a) + Reads(b)
  {
    if a != [] {
      assert (a + b)[0] == a[0];
      assert (a + b)[1..] == a[1..] + b;
      ReadsConcat(a[1..], b);
    } else {
      assert a + b == b;
    }
  }

  /** Every chunk read in `ev` is followed at once by the print of its text. */
  predicate PrintedOnRead(ev: seq<Event>) {
    forall i | 0 <= i < |ev| && ev[i].Read? && ev[i].d.Chunk? :: i + 1 < |ev| && ev[i + 1] == Wrote(ev[i].d.part.response)
  }

  /** Every print in `ev` comes right after the read of the chunk whose text it is. */
  predicate ReadBeforePrint(ev: seq<Event>) {
    forall i | 0 <= i < |ev| && ev[i].Wrote? :: i > 0 && ev[i - 1].Read? && ev[i - 1].d.Chunk? && ev[i].text == ev[i - 1].d.part.response
  }

  /** Each chunk's text is printed as soon as the chunk is read, before the next read,
      and the loop prints nothing else. */
  lemma {:induction false} PrintBeforeNextRead(s: seq<Decoded>)
    ensures PrintedOnRead(LoopEvents(s)) && ReadBeforePrint(LoopEvents(s))
  {
    if s != [] && Unfinished(s[0]) {
      PrintBeforeNextRead(s[1..]);
      var ev := LoopEvents(s);
      var tail := LoopEvents(s[1..]);
      assert ev == [Read(s[0]), Wrote(s[0].part.response)] + tail;
      assert tail[0].Read?;
      forall i | 0 <= i < |ev| && ev[i].Read? && ev[i].d.Chunk?
        ensures i + 1 < |ev| && ev[i + 1] == Wrote(ev[i].d.part.response)
      {
        if i >= 2 {
          assert ev[i] == tail[i - 2];
          assert tail[i - 2].Read? && tail[i - 2].d.Chunk?;
          assert ev[i + 1] == tail[i - 1];
        }
      }
      forall i | 0 <= i < |ev| && ev[i].Wrote?
        ensures i > 0 && ev[i - 1].Read? && ev[i - 1].d.Chunk? && ev[i].text == ev[i - 1].d.part.response
      {
        if i >= 2 {
          assert ev[i] == tail[i - 2];
          assert tail[i - 2].Wrote?;
          assert ev[i - 1] == tail[i - 3];
        }
      }
    }
  }

  /** Success, by end-of-stream or by a done chunk: everything printed is the chunks' texts
      followed by one newline, and the body is closed last. */
  lemma SuccessOutput(s: seq<Decoded>)
    requires !Consume(s).ending.AtError?
    ensures Output(Exchange(s)) == Join(Consume(s).fragments, "") + "\n"
    ensures Exchange(s)[|Exchange(s)| - 1] == Closed
  {
    LoopOutput(s);
    OutputConcat(LoopEvents(s), [Wrote("\n"), Closed]);
  }

  /** A decode error: the texts printed before it stay, no newline follows, and the body is still closed. */
  lemma ErrorOutput(s: seq<Decoded>)
    requires Consume(s).ending.AtError?
    ensures Output(Exchange(s)) == Join(Consume(s).fragments, "")
    ensures Exchange(s)[|Exchange(s)| - 1] == Closed
  {
    LoopOutput(s);
    OutputConcat(LoopEvents(s), [Closed]);
  }

  lemma {:induction false} OutputConcat(a: seq<Event>, b: seq<Event>)
    ensures Output(a + b) == Output(a) + Output(b)
  {
    if a != [] {
      assert (a + b)[0] == a[0];
      assert (a + b)[1..] == a[1..] + b;
      OutputConcat(a[1..], b);
    } else {
      assert a + b == b;
    }
  }

  /** The body is closed exactly once, as the last event, whichever way the loop ends. */
  lemma ClosedOnce(s: seq<Decoded>)
    ensures var ev := Exchange(s);
            ev[|ev| - 1] == Closed && forall i | 0 <= i < |ev| - 1 :: ev[i] != Closed
  {
    LoopEventsNeverClose(s);
  }

  lemma {:induction false} LoopEventsNeverClose(s: seq<Decoded>)
    ensures Closed !in LoopEvents(s)
  {
    if s != [] && Unfinished(s[0]) {
      LoopEventsNeverClose(s[1..]);
    }
  }
}
