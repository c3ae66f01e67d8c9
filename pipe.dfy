/**
 * The loop of `HttpToxic.Pipe` in toxics/httptoxic.go, run over an explicit
 * sequence of the events its `select` can observe. Parsing a chunk as an
 * HTTP response, rewriting it and serialising it back is the function
 * `rewrite`, which answers `None` when the chunk does not parse.
 */
module StreamPipe {
  import opened Wrappers
  import opened Rewrite

  /** One outcome of the `select`: the interrupt fired, or a chunk (possibly nil) arrived. */
  datatype Event = Interrupt | Input(chunk: Option<Bytes>)

  datatype Status = Running | Interrupted | Closed

  /** What the loop has done so far: chunks sent downstream, `Close` calls, events taken, state. */
  datatype Trace = Trace(output: seq<Bytes>, closes: nat, consumed: nat, status: Status)

  predicate IsData(e: Event)
  {
    e.Input? && e.chunk.Some?
  }

  /** The payload sent on for a non-nil chunk: the rewritten response if it parses, the chunk unchanged if not. */
  function Forward(data: Bytes, rewrite: Bytes -> Option<Bytes>): Bytes
  {
    match rewrite(data)
    case Some(rewritten) => rewritten
    case None => data
  }

  /**
   * One iteration of the loop. Exactly one thing happens: a chunk is
   * forwarded and the loop goes on, or the loop ends without forwarding
   * anything (and calls `Close` only on a nil chunk).
   */
  function Step(tr: Trace, e: Event, rewrite: Bytes -> Option<Bytes>): (next: Trace)
    requires tr.status == Running
    ensures next.consumed == tr.consumed + 1
    ensures next.status == Running <==> IsData(e)
    ensures next.status == Running ==> next.output == tr.output + [Forward(e.chunk.value, rewrite)] && next.closes == tr.closes
    ensures next.status != Running ==> next.output == tr.output
    ensures next.closes == tr.closes + (if e == Input(None) then 1 else 0)
  {
    match e
    case Interrupt => tr.(consumed := tr.consumed + 1, status := Interrupted)
    case Input(None) => tr.(closes := tr.closes + 1, consumed := tr.consumed + 1, status := Closed)
    case Input(Some(data)) => tr.(output := tr.output + [Forward(data, rewrite)], consumed := tr.consumed + 1)
  }

  /** The loop run over `events` from the start, stopping at the first terminating event. */
  function Run(events: seq<Event>, rewrite: Bytes -> Option<Bytes>): Trace
  {
    if events == [] then Trace([], 0, 0, Running)
    else
      var tr := Run(events[..|events| - 1], rewrite);
      if tr.status == Running then Step(tr, events[|events| - 1], rewrite) else tr
  }

  /** The host's side of a link, as far as the loop changes it: what was sent downstream, and how often `Close` was called. */
  class ToxicStub {
    var output: seq<Bytes>
    var closeCount: nat

    constructor ()
      ensures output == [] && closeCount == 0
    {
      output, closeCount := [], 0;
    }

    /** `stub.Output <- c`. */
    method Send(data: Bytes)
      modifies this
      ensures output == old(output) + [data] && closeCount == old(closeCount)
    {
      output := output + [data];
    }

    /** `stub.Close()`. */
    method Close()
      modifies this
      ensures closeCount == old(closeCount) + 1 && output == old(output)
    {
      closeCount := closeCount + 1;
    }
  }

  /**
   * `Pipe`: takes events until an interrupt or a nil chunk; forwards each
   * other chunk, rewritten when `rewrite` accepts it. Returns how many events
   * it took and the state it stopped in (`Running` when the events ran out,
   * i.e. the loop is still waiting).
   */
  method Pipe(stub: ToxicStub, events: seq<Event>, rewrite: Bytes -> Option<Bytes>) returns (consumed: nat, status: Status)
    modifies stub
    ensures stub.output == old(stub.output) + Run(events, rewrite).output
    ensures stub.closeCount == old(stub.closeCount) + Run(events, rewrite).closes
    ensures consumed == Run(events, rewrite).consumed && status == Run(events, rewrite).status
  {
    ghost var sent, closed := stub.output, stub.closeCount;
    consumed, status := 0, Running;
    while consumed < |events|
      invariant consumed <= |events|
      invariant Run(events[..consumed], rewrite).status == Running
      invariant Run(events[..consumed], rewrite).consumed == consumed
      invariant stub.output == sent + Run(events[..consumed], rewrite).output
      invariant stub.closeCount == closed + Run(events[..consumed], rewrite).closes
    {
      var event := events[consumed];
      RunExtend(events, consumed, rewrite);
      match event {
        case Interrupt =>
          consumed, status := consumed + 1, Interrupted;
          RunAfterStop(events, consumed, rewrite);
          return;
        case Input(c) =>
          if c == None {
            stub.Close();
            consumed, status := consumed + 1, Closed;
            RunAfterStop(events, consumed, rewrite);
            return;
          }
          var data := c.value;
          var parsed := rewrite(data);
          if parsed.Some? {
            data := parsed.value;
          }
          stub.Send(data);
          consumed := consumed + 1;
      }
    }
    assert events[..consumed] == events;
  }

  /** While the loop runs, one more event is one more `Step`. */
  lemma RunExtend(events: seq<Event>, k: nat, rewrite: Bytes -> Option<Bytes>)
    requires k < |events| && Run(events[..k], rewrite).status == Running
    ensures Run(events[..k + 1], rewrite) == Step(Run(events[..k], rewrite), events[k], rewrite)
  {
    assert events[..k + 1][..k] == events[..k];
  }

  /** Once the loop has stopped, later events change nothing: none of them is consumed. */
  lemma {:induction false} RunAfterStop(events: seq<Event>, k: nat, rewrite: Bytes -> Option<Bytes>)
    requires k <= |events| && Run(events[..k], rewrite).status != Running
    ensures Run(events, rewrite) == Run(events[..k], rewrite)
    decreases |events| - k
  {
    if k < |events| {
      var n := |events| - 1;
      assert events[..n][..k] == events[..k];
      RunAfterStop(events[..n], k, rewrite);
    } else {
      assert events[..k] == events;
    }
  }

  /**
   * The whole behaviour of the loop: with `n` chunks forwarded, the first
   * `n` events are non-nil chunks, forwarded in order (rewritten, or
   * unchanged when they do not parse); then either the events ran out, or
   * event `n` stopped the loop, was the last one consumed, and caused one
   * `Close` if it was a nil chunk and none if it was an interrupt.
   */
  lemma {:induction false} RunExact(events: seq<Event>, rewrite: Bytes -> Option<Bytes>)
    ensures var tr := Run(events, rewrite);
      && |tr.output| <= |events|
      && (forall i :: 0 <= i < |tr.output| ==> IsData(events[i]) && tr.output[i] == Forward(events[i].chunk.value, rewrite))
      && (forall i :: 0 <= i < |tr.output| && rewrite(events[i].chunk.value).None? ==> tr.output[i] == events[i].chunk.value)
      && (tr.status == Running ==> tr.consumed == |tr.output| == |events| && tr.closes == 0)
      && (tr.status == Interrupted ==> |tr.output| < |events| && tr.consumed == |tr.output| + 1 && events[|tr.output|] == Interrupt && tr.closes == 0)
      && (tr.status == Closed ==> |tr.output| < |events| && tr.consumed == |tr.output| + 1 && events[|tr.output|] == Input(None) && tr.closes == 1)
  {
    if events != [] {
      var n := |events| - 1;
      var init := events[..n];
      RunExact(init, rewrite);
      forall i | 0 <= i < n
        ensures events[i] == init[i]
      {
      }
      var before := Run(init, rewrite);
      if before.status == Running {
        assert |before.output| == n;
        var after := Run(events, rewrite);
        assert after == Step(before, events[n], rewrite);
        if IsData(events[n]) {
          assert after.output == before.output + [Forward(events[n].chunk.value, rewrite)];
        }
      }
    }
  }

  /** A nil chunk after `j` data chunks closes the link exactly once and ends the loop right there. */
  lemma NilClosesOnce(events: seq<Event>, j: nat, rewrite: Bytes -> Option<Bytes>)
    requires j < |events| && events[j] == Input(None)
    requires forall i :: 0 <= i < j ==> IsData(events[i])
    ensures var tr := Run(events, rewrite);
      tr.status == Closed && tr.closes == 1 && tr.consumed == j + 1 && |tr.output| == j
  {
    StopsAtFirst(events, j, rewrite);
    RunExact(events, rewrite);
  }

  /** An interrupt after `j` data chunks ends the loop right there, takes no further chunk and does not close the link. */
  lemma InterruptStops(events: seq<Event>, j: nat, rewrite: Bytes -> Option<Bytes>)
    requires j < |events| && events[j] == Interrupt
    requires forall i :: 0 <= i < j ==> IsData(events[i])
    ensures var tr := Run(events, rewrite);
      tr.status == Interrupted && tr.closes == 0 && tr.consumed == j + 1 && |tr.output| == j
  {
    StopsAtFirst(events, j, rewrite);
    RunExact(events, rewrite);
  }

  /** The loop stops at the first event that is not a data chunk, having forwarded one chunk per earlier event. */
  lemma StopsAtFirst(events: seq<Event>, j: nat, rewrite: Bytes -> Option<Bytes>)
    requires j < |events| && !IsData(events[j])
    requires forall i :: 0 <= i < j ==> IsData(events[i])
    ensures |Run(events, rewrite).output| == j && Run(events, rewrite).status != Running
  {
    RunExact(events, rewrite);
  }

  /** At most one `Close` ever happens, and only when the loop ended on a nil chunk. */
  lemma ClosesAtMostOnce(events: seq<Event>, rewrite: Bytes -> Option<Bytes>)
    ensures Run(events, rewrite).closes <= 1
    ensures Run(events, rewrite).closes == 1 <==> Run(events, rewrite).status == Closed
  {
    RunExact(events, rewrite);
  }
}
