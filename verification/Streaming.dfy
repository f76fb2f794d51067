/**
 The streaming dispatcher: what it forwards to the client, what it remembers of the stream, and how it settles the
 reservation. Upstream events, abort times, prices at settlement and token counts are inputs.
 */
module Streaming {
  import opened Filters
  import opened Wrappers
  import opened Pricing
  import Wallet

  datatype Usage = Usage(promptTokens: nat, completionTokens: nat)

  /** An upstream event as the loop classifies it: the end marker, something that is no valid chunk, a chunk with
      usage, or any other valid chunk with the text of its delta. */
  datatype Event =
    | DoneMarker
    | Invalid(data: string)
    | UsageChunk(data: string, usage: Usage)
    | ContentChunk(data: string, deltaText: string)

  /** An event with what the abort signal says when it arrives. */
  datatype Arrival = Arrival(event: Event, aborted: bool)

  /** What the client is sent. */
  datatype Chunk = Data(data: string) | ErrorChunk(tokensDelivered: nat) | Done

  // ----------------------------------------------------------------------------------------------
  // The stream, as a filter
  // ----------------------------------------------------------------------------------------------

  /** The events before the end marker, the first abort, or the end of the stream. */
  function Received(arrivals: seq<Arrival>): seq<Event> {
    if arrivals == [] || arrivals[0].aborted || arrivals[0].event.DoneMarker? then []
    else [arrivals[0].event] + Received(arrivals[1..])
  }

  predicate IsForwarded(e: Event, askedForUsage: bool) {
    e.ContentChunk? || (e.UsageChunk? && askedForUsage)
  }

  /** What one event adds to the stream. */
  function Sends(e: Event, askedForUsage: bool): seq<Chunk> {
    if IsForwarded(e, askedForUsage) then [Data(e.data)] else []
  }

  function Forwarded(events: seq<Event>, askedForUsage: bool): seq<Chunk> {
    if events == [] then [] else Sends(events[0], askedForUsage) + Forwarded(events[1..], askedForUsage)
  }

  function LastUsage(events: seq<Event>): Option<Usage> {
    if events == [] then None
    else
      var e := events[|events| - 1];
      if e.UsageChunk? then Some(e.usage) else LastUsage(events[..|events| - 1])
  }

  function Text(events: seq<Event>): string {
    if events == [] then ""
    else (if events[0].ContentChunk? then events[0].deltaText else "") + Text(events[1..])
  }

  lemma {:induction false} ForwardedSnoc(events: seq<Event>, e: Event, asked: bool)
    ensures Forwarded(events + [e], asked) == Forwarded(events, asked) + Sends(e, asked)
  {
    hide Sends;
    if events == [] {
      assert [e][1..] == [];
    } else {
      assert (events + [e])[0] == events[0] && (events + [e])[1..] == events[1..] + [e];
      ForwardedSnoc(events[1..], e, asked);
    }
  }

  lemma {:induction false} TextSnoc(events: seq<Event>, e: Event)
    ensures Text(events + [e]) == Text(events) + if e.ContentChunk? then e.deltaText else ""
  {
    if events == [] {
      assert [e][1..] == [];
    } else {
      assert (events + [e])[0] == events[0] && (events + [e])[1..] == events[1..] + [e];
      TextSnoc(events[1..], e);
    }
  }

  lemma LastUsageSnoc(events: seq<Event>, e: Event)
    ensures LastUsage(events + [e]) == if e.UsageChunk? then Some(e.usage) else LastUsage(events)
  {
    assert (events + [e])[..|events|] == events;
  }

  lemma ReceivedTurn(arrivals: seq<Arrival>, i: nat)
    requires i < |arrivals|
    ensures Received(arrivals[i..])
      == if arrivals[i].aborted || arrivals[i].event.DoneMarker? then []
         else [arrivals[i].event] + Received(arrivals[i + 1..])
  {
    assert arrivals[i..][1..] == arrivals[i + 1..];
  }

  lemma NothingReceived(asked: bool)
    ensures Received([]) == [] && Forwarded([], asked) == [] && Text([]) == "" && LastUsage([]) == None
  {
  }

  // What the filter and the memory of the loop mean, event by event.

  /** The events received are those before the first arrival that is aborted or the end marker. */
  lemma {:induction false} ReceivedUpToTheEnd(arrivals: seq<Arrival>)
    ensures var n := |Received(arrivals)|;
      && n <= |arrivals|
      && (forall i | 0 <= i < n ::
            !arrivals[i].aborted && !arrivals[i].event.DoneMarker? && Received(arrivals)[i] == arrivals[i].event)
      && (n < |arrivals| ==> arrivals[n].aborted || arrivals[n].event.DoneMarker?)
  {
    if arrivals != [] && !arrivals[0].aborted && !arrivals[0].event.DoneMarker? {
      ReceivedUpToTheEnd(arrivals[1..]);
    }
  }

  /** The client is sent, in order, the data of exactly the content chunks, and of the usage chunks if it asked for
      them: `kept` says which events those are, and `data` is the data of each. */
  lemma {:induction false} ForwardsExactly(events: seq<Event>, kept: seq<bool>, data: seq<Chunk>, asked: bool)
    requires |kept| == |data| == |events|
    requires forall i | 0 <= i < |events| ::
      kept[i] <==> events[i].ContentChunk? || (events[i].UsageChunk? && asked)
    requires forall i | 0 <= i < |events| :: !events[i].DoneMarker? ==> data[i] == Data(events[i].data)
    ensures IsFiltered(Forwarded(events, asked), data, kept)
    decreases |events|
  {
    hide IsFiltered;
    if events == [] {
      NothingFiltered(data, kept);
    } else {
      ForwardsExactly(events[1..], kept[1..], data[1..], asked);
      FilteredCons(Forwarded(events[1..], asked), data, kept);
    }
  }

  /** The text is that of the content chunks, put together in their order. */
  lemma {:induction false} TextConcatenates(a: seq<Event>, b: seq<Event>)
    ensures Text(a + b) == Text(a) + Text(b)
  {
    if a == [] {
      assert a + b == b;
    } else {
      assert (a + b)[0] == a[0] && (a + b)[1..] == a[1..] + b;
      TextConcatenates(a[1..], b);
    }
  }

  lemma TextOfOne(e: Event)
    ensures Text([e]) == if e.ContentChunk? then e.deltaText else ""
  {
    assert [e][1..] == [];
    assert Text([]) == "";
  }

  /** The usage that counts is the last one. */
  lemma {:induction false} UsageIsLast(events: seq<Event>, i: nat)
    requires i < |events| && events[i].UsageChunk? && forall j | i < j < |events| :: !events[j].UsageChunk?
    ensures LastUsage(events) == Some(events[i].usage)
    decreases |events|
  {
    if i < |events| - 1 {
      UsageIsLast(events[..|events| - 1], i);
    }
  }

  // ----------------------------------------------------------------------------------------------
  // Settlement
  // ----------------------------------------------------------------------------------------------

  /** What is known when the reservation is settled. A price that is gone by then is None. */
  datatype Settling = Settling(
    handle: Option<Wallet.WorkId>,
    estimate: Reservation,
    modelRate: Option<Rate>,
    tierRate: Option<Rate>,
    localPrompt: Option<nat>,
    localCompletion: Option<nat>)

  datatype Settlement = Settled(calls: seq<Wallet.Op>, error: Option<Chunk>) | PriceMissing

  /** The wallet call that commits, if there is a handle to commit: the free tier has none. */
  function CommitIf(handle: Option<Wallet.WorkId>, cents: nat): seq<Wallet.Op> {
    if handle.Some? then [Wallet.CommitOp(handle.value, cents)] else []
  }

  function RefundIf(handle: Option<Wallet.WorkId>): seq<Wallet.Op> {
    if handle.Some? then [Wallet.RefundOp(handle.value)] else []
  }

  function SettleReservation(usage: Option<Usage>, firstToken: bool, s: Settling): (r: Settlement)
    ensures r.Settled? ==> |r.calls| <= 1 && forall call | call in r.calls :: call.CommitOp? || call.RefundOp?
  {
    if usage.Some? then
      if s.modelRate.None? then PriceMissing
      else
        var cents := ComputeActualCost(usage.value.promptTokens, usage.value.completionTokens, s.modelRate.value);
        Settled(CommitIf(s.handle, cents), None)
    else if !firstToken then
      Settled(RefundIf(s.handle), Some(ErrorChunk(0)))
    else if s.tierRate.None? then PriceMissing
    else
      var prompt := if s.localPrompt.Some? then s.localPrompt.value else s.estimate.promptEstimateTokens;
      var completion := if s.localCompletion.Some? then s.localCompletion.value else 0;
      var cents := ComputePartialCents(prompt, completion, s.tierRate.value.input, s.tierRate.value.output);
      Settled(CommitIf(s.handle, cents), Some(ErrorChunk(completion)))
  }

  // ----------------------------------------------------------------------------------------------
  // The dispatcher
  // ----------------------------------------------------------------------------------------------

  /** How `runWithRetry` ends. */
  datatype Attempt = Streams | Fails | Throws

  datatype Ending = Completed | ThrewBeforeStream | ThrewAfterStream

  /** What one dispatch does to the outside: the chunks it writes and the wallet calls that settle it. */
  class Session {
    var sent: seq<Chunk>
    var calls: seq<Wallet.Op>
    var streamStarted: bool

    constructor ()
      ensures sent == [] && calls == [] && !streamStarted
    {
      sent, calls, streamStarted := [], [], false;
    }

    /** The loop over the upstream events. */
    method Forward(arrivals: seq<Arrival>, askedForUsage: bool)
      returns (firstTokenDelivered: bool, accumulatedContent: string, capturedUsage: Option<Usage>)
      modifies this`sent
      ensures sent == old(sent) + Forwarded(Received(arrivals), askedForUsage)
      ensures accumulatedContent == Text(Received(arrivals))
      ensures firstTokenDelivered <==> accumulatedContent != ""
      ensures capturedUsage == LastUsage(Received(arrivals))
    {
      hide Received, Forwarded, LastUsage, Text;
      NothingReceived(askedForUsage);
      assert arrivals[0..] == arrivals;
      firstTokenDelivered, accumulatedContent, capturedUsage := false, "", None;
      ghost var seen: seq<Event> := [];
      var i := 0;
      while i < |arrivals|
        invariant 0 <= i <= |arrivals|
        invariant seen + Received(arrivals[i..]) == Received(arrivals)
        invariant sent == old(sent) + Forwarded(seen, askedForUsage)
        invariant accumulatedContent == Text(seen)
        invariant firstTokenDelivered <==> accumulatedContent != ""
        invariant capturedUsage == LastUsage(seen)
      {
        var e := arrivals[i].event;
        ReceivedTurn(arrivals, i);
        if arrivals[i].aborted || e.DoneMarker? {
          assert seen + [] == seen;
          return;
        }
        ForwardedSnoc(seen, e, askedForUsage);
        TextSnoc(seen, e);
        LastUsageSnoc(seen, e);
        assert seen + ([e] + Received(arrivals[i + 1..])) == seen + [e] + Received(arrivals[i + 1..]);
        seen := seen + [e];
        i := i + 1;
        if e.Invalid? {
          continue;
        }
        if e.UsageChunk? {
          capturedUsage := Some(e.usage);
          if askedForUsage {
            sent := sent + [Data(e.data)];
          }
          continue;
        }
        if |e.deltaText| > 0 && !firstTokenDelivered {
          firstTokenDelivered := true;
        }
        accumulatedContent := accumulatedContent + e.deltaText;
        sent := sent + [Data(e.data)];
      }
      assert arrivals[i..] == [] && seen + [] == seen;
    }

    /** Asks the wallet to commit or refund. What the call throws is swallowed. */
    method Ask(wallet: Wallet.PrepaidWallet, call: Wallet.Op, fault: Wallet.Fault)
      requires call.CommitOp? || call.RefundOp?
      modifies this`calls, wallet
      ensures calls == old(calls) + [call]
      ensures wallet.Contents() == LedgerAfter(old(wallet.Contents()), [call], fault)
    {
      calls := calls + [call];
      assert [call][1..] == [];
      assert Wallet.RunOps(wallet.Contents(), [call]) == Wallet.RunOps(Wallet.Perform(wallet.Contents(), call), []);
      if !fault.ThrowsBefore? {
        match call {
          case CommitOp(id, billed) => wallet.DoCommit(id, billed);
          case RefundOp(id) => wallet.DoRefund(id);
        }
      }
    }

    /** `fault` is what the wallet call does, if one is made. */
    method Run(wallet: Wallet.PrepaidWallet, attempt: Attempt, arrivals: seq<Arrival>, askedForUsage: bool,
               settling: Settling, fault: Wallet.Fault)
      returns (ending: Ending)
      requires sent == [] && calls == [] && !streamStarted
      modifies this, wallet
      ensures ending == EndingOf(attempt, arrivals, settling)
      ensures sent == SentBy(attempt, arrivals, askedForUsage, settling)
      ensures calls == CallsOf(attempt, arrivals, settling)
      ensures wallet.Contents() == LedgerAfter(old(wallet.Contents()), calls, fault)
      ensures streamStarted <==> attempt.Streams?
    {
      hide Received, Forwarded, LastUsage, Text, SettleReservation, Wallet.Perform;
      if attempt.Throws? {
        return ThrewBeforeStream;
      }
      if attempt.Fails? {
        if settling.handle.Some? {
          Ask(wallet, Wallet.RefundOp(settling.handle.value), fault);
        }
        return ThrewBeforeStream;
      }
      streamStarted := true;
      var firstTokenDelivered, accumulatedContent, capturedUsage := Forward(arrivals, askedForUsage);
      var settlement := SettleReservation(capturedUsage, firstTokenDelivered, settling);
      if settlement.PriceMissing? {
        return ThrewAfterStream;
      }
      if settlement.calls != [] {
        assert settlement.calls == [settlement.calls[0]];
        Ask(wallet, settlement.calls[0], fault);
      }
      if settlement.error.Some? {
        sent := sent + [settlement.error.value];
      }
      sent := sent + [Done];
      return Completed;
    }
  }

  /** The ledger behind the settling calls: one that throws before it took effect leaves it alone. */
  function LedgerAfter(l: Wallet.Ledger, calls: seq<Wallet.Op>, fault: Wallet.Fault): Wallet.Ledger {
    if fault.ThrowsBefore? then l else Wallet.RunOps(l, calls)
  }

  /** How the reservation is settled, in terms of the events received alone. */
  function SettlementOf(arrivals: seq<Arrival>, settling: Settling): Settlement {
    var events := Received(arrivals);
    SettleReservation(LastUsage(events), Text(events) != "", settling)
  }

  function EndingOf(attempt: Attempt, arrivals: seq<Arrival>, settling: Settling): Ending {
    if !attempt.Streams? then ThrewBeforeStream
    else if SettlementOf(arrivals, settling).PriceMissing? then ThrewAfterStream
    else Completed
  }

  /** Reference: the valid chunks received, then an error chunk if there is one, then the end marker. */
  function SentBy(attempt: Attempt, arrivals: seq<Arrival>, askedForUsage: bool, settling: Settling): seq<Chunk> {
    if !attempt.Streams? then []
    else
      Forwarded(Received(arrivals), askedForUsage) +
      match SettlementOf(arrivals, settling)
      case PriceMissing => []
      case Settled(_, error) => (if error.Some? then [error.value] else []) + [Done]
  }

  function CallsOf(attempt: Attempt, arrivals: seq<Arrival>, settling: Settling): seq<Wallet.Op> {
    match attempt
    case Throws => []
    case Fails => RefundIf(settling.handle)
    case Streams =>
      match SettlementOf(arrivals, settling)
      case PriceMissing => []
      case Settled(calls, _) => calls
  }

  // ----------------------------------------------------------------------------------------------
  // What the client sees and the wallet is asked
  // ----------------------------------------------------------------------------------------------

  /** Some event received is a usage chunk. */
  ghost predicate SawUsage(arrivals: seq<Arrival>) {
    exists i | 0 <= i < |Received(arrivals)| :: Received(arrivals)[i].UsageChunk?
  }

  /** Some event received carries text. */
  ghost predicate SawText(arrivals: seq<Arrival>) {
    exists i | 0 <= i < |Received(arrivals)| ::
      Received(arrivals)[i].ContentChunk? && Received(arrivals)[i].deltaText != ""
  }

  lemma {:induction false} UsageSeen(events: seq<Event>)
    ensures LastUsage(events).Some? <==> exists i | 0 <= i < |events| :: events[i].UsageChunk?
    decreases |events|
  {
    if events != [] {
      var init := events[..|events| - 1];
      UsageSeen(init);
      if i :| 0 <= i < |init| && init[i].UsageChunk? {
        assert events[i].UsageChunk?;
      }
      if i :| 0 <= i < |events| && events[i].UsageChunk? {
        assert i < |init| ==> init[i].UsageChunk?;
      }
    }
  }

  lemma {:induction false} TextSeen(events: seq<Event>)
    ensures Text(events) != "" <==> exists i | 0 <= i < |events| :: events[i].ContentChunk? && events[i].deltaText != ""
    decreases |events|
  {
    if events != [] {
      var rest := events[1..];
      TextSeen(rest);
      if i :| 0 <= i < |rest| && rest[i].ContentChunk? && rest[i].deltaText != "" {
        assert events[i + 1].deltaText != "";
      }
      if i :| 0 <= i < |events| && events[i].ContentChunk? && events[i].deltaText != "" {
        assert i > 0 ==> rest[i - 1].deltaText != "";
      }
    }
  }

  /** The settlement needs a price that is gone: that of the model for usage, that of the tier for text without. */
  ghost predicate PriceGone(arrivals: seq<Arrival>, settling: Settling) {
    if SawUsage(arrivals) then settling.modelRate.None? else SawText(arrivals) && settling.tierRate.None?
  }

  /** A dispatch completes exactly if it streams and no price is gone that it needs. */
  lemma CompletesExactly(attempt: Attempt, arrivals: seq<Arrival>, settling: Settling)
    ensures EndingOf(attempt, arrivals, settling) ==
      if !attempt.Streams? then ThrewBeforeStream
      else if PriceGone(arrivals, settling) then ThrewAfterStream
      else Completed
  {
    UsageSeen(Received(arrivals));
    TextSeen(Received(arrivals));
  }

  /**
   What the client sees of every dispatch: nothing before a stream starts; then the forwarded chunks, an error chunk
   exactly if no usage was received, which tells how many tokens of text were counted, and one end marker. Of a stream
   whose price is gone it sees the forwarded chunks alone.
   */
  lemma ClientSees(attempt: Attempt, arrivals: seq<Arrival>, askedForUsage: bool, settling: Settling)
    ensures var sent, forwarded := SentBy(attempt, arrivals, askedForUsage, settling),
          Forwarded(Received(arrivals), askedForUsage);
      var counted := if SawText(arrivals) && settling.localCompletion.Some? then settling.localCompletion.value else 0;
      sent ==
        if !attempt.Streams? then []
        else if PriceGone(arrivals, settling) then forwarded
        else if SawUsage(arrivals) then forwarded + [Done]
        else forwarded + [ErrorChunk(counted), Done]
  {
    UsageSeen(Received(arrivals));
    TextSeen(Received(arrivals));
  }

  lemma {:induction false} ForwardedAreData(events: seq<Event>, asked: bool)
    ensures forall chunk | chunk in Forwarded(events, asked) :: chunk.Data?
  {
    if events != [] {
      ForwardedAreData(events[1..], asked);
    }
  }

  /** The end marker is sent exactly if the dispatch completes, and then it is last and the only one. */
  lemma EndMarkerExactly(attempt: Attempt, arrivals: seq<Arrival>, askedForUsage: bool, settling: Settling)
    ensures var sent := SentBy(attempt, arrivals, askedForUsage, settling);
      && (Done in sent <==> attempt.Streams? && !PriceGone(arrivals, settling))
      && forall i | 0 <= i < |sent| :: sent[i] == Done ==> i == |sent| - 1
  {
    ClientSees(attempt, arrivals, askedForUsage, settling);
    ForwardedAreData(Received(arrivals), askedForUsage);
    var sent, forwarded := SentBy(attempt, arrivals, askedForUsage, settling),
        Forwarded(Received(arrivals), askedForUsage);
    hide SentBy, Forwarded, Received, SawUsage, SawText, PriceGone;
    forall i | 0 <= i < |forwarded| && attempt.Streams?
      ensures sent[i].Data?
    {
      assert sent[i] == forwarded[i] && forwarded[i] in forwarded;
    }
    if attempt.Streams? && !PriceGone(arrivals, settling) {
      assert sent[|sent| - 1] == Done;
    }
  }

  /**
   A reserved handle gets exactly one wallet call, except none if `runWithRetry` throws or the price it would be
   charged by is gone. Usage commits what it costs, a stream without text and a failed retry loop are refunded, text
   without usage commits the partial estimate. Without a handle no call is made.
   */
  lemma SettledExactlyOnce(attempt: Attempt, arrivals: seq<Arrival>, settling: Settling)
    ensures var calls := CallsOf(attempt, arrivals, settling);
      if settling.handle.None? || attempt.Throws? || (attempt.Streams? && PriceGone(arrivals, settling)) then
        calls == []
      else
        && |calls| == 1 && calls[0].workId == settling.handle.value
        && (calls[0].RefundOp? <==> attempt.Fails? || (!SawUsage(arrivals) && !SawText(arrivals)))
        && (calls[0].CommitOp? <==> attempt.Streams? && (SawUsage(arrivals) || SawText(arrivals)))
  {
    UsageSeen(Received(arrivals));
    TextSeen(Received(arrivals));
  }

  /**
   What a commit bills: with usage, the least number of cents that covers the exact price of the last usage; without,
   the least number of cents that covers the prices of the prompt and of the completion text as counted here, each
   cut to ten-thousandths of a cent. A prompt that was not counted bills as estimated, a completion that was not
   counted bills nothing.
   */
  lemma CommitsWhatWasUsed(arrivals: seq<Arrival>, settling: Settling)
    requires settling.handle.Some? && CallsOf(Streams, arrivals, settling) != []
    requires CallsOf(Streams, arrivals, settling)[0].CommitOp?
    ensures var billed, usage := CallsOf(Streams, arrivals, settling)[0].billed, LastUsage(Received(arrivals));
      if usage.Some? then
        && settling.modelRate.Some?
        && IsCeiling(billed, usage.value.promptTokens * settling.modelRate.value.input
                             + usage.value.completionTokens * settling.modelRate.value.output, 10_000_000_000)
      else
        && settling.tierRate.Some?
        && var prompt :=
             if settling.localPrompt.Some? then settling.localPrompt.value else settling.estimate.promptEstimateTokens;
           var completion := if settling.localCompletion.Some? then settling.localCompletion.value else 0;
           IsCeiling(billed, prompt * settling.tierRate.value.input / 1_000_000
                             + completion * settling.tierRate.value.output / 1_000_000, 10_000)
  {
    hide Received, LastUsage, Text, ComputeCostCents, ComputePartialCents, IsCeiling;
    var usage := LastUsage(Received(arrivals));
    if usage.Some? {
      CostIsCeiling(usage.value.promptTokens, usage.value.completionTokens, settling.modelRate.value.input,
                    settling.modelRate.value.output);
    } else {
      var prompt :=
        if settling.localPrompt.Some? then settling.localPrompt.value else settling.estimate.promptEstimateTokens;
      var completion := if settling.localCompletion.Some? then settling.localCompletion.value else 0;
      PartialIsCeiling(prompt, completion, settling.tierRate.value.input, settling.tierRate.value.output);
    }
  }

  /** A hold stays open exactly if `runWithRetry` throws, the price to settle by is gone, or the wallet call that
      should close it is lost. */
  lemma StreamClosesHold(attempt: Attempt, arrivals: seq<Arrival>, settling: Settling, fault: Wallet.Fault,
                         l: Wallet.Ledger)
    requires settling.handle.Some?
    ensures Wallet.IsOpen(LedgerAfter(l, CallsOf(attempt, arrivals, settling), fault), settling.handle.value) <==>
      && Wallet.IsOpen(l, settling.handle.value)
      && (attempt.Throws? || (attempt.Streams? && PriceGone(arrivals, settling)) || fault.ThrowsBefore?)
  {
    SettledExactlyOnce(attempt, arrivals, settling);
    var calls := CallsOf(attempt, arrivals, settling);
    hide CallsOf, PriceGone, SawUsage, SawText;
    if calls != [] {
      assert calls == [calls[0]];
      assert calls[1..] == [];
      assert Wallet.RunOps(l, calls) == Wallet.RunOps(Wallet.Perform(l, calls[0]), []);
    }
  }

  /** Usage within the estimate, at the rates of the estimate, never commits more than was reserved. */
  lemma NeverBillsMoreThanReserved(arrivals: seq<Arrival>, settling: Settling, promptTokens: nat, maxTokens: nat,
                                   rate: Rate)
    requires settling.handle.Some? && settling.modelRate == settling.tierRate == Some(rate)
    requires settling.estimate == EstimateReservation(promptTokens, maxTokens, rate)
    requires LastUsage(Received(arrivals)).Some? ==>
      var u := LastUsage(Received(arrivals)).value;
      u.promptTokens <= settling.estimate.promptEstimateTokens && u.completionTokens <= maxTokens
    requires settling.localPrompt.Some? ==> settling.localPrompt.value <= settling.estimate.promptEstimateTokens
    requires settling.localCompletion.Some? ==> settling.localCompletion.value <= maxTokens
    ensures forall call | call in CallsOf(Streams, arrivals, settling) ::
      call.CommitOp? ==> call.billed <= settling.estimate.estCents
  {
    var u := LastUsage(Received(arrivals));
    if u.Some? {
      ReservationCoversChat(promptTokens, maxTokens, u.value.promptTokens, u.value.completionTokens, rate);
    }
    var prompt :=
      if settling.localPrompt.Some? then settling.localPrompt.value else settling.estimate.promptEstimateTokens;
    var completion := if settling.localCompletion.Some? then settling.localCompletion.value else 0;
    ReservationCoversChat(promptTokens, maxTokens, prompt, completion, rate);
  }
}
