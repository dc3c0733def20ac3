/** From the interrupt to the telemetry channels: a sentence received by interrupts, however they
    interleave with the task's reads, is published exactly. */
module UartToTelemetry {
  import opened MachineWords
  import opened UartRing
  import opened UartStream
  import GpsModel
  import Text
  import GpsRoundTrip
  import GpsRuns

  // The whole path, from any state of the receiver and of the ring: what the ring held and then accepted,
  // in any interleaving of interrupts and task, is a history that ends in a newline and then a printed
  // fix, perhaps behind lines of other types; the task reads until the ring is empty and hands the bytes on
  // in drains of any size. Then exactly the fix has been announced, channel by channel, behind what the
  // history had published. Bytes may have been dropped or flushed before, and dropped anywhere else.
  lemma InterruptToTelemetry(s: State, steps: seq<Step>, accepted: seq<byte>, drains: seq<string>,
                             history: string, others: seq<string>,
                             g: GpsModel.Gps, x: GpsRoundTrip.FixRecord, upperHi: bool, upperLo: bool)
    requires Inv(s) && !Flushing(s.pc) && NoFlush(steps) && Run(s, steps).ring.Held() == 0
    requires Values(Run(s, steps).history.arrivals) == Values(s.history.arrivals) + accepted
    requires Returned(Run(s, steps).history.results) == Returned(s.history.results) + Text.Concat(drains)
    requires x.Valid() && |x.Sentence(upperHi, upperLo)| <= 99
    requires s.ring.Contents() + accepted ==
             history + "\n" + (GpsRuns.Lines(others) + (x.Sentence(upperHi, upperLo) + "\r\n"))
    requires forall k :: 0 <= k < |others| ==> GpsRuns.Whole(others[k]) && GpsRuns.OtherLine(others[k])
    ensures var after := GpsModel.ReceiveAll(g, drains);
            after.line == "" && GpsRoundTrip.Announces(GpsModel.Receive(g, history + "\n").core, x, after.core)
  {
    hide Run, Inv, Values, Returned, Ring.Contents, GpsRoundTrip.Announces, GpsModel.Receive,
         GpsRoundTrip.FixRecord.Sentence, GpsRuns.Lines, GpsRuns.Whole, GpsRuns.OtherLine;
    AllDelivered(s, steps, accepted, Text.Concat(drains));
    GpsModel.ChunkIndependence(g, drains);
    GpsRoundTrip.EndToEndAfterNewline(g, history, others, x, upperHi, upperLo);
  }

  // In particular from power-up on, when nothing was dropped, for the received bytes.
  lemma ReceivedToTelemetry(buf: seq<byte>, steps: seq<Step>, drains: seq<string>, history: string, others: seq<string>,
                            g: GpsModel.Gps, x: GpsRoundTrip.FixRecord, upperHi: bool, upperLo: bool)
    requires |buf| == RING_SIZE && NoFlush(steps) && NoneDropped(Run(Initial(buf), steps).history.arrivals)
    requires x.Valid() && |x.Sentence(upperHi, upperLo)| <= 99
    requires Received(steps) ==
             history + "\n" + (GpsRuns.Lines(others) + (x.Sentence(upperHi, upperLo) + "\r\n"))
    requires forall k :: 0 <= k < |others| ==> GpsRuns.Whole(others[k]) && GpsRuns.OtherLine(others[k])
    requires Run(Initial(buf), steps).ring.Held() == 0
    requires Text.Concat(drains) == Returned(Run(Initial(buf), steps).history.results)
    ensures var after := GpsModel.ReceiveAll(g, drains);
            after.line == "" && GpsRoundTrip.Announces(GpsModel.Receive(g, history + "\n").core, x, after.core)
  {
    StreamPreserved(buf, steps);
    InitialInv(buf);
    FromPowerUp(buf);
    hide Run, Inv, Values, Returned, Ring.Contents, GpsRoundTrip.Announces, GpsModel.Receive,
         GpsRoundTrip.FixRecord.Sentence, GpsRuns.Lines, GpsRuns.Whole, GpsRuns.OtherLine;
    InterruptToTelemetry(Initial(buf), steps, Received(steps), drains, history, others, g, x, upperHi, upperLo);
  }

  // The first sentence after power-up needs no newline before it, and no assumption about drops: it
  // fits the ring.
  lemma FirstSentence(buf: seq<byte>, steps: seq<Step>, drains: seq<string>,
                      r: GpsModel.Receiver, x: GpsRoundTrip.FixRecord, upperHi: bool, upperLo: bool)
    requires |buf| == RING_SIZE && NoFlush(steps)
    requires x.Valid() && |x.Sentence(upperHi, upperLo)| <= 99
    requires Received(steps) == x.Sentence(upperHi, upperLo) + "\r\n"
    requires Run(Initial(buf), steps).ring.Held() == 0
    requires Text.Concat(drains) == Returned(Run(Initial(buf), steps).history.results)
    ensures var after := GpsModel.ReceiveAll(GpsModel.Gps("", r), drains);
            after.line == "" && GpsRoundTrip.Announces(r, x, after.core)
  {
    HistoryIsFaithful(buf, steps);
    ArrivalsLength(Run(Initial(buf), steps).history.arrivals);
    FewArrivalsKept(buf, steps);
    StreamPreserved(buf, steps);
    hide Run, GpsRoundTrip.Announces;
    GpsRoundTrip.EndToEnd(r, x, upperHi, upperLo, drains);
  }
}
