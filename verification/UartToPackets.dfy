/** From the interrupt to the packet reports of the LoRa driver. */
module UartToPackets {
  import opened MachineWords
  import opened UartRing
  import UartStream
  import Text
  import LoRaModel
  import LoRaRuns
  import LoRaPackets
  import LoRaReports

  lemma SameSplit(c: string, after: string, r: string, held: string)
    requires c + after == r + held && |after| == |held|
    ensures c == r && after == held
  {
    assert c == (c + after)[..|c|] && after == (c + after)[|c|..];
    assert r == (r + held)[..|r|] && held == (r + held)[|r|..];
  }

  // What polling rounds do with the bytes that the ring gives them.
  lemma PolledBytes(ops: seq<LoRaRuns.Op>, batches: seq<string>, r: string, held: string)
    requires LoRaRuns.Run(ops).state == LoRaModel.Ready
    requires LoRaRuns.Run(ops).link.rx + Text.Concat(batches) == r + held
    requires |LoRaPackets.Polls(LoRaRuns.Run(ops), batches).link.rx| == |held|
    ensures var d := LoRaRuns.Run(ops);
            var d', packets := LoRaPackets.Polls(d, batches), LoRaReports.Packets(d.link.line + r);
            && d'.link.rx == held
            && d'.rxCount == (d.rxCount + |packets|) % TWO_TO_32
            && LoRaReports.PacketEvents(d'.link.outputs) == LoRaReports.PacketEvents(d.link.outputs) + packets
  {
    hide LoRaRuns.Run, LoRaPackets.Polls, LoRaReports.Packets, LoRaReports.PacketEvents;
    var c := LoRaReports.PollerReports(ops, batches);
    SameSplit(c, LoRaPackets.Polls(LoRaRuns.Run(ops), batches).link.rx, r, held);
  }

  // The whole path, after any run of the driver that ends ready and from any state s of the ring of UART0
  // that holds what the driver has not yet read: whatever arrives, in any interleaving of interrupts and
  // task, and however many bytes are left at the end, exactly the packet lines in what the driver's
  // buffer held followed by the returned bytes have been counted and reported, in order, with their
  // figures; and the driver is left with what the ring then holds.
  lemma InterruptToPackets(s: State, steps: seq<Step>, accepted: seq<byte>, returned: string,
                           ops: seq<LoRaRuns.Op>, batches: seq<string>)
    requires Inv(s) && !UartStream.Flushing(s.pc) && UartStream.NoFlush(steps)
    requires Values(Run(s, steps).history.arrivals) == Values(s.history.arrivals) + accepted
    requires Returned(Run(s, steps).history.results) == Returned(s.history.results) + returned
    requires LoRaRuns.Run(ops).state == LoRaModel.Ready && LoRaRuns.Run(ops).link.rx == s.ring.Contents()
    requires Text.Concat(batches) == accepted
    requires |LoRaPackets.Polls(LoRaRuns.Run(ops), batches).link.rx| == Run(s, steps).ring.Held()
    ensures var d := LoRaRuns.Run(ops);
            var d', packets := LoRaPackets.Polls(d, batches), LoRaReports.Packets(d.link.line + returned);
            && d'.link.rx == Run(s, steps).ring.Contents()
            && d'.rxCount == (d.rxCount + |packets|) % TWO_TO_32
            && LoRaReports.PacketEvents(d'.link.outputs) == LoRaReports.PacketEvents(d.link.outputs) + packets
  {
    var held := Run(s, steps).ring.Contents();
    hide Run, Inv, Ring.Contents, Values, Returned, LoRaRuns.Run, LoRaPackets.Polls, LoRaReports.Packets,
         LoRaReports.PacketEvents;
    UartStream.ReturnedAndHeld(s, steps, accepted, returned);
    PolledBytes(ops, batches, returned, held);
  }
}
