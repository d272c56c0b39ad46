/** The replayer and the flow extraction read the same packets the same way. */
module Agreement {
  import opened Bytes
  import opened Frames
  import Replayer
  import FlowOrientation

  /** Of an IP packet whose version fits its Ethernet type, tagged or not, both find the same addresses and
      TCP or UDP ports, or both find no ports; and what is a bare SYN for the replayer names its sender as
      the client in the extraction. When the fixed header is incomplete, both skip it. */
  lemma SamePacket(data: seq<byte>, o: nat, v4: bool)
    requires if v4 then TypeAt(data, o, 0x08, 0x00) else TypeAt(data, o, 0x86, 0xDD)
    requires |data| > o ==> data[o] / 16 == if v4 then 4 else 6
    ensures var c, x := Replayer.Classify(data), FlowOrientation.Examine(data);
            && (c.Some? <==> Fixed(data, o, v4)) && (c.None? ==> x.None?)
            && (c.Some? ==> (c.value.key.sport.Some? <==> x.Some? && x.value.proto in {FlowOrientation.Tcp, FlowOrientation.Udp}))
            && (c.Some? && c.value.key.sport.Some? ==>
                  && x.value.proto == (if c.value.key.proto == 6 then FlowOrientation.Tcp else FlowOrientation.Udp)
                  && x.value.src == FlowOrientation.Endpoint(c.value.key.ipSrc, c.value.key.sport.value)
                  && x.value.dst == FlowOrientation.Endpoint(c.value.key.ipDst, c.value.key.dport.value)
                  && (c.value.bareSyn ==> x.value.signal == Some(x.value.src)))
  {
    hide Replayer.Classify, FlowOrientation.Examine;
    if Fixed(data, o, v4) {
      ReplayedAs(data, o, v4);
    } else {
      ReplayedFrames(data);
    }
    if FlowAt(data, o, v4) {
      ExtractedAs(data, o, v4);
    } else {
      ExtractedFrames(data);
    }
  }
}
