/** A run of ping against a host that answers: the requests ping packs, the answers of `icmp_echo`, whatever else
    the raw socket delivers, and the table in which ping looks its requests up. */
module PingExchange {
  import opened MachineInts
  import opened OnesComplement
  import opened IcmpChecksum
  import EchoReply
  import opened PingTable

  const ICMP_LENGTH := 64

  /** The ICMP message sent as request number k. */
  function Message(le: bool, k: nat, pid: nat): (msg: seq<byte>)
    ensures |msg| == ICMP_LENGTH
  {
    Checksummed(le, EchoRequest(le, k, pid, ICMP_LENGTH), ICMP_LENGTH, 1)[..ICMP_LENGTH]
  }

  /** The ICMP message behind an IP header of as many words as the low half of its first byte says; empty if the
      datagram ends before. */
  function IcmpPart(datagram: seq<byte>): (msg: seq<byte>) {
    if datagram != [] && datagram[0] % 16 * 4 <= |datagram| then datagram[datagram[0] % 16 * 4..] else []
  }

  /** An echo reply whose identifier equals the process number. */
  predicate Accepted(le: bool, pid: nat, msg: seq<byte>) {
    |msg| >= 8 && msg[0] == EchoReply.ICMP_ECHOREPLY && Load16(le, msg, 4) == pid
  }

  /** What a received message does to the table, and the send time it is compared with. */
  function Unpacked(le: bool, pid: nat, s: State, msg: seq<byte>): (State, Option<Time>) {
    if Accepted(le, pid, msg) then
      (Step(s, Reply(Load16(le, msg, 6))), ReplyTime(s, Load16(le, msg, 6)))
    else (s, None)
  }

  // ----- the program -----

  /** icmp_send for one request: the ICMP message is packed into one buffer and its datagram into another, which is
      sent whole. */
  method SendEcho(ping: Ping, buf: array<byte>, packet: array<byte>, time: Time, pid: nat,
                  src: seq<byte>, dst: seq<byte>, ipId: uint16, le: bool, ghost s: State)
    returns (nextId: uint16)
    requires ping.Represents(s) && |src| == 4 && |dst| == 4 && buf != packet
    requires buf.Length == ICMP_LENGTH + 8 && packet.Length == 20 + ICMP_LENGTH
    modifies ping, ping.table, buf, packet
    ensures ping.Represents(Step(s, Send(time))) && nextId == (ipId + 1) % 0x1_0000
    ensures LeadsDatagram(packet[..], 84, ipId, src, dst) && Verifies(Words(le, packet[..20]))
    ensures IcmpPart(packet[..]) == Message(le, s.sent, pid)
  {
    hide Step, EchoRequest, Checksummed, Words, LoopWords, Verifies, AsksEcho, IpHeader;
    var wire := ping.SendRequest(time, s);
    IcmpPack(buf, wire, pid, ICMP_LENGTH, le);
    SameRequest(le, wire, s.sent, pid);
    ghost var msg := buf[..ICMP_LENGTH];
    assert EchoRequest(le, wire, pid, ICMP_LENGTH) + [] == EchoRequest(le, wire, pid, ICMP_LENGTH);
    assert msg == buf[..][..ICMP_LENGTH];
    nextId := IpPack(packet, src, dst, buf[..ICMP_LENGTH], ipId, le);
    assert packet[..][20..] == packet[20..20 + ICMP_LENGTH];
  }

  /** Only the low half of the number goes into the request. */
  lemma SameRequest(le: bool, wire: uint16, k: nat, pid: nat)
    requires wire == k % 0x1_0000
    ensures EchoRequest(le, wire, pid, ICMP_LENGTH) == EchoRequest(le, k, pid, ICMP_LENGTH)
  {
  }

  /** icmp_unpack of a datagram the socket delivers. */
  method Unpack(ping: Ping, packet: array<byte>, pid: nat, le: bool, ghost s: State) returns (begin: Option<Time>)
    requires ping.Represents(s) && packet.Length > 0
    modifies ping.table
    ensures ping.Represents(Unpacked(le, pid, s, IcmpPart(packet[..])).0)
    ensures begin == Unpacked(le, pid, s, IcmpPart(packet[..])).1
    ensures var start := packet[0] % 16 * 4;
            begin == if start + 8 <= packet.Length && packet[start] == 0 && Load16(le, packet[..], start + 4) == pid then
                       ReplyTime(s, Load16(le, packet[..], start + 6))
                     else None
  {
    hide Step, ReplyTime;
    var start := packet[0] % 16 * 4;
    if packet.Length - start < 8 {
      return None;
    }
    if packet[start] != EchoReply.ICMP_ECHOREPLY || Word(le, packet[start + 4], packet[start + 5]) != pid {
      return None;
    }
    begin := ping.ReceiveReply(Word(le, packet[start + 6], packet[start + 7]), s);
  }

  // ----- runs -----

  /** ping sends a request, or the socket delivers a datagram: any bytes, from anyone. */
  datatype Traffic = Request(time: Time) | Delivery(datagram: seq<byte>)

  function RunTraffic(le: bool, pid: nat, ts: seq<Traffic>): State {
    if ts == [] then Run([])
    else
      var s := RunTraffic(le, pid, ts[..|ts| - 1]);
      match ts[|ts| - 1]
      case Request(time) => Step(s, Send(time))
      case Delivery(datagram) => Unpacked(le, pid, s, IcmpPart(datagram)).0
  }

  /** The requests, and the numbers in those messages that are replies to this process. */
  function Events(le: bool, pid: nat, ts: seq<Traffic>): seq<Event> {
    if ts == [] then []
    else
      var events := Events(le, pid, ts[..|ts| - 1]);
      match ts[|ts| - 1]
      case Request(time) => events + [Send(time)]
      case Delivery(datagram) =>
        var msg := IcmpPart(datagram);
        if Accepted(le, pid, msg) then events + [Reply(Load16(le, msg, 6))] else events
  }

  lemma {:induction false} TrafficIsRun(le: bool, pid: nat, ts: seq<Traffic>)
    ensures RunTraffic(le, pid, ts) == Run(Events(le, pid, ts))
  {
    if ts != [] {
      hide Step, Accepted, Load16;
      var before, events := ts[..|ts| - 1], Events(le, pid, ts[..|ts| - 1]);
      TrafficIsRun(le, pid, before);
      match ts[|ts| - 1]
      case Request(time) => RunNext(events, Send(time));
      case Delivery(datagram) =>
        if Accepted(le, pid, IcmpPart(datagram)) {
          RunNext(events, Reply(Load16(le, IcmpPart(datagram), 6)));
        }
    }
  }

  lemma RunNext(events: seq<Event>, e: Event)
    ensures Run(events + [e]) == Step(Run(events), e)
  {
    assert (events + [e])[..|events|] == events;
  }

  /** After any traffic with up to 65536 requests, the answer to an outstanding request, given by a host of either
      byte order and delivered behind an IP header of any length, is valid; it is compared with the send time of
      that very request exactly if the process number fits into the identifier and the request is among the first
      32768, and is otherwise ignored. */
  lemma AnswerFindsItsRequest(le: bool, at: bool, pid: nat, ts: seq<Traffic>, k: nat, header: seq<byte>)
    requires Sends(Events(le, pid, ts)) <= 0x1_0000 && k in Ideal(Events(le, pid, ts))
    requires header != [] && |header| == header[0] % 16 * 4
    ensures var answer, m := EchoReply.Reply(at, Message(le, k, pid)), Ideal(Events(le, pid, ts));
            && Verifies(Words(at, answer))
            && Unpacked(le, pid, RunTraffic(le, pid, ts), IcmpPart(header + answer)).1
                 == (if pid <= 0xFFFF && k < 0x8000 then Some(m[k]) else None)
            && Ideal(Events(le, pid, ts + [Delivery(header + answer)]))
                 == (if pid <= 0xFFFF && k < 0x8000 then m - {k} else m)
  {
    hide Message, IcmpPart, Accepted, Run, Ideal, Events, RunTraffic, ReplyTime, Verifies, Words, EchoReply.Reply, Step;
    var answer, events := EchoReply.Reply(at, Message(le, k, pid)), Events(le, pid, ts);
    TrafficIsRun(le, pid, ts);
    RepliesFindTheirRequest(events, k);
    AnswerHolds(le, at, k, pid, header);
    EventsNext(le, pid, ts, header + answer);
    OneMore(events, Reply(k));
  }

  /** What ping finds in an answer. */
  lemma AnswerHolds(le: bool, at: bool, k: uint16, pid: nat, header: seq<byte>)
    requires header != [] && |header| == header[0] % 16 * 4
    ensures var answer := EchoReply.Reply(at, Message(le, k, pid));
            && Verifies(Words(at, answer)) && IcmpPart(header + answer) == answer
            && |answer| == ICMP_LENGTH && Load16(le, answer, 6) == k
            && (Accepted(le, pid, answer) <==> pid <= 0xFFFF)
  {
    hide Checksummed, EchoRequest, Verifies, Words, EchoReply.Reply;
    var answer := EchoReply.Reply(at, Message(le, k, pid));
    assert |answer| == ICMP_LENGTH by { ReplySize(at, Message(le, k, pid)); }
    assert IcmpPart(header + answer) == answer by { PartBehind(header, answer); }
    EchoReply.PingIsAnswered(le, at, k, pid, ICMP_LENGTH);
  }

  lemma PartBehind(header: seq<byte>, msg: seq<byte>)
    requires header != [] && |header| == header[0] % 16 * 4
    ensures IcmpPart(header + msg) == msg
  {
  }

  lemma ReplySize(at: bool, msg: seq<byte>)
    requires |msg| >= 4
    ensures |EchoReply.Reply(at, msg)| == |msg|
  {
  }

  lemma EventsNext(le: bool, pid: nat, ts: seq<Traffic>, datagram: seq<byte>)
    ensures var events, msg := Events(le, pid, ts), IcmpPart(datagram);
            Events(le, pid, ts + [Delivery(datagram)])
              == if Accepted(le, pid, msg) then events + [Reply(Load16(le, msg, 6))] else events
  {
    assert (ts + [Delivery(datagram)])[..|ts|] == ts;
  }

  lemma OneRequest(le: bool, pid: nat)
    ensures var events := Events(le, pid, [Request(1)]); 0 in Ideal(events) && Sends(events) == 1
  {
    var ts := [Request(1)];
    assert ts[..0] == [] && Events(le, pid, ts) == [] + [Send(1)];
    OneMore([], Send(1));
  }

  /** A process with a number above 65535 ignores the answer to its first request. */
  lemma LargeProcessFails(le: bool, at: bool, pid: nat, header: seq<byte>)
    requires pid > 0xFFFF && header != [] && |header| == header[0] % 16 * 4
    ensures var ts, answer := [Request(1)], EchoReply.Reply(at, Message(le, 0, pid));
            && 0 in Ideal(Events(le, pid, ts))
            && Unpacked(le, pid, RunTraffic(le, pid, ts), IcmpPart(header + answer)).1 == None
  {
    hide *;
    OneRequest(le, pid);
    AnswerFindsItsRequest(le, at, pid, [Request(1)], 0, header);
  }
}
