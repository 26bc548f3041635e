/** icmp_echo of sip_icmp.c: an echo request is turned into the reply in place, and its checksum is
    patched by adding the type difference with an end-around carry instead of being recomputed. */
module EchoReply {
  import opened MachineInts
  import opened OnesComplement
  import opened IcmpChecksum

  const ICMP_ECHOREPLY := 0

  function Htons(le: bool, w: uint16): uint16 {
    if le then Swap(w) else w
  }

  /** The patched checksum. */
  function Bumped(le: bool, c: uint16): uint16 {
    if c >= Htons(le, 0xFFFF - 0x800) then (c + Htons(le, 0x800) + 1) % 0x1_0000
    else (c + Htons(le, 0x800)) % 0x1_0000
  }

  /** The buffer afterwards: type cleared, checksum patched, every other byte kept. */
  function Reply(le: bool, msg: seq<byte>): seq<byte>
    requires |msg| >= 4
  {
    Stored16(le, msg[0 := ICMP_ECHOREPLY], 2, Bumped(le, Load16(le, msg, 2)))
  }

  /** Requests sent to a broadcast or multicast address are left alone. */
  method IcmpEcho(msg: array<byte>, toGroup: bool, le: bool)
    requires msg.Length >= 4
    modifies msg
    ensures msg[..] == if toGroup then old(msg[..]) else Reply(le, old(msg[..]))
  {
    if toGroup {
      return;
    }
    msg[0] := ICMP_ECHOREPLY;
    var c := Word(le, msg[2], msg[3]);
    if c >= Htons(le, 0xFFFF - 0x800) {
      c := (c + Htons(le, 0x800) + 1) % 0x1_0000;
    } else {
      c := (c + Htons(le, 0x800)) % 0x1_0000;
    }
    Store16(msg, 2, c, le);
    assert old(msg[..])[0 := ICMP_ECHOREPLY][2] == old(msg[2]);
  }

  /** The patch adds the type word modulo 0xFFFF and never leaves the representation 0xFFFF. */
  lemma BumpedExactly(le: bool, c: uint16)
    ensures var h := Word(le, ICMP_ECHO, 0);
            Bumped(le, c) < 0xFFFF && (Bumped(le, c) - c - h) % 0xFFFF == 0
  {
    var h: int := Word(le, ICMP_ECHO, 0);
    assert Htons(le, 0x800) == h && Htons(le, 0xFFFF - 0x800) == 0xFFFF - h;
    assert Bumped(le, c) - c - h == if c >= 0xFFFF - h then -0xFFFF else 0;
  }

  /** The reply's sum: the request's sum, moved by a multiple of 0xFFFF. */
  lemma ReplyTotal(le: bool, msg: seq<byte>)
    requires |msg| >= 4 && msg[0] == ICMP_ECHO
    ensures (Total(Words(le, Reply(le, msg))) - Total(Words(le, msg))) % 0xFFFF == 0
    ensures Total(Words(le, msg)) > 0
  {
    hide Total, Bumped;
    var c, c' := Load16(le, msg, 2), Bumped(le, Load16(le, msg, 2));
    var w0, w0' := Word(le, ICMP_ECHO, msg[1]), Word(le, 0, msg[1]);
    var typed := Stored16(le, msg, 0, w0');
    assert typed == msg[0 := ICMP_ECHOREPLY];
    WordsStore(le, msg, 0, w0', false);
    WordsStore(le, typed, 1, c', false);
    TotalUpdate(Words(le, msg), 0, w0');
    TotalUpdate(Words(le, typed), 1, c');
    BumpedExactly(le, c);
    TotalZero(Words(le, msg));
  }

  /** The reply is valid exactly when the request was and something besides the type and the
      checksum is nonzero; otherwise the patched message is all zeros. */
  lemma ReplyValidExactly(le: bool, msg: seq<byte>)
    requires |msg| >= 4 && msg[0] == ICMP_ECHO
    ensures Verifies(Words(le, Reply(le, msg)))
        <==> Verifies(Words(le, msg)) && (msg[1] != 0 || exists i :: 4 <= i < |msg| && msg[i] != 0)
  {
    var reply := Reply(le, msg);
    var t: int, t': int := Total(Words(le, msg)), Total(Words(le, reply));
    ReplyTotal(le, msg);
    VerifiesExactly(Words(le, msg));
    VerifiesExactly(Words(le, reply));
    ZeroBytes(le, reply, false);
    if t % 0xFFFF == 0 {
      Multiples(t, t' - t);
    }
    if t' % 0xFFFF == 0 {
      Multiples(t', t' - t);
    }
    if msg[1] != 0 {
      assert reply[1] != 0;
    } else if i :| 4 <= i < |msg| && msg[i] != 0 {
      assert reply[i] != 0;
    } else if t % 0xFFFF == 0 {
      QuietRequest(le, msg);
    }
  }

  /** A valid request with nothing but a type and a checksum becomes the all-zero message. */
  lemma QuietRequest(le: bool, msg: seq<byte>)
    requires |msg| >= 4 && msg[0] == ICMP_ECHO && msg[1] == 0
    requires forall i :: 4 <= i < |msg| ==> msg[i] == 0
    requires Total(Words(le, msg)) % 0xFFFF == 0
    ensures Total(Words(le, Reply(le, msg))) == 0
  {
    hide Total, Bumped, Reply;
    var c := Load16(le, msg, 2);
    var rest := Stored16(le, Stored16(le, msg, 0, 0), 2, 0);
    WordsStore(le, msg, 0, 0, false);
    WordsStore(le, Stored16(le, msg, 0, 0), 1, 0, false);
    TotalUpdate(Words(le, msg), 0, 0);
    TotalUpdate(Words(le, Stored16(le, msg, 0, 0)), 1, 0);
    ZeroBytes(le, rest, false);
    assert Total(Words(le, msg)) == Word(le, ICMP_ECHO, 0) + c;
    assert c == 0xFFFF - Word(le, ICMP_ECHO, 0);
    QuietReply(le, msg);
  }

  lemma QuietReply(le: bool, msg: seq<byte>)
    requires |msg| >= 4 && msg[1] == 0 && Load16(le, msg, 2) == 0xFFFF - Word(le, ICMP_ECHO, 0)
    ensures Reply(le, msg) == Stored16(le, Stored16(le, msg, 0, 0), 2, 0)
  {
    assert Bumped(le, Load16(le, msg, 2)) == 0;
  }

  /** Both kinds of host produce the same reply bytes. */
  lemma ReplyIsHostIndependent(msg: seq<byte>)
    requires |msg| >= 4
    ensures Reply(true, msg) == Reply(false, msg)
  {
    var b0, b1 := msg[2], msg[3];
    BumpedBytes(b0, b1);
  }

  /** The two hosts hold the same checksum bytes in opposite halves and patch them alike. */
  lemma BumpedBytes(b0: byte, b1: byte)
    ensures var be, l := Bumped(false, Word(false, b0, b1)), Bumped(true, Word(true, b0, b1));
            HighByte(be) == LowByte(l) && LowByte(be) == HighByte(l)
  {
    var be, l := Bumped(false, Word(false, b0, b1)), Bumped(true, Word(true, b0, b1));
    assert Htons(true, 0x800) == 8 && Htons(true, 0xFFFF - 0x800) == 0xFFF7;
    var r0, r1 := PatchedBytes(b0, b1);
    assert be == 0x100 * (r0 as int) + r1;
    assert l == 0x100 * (r1 as int) + r0;
    BytesOf(be, r0, r1);
    BytesOf(l, r1, r0);
  }

  lemma PatchedBytes(b0: byte, b1: byte) returns (r0: byte, r1: byte)
    ensures 0x100 * r0 + r1 == 0x100 * b0 + b1 + (if 0x100 * b0 + b1 < 0xF7FF then 0x800 else 0x801 - 0x1_0000)
    ensures 0x100 * r1 + r0 == 0x100 * b1 + b0 + (if 0x100 * b1 + b0 < 0xFFF7 then 8 else 9 - 0x1_0000)
  {
    if b0 < 0xF8 {
      r0, r1 := b0 + 8, b1;
      if b0 == 0xF7 && b1 == 0xFF {
        r0, r1 := 0, 0;
      }
    } else if b1 < 0xFF {
      r0, r1 := b0 - 0xF8, b1 + 1;
    } else {
      r0, r1 := b0 - 0xF7, 0;
    }
  }

  /** A request built by ping on one host and answered on another, each with its own byte order: the answer
      is valid, and the first host finds its own process and sequence number and the data in it. */
  lemma PingIsAnswered(from: bool, at: bool, seqNo: nat, pid: nat, length: nat)
    requires 10 <= length <= 0xFF && length % 2 == 0
    ensures var request := Checksummed(from, EchoRequest(from, seqNo, pid, length), length, 1)[..length];
            var answer := Reply(at, request);
            && Verifies(Words(at, answer))
            && answer[0] == 0 && answer[1] == 0 && answer[4..] == request[4..]
            && Load16(from, answer, 4) == pid % 0x1_0000 && Load16(from, answer, 6) == seqNo % 0x1_0000
            && forall i | 8 <= i < length :: answer[i] == i - 8
  {
    hide LoopWords, Words, OnesSum, Verifies, Reply, Checksummed, EchoHeader, AsksEcho;
    var cleared := EchoRequest(from, seqNo, pid, length);
    var request := Checksummed(from, cleared, length, 1)[..length];
    ClearedChecksum(from, seqNo, pid, length);
    ChecksummedVerifies(from, cleared, length, 1);
    RequestBytes(from, seqNo, pid, length, []);
    assert cleared + [] == cleared;
    EvenPairs(from, request);
    HostOrderIsIrrelevant(request);
    RequestIsKept(from, at, Checksummed(from, cleared, length, 1), seqNo, pid, length);
    ReplyValidExactly(at, request);
  }

  /** The part of a request that is sent, and what an answer keeps of it. */
  lemma RequestIsKept(from: bool, at: bool, whole: seq<byte>, seqNo: nat, pid: nat, length: nat)
    requires 10 <= length && AsksEcho(from, whole, seqNo, pid, length)
    ensures var request := whole[..length];
            var answer := Reply(at, request);
            && request[0] == ICMP_ECHO && request[9] == 1
            && answer[0] == 0 && answer[1] == 0 && answer[4..] == request[4..]
            && Load16(from, answer, 4) == pid % 0x1_0000 && Load16(from, answer, 6) == seqNo % 0x1_0000
            && forall i | 8 <= i < length :: answer[i] == i - 8
  {
    hide Bumped;
  }

  lemma TotalOfFour(a: uint16, b: uint16)
    ensures Total([a, b, 0, 0]) == a + b
  {
    TotalAppend([a, b, 0], 0);
    TotalAppend([a, b], 0);
    TotalAppend([a], b);
    TotalAppend([], a);
    assert [a, b, 0] + [0] == [a, b, 0, 0] && [a, b] + [0] == [a, b, 0] && [a] + [b] == [a, b] && [] + [a] == [a];
  }

  lemma WordsOfEight(le: bool, b0: byte, b1: byte, b2: byte, b3: byte)
    ensures Words(le, [b0, b1, b2, b3, 0, 0, 0, 0]) == [Word(le, b0, b1), Word(le, b2, b3), 0, 0]
  {
    var msg := [b0, b1, b2, b3, 0, 0, 0, 0];
    PairsAt(le, msg, false, 0);
    PairsAt(le, msg, false, 1);
    PairsAt(le, msg, false, 2);
    PairsAt(le, msg, false, 3);
  }

  /** An input for which the reply of a valid request does not verify, on either kind of host. */
  lemma QuietRequestFails(le: bool)
    ensures var msg := [ICMP_ECHO, 0, 0xF7, 0xFF, 0, 0, 0, 0];
            Verifies(Words(le, msg)) && !Verifies(Words(le, Reply(le, msg)))
  {
    hide Words, Total, Reply, Verifies;
    var msg := [ICMP_ECHO, 0, 0xF7, 0xFF, 0, 0, 0, 0];
    WordsOfEight(le, ICMP_ECHO, 0, 0xF7, 0xFF);
    TotalOfFour(Word(le, ICMP_ECHO, 0), Word(le, 0xF7, 0xFF));
    VerifiesExactly(Words(le, msg));
    ReplyValidExactly(le, msg);
  }
}
