/**
 The DNS client: writing a request for a host name, and walking the records of the response.
 */
module Dns {
  import opened Bits
  import opened DnsMessage

  const SUCCESS: nat := 1
  const TIMED_OUT := -1
  const INVALID_SERVER := -2
  const TRUNCATED := -3
  const INVALID_RESPONSE := -4
  const DNS_PORT := 53
  const RECURSION_DESIRED := 0x100

  /** The codes are returned as unsigned 16-bit words. */
  function Word(code: int): (w: nat) {
    code % 0x1_0000
  }

  function Htons(x: nat): (y: nat)
    requires Word16(x)
    ensures Word16(y)
  {
    x % 256 * 256 + x / 256
  }

  // ---------- What the request says ----------

  function RequestHeader(id: nat): (s: seq<byte>)
    requires Word16(id)
    ensures |s| == HEADER_SIZE
  {
    Be(id) + Be(RECURSION_DESIRED) + RequestCounts()
  }

  /** One question, and no other records. */
  function RequestCounts(): (s: seq<byte>)
    ensures |s| == 8
  {
    Be(1) + Be(0) + Be(0) + Be(0)
  }

  function RequestQuestion(host: seq<byte>): seq<byte> {
    EncodeLabels(Labels(host), [0]) + Be(TYPE_A) + Be(CLASS_IN)
  }

  function Request(host: seq<byte>, id: nat): seq<byte>
    requires Word16(id)
  {
    RequestHeader(id) + RequestQuestion(host)
  }

  /** The request is a well-formed message with one question, for the address of the host. */
  lemma RequestIsMessage(host: seq<byte>, id: nat)
    requires Word16(id) && Fits(Labels(host), 255)
    ensures var m := Message(id, RECURSION_DESIRED, [Asking(host)], 0, [], 0, 0, []);
            ValidMessage(m) && Request(host, id) == Encode(m)
  {
    var m := Message(id, RECURSION_DESIRED, [Asking(host)], 0, [], 0, 0, []);
    assert ValidQuestion(Asking(host));
    assert EncodeQuestions(m.questions, 1) == [];
    assert EncodeQuestions(m.questions, 0) == EncodeQuestion(Asking(host)) + [];
    assert EncodeRecords(m.answers, 0) == [];
  }

  /** Byte by byte: the id, the flag that recursion is desired, one question and nothing else; then the labels of the
      host, each behind its length, a zero octet, and type and class 1. */
  lemma RequestBytes(host: seq<byte>, id: nat)
    requires Word16(id)
    ensures Request(host, id)
         == [id / 256, id % 256, 0x01, 0x00, 0, 1, 0, 0, 0, 0, 0, 0] + (EncodeLabels(Labels(host), [0]) + [0, 1, 0, 1])
  {
    hide EncodeLabels, Labels;
    assert RequestHeader(id) == [id / 256, id % 256, 0x01, 0x00, 0, 1, 0, 0, 0, 0, 0, 0];
    Regroup(EncodeLabels(Labels(host), [0]), Be(TYPE_A), Be(CLASS_IN));
  }

  /** Flags that say: a response, complete, without error. */
  predicate GoodFlags(flags: nat) {
    Word16(flags) && Bit(flags, 15) && !Bit(flags, 9) && flags % 16 == 0
  }

  /** A response to the request: same id and question, and at least one answer. */
  predicate Echoes(m: Message, host: seq<byte>, id: nat) {
    m.id == id && GoodFlags(m.flags) && m.questions == [Asking(host)] && m.answerCount > 0
  }

  lemma EchoPassesHeader(m: Message, host: seq<byte>, id: nat)
    requires ValidMessage(m) && Word16(id) && Echoes(m, host, id)
    ensures |Encode(m)| >= HEADER_SIZE && HeaderVerdict(Encode(m), id) == 0
  {
    HeaderFields(m);
  }

  lemma HeaderFields(m: Message)
    requires ValidMessage(m)
    ensures var p := Encode(m);
            && |p| >= HEADER_SIZE
            && p[HEADER_SIZE..] == EncodeQuestions(m.questions, 0) + (EncodeRecords(m.answers, 0) + m.rest)
            && BeOf(p[0], p[1]) == m.id && BeOf(p[2], p[3]) == m.flags
            && BeOf(p[4], p[5]) == |m.questions| && BeOf(p[6], p[7]) == m.answerCount
  {
    var p := Encode(m);
    assert p[..HEADER_SIZE] == EncodeHeader(m);
    BeRoundTrip(m.id);
    BeRoundTrip(m.flags);
    BeRoundTrip(|m.questions|);
    BeRoundTrip(m.answerCount);
  }

  // ---------- The host name from a position on ----------

  /** The labels from a position on; none once it is past the terminator. */
  function LabelsFrom(host: seq<byte>, start: nat): seq<Label> {
    if start <= |host| then Labels(host[start..]) else []
  }

  lemma LabelsStep(host: seq<byte>, start: nat, end: nat)
    requires start <= end <= |host| && DOT !in host[start..end] && (end < |host| ==> host[end] == DOT)
    ensures LabelsFrom(host, start) == (if start < end then [host[start..end]] else []) + LabelsFrom(host, end + 1)
  {
    var l, rest := host[start..end], host[end..];
    assert host[start..] == l + rest;
    LabelEndOf(l, rest);
    assert (l + rest)[..|l|] == l && (l + rest)[|l|..] == rest;
    assert end < |host| ==> rest[1..] == host[end + 1..];
    assert Labels(rest) == LabelsFrom(host, end + 1);
  }

  function NameFrom(host: seq<byte>, start: nat): seq<byte> {
    EncodeLabels(LabelsFrom(host, start), [0])
  }

  /** A part of the host name as it is written; nothing for an empty part. */
  function Segment(host: seq<byte>, start: nat, end: nat): seq<byte>
    requires start <= end <= |host|
  {
    if start < end then [(end - start) % 256] + host[start..end] else []
  }

  lemma NameStep(host: seq<byte>, start: nat, end: nat)
    requires start <= end <= |host| && DOT !in host[start..end] && (end < |host| ==> host[end] == DOT)
    ensures NameFrom(host, start)
            == Segment(host, start, end) + NameFrom(host, end + 1)
  {
    hide Labels, LabelsFrom, EncodeLabels;
    LabelsStep(host, start, end);
    var l, labels := host[start..end], LabelsFrom(host, end + 1);
    if start < end {
      EncodeCons(l, labels, [0]);
    } else {
      assert [] + labels == labels;
    }
  }

  /** What is written so far and the name from a position on make up the whole. */
  ghost predicate ToWrite(all: seq<byte>, sent: seq<byte>, host: seq<byte>, start: nat) {
    all == sent + NameFrom(host, start)
  }

  lemma NothingWritten(all: seq<byte>, sent: seq<byte>, host: seq<byte>)
    requires all == sent + EncodeLabels(Labels(host), [0])
    ensures ToWrite(all, sent, host, 0)
  {
    assert host[0..] == host;
  }

  lemma SegmentWritten(all: seq<byte>, sent: seq<byte>, host: seq<byte>, start: nat, end: nat)
    requires ToWrite(all, sent, host, start)
    requires start <= end <= |host| && DOT !in host[start..end] && (end < |host| ==> host[end] == DOT)
    ensures ToWrite(all, sent + Segment(host, start, end), host, end + 1)
  {
    hide NameFrom, Segment;
    NameStep(host, start, end);
    Regroup(sent, Segment(host, start, end), NameFrom(host, end + 1));
  }

  lemma AllWritten(all: seq<byte>, sent: seq<byte>, host: seq<byte>, start: nat)
    requires ToWrite(all, sent, host, start) && (start == |host| + 1 || start == |host| == 0)
    ensures sent + [0] == all
  {
  }

  // ---------- The packet ----------

  /** What comes back before the timeout, if anything does. */
  datatype Reply = Nothing | Packet(ip: seq<byte>, port: nat, bytes: seq<byte>)

  class Udp {
    var sent: seq<byte>
    var remoteIp: seq<byte>
    var remotePort: nat
    var received: seq<byte>
    var pos: nat

    ghost predicate Valid()
      reads this
    {
      pos <= |received|
    }

    /** What has not been read yet. */
    ghost function Rest(): seq<byte>
      requires Valid()
      reads this
    {
      received[pos..]
    }

    constructor ()
      ensures Valid() && Rest() == [] && sent == []
    {
      sent, remoteIp, remotePort, received, pos := [], [], 0, [], 0;
    }

    method BeginPacket()
      modifies this`sent
      ensures sent == []
    {
      sent := [];
    }

    /** Whether a packet with anything in it has come, which then is there to be read. */
    method ParsePacket(reply: Reply) returns (arrived: bool)
      requires Valid()
      modifies this`remoteIp, this`remotePort, this`received, this`pos
      ensures Valid() && arrived == (reply.Packet? && reply.bytes != [])
      ensures arrived ==> remoteIp == reply.ip && remotePort == reply.port && Rest() == reply.bytes
      ensures !arrived ==> Rest() == old(Rest())
    {
      arrived := reply.Packet? && |reply.bytes| > 0;
      if arrived {
        remoteIp, remotePort, received, pos := reply.ip, reply.port, reply.bytes, 0;
      }
    }

    method Write(buffer: seq<byte>)
      modifies this`sent
      ensures sent == old(sent) + buffer
    {
      sent := sent + buffer;
    }

    /** Writes a 16-bit variable as a little-endian machine holds it. */
    method WriteWord(w: nat)
      requires Word16(w)
      modifies this`sent
      ensures sent == old(sent) + Be(Htons(w))
    {
      Write([w % 256, w / 256]);
    }

    /** The next byte, or -1 if there is none. */
    method Read() returns (c: int)
      requires Valid()
      modifies this`pos
      ensures Valid()
      ensures if old(Rest()) == [] then c == -1 && Rest() == [] else c == old(Rest())[0] && Rest() == old(Rest())[1..]
    {
      if pos < |received| {
        c := received[pos];
        pos := pos + 1;
      } else {
        c := -1;
      }
    }

    method ReadBytes(len: nat) returns (buffer: seq<byte>)
      requires Valid() && len <= |Rest()|
      modifies this`pos
      ensures Valid()
      ensures buffer == old(Rest())[..len] && Rest() == old(Rest())[len..]
    {
      buffer := received[pos..pos + len];
      pos := pos + len;
    }

    method Flush()
      requires Valid()
      modifies this`pos
      ensures Valid() && Rest() == []
    {
      while pos < |received|
        invariant Valid()
      {
        var _ := Read();
      }
    }

    /** Reads n bytes one by one and drops them; at the end of the packet there is nothing to drop. */
    method Skip(n: nat)
      requires Valid()
      modifies this`pos
      ensures Valid() && Rest() == Dropped(old(Rest()), n)
    {
      var len: nat := n;
      hide Dropped;
      DroppedNone(Rest());
      while len > 0
        invariant Valid() && len <= n && Rest() == Dropped(old(Rest()), n - len)
      {
        DroppedNext(old(Rest()), n - len);
        var _ := Read();
        len := len - 1;
      }
    }

    /** Reads into a byte, which keeps its value at the end of the packet. */
    method ReadInto(b: byte) returns (r: byte)
      requires Valid()
      modifies this`pos
      ensures Valid()
      ensures if old(Rest()) == [] then r == b && Rest() == [] else r == old(Rest())[0] && Rest() == old(Rest())[1..]
    {
      r := b;
      if pos < |received| {
        r := received[pos];
        pos := pos + 1;
      }
    }

    /** A 16-bit variable filled from the packet by a little-endian machine. */
    method ReadWord() returns (w: nat)
      requires Valid() && |Rest()| >= 2
      modifies this`pos
      ensures Valid() && Word16(w)
      ensures Htons(w) == BeOf(old(Rest())[0], old(Rest())[1]) && Rest() == old(Rest())[2..]
    {
      var buffer := ReadBytes(2);
      w := buffer[0] as nat + 256 * buffer[1] as nat;
    }
  }

  // ---------- The loop over a question name ----------

  function Dropped(s: seq<byte>, n: nat): seq<byte> {
    if n <= |s| then s[n..] else []
  }

  lemma DroppedNone(s: seq<byte>)
    ensures Dropped(s, 0) == s
  {
  }

  lemma DroppedNext(s: seq<byte>, n: nat)
    ensures Dropped(s, n + 1) == if Dropped(s, n) == [] then [] else Dropped(s, n)[1..]
  {
  }

  /** One turn of the loop: it reads a length, or keeps the last one at the end of the packet, and reads over as many
      bytes. The counter of the inner loop wraps to 255 when it has run out, which is what keeps the outer loop going. */
  function NameTurn(s: seq<byte>, len: byte): (byte, seq<byte>) {
    var now, rest := if s == [] then len else s[0], Dropped(s, 1);
    if now > 0 then (255, Dropped(rest, now)) else (0, rest)
  }

  /** The lengths lead to a zero octet inside the packet. */
  predicate Terminated(s: seq<byte>)
    decreases |s|
  {
    s != [] && (s[0] == 0 || (s[0] < |s| && Terminated(s[1 + s[0]..])))
  }

  function AfterName(s: seq<byte>): seq<byte>
    requires Terminated(s)
    decreases |s|
  {
    if s[0] == 0 then s[1..] else AfterName(s[1 + s[0]..])
  }

  /** Every name of the question section ends inside the packet. */
  predicate QuestionsEnd(s: seq<byte>, count: nat)
    decreases count
  {
    count == 0 || (Terminated(s) && QuestionsEnd(Dropped(AfterName(s), 4), count - 1))
  }

  function AfterQuestions(s: seq<byte>, count: nat): seq<byte>
    requires QuestionsEnd(s, count)
    decreases count
  {
    if count == 0 then s else AfterQuestions(Dropped(AfterName(s), 4), count - 1)
  }

  lemma TurnTowardsEnd(s: seq<byte>, len: byte)
    requires Terminated(s)
    ensures var (next, rest) := NameTurn(s, len);
            && |rest| < |s| && (next == 0 <==> s[0] == 0) && (next == 0 ==> rest == AfterName(s))
            && (next != 0 ==> next == 255 && Terminated(rest) && AfterName(rest) == AfterName(s))
  {
    assert s[1..][s[0]..] == s[1 + s[0]..];
  }

  lemma {:induction false} QuestionNameEnds(labels: seq<Label>, tail: seq<byte>)
    requires Fits(labels, 255)
    ensures Terminated(EncodeLabels(labels, [0]) + tail)
    ensures AfterName(EncodeLabels(labels, [0]) + tail) == tail
    decreases |labels|
  {
    if labels == [] {
      assert ([0] + tail)[1..] == tail;
    } else {
      var l, rest := labels[0], EncodeLabels(labels[1..], [0]) + tail;
      NameHead(labels, [0], tail);
      QuestionNameEnds(labels[1..], tail);
      hide EncodeLabels, Fits;
      assert ([|l|] + (l + rest))[1 + |l|..] == rest;
    }
  }

  // ---------- Where the pieces of a record lie ----------

  lemma LabelHead(labels: seq<Label>, end: seq<byte>, tail: seq<byte>)
    requires labels != [] && Fits(labels, LONGEST_LABEL)
    ensures EncodeLabels(labels, end) + tail == [|labels[0]|] + (labels[0] + (EncodeLabels(labels[1..], end) + tail))
    ensures Fits(labels[1..], LONGEST_LABEL) && 0 < |labels[0]| <= LONGEST_LABEL
  {
    NameHead(labels, end, tail);
    assert labels[0] in labels;
  }

  lemma RecordLayout(r: Record, tail: seq<byte>)
    requires ValidRecord(r)
    ensures EncodeRecord(r) + tail
            == EncodeLabels(r.labels, r.end.Encode())
               + (Be(r.kind) + (Be(r.rrClass) + (r.ttl + (Be(|r.rdata|) + (r.rdata + tail)))))
  {
  }

  /** A label length has neither of the two high bits set. */
  lemma LabelByte(x: byte)
    ensures And(x, 0xC0) == 0 <==> x < 64
  {
    hide And;
    AndEven(x, 0x60);
    AndEven(x / 2, 0x30);
    AndEven(x / 4, 0x18);
    AndEven(x / 8, 0xC);
    AndEven(x / 16, 6);
    AndEven(x / 32, 3);
    AndLow(x / 64, 1);
    AndOne(x / 128);
  }

  lemma FlagTests(flags: nat)
    requires Word16(flags)
    ensures And(flags, 0x8000) == 0x8000 <==> Bit(flags, 15)
    ensures And(flags, 0x200) != 0 <==> Bit(flags, 9)
    ensures And(flags, 15) == flags % 16
  {
    hide And, Bit;
    PowersOfTwo();
    assert Pow2(9) == 2 * Pow2(8);
    hide Pow2;
    AndMask(flags, 15);
    AndMask(flags, 9);
    AndLow(flags, 7);
    AndLow(flags / 2, 3);
    AndLow(flags / 4, 1);
    AndOne(flags / 8);
  }

  lemma QuestionLayout(qs: seq<Question>, i: nat, tail: seq<byte>)
    requires i < |qs| && ValidQuestion(qs[i]) && forall q :: q in qs ==> ValidQuestion(q)
    ensures EncodeQuestions(qs, i) + tail
            == EncodeLabels(qs[i].labels, [0]) + (Be(qs[i].kind) + Be(qs[i].rrClass) + (EncodeQuestions(qs, i + 1) + tail))
  {
    assert qs[i] in qs;
    var name, kind, rrClass := EncodeLabels(qs[i].labels, [0]), Be(qs[i].kind), Be(qs[i].rrClass);
    Regroup(EncodeQuestion(qs[i]), EncodeQuestions(qs, i + 1), tail);
    Regroup(name, kind, rrClass);
    Regroup(name, kind + rrClass, EncodeQuestions(qs, i + 1) + tail);
  }

  /** An encoded question section is read over to the byte after it. */
  lemma {:induction false} EncodedQuestionsEnd(qs: seq<Question>, i: nat, tail: seq<byte>)
    requires i <= |qs| && forall q :: q in qs ==> ValidQuestion(q)
    ensures QuestionsEnd(EncodeQuestions(qs, i) + tail, |qs| - i)
    ensures AfterQuestions(EncodeQuestions(qs, i) + tail, |qs| - i) == tail
    decreases |qs| - i
  {
    if i == |qs| {
      assert [] + tail == tail;
    } else {
      var q := qs[i];
      assert q in qs;
      var rest := Be(q.kind) + Be(q.rrClass) + (EncodeQuestions(qs, i + 1) + tail);
      QuestionLayout(qs, i, tail);
      QuestionNameEnds(q.labels, rest);
      assert Dropped(rest, 4) == EncodeQuestions(qs, i + 1) + tail;
      hide Terminated, AfterName, Dropped, EncodeLabels, EncodeQuestions, Be, Fits;
      EncodedQuestionsEnd(qs, i + 1, tail);
    }
  }

  lemma AddressAmong(rs: seq<Record>)
    ensures FirstAddress(rs, 0) < |rs| <==> exists r :: r in rs && IsAddress(r)
  {
    var k := FirstAddress(rs, 0);
    if k < |rs| {
      assert rs[k] in rs;
    }
  }

  // ---------- The client ----------

  /** What a caller sees of an outcome: a code, and the address, which is left alone on failure. */
  predicate Reports(status: nat, ip: seq<byte>, outcome: Outcome, address: seq<byte>) {
    match outcome
    case Address(a) => status == SUCCESS && ip == a
    case Failure(code) => status == Word(code) && ip == address
  }

  function Rejection(reply: Reply, resolver: seq<byte>, id: nat): int {
    if reply.Nothing? || reply.bytes == [] then TIMED_OUT
    else if reply.ip != resolver || reply.port != DNS_PORT then INVALID_SERVER
    else if |reply.bytes| < HEADER_SIZE then TRUNCATED
    else HeaderVerdict(reply.bytes, id)
  }

  /** The packet comes from the resolver and its header is a good response's. */
  predicate Accepted(reply: Reply, resolver: seq<byte>, id: nat) {
    Rejection(reply, resolver, id) == 0
  }

  function Verdict(reply: Reply, resolver: seq<byte>, id: nat, m: Message): Outcome {
    if Accepted(reply, resolver, id) then Answer(m) else Failure(Rejection(reply, resolver, id))
  }

  // ---------- What is accepted, in numbers ----------

  lemma BitNine(x: nat)
    ensures Bit(x, 9) <==> x / 512 % 2 == 1
  {
    var a := x / 2;
    var b := a / 2;
    var c := b / 2;
    var d := c / 2;
    var e := d / 2;
    assert e == x / 32;
    var f := e / 2;
    var g := f / 2;
    var h := g / 2;
    var i := h / 2;
    assert i == e / 16 == x / 512;
    assert Bit(x, 9) == Bit(a, 8) == Bit(b, 7) == Bit(c, 6) == Bit(d, 5);
    assert Bit(d, 5) == Bit(e, 4) == Bit(f, 3) == Bit(g, 2) == Bit(h, 1) == Bit(i, 0);
  }

  /** The flags that are looked at, in the two bytes that hold them. */
  lemma FlagBytes(hi: byte, lo: byte)
    ensures Bit(BeOf(hi, lo), 15) <==> hi >= 128
    ensures Bit(BeOf(hi, lo), 9) <==> hi / 2 % 2 == 1
    ensures BeOf(hi, lo) % 16 == lo % 16
  {
    var x := BeOf(hi, lo);
    PowersOfTwo();
    BitNine(x);
    hide Bit;
    assert x / 512 == hi / 2;
    if hi >= 128 { HighestBit(x, 15); } else { HighBitsClear(x, 15, 15); }
  }

  /** Why a reply is not looked into, in the order of the tests: the 16-bit code that is returned. */
  lemma RejectionCodes(reply: Reply, resolver: seq<byte>, id: nat)
    ensures var (code, b) := (Word(Rejection(reply, resolver, id)), if reply.Packet? then reply.bytes else []);
            if b == [] then code == 0xFFFF
            else if reply.ip != resolver || reply.port != 53 then code == 0xFFFE
            else if |b| < 12 then code == 0xFFFD
            else if 256 * b[0] as int + b[1] as int != id || b[2] < 128 then code == 0xFFFC
            else if b[2] / 2 % 2 == 1 || b[3] % 16 != 0 then code == 0xFFFB
            else if b[6] == 0 && b[7] == 0 then code == 0xFFFA
            else Accepted(reply, resolver, id)
  {
    if reply.Packet? && |reply.bytes| >= 12 { FlagBytes(reply.bytes[2], reply.bytes[3]); }
    hide Bit;
  }

  /** A reply is looked into exactly when it is a packet from the resolver's port 53 with a whole header, carries the id
      of the request, is marked as a response, is neither cut nor an error, and announces an answer. */
  lemma AcceptedExactlyWhen(reply: Reply, resolver: seq<byte>, id: nat)
    ensures Accepted(reply, resolver, id) <==>
            && reply.Packet? && reply.ip == resolver && reply.port == 53 && |reply.bytes| >= 12
            && 256 * reply.bytes[0] as int + reply.bytes[1] as int == id
            && reply.bytes[2] >= 128 && reply.bytes[2] / 2 % 2 == 0 && reply.bytes[3] % 16 == 0
            && (reply.bytes[6] != 0 || reply.bytes[7] != 0)
  {
    if reply.Packet? && |reply.bytes| >= 12 { FlagBytes(reply.bytes[2], reply.bytes[3]); }
    hide Bit;
  }

  /** Record k is the first one of type 1 and class 1. */
  ghost predicate IsFirstAddress(rs: seq<Record>, k: nat) {
    && k < |rs| && rs[k].kind == 1 && rs[k].rrClass == 1
    && forall j :: 0 <= j < k ==> rs[j].kind != 1 || rs[j].rrClass != 1
  }

  /** What a caller is told of an accepted response: 1 and the four bytes of the first address record; 0xFFF7 if that
      record does not have four; 0xFFF6 if there is none. On failure the address is left alone. */
  lemma AnswerExactlyWhen(m: Message, status: nat, ip: seq<byte>, address: seq<byte>)
    ensures Reports(status, ip, Answer(m), address) <==>
            if k: nat :| IsFirstAddress(m.answers, k) then
              if |m.answers[k].rdata| == 4 then status == 1 && ip == m.answers[k].rdata
              else status == 0xFFF7 && ip == address
            else status == 0xFFF6 && ip == address
  {
    var k := FirstAddress(m.answers, 0);
    if k < |m.answers| { assert IsFirstAddress(m.answers, k); }
    assert forall j: nat :: IsFirstAddress(m.answers, j) ==> j == k;
  }

  /** The whole of what a caller is told, in numbers, for any reply; the message matters only if the reply is accepted. */
  lemma VerdictInNumbers(reply: Reply, resolver: seq<byte>, id: nat, m: Message, status: nat, ip: seq<byte>,
                         address: seq<byte>)
    ensures Reports(status, ip, Verdict(reply, resolver, id, m), address) <==>
            var b := if reply.Packet? then reply.bytes else [];
            if b == [] then status == 0xFFFF && ip == address
            else if reply.ip != resolver || reply.port != 53 then status == 0xFFFE && ip == address
            else if |b| < 12 then status == 0xFFFD && ip == address
            else if 256 * b[0] as int + b[1] as int != id || b[2] < 128 then status == 0xFFFC && ip == address
            else if b[2] / 2 % 2 == 1 || b[3] % 16 != 0 then status == 0xFFFB && ip == address
            else if b[6] == 0 && b[7] == 0 then status == 0xFFFA && ip == address
            else if k: nat :| IsFirstAddress(m.answers, k) then
              if |m.answers[k].rdata| == 4 then status == 1 && ip == m.answers[k].rdata
              else status == 0xFFF7 && ip == address
            else status == 0xFFF6 && ip == address
  {
    RejectionCodes(reply, resolver, id);
    AcceptedExactlyWhen(reply, resolver, id);
    AnswerExactlyWhen(m, status, ip, address);
    hide Rejection, AddressIn, Word;
  }

  class DnsClient {
    const udp: Udp
    const resolver: seq<byte>
    var requestId: nat

    constructor (udp: Udp, resolver: seq<byte>)
      ensures this.udp == udp && this.resolver == resolver && requestId == 0
    {
      this.udp, this.resolver, requestId := udp, resolver, 0;
    }

    /** Writes a request for a host name, a C string without its terminator, to the packet. */
    method BuildRequest(hostname: seq<byte>, millis: nat) returns (ok: nat)
      requires 0 !in hostname
      modifies this, udp`sent
      ensures ok == 1 && requestId == millis % 0x1_0000
      ensures udp.sent == old(udp.sent) + Request(hostname, requestId)
    {
      hide Be, RequestHeader, RequestQuestion;
      requestId := millis % 0x1_0000;
      WriteHeader();
      WriteQuestion(hostname);
      Regroup(old(udp.sent), RequestHeader(requestId), RequestQuestion(hostname));
      ok := 1;
    }

    method WriteQuestion(hostname: seq<byte>)
      requires 0 !in hostname
      modifies udp`sent
      ensures udp.sent == old(udp.sent) + RequestQuestion(hostname)
    {
      hide Be, Labels, EncodeLabels;
      WriteName(hostname);
      udp.WriteWord(Htons(TYPE_A));
      udp.WriteWord(Htons(CLASS_IN));
      ghost var name := EncodeLabels(Labels(hostname), [0]);
      Regroup(old(udp.sent), name, Be(TYPE_A));
      Regroup(old(udp.sent), name + Be(TYPE_A), Be(CLASS_IN));
    }

    method WriteHeader()
      requires Word16(requestId)
      modifies udp`sent
      ensures udp.sent == old(udp.sent) + RequestHeader(requestId)
    {
      hide Be, RequestCounts;
      udp.WriteWord(Htons(requestId));
      udp.WriteWord(Htons(RECURSION_DESIRED));
      WriteCounts();
      Regroup(old(udp.sent), Be(requestId), Be(RECURSION_DESIRED));
      Regroup(old(udp.sent), Be(requestId) + Be(RECURSION_DESIRED), RequestCounts());
    }

    method WriteCounts()
      modifies udp`sent
      ensures udp.sent == old(udp.sent) + RequestCounts()
    {
      hide Be;
      udp.WriteWord(Htons(1));
      udp.WriteWord(0);
      udp.WriteWord(0);
      udp.WriteWord(0);
      Regroup(old(udp.sent), Be(1), Be(0));
      Regroup(old(udp.sent), Be(1) + Be(0), Be(0));
      Regroup(old(udp.sent), Be(1) + Be(0) + Be(0), Be(0));
    }

    method WriteSegment(hostname: seq<byte>, start: nat, end: nat)
      requires start <= end <= |hostname|
      modifies udp`sent
      ensures udp.sent == old(udp.sent) + Segment(hostname, start, end)
    {
      if end - start > 0 {
        var len := (end - start) % 256;
        udp.Write([len]);
        udp.Write(hostname[start..end]);
      }
    }

    /** Where the part of the name from start on ends: at a dot or at the terminator. */
    method PartEnd(hostname: seq<byte>, start: nat) returns (end: nat)
      requires start <= |hostname|
      ensures start <= end <= |hostname| && DOT !in hostname[start..end] && (end < |hostname| ==> hostname[end] == DOT)
    {
      end := start;
      while end < |hostname| && hostname[end] != DOT
        invariant start <= end <= |hostname| && DOT !in hostname[start..end]
      {
        end := end + 1;
      }
    }

    method WriteName(hostname: seq<byte>)
      requires 0 !in hostname
      modifies udp`sent
      ensures udp.sent == old(udp.sent) + EncodeLabels(Labels(hostname), [0])
    {
      hide Labels, NameFrom, EncodeLabels, Segment, ToWrite;
      var start: nat, end: nat := 0, 0;
      ghost var all := udp.sent + EncodeLabels(Labels(hostname), [0]);
      NothingWritten(all, udp.sent, hostname);
      while end < |hostname|
        invariant end <= |hostname| && (start == end + 1 || start == end == 0)
        invariant ToWrite(all, udp.sent, hostname, start)
        decreases |hostname| - end, |hostname| + 1 - start
      {
        end := PartEnd(hostname, start);
        ghost var before := udp.sent;
        WriteSegment(hostname, start, end);
        SegmentWritten(all, before, hostname, start, end);
        start := end + 1;
      }
      AllWritten(all, udp.sent, hostname, start);
      udp.Write([0]);
    }

    // ---------- Walking the response ----------

    /** One turn of the loop over a question name. */
    method ReadNamePart(len: byte) returns (next: byte)
      requires udp.Valid()
      modifies udp`pos
      ensures udp.Valid() && (next, udp.Rest()) == NameTurn(old(udp.Rest()), len)
    {
      next := udp.ReadInto(len);
      if next > 0 {
        udp.Skip(next);
        next := 255;
      }
    }

    /** Reads over a name that ends with the zero octet, as any name must for the loop to end. The length is not set before
        it is first read. */
    method SkipQuestionName()
      requires udp.Valid() && Terminated(udp.Rest())
      modifies udp`pos
      ensures udp.Valid() && udp.Rest() == AfterName(old(udp.Rest()))
    {
      hide NameTurn, Terminated, AfterName;
      var len: byte := *;
      TurnTowardsEnd(udp.Rest(), len);
      len := ReadNamePart(len);
      while len != 0
        invariant udp.Valid() && (len != 0 ==> Terminated(udp.Rest()))
        invariant AfterName(old(udp.Rest())) == if len != 0 then AfterName(udp.Rest()) else udp.Rest()
        decreases |udp.Rest()|, len
      {
        TurnTowardsEnd(udp.Rest(), len);
        len := ReadNamePart(len);
      }
    }

    /** Reads over a name that ends with the zero octet or with a pointer. */
    method SkipAnswerName(ghost labels: seq<Label>, ghost end: End, ghost tail: seq<byte>)
      requires udp.Valid() && Fits(labels, LONGEST_LABEL) && end.Valid()
      requires udp.Rest() == EncodeLabels(labels, end.Encode()) + tail
      modifies udp`pos
      ensures udp.Valid() && udp.Rest() == tail
    {
      hide Fits, And;
      var len: byte := 255;
      ghost var left := labels;
      while len != 0
        invariant udp.Valid() && Fits(left, LONGEST_LABEL)
        invariant udp.Rest() == if len == 0 then tail else EncodeLabels(left, end.Encode()) + tail
        decreases |left|, len
      {
        if left != [] { LabelHead(left, end.Encode(), tail); }
        var buffer := udp.ReadBytes(1);
        len := buffer[0];
        LabelByte(len);
        if And(len, 0xC0) == 0 {
          if len > 0 {
            udp.Skip(len);
            len := 255;
            left := left[1..];
          }
        } else {
          var _ := udp.Read();
          len := 0;
        }
      }
    }

    /** Reads over the whole question section, for every packet in which each of its names ends. */
    method SkipQuestions(count: nat)
      requires udp.Valid() && QuestionsEnd(udp.Rest(), count)
      modifies udp`pos
      ensures udp.Valid() && udp.Rest() == AfterQuestions(old(udp.Rest()), count)
    {
      hide Terminated, AfterName, Dropped;
      for i := 0 to count
        invariant udp.Valid() && QuestionsEnd(udp.Rest(), count - i)
        invariant AfterQuestions(udp.Rest(), count - i) == AfterQuestions(old(udp.Rest()), count)
      {
        SkipQuestionName();
        udp.Skip(4);
      }
    }

    /** Reads a record up to its data; its type, class and data length, as this machine holds them. */
    method ReadRecordHead(ghost r: Record, ghost tail: seq<byte>) returns (kind: nat, rrClass: nat, length: nat)
      requires udp.Valid() && ValidRecord(r) && udp.Rest() == EncodeRecord(r) + tail
      modifies udp`pos
      ensures udp.Valid() && udp.Rest() == r.rdata + tail
      ensures Word16(kind) && Word16(rrClass) && Word16(length)
      ensures Htons(kind) == r.kind && Htons(rrClass) == r.rrClass && Htons(length) == |r.rdata|
    {
      hide Fits, EncodeLabels;
      RecordLayout(r, tail);
      SkipAnswerName(r.labels, r.end, Be(r.kind) + (Be(r.rrClass) + (r.ttl + (Be(|r.rdata|) + (r.rdata + tail)))));
      kind := udp.ReadWord();
      rrClass := udp.ReadWord();
      udp.Skip(4);
      length := udp.ReadWord();
    }

    /** The first address among the answers. A record's data is skipped up to the next record's first byte. */
    method FindAddress(answerCount: nat, address: seq<byte>, ghost rs: seq<Record>, ghost tail: seq<byte>)
      returns (status: nat, ip: seq<byte>)
      requires udp.Valid() && |rs| <= answerCount && (forall r :: r in rs ==> ValidRecord(r))
      requires |rs| < answerCount ==> FirstAddress(rs, 0) < |rs|
      requires udp.Rest() == EncodeRecords(rs, 0) + tail
      modifies udp`pos
      ensures udp.Valid() && Reports(status, ip, AddressIn(rs), address) && (status == 1 <==> AddressIn(rs).Address?)
      ensures udp.Rest() == if AddressIn(rs).Address? then EncodeRecords(rs, FirstAddress(rs, 0) + 1) + tail else []
    {
      hide EncodeRecord, ValidRecord;
      ip := address;
      for i := 0 to answerCount
        invariant i <= |rs| && FirstAddress(rs, 0) == FirstAddress(rs, i)
        invariant udp.Valid() && udp.Rest() == EncodeRecords(rs, i) + tail && ip == address
      {
        ghost var r := rs[i];
        ghost var next := EncodeRecords(rs, i + 1) + tail;
        Regroup(EncodeRecord(r), EncodeRecords(rs, i + 1), tail);
        var kind, rrClass, length := ReadRecordHead(r, next);
        if Htons(kind) == TYPE_A && Htons(rrClass) == CLASS_IN {
          if Htons(length) != 4 {
            udp.Flush();
            return Word(-9), ip;
          }
          ip := udp.ReadBytes(4);
          return SUCCESS, ip;
        } else {
          udp.Skip(Htons(length));
        }
      }
      udp.Flush();
      return Word(-10), ip;
    }

    /** What comes after the header. */
    method ReadBody(questionCount: nat, answerCount: nat, address: seq<byte>, ghost m: Message)
      returns (status: nat, ip: seq<byte>)
      requires udp.Valid() && ValidMessage(m) && questionCount == |m.questions| && answerCount == m.answerCount
      requires udp.Rest() == EncodeQuestions(m.questions, 0) + (EncodeRecords(m.answers, 0) + m.rest)
      modifies udp`pos
      ensures udp.Valid() && Reports(status, ip, Answer(m), address) && (status == 1 <==> Answer(m).Address?)
      ensures udp.Rest() ==
              if Answer(m).Address? then EncodeRecords(m.answers, FirstAddress(m.answers, 0) + 1) + m.rest else []
    {
      AddressAmong(m.answers);
      hide ValidQuestion, ValidRecord, EncodeQuestions, EncodeRecords, QuestionsEnd, AfterQuestions, FirstAddress,
           IsAddress, Reports;
      EncodedQuestionsEnd(m.questions, 0, EncodeRecords(m.answers, 0) + m.rest);
      SkipQuestions(questionCount);
      status, ip := FindAddress(answerCount, address, m.answers, m.rest);
    }

    /** Waits for the response and looks for an address in it. A packet that passes the header checks is taken to be
        a well-formed message m. */
    method ProcessResponse(reply: Reply, address: seq<byte>, ghost m: Message) returns (status: nat, ip: seq<byte>)
      requires udp.Valid() && Word16(requestId)
      requires Accepted(reply, resolver, requestId) ==> ValidMessage(m) && reply.bytes == Encode(m)
      modifies udp
      ensures udp.Valid() && udp.sent == old(udp.sent)
      ensures Reports(status, ip, Verdict(reply, resolver, requestId, m), address)
      ensures reply.Nothing? || reply.bytes == [] ==> udp.Rest() == old(udp.Rest())
      ensures reply.Packet? && reply.bytes != [] && (reply.ip != resolver || reply.port != 53 || |reply.bytes| < 12) ==>
                udp.Rest() == reply.bytes
      ensures reply.Packet? && reply.ip == resolver && reply.port == 53 && |reply.bytes| >= 12 && status != 1 ==>
                udp.Rest() == []
      ensures status == 1 ==> udp.Rest() == EncodeRecords(m.answers, FirstAddress(m.answers, 0) + 1) + m.rest
    {
      hide And, Bit, ValidMessage, Encode, EncodeQuestions, EncodeRecords, Answer;
      ip := address;
      var arrived := udp.ParsePacket(reply);
      if !arrived {
        return Word(TIMED_OUT), ip;
      }
      if resolver != udp.remoteIp || udp.remotePort != DNS_PORT {
        return Word(INVALID_SERVER), ip;
      }
      if |udp.received| - udp.pos < HEADER_SIZE {
        return Word(TRUNCATED), ip;
      }
      var header := udp.ReadBytes(HEADER_SIZE);
      var flags := BeOf(header[2], header[3]);
      FlagTests(flags);
      if requestId != BeOf(header[0], header[1]) || And(flags, 0x8000) != 0x8000 {
        udp.Flush();
        return Word(INVALID_RESPONSE), ip;
      }
      if And(flags, 0x200) != 0 || And(flags, 15) != 0 {
        udp.Flush();
        return Word(-5), ip;
      }
      var answerCount := BeOf(header[6], header[7]);
      if answerCount == 0 {
        udp.Flush();
        return Word(-6), ip;
      }
      HeaderFields(m);
      status, ip := ReadBody(BeOf(header[4], header[5]), answerCount, address, m);
    }

    /** Asks the resolver for the address of a host. */
    method Get(hostname: seq<byte>, address: seq<byte>, millis: nat, reply: Reply, ghost m: Message)
      returns (status: nat, ip: seq<byte>)
      requires udp.Valid() && 0 !in hostname
      requires Accepted(reply, resolver, millis % 0x1_0000) ==> ValidMessage(m) && reply.bytes == Encode(m)
      modifies this, udp
      ensures udp.Valid() && udp.sent == Request(hostname, millis % 0x1_0000)
      ensures Reports(status, ip, Verdict(reply, resolver, millis % 0x1_0000, m), address)
    {
      udp.BeginPacket();
      var _ := BuildRequest(hostname, millis);
      status, ip := ProcessResponse(reply, address, m);
    }
  }

  /** A response that echoes the request is answered with the first address record's data, whatever the other records
      are and however their names end; the request was understood as asking for that host. */
  lemma EchoIsAnswered(host: seq<byte>, id: nat, resolver: seq<byte>, m: Message)
    requires Word16(id) && Fits(Labels(host), LONGEST_LABEL) && ValidMessage(m) && Echoes(m, host, id)
    ensures var reply := Packet(resolver, DNS_PORT, Encode(m));
            Accepted(reply, resolver, id) && Verdict(reply, resolver, id, m) == Answer(m)
    ensures forall k :: 0 <= k < |m.answers| && IsAddress(m.answers[k]) && |m.answers[k].rdata| == 4
                        && (forall j :: 0 <= j < k ==> !IsAddress(m.answers[j]))
                        ==> Answer(m) == Address(m.answers[k].rdata)
    ensures Answer(m) == Failure(-10) <==> forall r :: r in m.answers ==> !IsAddress(r)
    ensures Request(host, id)[HEADER_SIZE..] == EncodeQuestions(m.questions, 0)
  {
    EchoPassesHeader(m, host, id);
  }

  // ---------- Names that run off the end of the packet ----------

  /** n turns of the loop over a question name, or fewer if it ends. */
  function NameLoop(s: seq<byte>, len: byte, n: nat): (byte, seq<byte>)
    decreases n
  {
    if n == 0 then (len, s)
    else
      var (next, rest) := NameTurn(s, len);
      if next == 0 then (0, rest) else NameLoop(rest, next, n - 1)
  }

  lemma {:induction false} UnterminatedGoesOn(s: seq<byte>, len: byte, n: nat)
    requires len != 0 && !Terminated(s)
    ensures NameLoop(s, len, n).0 != 0
    decreases n
  {
    if n == 0 {
    } else {
      var (next, rest) := NameTurn(s, len);
      assert s != [] && s[0] < |s| ==> rest == s[1 + s[0]..];
      UnterminatedGoesOn(rest, 255, n - 1);
    }
  }

  lemma {:induction false} TerminatedStops(s: seq<byte>, len: byte) returns (n: nat)
    requires len != 0 && Terminated(s)
    ensures NameLoop(s, len, n) == (0, AfterName(s))
    decreases |s|
  {
    TurnTowardsEnd(s, len);
    if s[0] == 0 {
      n := 1;
    } else {
      n := TerminatedStops(NameTurn(s, len).1, 255);
      n := n + 1;
    }
  }

  /** The loop ever ends exactly when the name does: a packet cut inside a question name is read for ever. */
  lemma NameLoopEndsExactlyWhen(s: seq<byte>, len: byte)
    requires len != 0
    ensures (exists n: nat :: NameLoop(s, len, n).0 == 0) <==> Terminated(s)
  {
    if Terminated(s) {
      var n := TerminatedStops(s, len);
      assert NameLoop(s, len, n).0 == 0;
    } else {
      forall n: nat ensures NameLoop(s, len, n).0 != 0 { UnterminatedGoesOn(s, len, n); }
    }
  }

  /** n turns of the loops over a question section, or fewer if they end: how many questions are left, and what is left
      of the packet. The length of each new name starts as whatever an unset variable holds. */
  function SectionLoop(s: seq<byte>, count: nat, len: byte, unset: byte, n: nat): (nat, seq<byte>)
    decreases n
  {
    if n == 0 || count == 0 then (count, s)
    else
      var (next, rest) := NameTurn(s, len);
      if next == 0 then SectionLoop(Dropped(rest, 4), count - 1, unset, unset, n - 1)
      else SectionLoop(rest, count, next, unset, n - 1)
  }

  lemma {:induction false} SectionGoesOn(s: seq<byte>, count: nat, len: byte, unset: byte, n: nat)
    requires unset != 0 && len != 0 && !QuestionsEnd(s, count)
    ensures SectionLoop(s, count, len, unset, n).0 != 0
    decreases n
  {
    if n == 0 || count == 0 {
    } else {
      var (next, rest) := NameTurn(s, len);
      if Terminated(s) {
        TurnTowardsEnd(s, len);
      } else {
        assert s != [] && s[0] < |s| ==> rest == s[1 + s[0]..];
      }
      if next == 0 {
        SectionGoesOn(Dropped(rest, 4), count - 1, unset, unset, n - 1);
      } else {
        SectionGoesOn(rest, count, next, unset, n - 1);
      }
    }
  }

  lemma {:induction false} SectionStops(s: seq<byte>, count: nat, len: byte, unset: byte) returns (n: nat)
    requires QuestionsEnd(s, count)
    ensures SectionLoop(s, count, len, unset, n) == (0, AfterQuestions(s, count))
    decreases count, |s|
  {
    if count == 0 {
      n := 0;
    } else {
      TurnTowardsEnd(s, len);
      var (next, rest) := NameTurn(s, len);
      if next == 0 {
        n := SectionStops(Dropped(rest, 4), count - 1, unset, unset);
      } else {
        n := SectionStops(rest, count, next, unset);
      }
      n := n + 1;
    }
  }

  /** A packet whose header passes is read past its questions exactly when each of their names ends inside it. */
  lemma QuestionsReadExactlyWhen(packet: seq<byte>, id: nat, unset: byte)
    requires |packet| >= HEADER_SIZE && HeaderVerdict(packet, id) == 0 && unset != 0
    ensures var s, count := packet[HEADER_SIZE..], BeOf(packet[4], packet[5]);
            (exists n: nat :: SectionLoop(s, count, unset, unset, n).0 == 0) <==> QuestionsEnd(s, count)
  {
    var s, count := packet[HEADER_SIZE..], BeOf(packet[4], packet[5]);
    if QuestionsEnd(s, count) {
      var n := SectionStops(s, count, unset, unset);
      assert SectionLoop(s, count, unset, unset, n).0 == 0;
    } else {
      forall n: nat ensures SectionLoop(s, count, unset, unset, n).0 != 0 { SectionGoesOn(s, count, unset, unset, n); }
    }
  }

  /** A response of one question and one answer, cut inside the first label of the question. */
  function CutPacket(id: nat): seq<byte>
    requires Word16(id)
  {
    Be(id) + Be(0x8000) + Be(1) + Be(1) + Be(0) + Be(0) + [5, 0x61]
  }

  /** It passes the header checks, and the loop over its question never ends. */
  lemma CutPacketIsReadForEver(id: nat, unset: byte, n: nat)
    requires Word16(id) && unset != 0
    ensures |CutPacket(id)| > HEADER_SIZE && HeaderVerdict(CutPacket(id), id) == 0
    ensures BeOf(CutPacket(id)[4], CutPacket(id)[5]) == 1 && !QuestionsEnd(CutPacket(id)[HEADER_SIZE..], 1)
    ensures SectionLoop(CutPacket(id)[HEADER_SIZE..], 1, unset, unset, n).0 != 0
  {
    BeRoundTrip(id);
    BeRoundTrip(0x8000);
    PowersOfTwo();
    OneHot(15, 15);
    OneHot(15, 9);
    assert CutPacket(id)[HEADER_SIZE..] == [5, 0x61];
    SectionGoesOn([5, 0x61], 1, unset, unset, n);
  }
}
