/**
 DNS messages as bytes: names as length-prefixed labels, questions and resource records (sections 4.1.2 to 4.1.4 of RFC 1035).
 */
module DnsMessage {
  import opened Bits

  const DOT: byte := 0x2E
  const TYPE_A := 1
  const CLASS_IN := 1
  const HEADER_SIZE := 12
  const LONGEST_LABEL := 63

  type Label = seq<byte>

  /** A 16-bit word, most significant byte first. */
  function Be(x: nat): (s: seq<byte>)
    requires x < 0x1_0000
    ensures |s| == 2
  {
    [x / 256, x % 256]
  }

  function BeOf(hi: byte, lo: byte): nat {
    256 * (hi as nat) + lo as nat
  }

  lemma BeRoundTrip(x: nat)
    requires x < 0x1_0000
    ensures BeOf(Be(x)[0], Be(x)[1]) == x
  {
  }

  // ---------- Host names ----------

  /** How many bytes come before the first dot. */
  function LabelEnd(host: seq<byte>): (k: nat)
    ensures k <= |host| && DOT !in host[..k] && (k < |host| ==> host[k] == DOT)
  {
    if host == [] || host[0] == DOT then 0 else 1 + LabelEnd(host[1..])
  }

  /** The host name split at the dots, without the empty parts. */
  function Labels(host: seq<byte>): (labels: seq<Label>)
    ensures forall l :: l in labels ==> l != [] && DOT !in l
    decreases |host|
  {
    if host == [] then []
    else if host[0] == DOT then Labels(host[1..])
    else [host[..LabelEnd(host)]] + Labels(host[LabelEnd(host)..])
  }

  function Join(labels: seq<Label>): seq<byte> {
    if labels == [] then []
    else if |labels| == 1 then labels[0]
    else labels[0] + [DOT] + Join(labels[1..])
  }

  /** The parts that are not empty, in their order. */
  function NonEmpty(parts: seq<Label>): seq<Label> {
    if parts == [] then [] else (if parts[0] == [] then [] else [parts[0]]) + NonEmpty(parts[1..])
  }

  lemma {:induction false} LabelEndOf(l: Label, rest: seq<byte>)
    requires DOT !in l && (rest == [] || rest[0] == DOT)
    ensures LabelEnd(l + rest) == |l|
    decreases |l|
  {
    if l == [] {
    } else {
      assert (l + rest)[1..] == l[1..] + rest;
      LabelEndOf(l[1..], rest);
    }
  }

  /** Splitting a dotted name gives back the parts it was joined from, without the empty ones. */
  lemma {:induction false} LabelsOfJoin(parts: seq<Label>)
    requires forall l :: l in parts ==> 0x2E !in l
    ensures Labels(Join(parts)) == NonEmpty(parts)
    decreases |parts|
  {
    if parts == [] {
    } else {
      assert parts[0] in parts;
      var rest := if |parts| == 1 then [] else [DOT] + Join(parts[1..]);
      assert Join(parts) == parts[0] + rest;
      LabelsOfJoin(parts[1..]);
      if |parts| > 1 {
        assert ([DOT] + Join(parts[1..]))[1..] == Join(parts[1..]);
        assert Labels(rest) == Labels(Join(parts[1..]));
      } else {
        assert NonEmpty(parts[1..]) == [];
      }
      FirstPart(parts[0], rest);
    }
  }

  lemma FirstPart(l: Label, rest: seq<byte>)
    requires DOT !in l && (rest == [] || rest[0] == DOT)
    ensures Labels(l + rest) == (if l == [] then [] else [l]) + Labels(rest)
  {
    LabelEndOf(l, rest);
    assert (l + rest)[..|l|] == l && (l + rest)[|l|..] == rest;
    if l == [] { assert l + rest == rest; } else { assert (l + rest)[0] == l[0]; }
  }

  // ---------- Names on the wire ----------

  /** Labels, each behind its length, and what ends the name. */
  function EncodeLabels(labels: seq<Label>, end: seq<byte>): seq<byte> {
    if labels == [] then end else [|labels[0]| % 256] + labels[0] + EncodeLabels(labels[1..], end)
  }

  /** Reads labels of 1 to 63 bytes up to the zero octet (section 3.1 of RFC 1035): the labels, and what follows the name. */
  function DecodeLabels(s: seq<byte>): (decoded: (seq<Label>, seq<byte>))
    ensures Fits(decoded.0, LONGEST_LABEL)
    decreases |s|
  {
    if s == [] || s[0] == 0 || s[0] > LONGEST_LABEL || |s| <= s[0] then ([], if s == [] then [] else s[1..])
    else
      var (labels, rest) := DecodeLabels(s[1 + s[0]..]);
      ([s[1..1 + s[0]]] + labels, rest)
  }

  predicate Fits(labels: seq<Label>, max: nat) {
    forall l :: l in labels ==> 0 < |l| <= max
  }

  lemma EncodeCons(l: Label, labels: seq<Label>, end: seq<byte>)
    ensures EncodeLabels([l] + labels, end) == [|l| % 256] + l + EncodeLabels(labels, end)
  {
    assert ([l] + labels)[1..] == labels;
  }

  lemma NameHead(labels: seq<Label>, end: seq<byte>, tail: seq<byte>)
    requires labels != [] && Fits(labels, 255)
    ensures EncodeLabels(labels, end) + tail == [|labels[0]|] + (labels[0] + (EncodeLabels(labels[1..], end) + tail))
    ensures Fits(labels[1..], 255) && 0 < |labels[0]| <= 255
  {
    hide EncodeLabels;
    assert labels[0] in labels;
    EncodeCons(labels[0], labels[1..], end);
    assert [labels[0]] + labels[1..] == labels;
    Regroup([|labels[0]|] + labels[0], EncodeLabels(labels[1..], end), tail);
    Regroup([|labels[0]|], labels[0], EncodeLabels(labels[1..], end) + tail);
  }

  lemma {:induction false} NameRoundTrip(labels: seq<Label>, rest: seq<byte>)
    requires Fits(labels, LONGEST_LABEL)
    ensures DecodeLabels(EncodeLabels(labels, [0]) + rest) == (labels, rest)
    decreases |labels|
  {
    if labels == [] {
      assert ([0] + rest)[1..] == rest;
    } else {
      var l, tail := labels[0], EncodeLabels(labels[1..], [0]) + rest;
      NameHead(labels, [0], rest);
      var s := [|l|] + (l + tail);
      assert l in labels;
      assert s[1 + |l|..] == tail && s[1..1 + |l|] == l;
      NameRoundTrip(labels[1..], rest);
      assert [l] + labels[1..] == labels;
    }
  }

  /** The name a request asks for is the host's exactly when no part of the host name is longer than a label may be. */
  lemma HostReadBackExactlyWhen(host: seq<byte>, rest: seq<byte>)
    ensures DecodeLabels(EncodeLabels(Labels(host), [0]) + rest) == (Labels(host), rest)
            <==> forall l :: l in Labels(host) ==> |l| <= LONGEST_LABEL
  {
    if Fits(Labels(host), LONGEST_LABEL) { NameRoundTrip(Labels(host), rest); }
  }

  /** A host name of a single part of n bytes. */
  function LongHost(n: nat): (host: seq<byte>)
    ensures |host| == n && forall c :: c in host ==> c == 0x61
  {
    if n == 0 then [] else [0x61] + LongHost(n - 1)
  }

  /** For example, a part of 64 bytes is written but read back by nobody. */
  lemma LongLabelFails(rest: seq<byte>)
    ensures Labels(LongHost(64)) == [LongHost(64)]
    ensures DecodeLabels(EncodeLabels(Labels(LongHost(64)), [0]) + rest) != (Labels(LongHost(64)), rest)
  {
    hide LongHost, EncodeLabels, DecodeLabels;
    var host := LongHost(64);
    assert Join([host]) == host;
    LabelsOfJoin([host]);
    assert NonEmpty([host]) == [host] + NonEmpty([]) == [host];
    HostReadBackExactlyWhen(host, rest);
    assert host in Labels(host) && |host| > LONGEST_LABEL;
  }

  // ---------- Messages ----------

  /** The end of a name in an answer: the root, or a pointer, whose first byte has a high bit set. */
  datatype End = Root | Pointer(hi: byte, lo: byte) {
    predicate Valid() {
      Pointer? ==> hi >= 64
    }
    function Encode(): seq<byte> {
      if Root? then [0] else [hi, lo]
    }
  }

  datatype Question = Question(labels: seq<Label>, kind: nat, rrClass: nat)
  datatype Record = Record(labels: seq<Label>, end: End, kind: nat, rrClass: nat, ttl: seq<byte>, rdata: seq<byte>)
  /** The answers are those up to the end or, when an address is among them, at least up to it: the announced count
      may be higher, and what follows is then any bytes. */
  datatype Message = Message(id: nat, flags: nat, questions: seq<Question>, answerCount: nat, answers: seq<Record>,
                             authorities: nat, additionals: nat, rest: seq<byte>)

  predicate Word16(x: nat) {
    x < 0x1_0000
  }

  predicate ValidQuestion(q: Question) {
    Fits(q.labels, 255) && Word16(q.kind) && Word16(q.rrClass)
  }

  predicate ValidRecord(r: Record) {
    Fits(r.labels, 63) && r.end.Valid() && Word16(r.kind) && Word16(r.rrClass) && |r.ttl| == 4 && Word16(|r.rdata|)
  }

  predicate ValidMessage(m: Message) {
    && Word16(m.id) && Word16(m.flags) && Word16(|m.questions|) && Word16(m.answerCount)
    && Word16(m.authorities) && Word16(m.additionals)
    && (forall q :: q in m.questions ==> ValidQuestion(q))
    && (forall r :: r in m.answers ==> ValidRecord(r))
    && |m.answers| <= m.answerCount && (|m.answers| < m.answerCount ==> exists r :: r in m.answers && IsAddress(r))
  }

  function EncodeQuestion(q: Question): seq<byte>
    requires ValidQuestion(q)
  {
    EncodeLabels(q.labels, [0]) + Be(q.kind) + Be(q.rrClass)
  }

  function EncodeRecord(r: Record): seq<byte>
    requires ValidRecord(r)
  {
    EncodeLabels(r.labels, r.end.Encode()) + Be(r.kind) + Be(r.rrClass) + r.ttl + Be(|r.rdata|) + r.rdata
  }

  function EncodeQuestions(qs: seq<Question>, i: nat): seq<byte>
    requires i <= |qs| && forall q :: q in qs ==> ValidQuestion(q)
    decreases |qs| - i
  {
    if i == |qs| then [] else EncodeQuestion(qs[i]) + EncodeQuestions(qs, i + 1)
  }

  function EncodeRecords(rs: seq<Record>, i: nat): seq<byte>
    requires i <= |rs| && forall r :: r in rs ==> ValidRecord(r)
    decreases |rs| - i
  {
    if i == |rs| then [] else EncodeRecord(rs[i]) + EncodeRecords(rs, i + 1)
  }

  function EncodeHeader(m: Message): (s: seq<byte>)
    requires ValidMessage(m)
    ensures |s| == HEADER_SIZE
  {
    Be(m.id) + Be(m.flags) + Be(|m.questions|) + Be(m.answerCount) + Be(m.authorities) + Be(m.additionals)
  }

  function Encode(m: Message): seq<byte>
    requires ValidMessage(m)
  {
    EncodeHeader(m) + (EncodeQuestions(m.questions, 0) + (EncodeRecords(m.answers, 0) + m.rest))
  }

  /** What the request for a host name asks. */
  function Asking(host: seq<byte>): Question {
    Question(Labels(host), TYPE_A, CLASS_IN)
  }

  // ---------- What a resolver must make of a response ----------

  datatype Outcome = Address(ip: seq<byte>) | Failure(code: int)

  predicate IsAddress(r: Record) {
    r.kind == TYPE_A && r.rrClass == CLASS_IN
  }

  /** The first address record at or after i; the number of records if there is none. */
  function FirstAddress(rs: seq<Record>, i: nat): (k: nat)
    requires i <= |rs|
    ensures i <= k <= |rs|
    ensures k < |rs| ==> IsAddress(rs[k])
    ensures forall j :: i <= j < k ==> !IsAddress(rs[j])
    decreases |rs| - i
  {
    if i == |rs| || IsAddress(rs[i]) then i else FirstAddress(rs, i + 1)
  }

  /** The verdict on the header alone, for any packet long enough to have one: id, response bit, truncation bit and
      response code, and the number of answers. */
  function HeaderVerdict(packet: seq<byte>, requestId: nat): int
    requires |packet| >= HEADER_SIZE
  {
    var flags := BeOf(packet[2], packet[3]);
    if requestId != BeOf(packet[0], packet[1]) || !Bit(flags, 15) then -4
    else if Bit(flags, 9) || flags % 16 != 0 then -5
    else if BeOf(packet[6], packet[7]) == 0 then -6
    else 0
  }

  function AddressIn(rs: seq<Record>): Outcome {
    var k := FirstAddress(rs, 0);
    if k == |rs| then Failure(-10)
    else if |rs[k].rdata| != 4 then Failure(-9)
    else Address(rs[k].rdata)
  }

  function Answer(m: Message): Outcome {
    AddressIn(m.answers)
  }
}
