/**
  Messages on a byte stream: the send queue that cuts them into whatever pieces the socket takes,
  and the receiver that puts them together again from whatever pieces arrive.
 */
module NetFraming {

  type Byte = x: int | 0 <= x < 256

  const HEADER_SIZE: nat := 24
  const MAX_SIZE: nat := 0x0200_0000
  const MAX_PROTOCOL_MESSAGE_LENGTH: nat := 32 * 1024 * 1024
  const ALLOCATE_AHEAD: nat := 256 * 1024

  // ----- Headers -----

  /** Little-endian 32-bit numbers. */
  function PutLE32(n: nat): (b: seq<Byte>)
    requires n < 0x1_0000_0000
    ensures |b| == 4
  {
    [n % 256, n / 256 % 256, n / 65536 % 256, n / 16777216]
  }

  function GetLE32(b: seq<Byte>): (n: nat)
    requires |b| == 4
    ensures n < 0x1_0000_0000
  {
    b[0] + 256 * (b[1] as int) + 65536 * (b[2] as int) + 16777216 * (b[3] as int)
  }

  lemma LE32RoundTrip(n: nat)
    requires n < 0x1_0000_0000
    ensures GetLE32(PutLE32(n)) == n
  {
    assert n / 65536 == n / 256 / 256 && n / 16777216 == n / 256 / 256 / 256;
  }

  /** A command as the twelve bytes of a header, and back. */
  function PadCommand(c: seq<Byte>): (p: seq<Byte>)
    ensures |p| == 12
  {
    if |c| >= 12 then c[..12] else c + seq(12 - |c|, _ => 0)
  }

  function GetCommand(p: seq<Byte>): seq<Byte>
  {
    if p == [] || p[0] == 0 then [] else [p[0]] + GetCommand(p[1..])
  }

  /** A command reads back exactly if it fits in twelve bytes and has no zero. */
  lemma CommandRoundTrip(c: seq<Byte>)
    ensures GetCommand(PadCommand(c)) == c <==> |c| <= 12 && 0 !in c
  {
    CommandBounds(PadCommand(c));
    if |c| <= 12 && 0 !in c {
      CommandPrefix(c, seq(12 - |c|, _ => 0));
      assert |c| == 12 ==> c[..12] == c == c + seq(12 - |c|, _ => 0);
    }
  }

  lemma {:induction false} CommandBounds(p: seq<Byte>)
    ensures |GetCommand(p)| <= |p| && 0 !in GetCommand(p)
  {
    if p != [] && p[0] != 0 { CommandBounds(p[1..]); }
  }

  lemma {:induction false} CommandPrefix(c: seq<Byte>, zeros: seq<Byte>)
    requires 0 !in c && forall i :: 0 <= i < |zeros| ==> zeros[i] == 0
    ensures GetCommand(c + zeros) == c
  {
    if c != [] {
      assert (c + zeros)[1..] == c[1..] + zeros;
      assert c == [c[0]] + c[1..];
      CommandPrefix(c[1..], zeros);
    }
  }

  datatype Msg = Msg(command: seq<Byte>, data: seq<Byte>)

  /** What both ends of a connection share: the start characters and the hash function. */
  datatype Net = Net(messageStart: seq<Byte>, hash: seq<Byte> -> seq<Byte>)

  ghost predicate NetOk(net: Net)
  {
    |net.messageStart| == 4 && forall d :: |net.hash(d)| >= 4
  }

  function HeaderOf(net: Net, m: Msg): (b: seq<Byte>)
    requires |net.messageStart| == 4 && |net.hash(m.data)| >= 4 && |m.data| < 0x1_0000_0000
    ensures |b| == HEADER_SIZE
  {
    net.messageStart + PadCommand(m.command) + PutLE32(|m.data|) + net.hash(m.data)[..4]
  }

  /** A message as it is received: its header and its data. */
  datatype Received = Received(header: seq<Byte>, data: seq<Byte>)

  function SizeIn(header: seq<Byte>): nat
    requires |header| == HEADER_SIZE
  {
    GetLE32(header[16..20])
  }

  lemma HeaderSize(net: Net, m: Msg)
    requires |net.messageStart| == 4 && |net.hash(m.data)| >= 4 && |m.data| < 0x1_0000_0000
    ensures SizeIn(HeaderOf(net, m)) == |m.data|
    ensures HeaderOf(net, m)[..4] == net.messageStart && HeaderOf(net, m)[4..16] == PadCommand(m.command)
    ensures HeaderOf(net, m)[20..] == net.hash(m.data)[..4]
  {
    assert HeaderOf(net, m)[16..20] == PutLE32(|m.data|);
    LE32RoundTrip(|m.data|);
  }

  // ----- The stream -----

  ghost predicate Sendable(m: Msg) { |m.data| <= MAX_PROTOCOL_MESSAGE_LENGTH }

  ghost predicate AllSendable(ms: seq<Msg>)
  {
    forall i :: 0 <= i < |ms| ==> Sendable(ms[i])
  }

  /** Messages one after the other on the wire. */
  ghost function Stream(net: Net, ms: seq<Msg>): seq<Byte>
    requires NetOk(net) && forall i :: 0 <= i < |ms| ==> |ms[i].data| < 0x1_0000_0000
  {
    if ms == [] then [] else HeaderOf(net, ms[0]) + ms[0].data + Stream(net, ms[1..])
  }

  lemma {:induction false} StreamAppend(net: Net, ms: seq<Msg>, m: Msg)
    requires NetOk(net) && (forall i :: 0 <= i < |ms| ==> |ms[i].data| < 0x1_0000_0000) && |m.data| < 0x1_0000_0000
    ensures Stream(net, ms + [m]) == Stream(net, ms) + HeaderOf(net, m) + m.data
  {
    if ms != [] {
      StreamAppend(net, ms[1..], m);
      assert (ms + [m])[1..] == ms[1..] + [m];
    } else {
      assert ([m])[1..] == [];
      assert Stream(net, [m]) == HeaderOf(net, m) + m.data + [];
    }
  }

  // ----- What a receiver makes of a stream -----

  datatype Parsed = Bad | Good(done: seq<Received>, rest: seq<Byte>)

  function Parse(b: seq<Byte>): Parsed
    decreases |b|
  {
    if |b| < HEADER_SIZE then Good([], b)
    else
      var size := SizeIn(b[..HEADER_SIZE]);
      if size > MAX_PROTOCOL_MESSAGE_LENGTH then Bad
      else if |b| < HEADER_SIZE + size then Good([], b)
      else match Parse(b[HEADER_SIZE + size..])
        case Bad => Bad
        case Good(done, rest) => Good([Received(b[..HEADER_SIZE], b[HEADER_SIZE..HEADER_SIZE + size])] + done, rest)
  }

  /** Prepending messages that are already complete. */
  function After(done: seq<Received>, p: Parsed): Parsed
  {
    match p
    case Bad => Bad
    case Good(d, rest) => Good(done + d, rest)
  }

  /** Parsing can go on where it stopped. */
  lemma {:induction false} ParseOn(a: seq<Byte>, c: seq<Byte>)
    requires Parse(a).Good?
    ensures Parse(a + c) == After(Parse(a).done, Parse(Parse(a).rest + c))
    decreases |a|
  {
    var size := if |a| < HEADER_SIZE then 0 else SizeIn(a[..HEADER_SIZE]);
    if |a| < HEADER_SIZE || |a| < HEADER_SIZE + size {
      AfterNone(Parse(a + c));
    } else {
      var n := HEADER_SIZE + size;
      ParseOn(a[n..], c);
      assert (a + c)[..HEADER_SIZE] == a[..HEADER_SIZE] && (a + c)[HEADER_SIZE..n] == a[HEADER_SIZE..n];
      assert (a + c)[n..] == a[n..] + c;
      AfterAfter([Received(a[..HEADER_SIZE], a[HEADER_SIZE..n])], Parse(a[n..]).done, Parse(Parse(a[n..]).rest + c));
    }
  }

  lemma AfterNone(p: Parsed)
    ensures After([], p) == p
  {
  }

  lemma AfterAfter(d: seq<Received>, e: seq<Received>, p: Parsed)
    ensures After(d, After(e, p)) == After(d + e, p)
  {
    if p.Good? { assert d + (e + p.done) == d + e + p.done; }
  }

  ghost function Expected(net: Net, ms: seq<Msg>): (r: seq<Received>)
    requires NetOk(net) && AllSendable(ms)
    ensures |r| == |ms|
  {
    if ms == [] then [] else [Received(HeaderOf(net, ms[0]), ms[0].data)] + Expected(net, ms[1..])
  }

  /** The beginning of a stream. */
  lemma StreamHead(net: Net, ms: seq<Msg>, r: seq<Byte>, n: nat)
    requires NetOk(net) && AllSendable(ms) && ms != [] && r <= Stream(net, ms) && n == HEADER_SIZE + |ms[0].data|
    ensures |r| >= HEADER_SIZE ==> r[..HEADER_SIZE] == HeaderOf(net, ms[0])
    ensures |r| >= n ==> r[HEADER_SIZE..n] == ms[0].data && r[n..] <= Stream(net, ms[1..])
    ensures |r| >= n && r == Stream(net, ms) ==> r[n..] == Stream(net, ms[1..])
    ensures r == Stream(net, ms) ==> |r| >= n
  {
    var s := Stream(net, ms);
    assert s[..HEADER_SIZE] == HeaderOf(net, ms[0]) && s[HEADER_SIZE..n] == ms[0].data;
    assert s[n..] == Stream(net, ms[1..]);
    assert r == s[..|r|];
  }

  /** A complete message and what follows. */
  lemma ParseHead(b: seq<Byte>, size: nat)
    requires |b| >= HEADER_SIZE + size && size == SizeIn(b[..HEADER_SIZE]) <= MAX_PROTOCOL_MESSAGE_LENGTH
    ensures Parse(b) ==
      After([Received(b[..HEADER_SIZE], b[HEADER_SIZE..HEADER_SIZE + size])], Parse(b[HEADER_SIZE + size..]))
  {
  }

  /**
    Of any prefix of the stream the receiver makes exactly the messages that lie in it completely,
    in order and byte for byte; what is left is the beginning of the next one.
   */
  lemma {:induction false} ParseStream(net: Net, ms: seq<Msg>, r: seq<Byte>) returns (k: nat)
    requires NetOk(net) && AllSendable(ms) && r <= Stream(net, ms)
    ensures k <= |ms| && Parse(r).Good? && Parse(r).done == Expected(net, ms)[..k]
    ensures r == Stream(net, ms) ==> k == |ms| && Parse(r).rest == []
    ensures k < |ms| ==> |Parse(r).rest| < HEADER_SIZE + |ms[k].data|
  {
    if ms == [] {
      return 0;
    }
    assert Sendable(ms[0]);
    var n := HEADER_SIZE + |ms[0].data|;
    HeaderSize(net, ms[0]);
    StreamHead(net, ms, r, n);
    if |r| < n {
      return 0;
    }
    var j := ParseStream(net, ms[1..], r[n..]);
    k := j + 1;
    ParseFirst(net, ms, r, n, j);
  }

  /** The first message and what is parsed after it. */
  lemma ParseFirst(net: Net, ms: seq<Msg>, r: seq<Byte>, n: nat, j: nat)
    requires NetOk(net) && AllSendable(ms) && ms != [] && Sendable(ms[0]) && n == HEADER_SIZE + |ms[0].data| <= |r|
    requires r[..HEADER_SIZE] == HeaderOf(net, ms[0]) && r[HEADER_SIZE..n] == ms[0].data
    requires j <= |ms| - 1 && Parse(r[n..]).Good? && Parse(r[n..]).done == Expected(net, ms[1..])[..j]
    ensures Parse(r).Good? && Parse(r).done == Expected(net, ms)[..j + 1] && Parse(r).rest == Parse(r[n..]).rest
  {
    HeaderSize(net, ms[0]);
    ParseHead(r, |ms[0].data|);
    ExpectedHead(net, ms, j);
  }

  lemma ExpectedHead(net: Net, ms: seq<Msg>, j: nat)
    requires NetOk(net) && AllSendable(ms) && ms != [] && Sendable(ms[0]) && j <= |Expected(net, ms[1..])|
    ensures j + 1 <= |Expected(net, ms)|
    ensures Expected(net, ms)[..j + 1] == [Received(HeaderOf(net, ms[0]), ms[0].data)] + Expected(net, ms[1..])[..j]
  {
  }

  // ----- The receiver -----

  /** A message on its way in. `hashed` is what the hasher has been fed. */
  datatype NetMessage = NetMessage(
    inData: bool,
    hdrbuf: seq<Byte>,
    nHdrPos: nat,
    nMessageSize: nat,
    vRecv: seq<Byte>,
    nDataPos: nat,
    hashed: seq<Byte>)

  const EMPTY_MESSAGE: NetMessage := NetMessage(false, seq(HEADER_SIZE, _ => 0), 0, 0xFFFF_FFFF, [], 0, [])

  predicate Complete(m: NetMessage) { m.inData && m.nMessageSize == m.nDataPos }

  ghost predicate MsgOk(m: NetMessage)
  {
    && |m.hdrbuf| == HEADER_SIZE && m.nHdrPos <= HEADER_SIZE
    && m.nDataPos <= |m.vRecv| && m.hashed == m.vRecv[..m.nDataPos]
    && (m.inData ==>
          m.nHdrPos == HEADER_SIZE && m.nMessageSize == SizeIn(m.hdrbuf) <= MAX_SIZE && |m.vRecv| <= m.nMessageSize)
    && (!m.inData ==> m.nHdrPos < HEADER_SIZE && m.nDataPos == 0)
  }

  /** The bytes of a message received so far. */
  ghost function Bytes(m: NetMessage): seq<Byte>
    requires MsgOk(m)
  {
    m.hdrbuf[..m.nHdrPos] + m.vRecv[..m.nDataPos]
  }

  ghost predicate Stands(m: NetMessage, r: Received)
  {
    MsgOk(m) && Complete(m) && r == Received(m.hdrbuf, m.vRecv) && m.hashed == r.data
  }

  function CopyInto(dst: seq<Byte>, pos: nat, src: seq<Byte>): (r: seq<Byte>)
    requires pos + |src| <= |dst|
    ensures |r| == |dst|
  {
    dst[..pos] + src + dst[pos + |src|..]
  }

  /** Take in bytes of the header. The result is -1 exactly for a size above the limit. */
  method ReadHeader(m: NetMessage, pch: seq<Byte>) returns (m': NetMessage, handled: int)
    requires MsgOk(m) && !m.inData && pch != []
    ensures handled == -1 ==> |Bytes(m) + pch| >= HEADER_SIZE && SizeIn((Bytes(m) + pch)[..HEADER_SIZE]) > MAX_SIZE
    ensures handled != -1 ==>
      0 < handled <= |pch| && MsgOk(m') && Bytes(m') == Bytes(m) + pch[..handled] && |Bytes(m')| <= HEADER_SIZE
  {
    var nRemaining := HEADER_SIZE - m.nHdrPos;
    var nCopy := if nRemaining < |pch| then nRemaining else |pch|;
    m' := m.(hdrbuf := CopyInto(m.hdrbuf, m.nHdrPos, pch[..nCopy]), nHdrPos := m.nHdrPos + nCopy);
    assert m'.hdrbuf[..m'.nHdrPos] == m.hdrbuf[..m.nHdrPos] + pch[..nCopy];
    if m'.nHdrPos < HEADER_SIZE {
      return m', nCopy;
    }
    assert Bytes(m) == m.hdrbuf[..m.nHdrPos];
    assert m'.hdrbuf == (Bytes(m) + pch)[..HEADER_SIZE];
    m' := m'.(nMessageSize := SizeIn(m'.hdrbuf));
    if m'.nMessageSize > MAX_SIZE {
      return m', -1;
    }
    m' := m'.(inData := true, vRecv := []);
    handled := nCopy;
  }

  /** Take in bytes of the data. */
  method ReadData(m: NetMessage, pch: seq<Byte>) returns (m': NetMessage, handled: int)
    requires MsgOk(m) && m.inData && !Complete(m) && pch != []
    ensures 0 < handled <= |pch| && MsgOk(m') && m'.inData && m'.hdrbuf == m.hdrbuf
    ensures m'.nDataPos == m.nDataPos + handled
    ensures Bytes(m') == Bytes(m) + pch[..handled]
  {
    var nRemaining := m.nMessageSize - m.nDataPos;
    var nCopy := if nRemaining < |pch| then nRemaining else |pch|;
    var vRecv := m.vRecv;
    if |vRecv| < m.nDataPos + nCopy {
      var ahead := m.nDataPos + nCopy + ALLOCATE_AHEAD;
      vRecv := vRecv + seq((if m.nMessageSize < ahead then m.nMessageSize else ahead) - |vRecv|, _ => 0);
    }
    vRecv := CopyInto(vRecv, m.nDataPos, pch[..nCopy]);
    m' := m.(hashed := m.hashed + pch[..nCopy], vRecv := vRecv, nDataPos := m.nDataPos + nCopy);
    assert m'.vRecv[..m'.nDataPos] == m.vRecv[..m.nDataPos] + pch[..nCopy];
    assert Bytes(m') == Bytes(m) + pch[..nCopy];
    handled := nCopy;
  }

  /** A list of messages represents what has been parsed. */
  ghost predicate Represents(v: seq<NetMessage>, done: seq<Received>, rest: seq<Byte>)
  {
    && |v| == |done| + (if rest == [] then 0 else 1)
    && (forall i :: 0 <= i < |done| ==> Stands(v[i], done[i]))
    && (rest != [] ==> MsgOk(v[|done|]) && !Complete(v[|done|]) && Bytes(v[|done|]) == rest)
  }

  /** Parsing what is at most one message. */
  lemma ParseOne(m: NetMessage)
    requires MsgOk(m) && |Bytes(m)| > 0
    ensures if Complete(m) then Parse(Bytes(m)) == Good([Received(m.hdrbuf, m.vRecv)], [])
            else Parse(Bytes(m)) == Good([], Bytes(m))
  {
    var b := Bytes(m);
    if m.inData {
      assert b[..HEADER_SIZE] == m.hdrbuf && b[HEADER_SIZE..] == m.vRecv[..m.nDataPos];
      if Complete(m) {
        assert b[HEADER_SIZE + m.nMessageSize..] == [];
        assert m.vRecv[..m.nDataPos] == m.vRecv && b[HEADER_SIZE..HEADER_SIZE + m.nMessageSize] == m.vRecv;
        ParseHead(b, m.nMessageSize);
      }
    }
  }

  /** The list after the message at its end has taken in more bytes. */
  lemma RepresentsNext(v: seq<NetMessage>, done: seq<Received>, rest: seq<Byte>, m: NetMessage, chunk: seq<Byte>)
    requires Represents(v, done, rest) && MsgOk(m) && Bytes(m) == rest + chunk && chunk != []
    ensures var p := After(done, Parse(rest + chunk));
      p.Good? && Represents(v[..|done|] + [m], p.done, p.rest) && |p.done| == |done| + if Complete(m) then 1 else 0
  {
    ParseOne(m);
    if Complete(m) {
      var done' := done + [Received(m.hdrbuf, m.vRecv)];
      assert m.vRecv[..m.nDataPos] == m.vRecv;
      assert forall i :: 0 <= i < |done'| ==> Stands((v[..|done|] + [m])[i], done'[i]);
    } else {
      assert done + [] == done;
    }
  }

  class Receiver {
    var vRecvMsg: seq<NetMessage>
    ghost var received: seq<Byte>          // all bytes that arrived

    ghost predicate Valid()
      reads this
    {
      Parse(received).Good? && Represents(vRecvMsg, Parse(received).done, Parse(received).rest)
    }

    constructor ()
      ensures Valid() && received == []
    {
      vRecvMsg, received := [], [];
    }

    /** Take in the next piece for the last message, or start a new one. */
    method TakeIn(pch: seq<Byte>) returns (handled: int)
      requires Valid() && pch != []
      modifies this
      ensures handled == -1 ==> Parse(old(received) + pch) == Bad
      ensures handled != -1 ==>
        0 < handled <= |pch| && received == old(received) + pch[..handled] && Valid() && vRecvMsg != []
      ensures handled != -1 ==>
        |Parse(received).done| ==
          |Parse(old(received)).done| + if Complete(vRecvMsg[|vRecvMsg| - 1]) then 1 else 0
    {
      ghost var done, rest := Parse(received).done, Parse(received).rest;
      if vRecvMsg == [] || Complete(vRecvMsg[|vRecvMsg| - 1]) {
        vRecvMsg := vRecvMsg + [EMPTY_MESSAGE];
      }
      var msg := vRecvMsg[|vRecvMsg| - 1];
      assert MsgOk(msg) && Bytes(msg) == rest && !Complete(msg);
      assert vRecvMsg[..|vRecvMsg| - 1] == old(vRecvMsg)[..|done|];
      if !msg.inData {
        msg, handled := ReadHeader(msg, pch);
      } else {
        msg, handled := ReadData(msg, pch);
      }
      if handled < 0 {
        ParseOn(received, pch);
        OversizedIsBad(rest + pch);
        return -1;
      }
      ghost var chunk := pch[..handled];
      RepresentsNext(old(vRecvMsg), done, rest, msg, chunk);
      ParseOn(received, chunk);
      vRecvMsg := vRecvMsg[..|vRecvMsg| - 1] + [msg];
      received := received + chunk;
    }

    /** Take in bytes as they arrive. The connection is given up exactly when some header asks for too much. */
    method ReceiveMsgBytes(pch: seq<Byte>) returns (ok: bool, complete: bool)
      requires Valid()
      modifies this
      ensures ok <==> Parse(old(received) + pch).Good?
      ensures ok ==> Valid() && received == old(received) + pch
      ensures ok ==> (complete <==> |Parse(received).done| > |Parse(old(received)).done|)
    {
      complete := false;
      var rest := pch;
      while rest != []
        invariant received + rest == old(received) + pch && Valid()
        invariant |Parse(received).done| >= |Parse(old(received)).done|
        invariant complete <==> |Parse(received).done| > |Parse(old(received)).done|
        decreases |rest|
      {
        Regroup(received, rest);
        var handled := TakeIn(rest);
        if handled < 0 {
          return false, complete;
        }
        rest := rest[handled..];
        if Complete(vRecvMsg[|vRecvMsg| - 1]) {
          complete := true;
        }
      }
      assert received + [] == received;
      ok := true;
    }
  }

  lemma Regroup(a: seq<Byte>, b: seq<Byte>)
    ensures forall k {:trigger b[..k]} :: 0 <= k <= |b| ==> (a + b[..k]) + b[k..] == a + b
  {
    forall k | 0 <= k <= |b| ensures (a + b[..k]) + b[k..] == a + b { assert b == b[..k] + b[k..]; }
  }

  lemma OversizedIsBad(b: seq<Byte>)
    requires |b| >= HEADER_SIZE && SizeIn(b[..HEADER_SIZE]) > MAX_SIZE
    ensures Parse(b) == Bad
  {
  }

  // ----- The sender -----

  function Total(v: seq<seq<Byte>>): nat
  {
    if v == [] then 0 else |v[0]| + Total(v[1..])
  }

  function Flat(v: seq<seq<Byte>>): (r: seq<Byte>)
    ensures |r| == Total(v)
  {
    if v == [] then [] else v[0] + Flat(v[1..])
  }

  lemma {:induction false} TotalAppend(v: seq<seq<Byte>>, d: seq<Byte>)
    ensures Total(v + [d]) == Total(v) + |d| && Flat(v + [d]) == Flat(v) + d
  {
    if v == [] {
      assert [d][1..] == [] && Flat([d]) == d + [];
    } else {
      TotalAppend(v[1..], d);
      assert (v + [d])[1..] == v[1..] + [d];
    }
  }

  /** What is still to be sent of a queue whose first entry is partly sent. */
  function Pending(v: seq<seq<Byte>>, offset: nat): seq<Byte>
    requires offset <= Total(v)
  {
    Flat(v)[offset..]
  }

  ghost predicate QueueOk(v: seq<seq<Byte>>, offset: nat)
  {
    && (forall i :: 0 <= i < |v| ==> |v[i]| > 0)
    && (if v == [] then offset == 0 else offset < |v[0]|)
    && offset <= Total(v)
  }

  /** Sending a part of the first entry, or all of it. */
  lemma SentPart(v: seq<seq<Byte>>, offset: nat, n: nat, out: seq<Byte>)
    requires QueueOk(v, offset) && v != [] && 0 < n < |v[0]| - offset && out == v[0][offset..offset + n]
    ensures QueueOk(v, offset + n) && Pending(v, offset) == out + Pending(v, offset + n)
  {
    assert Flat(v)[offset..] == out + Flat(v)[offset + n..];
  }

  lemma SentWhole(v: seq<seq<Byte>>, offset: nat, out: seq<Byte>)
    requires QueueOk(v, offset) && v != [] && out == v[0][offset..]
    ensures QueueOk(v[1..], 0) && Pending(v, offset) == out + Pending(v[1..], 0) && Total(v[1..]) == Total(v) - |v[0]|
  {
    assert Flat(v)[offset..] == out + Flat(v[1..]);
    assert Flat(v[1..])[0..] == Flat(v[1..]);
  }

  /** The same, naming what is left. */
  lemma SentMove(v: seq<seq<Byte>>, offset: nat, n: nat, out: seq<Byte>, v': seq<seq<Byte>>, offset': nat,
                 wire: seq<Byte>)
    requires QueueOk(v, offset) && v != [] && 0 < n <= |v[0]| - offset && out == v[0][offset..offset + n]
    requires v' == if offset + n == |v[0]| then v[1..] else v
    requires offset' == if offset + n == |v[0]| then 0 else offset + n
    ensures QueueOk(v', offset') && Total(v') == if offset + n == |v[0]| then Total(v) - |v[0]| else Total(v)
    ensures wire + Pending(v, offset) == (wire + out) + Pending(v', offset')
  {
    if offset + n == |v[0]| { SentWhole(v, offset, out); } else { SentPart(v, offset, n, out); }
    AppendThree(wire, out, Pending(v', offset'));
  }

  /** The fields of a sender agree: everything pushed is on the wire or in the queue. */
  ghost predicate SendState(net: Net, pushed: seq<Msg>, maxSize: nat, v: seq<seq<Byte>>, size: int, offset: nat,
                            bytes: nat, pause: bool, wire: seq<Byte>)
  {
    && NetOk(net) && (forall i :: 0 <= i < |pushed| ==> |pushed[i].data| < 0x1_0000_0000)
    && QueueOk(v, offset)
    && size == Total(v)
    && pause == (size > maxSize)
    && bytes == |wire|
    && Stream(net, pushed) == wire + Pending(v, offset)
  }

  lemma SentState(net: Net, pushed: seq<Msg>, maxSize: nat, v: seq<seq<Byte>>, size: nat, offset: nat,
                  bytes: nat, pause: bool, wire: seq<Byte>, n: nat, wire': seq<Byte>)
    requires SendState(net, pushed, maxSize, v, size, offset, bytes, pause, wire)
    requires v != [] && 0 < n < |v[0]| - offset && wire' == wire + v[0][offset..offset + n]
    ensures SendState(net, pushed, maxSize, v, size, offset + n, bytes + n, pause, wire')
  {
    SentMove(v, offset, n, v[0][offset..offset + n], v, offset + n, wire);
  }

  lemma SentAllState(net: Net, pushed: seq<Msg>, maxSize: nat, v: seq<seq<Byte>>, size: nat, offset: nat,
                     bytes: nat, pause: bool, wire: seq<Byte>, n: nat, wire': seq<Byte>)
    requires SendState(net, pushed, maxSize, v, size, offset, bytes, pause, wire)
    requires v != [] && 0 < n == |v[0]| - offset && wire' == wire + v[0][offset..offset + n]
    ensures size >= |v[0]|
    ensures SendState(net, pushed, maxSize, v[1..], size - |v[0]|, 0, bytes + n, size - |v[0]| > maxSize, wire')
  {
    SentMove(v, offset, n, v[0][offset..offset + n], v[1..], 0, wire);
  }

  lemma AppendThree(a: seq<Byte>, b: seq<Byte>, c: seq<Byte>)
    ensures a + (b + c) == (a + b) + c
  {
  }

  /** A queue with an entry more. */
  lemma QueuedOne(v: seq<seq<Byte>>, offset: nat, d: seq<Byte>)
    requires QueueOk(v, offset) && |d| > 0
    ensures QueueOk(v + [d], offset) && Total(v + [d]) == Total(v) + |d|
    ensures Pending(v + [d], offset) == Pending(v, offset) + d
  {
    TotalAppend(v, d);
    assert (Flat(v) + d)[offset..] == Flat(v)[offset..] + d;
  }

  /** How much of what is asked for the socket takes, as it answers; a negative answer is an error. */
  function Accepted(answer: int, asked: nat): nat
  {
    if answer <= 0 then 0 else if answer < asked then answer else asked
  }

  /** How many bytes of a queue are sent: entry by entry, up to the first that is not taken whole. */
  function Taken(v: seq<seq<Byte>>, offset: nat, answers: seq<int>): nat
  {
    if v == [] || answers == [] || |v[0]| <= offset then 0
    else
      var asked := |v[0]| - offset;
      var sent := Accepted(answers[0], asked);
      if sent == asked then asked + Taken(v[1..], 0, answers[1..]) else sent
  }

  /** The entries of the queue that a message makes. */
  function Entries(net: Net, msg: Msg): seq<seq<Byte>>
    requires NetOk(net) && |msg.data| < 0x1_0000_0000
  {
    if |msg.data| > 0 then [HeaderOf(net, msg), msg.data] else [HeaderOf(net, msg)]
  }

  lemma EntriesAppended(v: seq<seq<Byte>>, net: Net, msg: Msg, v': seq<seq<Byte>>)
    requires NetOk(net) && |msg.data| < 0x1_0000_0000
    requires v' == if |msg.data| > 0 then v + [HeaderOf(net, msg)] + [msg.data] else v + [HeaderOf(net, msg)]
    ensures v' == v + Entries(net, msg)
  {
  }

  class Sender {
    const net: Net
    const nSendBufferMaxSize: nat
    var vSendMsg: seq<seq<Byte>>
    var nSendSize: nat
    var nSendOffset: nat
    var nSendBytes: nat
    var fPauseSend: bool
    ghost var pushed: seq<Msg>             // all messages
    ghost var wire: seq<Byte>              // all bytes the socket took

    ghost predicate Valid()
      reads this
    {
      SendState(net, pushed, nSendBufferMaxSize, vSendMsg, nSendSize, nSendOffset, nSendBytes, fPauseSend, wire)
    }

    constructor (net: Net, nSendBufferMaxSize: nat)
      requires NetOk(net)
      ensures Valid() && pushed == [] && wire == [] && this.net == net
    {
      this.net, this.nSendBufferMaxSize := net, nSendBufferMaxSize;
      vSendMsg, nSendSize, nSendOffset, nSendBytes, fPauseSend := [], 0, 0, 0, false;
      pushed, wire := [], [];
    }

    /** Offer the first entry to the socket, which takes what it says, or fails. */
    method SendOnce(answer: int) returns (sent: nat, whole: bool)
      requires Valid() && vSendMsg != []
      modifies this`vSendMsg, this`nSendSize, this`nSendOffset, this`nSendBytes, this`fPauseSend, this`wire
      ensures Valid() && |wire| == |old(wire)| + sent && old(wire) <= wire
      ensures nSendOffset == if whole then 0 else old(nSendOffset) + sent
      ensures |old(vSendMsg)[0]| > old(nSendOffset)
      ensures sent == Accepted(answer, |old(vSendMsg)[0]| - old(nSendOffset))
      ensures whole <==> sent == |old(vSendMsg)[0]| - old(nSendOffset)
      ensures if whole then vSendMsg == old(vSendMsg)[1..] else vSendMsg == old(vSendMsg)
    {
      var data := vSendMsg[0];
      assert |data| > nSendOffset;
      sent, whole := 0, false;
      var nBytes := if answer < |data| - nSendOffset then answer else |data| - nSendOffset;
      if nBytes <= 0 {
        return;
      }
      sent := nBytes;
      whole := Advance(sent);
    }

    /** The socket has taken some bytes of the first entry. */
    method Advance(sent: nat) returns (whole: bool)
      requires Valid() && vSendMsg != [] && 0 < sent <= |vSendMsg[0]| - nSendOffset
      modifies this`vSendMsg, this`nSendSize, this`nSendOffset, this`nSendBytes, this`fPauseSend, this`wire
      ensures Valid() && wire == old(wire) + old(vSendMsg)[0][old(nSendOffset)..old(nSendOffset) + sent]
      ensures whole <==> sent == |old(vSendMsg)[0]| - old(nSendOffset)
      ensures nSendOffset == if whole then 0 else old(nSendOffset) + sent
      ensures if whole then vSendMsg == old(vSendMsg)[1..] else vSendMsg == old(vSendMsg)
    {
      whole := nSendOffset + sent == |vSendMsg[0]|;
      if whole {
        FinishEntry(sent);
      } else {
        ghost var wire' := wire + vSendMsg[0][nSendOffset..nSendOffset + sent];
        SentState(net, pushed, nSendBufferMaxSize, vSendMsg, nSendSize, nSendOffset, nSendBytes, fPauseSend, wire, sent,
                  wire');
        wire, nSendBytes, nSendOffset := wire', nSendBytes + sent, nSendOffset + sent;
      }
    }

    /** It has taken all that was left of it. */
    method FinishEntry(sent: nat)
      requires Valid() && vSendMsg != [] && 0 < sent == |vSendMsg[0]| - nSendOffset
      modifies this`vSendMsg, this`nSendSize, this`nSendOffset, this`nSendBytes, this`fPauseSend, this`wire
      ensures Valid() && wire == old(wire) + old(vSendMsg)[0][old(nSendOffset)..old(nSendOffset) + sent]
      ensures nSendOffset == 0 && vSendMsg == old(vSendMsg)[1..]
    {
      var size := |vSendMsg[0]|;
      ghost var wire' := wire + vSendMsg[0][nSendOffset..nSendOffset + sent];
      SentAllState(net, pushed, nSendBufferMaxSize, vSendMsg, nSendSize, nSendOffset, nSendBytes, fPauseSend, wire,
                   sent, wire');
      wire, nSendBytes, nSendOffset, nSendSize := wire', nSendBytes + sent, 0, nSendSize - size;
      fPauseSend, vSendMsg := nSendSize > nSendBufferMaxSize, vSendMsg[1..];
    }

    /**
      Send until the queue is empty or the socket takes no more. `answers` are what its calls return, as long as it
      would not block; exactly what it takes is sent.
     */
    method SocketSendData(connected: bool, answers: seq<int>) returns (nSentSize: nat)
      requires Valid()
      modifies this`vSendMsg, this`nSendSize, this`nSendOffset, this`nSendBytes, this`fPauseSend, this`wire
      ensures Valid() && |wire| == |old(wire)| + nSentSize && old(wire) <= wire
      ensures nSentSize == if connected then Taken(old(vSendMsg), old(nSendOffset), answers) else 0
      ensures vSendMsg == [] ==> nSendOffset == 0 && nSendSize == 0
    {
      nSentSize := 0;
      var i := 0;
      ghost var total := if connected then Taken(vSendMsg, nSendOffset, answers) else 0;
      while vSendMsg != []
        invariant Valid() && |wire| == |old(wire)| + nSentSize && old(wire) <= wire && i <= |answers|
        invariant nSentSize + (if connected then Taken(vSendMsg, nSendOffset, answers[i..]) else 0) == total
        decreases |vSendMsg|
      {
        if !connected || i == |answers| { break; }
        assert answers[i..][0] == answers[i] && answers[i..][1..] == answers[i + 1..];
        var sent, whole := SendOnce(answers[i]);
        nSentSize := nSentSize + sent;
        if !whole {
          assert nSentSize == total;
          return;
        }
        i := i + 1;
      }
    }

    /** Put header and data of a message into the queue. */
    method Enqueue(msg: Msg)
      requires Valid() && |msg.data| < 0x1_0000_0000
      modifies this`nSendSize, this`fPauseSend, this`vSendMsg, this`pushed
      ensures Valid() && pushed == old(pushed) + [msg] && vSendMsg == old(vSendMsg) + Entries(net, msg)
    {
      var header := HeaderOf(net, msg);
      Queued(msg, header);
      nSendSize := nSendSize + |msg.data| + HEADER_SIZE;
      if nSendSize > nSendBufferMaxSize {
        fPauseSend := true;
      }
      vSendMsg := vSendMsg + [header];
      if |msg.data| > 0 {
        vSendMsg := vSendMsg + [msg.data];
      }
      pushed := pushed + [msg];
      EntriesAppended(old(vSendMsg), net, msg, vSendMsg);
    }

    /** Queue a message; with an empty queue, try to send at once. */
    method PushMessage(msg: Msg, connected: bool, answers: seq<int>) returns (nBytesSent: nat)
      requires Valid() && |msg.data| < 0x1_0000_0000
      modifies this
      ensures Valid() && pushed == old(pushed) + [msg] && |wire| == |old(wire)| + nBytesSent && old(wire) <= wire
      ensures nBytesSent == if old(vSendMsg) == [] && connected then Taken(Entries(net, msg), 0, answers) else 0
    {
      var optimisticSend := vSendMsg == [];
      Enqueue(msg);
      nBytesSent := 0;
      if optimisticSend {
        assert vSendMsg == Entries(net, msg) && nSendOffset == 0;
        nBytesSent := SocketSendData(connected, answers);
      }
    }

    /** The queue with a message more. */
    lemma Queued(msg: Msg, header: seq<Byte>)
      requires NetOk(net) && (forall i :: 0 <= i < |pushed| ==> |pushed[i].data| < 0x1_0000_0000)
      requires |msg.data| < 0x1_0000_0000
      requires QueueOk(vSendMsg, nSendOffset) && header == HeaderOf(net, msg)
      requires Stream(net, pushed) == wire + Pending(vSendMsg, nSendOffset)
      ensures var v := if |msg.data| > 0 then vSendMsg + [header] + [msg.data] else vSendMsg + [header];
        && QueueOk(v, nSendOffset) && Total(v) == Total(vSendMsg) + HEADER_SIZE + |msg.data|
        && Stream(net, pushed + [msg]) == wire + Pending(v, nSendOffset)
    {
      StreamAppend(net, pushed, msg);
      QueuedOne(vSendMsg, nSendOffset, header);
      AppendThree(wire, Pending(vSendMsg, nSendOffset), header);
      if |msg.data| > 0 {
        QueuedOne(vSendMsg + [header], nSendOffset, msg.data);
        AppendThree(wire, Pending(vSendMsg + [header], nSendOffset), msg.data);
      } else {
        assert Stream(net, pushed) + header + msg.data == Stream(net, pushed) + header;
      }
    }
  }

  /**
    Whatever was pushed, however it was cut on either side: the complete messages at the receiver are the
    first ones pushed, in order and byte for byte, and all of them once everything has arrived.
   */
  lemma Delivered(s: Sender, r: Receiver) returns (k: nat)
    requires s.Valid() && r.Valid() && r.received <= s.wire && AllSendable(s.pushed)
    ensures k <= |s.pushed| && k <= |r.vRecvMsg| <= k + 1
    ensures forall i :: 0 <= i < k ==> Stands(r.vRecvMsg[i], Received(HeaderOf(s.net, s.pushed[i]), s.pushed[i].data))
    ensures forall i :: k <= i < |r.vRecvMsg| ==> !Complete(r.vRecvMsg[i])
    ensures r.received == s.wire && s.vSendMsg == [] ==> k == |s.pushed| == |r.vRecvMsg|
  {
    assert r.received <= Stream(s.net, s.pushed);
    k := ReceivedFrom(s.net, s.pushed, r.received, r.vRecvMsg);
  }

  /** What stands for the beginning of a stream. */
  lemma ReceivedFrom(net: Net, ms: seq<Msg>, received: seq<Byte>, v: seq<NetMessage>) returns (k: nat)
    requires NetOk(net) && AllSendable(ms) && received <= Stream(net, ms)
    requires Parse(received).Good? && Represents(v, Parse(received).done, Parse(received).rest)
    ensures k <= |ms| && k <= |v| <= k + 1
    ensures forall i :: 0 <= i < k ==> Sendable(ms[i]) && Stands(v[i], Received(HeaderOf(net, ms[i]), ms[i].data))
    ensures forall i :: k <= i < |v| ==> !Complete(v[i])
    ensures received == Stream(net, ms) ==> k == |ms| == |v|
  {
    k := ParseStream(net, ms, received);
    var done := Parse(received).done;
    forall i | 0 <= i < k ensures Sendable(ms[i]) && Stands(v[i], Received(HeaderOf(net, ms[i]), ms[i].data)) {
      assert Sendable(ms[i]);
      ExpectedAt(net, ms, i);
      assert done[i] == Expected(net, ms)[i];
    }
  }

  lemma {:induction false} ExpectedAt(net: Net, ms: seq<Msg>, i: nat)
    requires NetOk(net) && AllSendable(ms) && i < |ms|
    ensures Expected(net, ms)[i] == Received(HeaderOf(net, ms[i]), ms[i].data)
  {
    assert Sendable(ms[i]);
    if i > 0 { ExpectedAt(net, ms[1..], i - 1); }
  }

  /** Each delivered message has the command it was pushed with, if that can be written, and the right checksum. */
  lemma DeliveredCommands(s: Sender, r: Receiver) returns (k: nat)
    requires s.Valid() && r.Valid() && r.received <= s.wire && AllSendable(s.pushed)
    ensures k <= |s.pushed| && k <= |r.vRecvMsg| && (r.received == s.wire && s.vSendMsg == [] ==> k == |s.pushed|)
    ensures forall i :: 0 <= i < k ==> ReadsBack(s.net, s.pushed[i], r.vRecvMsg[i])
  {
    k := Delivered(s, r);
    forall i | 0 <= i < k ensures ReadsBack(s.net, s.pushed[i], r.vRecvMsg[i]) {
      assert Sendable(s.pushed[i]);
      HeaderSize(s.net, s.pushed[i]);
      CommandRoundTrip(s.pushed[i].command);
    }
  }

  ghost predicate ReadsBack(net: Net, pushed: Msg, m: NetMessage)
    requires NetOk(net)
  {
    && |m.hdrbuf| == HEADER_SIZE && m.vRecv == pushed.data && m.hdrbuf[20..] == net.hash(pushed.data)[..4]
    && (GetCommand(m.hdrbuf[4..16]) == pushed.command <==> |pushed.command| <= 12 && 0 !in pushed.command)
  }
}
