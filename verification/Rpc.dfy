/** Calls over a Hadoop connection (src/hadoop_rpc_utils.c): request frames, responses and
    the call id that ties them together. */
module Rpc {
  import opened Words
  import opened Wrappers
  import opened Proto
  import opened NetUtils
  import Messages
  import RMessage
  import RoundTrip
  import Varint
  import WTree

  function Ascii(s: string): (n: Name)
    ensures |n| == |s|
  {
    seq(|s|, i requires 0 <= i < |s| => s[i] as int % 0x100)
  }

  // ---- the request header

  /** "hadoop.common.RpcPayloadHeaderProto" */
  const REQUEST_HEADER := Ascii("hadoop.common.RpcPayloadHeaderProto")
  const RPC_KIND := Ascii("rpcKind")
  const RPC_OP := Ascii("rpcOp")
  const CALL_ID := Ascii("callId")

  /** The environment knows the header type with the fields of the .proto file. */
  ghost predicate KnowsRequest(env: Env) {
    && env.Closed() && REQUEST_HEADER in env.msgs
    && var t := env.msgs[REQUEST_HEADER];
       && HasField(t, RPC_KIND, 1, ENUM) && HasField(t, RPC_OP, 2, ENUM) && HasField(t, CALL_ID, 3, UINT32)
  }

  predicate HasField(t: Message, key: Name, id: int, ftype: Type) {
    key in t.name && t.name[key].id == id && t.name[key].ftype == ftype && t.name[key].name == key
    && (t.name[key].flabel == OPTIONAL || t.name[key].flabel == REQUIRED)
  }

  function HeaderCalls(callId: word): seq<Messages.Call> {
    [Messages.PutInteger(0, RPC_KIND, Longlong(2, 0)), Messages.PutInteger(0, RPC_OP, Longlong(0, 0)),
     Messages.PutInteger(0, CALL_ID, Longlong(callId, 0))]
  }

  /** The header as a message: a protocol-buffer call, final payload, the call id. */
  ghost function HeaderTree(env: Env, callId: word): Tree
    requires KnowsRequest(env)
  {
    var t := env.msgs[REQUEST_HEADER];
    Tree(t, [Scalar(t.name[RPC_KIND], Number(Longlong(2, 0))), Scalar(t.name[RPC_OP], Number(Longlong(0, 0))),
             Scalar(t.name[CALL_ID], Number(Longlong(callId, 0)))])
  }

  lemma HeaderBuilt(env: Env, callId: word)
    requires KnowsRequest(env)
    ensures Messages.LegalRun(env, Messages.Initial(env.msgs[REQUEST_HEADER]), HeaderCalls(callId))
    ensures Messages.Built(env, env.msgs[REQUEST_HEADER], HeaderCalls(callId)) == HeaderTree(env, callId)
  {
    var t, calls := env.msgs[REQUEST_HEADER], HeaderCalls(callId);
    assert forall c | c in calls :: Messages.IntegerCall(t, c);
    Messages.IntegersBuilt(env, t, calls);
    assert WTree.Scalars(Messages.Pairs(t, calls)) == HeaderTree(env, callId).entries;
  }

  /** The header takes at most 48 bytes: three records of a tag and a varint. */
  lemma HeaderShort(env: Env, callId: word)
    requires KnowsRequest(env)
    ensures |Encode(HeaderTree(env, callId))| <= 48 && Written(env, HeaderTree(env, callId))
  {
    hide Encode, Prefix, EntryRec, Varint.Bytes;
    var tree := HeaderTree(env, callId);
    PrefixAll(tree);
    forall i | 0 <= i < 3 ensures |EntryRec(tree, tree.entries[i]).Bytes()| <= 16 {
      ScalarShort(tree, tree.entries[i]);
    }
    PrefixStep(tree, 0);
    PrefixStep(tree, 1);
    PrefixStep(tree, 2);
    forall e | e in tree.entries ensures WrittenEntry(env, tree, e) {
    }
  }

  /** The header byte by byte: tag and value of the kind (a protocol buffer), of the operation
      (a final payload) and of the call id. */
  lemma HeaderBytes(env: Env, callId: word)
    requires KnowsRequest(env)
    ensures Encode(HeaderTree(env, callId)) == [0x08, 2, 0x10, 0, 0x18] + Varint.Bytes(callId)
  {
    hide Encode, Prefix, EntryRec, Varint.Bytes;
    var tree := HeaderTree(env, callId);
    PrefixAll(tree);
    PrefixStep(tree, 0);
    PrefixStep(tree, 1);
    PrefixStep(tree, 2);
    SmallScalar(tree, tree.entries[0], 0x08);
    SmallScalar(tree, tree.entries[1], 0x10);
    SmallScalar(tree, tree.entries[2], 0x18);
    OneByte(2);
    OneByte(0);
  }

  lemma SmallScalar(tree: Tree, e: Entry, tag: byte)
    requires e in tree.entries && e.Scalar? && e.value.Number? && (e.field.ftype.ENUM? || e.field.ftype.UINT32?)
    requires 0 < e.field.id < 16 && tag == 8 * e.field.id
    ensures EntryRec(tree, e).Bytes() == [tag] + Varint.Bytes(e.value.v.low)
  {
    hide Varint.Bytes;
    OneByte(tag);
    assert Tag(e.field.id, 0) == tag;
  }

  lemma OneByte(b: byte)
    requires b < 0x80
    ensures Varint.Bytes(b) == [b]
  {
  }

  lemma ScalarShort(tree: Tree, e: Entry)
    requires e in tree.entries && e.Scalar? && e.value.Number? && (e.field.ftype.ENUM? || e.field.ftype.UINT32?)
    ensures |EntryRec(tree, e).Bytes()| <= 16
  {
    hide Varint.Bytes, Tag;
    Varint.BytesAtMost(Tag(e.field.id, 0));
    Varint.BytesAtMost(e.value.v.low);
  }

  /** A server that reads the header finds the caller's id. */
  lemma HeaderRead(env: Env, callId: word)
    requires KnowsRequest(env)
    ensures var m := RMessage.Read(env, env.msgs[REQUEST_HEADER], Encode(HeaderTree(env, callId)));
            m.Some? && forall last: set<Name> ::
              RMessage.Integer(m.value, CALL_ID, 0, last) == callId && RMessage.Integer(m.value, RPC_KIND, 0, last) == 2
  {
    hide Encode, RMessage.Read, RoundTrip.ReadBack, RoundTrip.Grouped, Varint.Seen;
    var tree := HeaderTree(env, callId);
    HeaderShort(env, callId);
    RoundTrip.ReadEncoded(env, tree);
    ReadBackIs(env, tree);
    RoundTrip.GroupedIs(env, tree, 3, CALL_ID);
    RoundTrip.GroupedIs(env, tree, 3, RPC_KIND);
    NamesDiffer();
    SelectedThree(env, tree, CALL_ID);
    SelectedThree(env, tree, RPC_KIND);
    ScalarReadsAs(env, tree, tree.entries[0]);
    ScalarReadsAs(env, tree, tree.entries[2]);
  }

  function Pick(env: Env, tree: Tree, e: Entry, name: Name): seq<RMessage.Var>
    requires e in tree.entries
  {
    if e.field.name == name then [RoundTrip.EntryReadsAs(env, tree, e)] else []
  }

  lemma SelectedThree(env: Env, tree: Tree, name: Name)
    requires |tree.entries| == 3
    ensures RoundTrip.Selected(env, tree, 3, name)
         == Pick(env, tree, tree.entries[0], name) + Pick(env, tree, tree.entries[1], name)
           + Pick(env, tree, tree.entries[2], name)
  {
    hide RoundTrip.EntryReadsAs;
    assert RoundTrip.Selected(env, tree, 0, name) == [];
    assert RoundTrip.Selected(env, tree, 1, name) == Pick(env, tree, tree.entries[0], name);
    assert RoundTrip.Selected(env, tree, 2, name)
           == Pick(env, tree, tree.entries[0], name) + Pick(env, tree, tree.entries[1], name);
  }

  lemma ScalarReadsAs(env: Env, tree: Tree, e: Entry)
    requires e in tree.entries && e.Scalar? && e.value.Number? && (e.field.ftype.ENUM? || e.field.ftype.UINT32?)
    ensures RMessage.LowWord(RoundTrip.EntryReadsAs(env, tree, e)) == e.value.v.low
  {
    assert Fits(e.field, e.value);
  }

  lemma ReadBackIs(env: Env, tree: Tree)
    ensures RoundTrip.ReadBack(env, tree).index == RoundTrip.Grouped(env, tree, |tree.entries|)
  {
  }

  lemma NamesDiffer()
    ensures |RPC_KIND| == 7 && |RPC_OP| == 5 && |CALL_ID| == 6
  {
  }

  /** `generate_request_header` */
  method GenerateRequestHeader(env: Env, callId: word) returns (bs: seq<byte>)
    requires KnowsRequest(env)
    ensures bs == Encode(HeaderTree(env, callId))
  {
    hide Encode, Messages.Built, Messages.LegalRun, HeaderTree;
    HeaderBuilt(env, callId);
    HeaderShort(env, callId);
    bs := Messages.Write(env, REQUEST_HEADER, HeaderCalls(callId));
  }

  // ---- request frames

  /** A request on the wire: the length of what follows, then header and request, each
      behind its own length. */
  function Frame(header: seq<byte>, request: seq<byte>): seq<byte> {
    Be32(Total(header, request) % 0x1_0000_0000)
      + (Varint.Bytes(|header|) + (header + (Varint.Bytes(|request|) + request)))
  }

  function Total(header: seq<byte>, request: seq<byte>): nat {
    |Varint.Bytes(|header|)| + |header| + |Varint.Bytes(|request|)| + |request|
  }

  /** How a receiver takes a frame apart. */
  function ParseFrame(bs: seq<byte>): Option<(seq<byte>, seq<byte>, seq<byte>)> {
    if |bs| < 4 then None
    else
      var h := Delimited(bs[4..]);
      if h.None? then None
      else
        var r := Delimited(h.value.1);
        if r.None? || Swap(OfLe32(bs)) != |bs| - 4 - |r.value.1| then None else Some((h.value.0, r.value.0, r.value.1))
  }

  /** A byte string behind a raw varint length, and what follows it. */
  function Delimited(bs: seq<byte>): Option<(seq<byte>, seq<byte>)> {
    var n := Raw(bs);
    if n.None? || n.value.rc != 0 || n.value.value.None? || !(0 <= n.value.value.value <= |bs| - n.value.len) then None
    else
      var from := n.value.len;
      Some((bs[from..from + n.value.value.value], bs[from + n.value.value.value..]))
  }

  lemma DelimitedOf(s: seq<byte>, rest: seq<byte>)
    requires |s| < 0x8000_0000
    ensures Delimited(Varint.Bytes(|s|) + (s + rest)) == Some((s, rest))
  {
    hide Varint.Bytes, Raw;
    RawOfBytes(|s|, s + rest);
    MiddlePart(Varint.Bytes(|s|), s, rest);
  }

  lemma MiddlePart(a: seq<byte>, b: seq<byte>, c: seq<byte>)
    ensures var bs := a + (b + c); bs[|a|..|a| + |b|] == b && bs[|a| + |b|..] == c
  {
  }

  /** The length field is the number of bytes behind it, and a frame, whatever follows it,
      is taken apart into its two parts: no two pairs share a frame. */
  lemma FrameParses(header: seq<byte>, request: seq<byte>, rest: seq<byte>)
    requires Total(header, request) < 0x8000_0000
    ensures |Frame(header, request)| == 4 + Total(header, request)
    ensures ParseFrame(Frame(header, request) + rest) == Some((header, request, rest))
  {
    hide Varint.Bytes, Delimited, Raw, OfLe32, Swap, Be32;
    var h, r := Varint.Bytes(|header|), Varint.Bytes(|request|);
    var bs := Frame(header, request) + rest;
    var inner := h + (header + (r + (request + rest)));
    assert bs == Be32(Total(header, request)) + inner;
    assert bs[4..] == inner;
    DelimitedOf(header, r + (request + rest));
    DelimitedOf(request, rest);
    SwapOrder(Total(header, request), inner);
  }

  /** A frame byte by byte: the number of bytes behind it, most significant byte first, and
      header and request each behind its length. */
  lemma FrameBytes(header: seq<byte>, request: seq<byte>)
    requires Total(header, request) < 0x8000_0000
    ensures var f, n := Frame(header, request), |Frame(header, request)| - 4;
            && n >= 0 && f[0] == n / 0x100_0000 && f[1] == n / 0x1_0000 % 0x100 && f[2] == n / 0x100 % 0x100
               && f[3] == n % 0x100
            && f[4..] == Varint.Bytes(|header|) + header + Varint.Bytes(|request|) + request
  {
    hide Varint.Bytes;
    var h, r := Varint.Bytes(|header|), Varint.Bytes(|request|);
    var inner := h + (header + (r + request));
    assert inner == h + header + r + request;
    assert Frame(header, request)[4..] == inner;
  }

  /** Where the parts of a frame lie in it. */
  lemma Parts(a: seq<byte>, b: seq<byte>, c: seq<byte>, d: seq<byte>, e: seq<byte>)
    ensures var all := a + (b + (c + (d + e)));
            var i, j, k := |a| + |b|, |a| + |b| + |c|, |a| + |b| + |c| + |d|;
            all[..|a|] == a && all[|a|..i] == b && all[i..j] == c && all[j..k] == d && all[k..] == e
  {
    var de := d + e;
    var cde := c + de;
    var all := a + (b + cde);
    assert all == (a + b) + cde;
    assert all == (a + b + c) + de;
    assert all == (a + b + c + d) + e;
  }

  /** One part of a frame, behind the i bytes of it that were sent. */
  method WritePart(socket: Socket, part: seq<byte>, ghost was: seq<byte>, ghost frame: seq<byte>, ghost i: nat)
    returns (rc: int)
    requires i + |part| <= |frame| && frame[i..i + |part|] == part && socket.outgoing == was + frame[..i]
    modifies socket`outgoing
    ensures socket.reliable ==> rc == 0
    ensures rc == 0 ==> socket.outgoing == was + frame[..i + |part|]
    ensures rc != 0 ==> rc == -1 && CutOff(was, socket.outgoing, frame)
  {
    rc := socket.WriteAll(part);
    assert frame[..i] + part == frame[..i + |part|];
  }

  /** `write_request` */
  method WriteRequest(socket: Socket, header: seq<byte>, request: seq<byte>) returns (rc: int)
    requires Total(header, request) < 0x8000_0000
    modifies socket`outgoing
    ensures socket.reliable ==> rc == 0
    ensures rc == 0 ==> socket.outgoing == old(socket.outgoing) + Frame(header, request)
    ensures rc != 0 ==> rc == -1 && CutOff(old(socket.outgoing), socket.outgoing, Frame(header, request))
  {
    hide Varint.Bytes, Be32, Le32, Swap, OfLe32;
    var headerLen, requestLen := new byte[8], new byte[8];
    var headerVint := WriteRawVarint32(headerLen, |header|);
    var h := headerLen[..headerVint];
    var requestVint := WriteRawVarint32(requestLen, |request|);
    var total := headerVint + |header| + requestVint + |request|;
    SwapOrder(total, []);
    rc := WriteParts(socket, Le32(Swap(total)), h, header, requestLen[..requestVint], request);
  }

  /** The writes, each behind a test of the one before. */
  method WriteParts(socket: Socket, total: seq<byte>, h: seq<byte>, header: seq<byte>, r: seq<byte>, request: seq<byte>)
    returns (rc: int)
    modifies socket`outgoing
    ensures socket.reliable ==> rc == 0
    ensures var frame := total + (h + (header + (r + request)));
            if rc == 0 then socket.outgoing == old(socket.outgoing) + frame
            else rc == -1 && CutOff(old(socket.outgoing), socket.outgoing, frame)
  {
    hide CutOff;
    ghost var was, frame := socket.outgoing, total + (h + (header + (r + request)));
    Parts(total, h, header, r, request);
    rc := WritePart(socket, total, was, frame, 0);
    if rc != 0 { return -1; }
    rc := WritePart(socket, h, was, frame, |total|);
    if rc != 0 { return -1; }
    rc := WritePart(socket, header, was, frame, |total| + |h|);
    if rc != 0 { return -1; }
    rc := WritePart(socket, r, was, frame, |total| + |h| + |header|);
    if rc != 0 { return -1; }
    rc := WritePart(socket, request, was, frame, |total| + |h| + |header| + |r|);
    if rc != 0 { return -1; }
    assert frame[..|frame|] == frame;
  }

  // ---- responses

  const RESPONSE_HEADER := Ascii("hadoop.common.RpcResponseHeaderProto")
  const STATUS := Ascii("status")

  ghost predicate KnowsResponse(env: Env) {
    && env.Closed() && RESPONSE_HEADER in env.msgs
    && var t := env.msgs[RESPONSE_HEADER];
       HasField(t, CALL_ID, 1, UINT32) && HasField(t, STATUS, 2, ENUM)
  }

  datatype Response = Succeed(payload: seq<byte>) | Error | Fatal | OtherError

  /** A response, and where the stream stands after it. */
  datatype Received = Received(response: Response, rest: seq<byte>)

  /** `recv_rpc_response` as a reading of the stream; None if the stream ends too soon. If the
      header repeats a field, `last` decides which value is found. */
  function Recv(env: Env, last: set<Name>, expected: int, bs: seq<byte>): Option<Received> {
    var n := Raw(bs);
    if n.None? then None
    else
      var behind := bs[n.value.len..];
      if n.value.rc != 0 || n.value.value.None? || n.value.value.value <= 0 then Some(Received(OtherError, behind))
      else if |behind| < n.value.value.value then None
      else
        var header, rest := behind[..n.value.value.value], behind[n.value.value.value..];
        var m := if RESPONSE_HEADER in env.msgs then RMessage.Read(env, env.msgs[RESPONSE_HEADER], header) else None;
        if m.None? then Some(Received(OtherError, rest))
        else if ToInt32(RMessage.Integer(m.value, CALL_ID, 0, last)) != expected then Some(Received(OtherError, rest))
        else if RMessage.Integer(m.value, STATUS, 0, last) == 0 then RecvPayload(rest)
        else Some(Received(if RMessage.Integer(m.value, STATUS, 0, last) == 1 then Error else Fatal, rest))
  }

  /** What the answer to call `id` must be, case by case: the header is what stands behind the
      first length, and nothing but a header that reads with this id is taken further. */
  ghost predicate Answered(env: Env, last: set<Name>, id: int, bs: seq<byte>, r: Response, rest: seq<byte>)
    requires RESPONSE_HEADER in env.msgs
  {
    var h := Delimited(bs);
    if h.None? || h.value.0 == [] then r == OtherError && Raw(bs).Some? && rest == bs[Raw(bs).value.len..]
    else
      var m, behind := RMessage.Read(env, env.msgs[RESPONSE_HEADER], h.value.0), h.value.1;
      if m.None? || ToInt32(RMessage.Integer(m.value, CALL_ID, 0, last)) != id then r == OtherError && rest == behind
      else
        var status := RMessage.Integer(m.value, STATUS, 0, last);
        && (status == 1 ==> r == Error && rest == behind)
        && (status > 1 ==> r == Fatal && rest == behind)
        && (status == 0 ==>
             |behind| >= 4 && PayloadAnswered(behind[0], behind[1], behind[2], behind[3], behind[4..], r, rest))
  }

  /** A payload behind its length, most significant byte first. */
  predicate PayloadAnswered(a: byte, b: byte, c: byte, d: byte, behind: seq<byte>, r: Response, rest: seq<byte>) {
    var size := ((a as int * 0x100 + b as int) * 0x100 + c as int) * 0x100 + d as int;
    if size == 0 || size >= 0x8000_0000 then r == OtherError && rest == behind
    else r.Succeed? && |r.payload| == size && behind == r.payload + rest
  }

  lemma PayloadExactly(bs: seq<byte>)
    requires RecvPayload(bs).Some?
    ensures |bs| >= 4
    ensures var r := RecvPayload(bs).value; PayloadAnswered(bs[0], bs[1], bs[2], bs[3], bs[4..], r.response, r.rest)
  {
    var d, c, b, a := bs[3] as nat, bs[2] as nat, bs[1] as nat, bs[0] as nat;
    Digits(Swap(OfLe32(bs)), a, b, c, d);
    Digits(OfLe32(bs), d, c, b, a);
    SizeIs(bs, RecvPayload(bs).value, ((a * 0x100 + b) * 0x100 + c) * 0x100 + d);
  }

  lemma SizeIs(bs: seq<byte>, r: Received, size: nat)
    requires |bs| >= 4 && Swap(OfLe32(bs)) == size && RecvPayload(bs) == Some(r)
    ensures if size == 0 || size >= 0x8000_0000 then r == Received(OtherError, bs[4..])
            else r.response.Succeed? && |r.response.payload| == size && bs[4..] == r.response.payload + r.rest
  {
    hide OfLe32, Swap;
  }

  /** Every answer is the right one: a payload, an error or a fatal status only for the call
      that waits. */
  lemma RecvExactly(env: Env, last: set<Name>, id: int, bs: seq<byte>)
    requires RESPONSE_HEADER in env.msgs && Recv(env, last, id, bs).Some?
    ensures var r := Recv(env, last, id, bs).value; Answered(env, last, id, bs, r.response, r.rest)
  {
    hide Raw, RMessage.Read, RMessage.Integer, RecvPayload, PayloadAnswered, Ascii;
    var n := Raw(bs);
    if n.value.rc == 0 && n.value.value.Some? && n.value.value.value > 0 {
      var len, behind := n.value.value.value, bs[n.value.len..];
      assert behind[..len] == bs[n.value.len..n.value.len + len] && behind[len..] == bs[n.value.len + len..];
      var h := Delimited(bs);
      assert h == Some((behind[..len], behind[len..]));
      if RecvPayload(h.value.1).Some? { PayloadExactly(h.value.1); }
    }
  }

  /** The stream holds a whole response, whichever values are found in its header. */
  ghost predicate Arrives(env: Env, expected: int, bs: seq<byte>) {
    forall last: set<Name> :: Recv(env, last, expected, bs).Some?
  }

  lemma ArrivesAs(env: Env, expected: int, bs: seq<byte>, last: set<Name>)
    requires Arrives(env, expected, bs)
    ensures Recv(env, last, expected, bs).Some?
  {
    hide Recv;
  }

  function RecvPayload(bs: seq<byte>): Option<Received> {
    if |bs| < 4 then None
    else
      var size := ToInt32(Swap(OfLe32(bs)));
      if size <= 0 then Some(Received(OtherError, bs[4..]))
      else if |bs| - 4 < size then None
      else Some(Received(Succeed(bs[4..4 + size]), bs[4 + size..]))
  }

  /** One length-prefixed string of `read_exception`; a negative length is an error. */
  datatype Text = Text(ok: bool, str: seq<byte>, rest: seq<byte>)

  function RecvString(bs: seq<byte>): Option<Text> {
    if |bs| < 4 then None
    else
      var len := ToInt32(Swap(OfLe32(bs)));
      if len < 0 then Some(Text(false, [], bs[4..]))
      else if |bs| - 4 < len then None
      else Some(Text(true, bs[4..4 + len], bs[4 + len..]))
  }

  /** Two strings, and what follows them. */
  predicate TwoStrings(bs: seq<byte>, cls: seq<byte>, stack: seq<byte>, rest: seq<byte>) {
    var c := RecvString(bs);
    c.Some? && c.value.ok && c.value.str == cls && RecvString(c.value.rest) == Some(Text(true, stack, rest))
  }

  /** Where the reading of two strings stops behind a negative length. */
  predicate Stops(bs: seq<byte>, rest: seq<byte>) {
    var c := RecvString(bs);
    c.Some? &&
    if !c.value.ok then rest == c.value.rest
    else
      var s := RecvString(c.value.rest);
      s.Some? && !s.value.ok && rest == s.value.rest
  }

  /** The sign of a length is the upper bit of its first byte. */
  lemma StringExactly(bs: seq<byte>)
    requires RecvString(bs).Some?
    ensures |bs| >= 4 && (RecvString(bs).value.ok <==> bs[0] < 0x80)
  {
    var d, c, b, a := bs[3] as nat, bs[2] as nat, bs[1] as nat, bs[0] as nat;
    Digits(Swap(OfLe32(bs)), a, b, c, d);
    Digits(OfLe32(bs), d, c, b, a);
  }

  /** A null string, of length -1, is a failure. */
  lemma NullStringFails(rest: seq<byte>)
    ensures RecvString([0xFF, 0xFF, 0xFF, 0xFF] + rest) == Some(Text(false, [], rest))
  {
    var bs := [0xFF, 0xFF, 0xFF, 0xFF] + rest;
    assert bs[4..] == rest;
    StringExactly(bs);
  }

  /** `hadoop_rpc_proxy_t` */
  class Proxy {
    const env: Env
    const socket: Socket
    var callerId: int

    constructor (env: Env, socket: Socket)
      ensures this.env == env && this.socket == socket && callerId == 0
    {
      this.env, this.socket, callerId := env, socket, 0;
    }

    /** `send_rpc_request` */
    method SendRequest(request: seq<byte>) returns (rc: int)
      requires KnowsRequest(env) && 0 <= callerId < 0x7FFF_FFFF && |request| < 0x7FFF_0000
      modifies this`callerId, socket`outgoing
      ensures socket.reliable ==> rc == 0
      ensures callerId == if rc == 0 then old(callerId) + 1 else old(callerId)
      ensures var frame := Frame(Encode(HeaderTree(env, old(callerId))), request);
              if rc == 0 then socket.outgoing == old(socket.outgoing) + frame
              else rc == -1 && CutOff(old(socket.outgoing), socket.outgoing, frame)
    {
      hide Encode, HeaderTree, Frame, Varint.Bytes;
      HeaderShort(env, callerId);
      var header := GenerateRequestHeader(env, callerId);
      Varint.BytesAtMost(|header|);
      Varint.BytesAtMost(|request|);
      rc := WriteRequest(socket, header, request);
      if rc != 0 { return -1; }
      callerId := callerId + 1;
    }

    /** `read_all` into a new block. */
    method ReadBlock(size: nat) returns (rc: int, bs: seq<byte>)
      requires socket.reliable ==> |socket.incoming| >= size
      modifies socket`incoming
      ensures rc in {0, -1} && (socket.reliable ==> rc == 0)
      ensures rc == 0 ==> bs + socket.incoming == old(socket.incoming) && |bs| == size
    {
      var block := new byte[size];
      rc := socket.ReadAll(block, size);
      bs := block[..size];
    }

    /** Four bytes and `int_endian_swap`. */
    method ReadInt() returns (rc: int, n: int)
      requires socket.reliable ==> |socket.incoming| >= 4
      modifies socket`incoming
      ensures rc in {0, -1} && (socket.reliable ==> rc == 0)
      ensures rc == 0 ==>
                && |old(socket.incoming)| >= 4 && n == ToInt32(Swap(OfLe32(old(socket.incoming))))
                && socket.incoming == old(socket.incoming)[4..]
    {
      hide OfLe32, Swap;
      var bs;
      n := 0;
      rc, bs := ReadBlock(4);
      if rc == 0 {
        FirstFour(bs, socket.incoming);
        n := ToInt32(Swap(OfLe32(bs)));
      }
    }

    /** `recv_rpc_response`; the names under which a lookup finds the last value depend on the
        hashes of all names in the header. */
    method RecvResponse() returns (r: Response, ghost last: set<Name>)
      requires socket.reliable && KnowsResponse(env) && Arrives(env, callerId - 1, socket.incoming)
      modifies socket`incoming
      ensures Recv(env, last, callerId - 1, old(socket.incoming)) == Some(Received(r, socket.incoming))
      ensures Answered(env, last, callerId - 1, old(socket.incoming), r, socket.incoming)
    {
      hide Raw, RMessage.Read, RMessage.Integer, RecvPayload, Ascii;
      var found: set<Name> := *;
      last := found;
      ArrivesAs(env, callerId - 1, socket.incoming, last);
      RecvExactly(env, last, callerId - 1, socket.incoming);
      hide Answered;
      var rc, _, len := ReadRawVarint32(socket);
      if rc != 0 || len.None? || len.value <= 0 {
        r := OtherError;
        return;
      }
      ghost var behind := socket.incoming;
      var _, header := ReadBlock(len.value);
      assert header == behind[..len.value] && socket.incoming == behind[len.value..];
      var m := RMessage.New(env, env.msgs[RESPONSE_HEADER], header);
      if m.None? || ToInt32(RMessage.Integer(m.value, CALL_ID, 0, found)) != callerId - 1 {
        r := OtherError;
        return;
      }
      var status := RMessage.Integer(m.value, STATUS, 0, found);
      if status == 0 {
        r := RecvSuccess();
      } else {
        r := if status == 1 then Error else Fatal;
      }
    }

    /** The SUCCESS branch. */
    method RecvSuccess() returns (r: Response)
      requires socket.reliable && RecvPayload(socket.incoming).Some?
      modifies socket`incoming
      ensures RecvPayload(old(socket.incoming)) == Some(Received(r, socket.incoming))
    {
      hide OfLe32, Swap;
      ghost var was := socket.incoming;
      var _, size := ReadInt();
      if size <= 0 {
        return OtherError;
      }
      assert was[4..][..size] == was[4..4 + size] && was[4..][size..] == was[4 + size..];
      ghost var behind := socket.incoming;
      var _, payload := ReadBlock(size);
      assert payload == behind[..size] && socket.incoming == behind[size..];
      return Succeed(payload);
    }

    /** One string of `read_exception`. */
    method ReadString() returns (ok: bool, str: seq<byte>)
      requires socket.reliable ==> RecvString(socket.incoming).Some?
      modifies socket`incoming
      ensures socket.reliable || ok ==> RecvString(old(socket.incoming)) == Some(Text(ok, str, socket.incoming))
    {
      hide OfLe32, Swap;
      ghost var was := socket.incoming;
      var rc, len := ReadInt();
      if rc != 0 || len < 0 {
        return false, [];
      }
      ghost var behind := socket.incoming;
      rc, str := ReadBlock(len);
      if rc != 0 {
        return false, [];
      }
      assert str == behind[..len] && socket.incoming == behind[len..];
      assert was[4..][..len] == was[4..4 + len] && was[4..][len..] == was[4 + len..];
      ok := true;
    }

    /** `read_exception`. On a success both strings were on the stream; on a reliable
        connection it succeeds if and only if neither length is negative. */
    method ReadException() returns (rc: int, cls: seq<byte>, stack: seq<byte>)
      requires socket.reliable ==>
                 var c := RecvString(socket.incoming);
                 c.Some? && (c.value.ok ==> RecvString(c.value.rest).Some?)
      modifies socket`incoming
      ensures rc in {0, -1} && (rc == 0 ==> TwoStrings(old(socket.incoming), cls, stack, socket.incoming))
      ensures socket.reliable ==>
                && |old(socket.incoming)| >= 4
                && (rc == 0 <==>
                      && old(socket.incoming)[0] < 0x80
                      && var rest := RecvString(old(socket.incoming)).value.rest;
                         rest != [] && rest[0] < 0x80)
                && (rc == -1 ==> Stops(old(socket.incoming), socket.incoming))
    {
      ghost var c := RecvString(socket.incoming);
      if socket.reliable { StringExactly(socket.incoming); }
      if socket.reliable && c.value.ok { StringExactly(c.value.rest); }
      hide RecvString;
      var ok;
      cls, stack := [], [];
      ok, cls := ReadString();
      if !ok { return -1, [], []; }
      ok, stack := ReadString();
      if !ok { return -1, [], []; }
      return 0, cls, stack;
    }

    /** One call, as the generated stubs make it: send, wait, and on an error response read
        the exception. */
    method Call(request: seq<byte>, ghost e: Exchange, ghost rest: seq<byte>) returns (o: Outcome)
      requires socket.reliable && KnowsRequest(env) && KnowsResponse(env)
      requires 0 <= callerId < 0x7FFF_FFFF && |request| < 0x7FFF_0000
      requires Answers(env, callerId, e) && socket.incoming == Wire(e) + rest
      modifies this`callerId, socket
      ensures callerId == old(callerId) + 1 && o == e.outcome && socket.incoming == rest
      ensures socket.outgoing == old(socket.outgoing) + Frame(Encode(HeaderTree(env, old(callerId))), request)
    {
      hide Encode, HeaderTree, Frame, Answers, Wire, KnowsRequest, KnowsResponse;
      var _ := SendRequest(request);
      o := Wait(e, rest);
    }

    /** The answer to the call just sent. */
    method Wait(ghost e: Exchange, ghost rest: seq<byte>) returns (o: Outcome)
      requires socket.reliable && KnowsResponse(env)
      requires Answers(env, callerId - 1, e) && socket.incoming == Wire(e) + rest
      modifies socket`incoming
      ensures o == e.outcome && socket.incoming == rest
    {
      assert RESPONSE_HEADER in env.msgs;
      hide *;
      WireArrives(env, callerId - 1, e, rest);
      var r, last := RecvResponse();
      WireReceived(env, callerId - 1, e, rest, last);
      o := Finish(r, e, rest);
    }

    /** What the caller does with a response. */
    method Finish(r: Response, ghost e: Exchange, ghost rest: seq<byte>) returns (o: Outcome)
      requires socket.reliable && Reads(e, Received(r, socket.incoming), rest)
      modifies socket`incoming
      ensures o == e.outcome && socket.incoming == rest
    {
      hide RecvString, Counted;
      match r
      case Succeed(payload) => return Payload(payload);
      case Error =>
        var _, cls, stack := ReadException();
        return Exception(cls, stack);
      case Fatal => return Broken;
      case OtherError => return Broken;
    }

    /** Any number of calls on one connection, answered in order: every answer reaches the
        call it belongs to, and in the end the stream stands right behind the last one. */
    method CallAll(requests: seq<seq<byte>>, ghost es: seq<Exchange>, ghost rest: seq<byte>) returns (os: seq<Outcome>)
      requires socket.reliable && KnowsRequest(env) && KnowsResponse(env) && 0 <= callerId
               && callerId + |requests| <= 0x7FFF_FFFF
      requires |es| == |requests| && forall i | 0 <= i < |requests| ::
                 |requests[i]| < 0x7FFF_0000 && Answers(env, callerId + i, es[i])
      requires socket.incoming == Wires(es) + rest
      modifies this`callerId, socket
      ensures callerId == old(callerId) + |requests| && socket.incoming == rest
      ensures |os| == |requests| && forall i | 0 <= i < |os| :: os[i] == es[i].outcome
      ensures socket.outgoing == old(socket.outgoing) + Frames(env, old(callerId), requests)
    {
      hide Encode, HeaderTree, Frame, Answers, Wire, Recv, RecvString, KnowsRequest, KnowsResponse;
      os := [];
      var first := callerId;
      var i := 0;
      assert es[0..] == es && requests[..0] == [];
      NoFrames(env, first);
      while i < |requests|
        invariant 0 <= i <= |requests| && callerId == first + i && |os| == i
        invariant socket.incoming == Wires(es[i..]) + rest
        invariant forall k | 0 <= k < i :: os[k] == es[k].outcome
        invariant socket.outgoing == old(socket.outgoing) + Frames(env, first, requests[..i])
      {
        assert es[i..][0] == es[i] && es[i..][1..] == es[i + 1..];
        assert Wires(es[i..]) + rest == Wire(es[i]) + (Wires(es[i + 1..]) + rest);
        var o := Call(requests[i], es[i], Wires(es[i + 1..]) + rest);
        os := os + [o];
        assert requests[..i + 1][..i] == requests[..i];
        i := i + 1;
      }
      assert requests[..i] == requests && es[i..] == [];
    }
  }

  lemma FirstFour(bs: seq<byte>, rest: seq<byte>)
    requires |bs| == 4
    ensures OfLe32(bs + rest) == OfLe32(bs) && (bs + rest)[4..] == rest
  {
  }

  // ---- a server that answers in order

  datatype Outcome = Payload(bs: seq<byte>) | Exception(cls: seq<byte>, stack: seq<byte>) | Broken

  /** An answer: any header bytes that read as the call's id and its status, and the
      outcome. */
  datatype Exchange = Exchange(header: seq<byte>, outcome: Outcome)

  /** e answers call `id`: a non-empty payload, or an exception with both strings. */
  ghost predicate Answers(env: Env, id: int, e: Exchange)
    requires RESPONSE_HEADER in env.msgs
  {
    && 0 < |e.header| < 0x8000_0000
    && HeaderSays(RMessage.Read(env, env.msgs[RESPONSE_HEADER], e.header), id, if e.outcome.Payload? then 0 else 1)
    && match e.outcome
       case Payload(bs) => 0 < |bs| < 0x8000_0000
       case Exception(cls, stack) => |cls| < 0x8000_0000 && |stack| < 0x8000_0000
       case Broken => false
  }

  ghost predicate HeaderSays(m: Option<RMessage.RMsg>, id: int, status: word) {
    m.Some? && forall last: set<Name> ::
      ToInt32(RMessage.Integer(m.value, CALL_ID, 0, last)) == id && RMessage.Integer(m.value, STATUS, 0, last) == status
  }

  /** The header a server makes with the same message format. */
  ghost function ResponseTree(env: Env, id: word, status: word): Tree
    requires KnowsResponse(env)
  {
    var t := env.msgs[RESPONSE_HEADER];
    Tree(t, [Scalar(t.name[CALL_ID], Number(Longlong(id, 0))), Scalar(t.name[STATUS], Number(Longlong(status, 0)))])
  }

  /** Such a header says what was written to it. */
  lemma ResponseRead(env: Env, id: word, status: word)
    requires KnowsResponse(env) && id < 0x8000_0000
    ensures HeaderSays(RMessage.Read(env, env.msgs[RESPONSE_HEADER], Encode(ResponseTree(env, id, status))), id, status)
  {
    hide Encode, RMessage.Read, RoundTrip.ReadBack, RoundTrip.Grouped, RoundTrip.EntryReadsAs, Fits;
    var tree := ResponseTree(env, id, status);
    forall e | e in tree.entries ensures WrittenEntry(env, tree, e) {
      assert Fits(e.field, e.value) by { FitsSmall(e.field, e.value); }
    }
    RoundTrip.ReadEncoded(env, tree);
    ReadBackIs(env, tree);
    RoundTrip.GroupedIs(env, tree, 2, CALL_ID);
    RoundTrip.GroupedIs(env, tree, 2, STATUS);
    assert CALL_ID[0] == 99 && STATUS[0] == 115;
    SelectedTwo(env, tree, CALL_ID);
    SelectedTwo(env, tree, STATUS);
    ScalarReadsAs(env, tree, tree.entries[0]);
    ScalarReadsAs(env, tree, tree.entries[1]);
  }

  lemma FitsSmall(f: Field, v: Value)
    requires v.Number? && (f.ftype.ENUM? || f.ftype.UINT32?)
    ensures Fits(f, v)
  {
  }

  lemma SelectedTwo(env: Env, tree: Tree, name: Name)
    requires |tree.entries| == 2
    ensures RoundTrip.Selected(env, tree, 2, name)
            == Pick(env, tree, tree.entries[0], name) + Pick(env, tree, tree.entries[1], name)
  {
    hide RoundTrip.EntryReadsAs;
    assert RoundTrip.Selected(env, tree, 0, name) == [];
    assert RoundTrip.Selected(env, tree, 1, name) == Pick(env, tree, tree.entries[0], name);
  }

  function Counted(bs: seq<byte>): seq<byte> {
    Be32(|bs| % 0x1_0000_0000) + bs
  }

  /** The answer on the wire. */
  function Wire(e: Exchange): seq<byte> {
    Varint.Bytes(|e.header|) + (e.header +
      (match e.outcome
       case Payload(bs) => Counted(bs)
       case Exception(cls, stack) => Counted(cls) + Counted(stack)
       case Broken => []))
  }

  function Wires(es: seq<Exchange>): seq<byte> {
    if es == [] then [] else Wire(es[0]) + Wires(es[1..])
  }

  ghost function Frames(env: Env, first: int, requests: seq<seq<byte>>): seq<byte>
    requires KnowsRequest(env) && first >= 0 && first + |requests| <= 0x7FFF_FFFF
  {
    if requests == [] then []
    else
      var n := |requests| - 1;
      Frames(env, first, requests[..n]) + Frame(Encode(HeaderTree(env, first + n)), requests[n])
  }

  lemma NoFrames(env: Env, first: int)
    requires KnowsRequest(env) && 0 <= first <= 0x7FFF_FFFF
    ensures Frames(env, first, []) == []
  {
  }

  lemma CountedReads(bs: seq<byte>, rest: seq<byte>)
    requires |bs| < 0x8000_0000
    ensures RecvString(Counted(bs) + rest) == Some(Text(true, bs, rest))
    ensures bs != [] ==> RecvPayload(Counted(bs) + rest) == Some(Received(Succeed(bs), rest))
  {
    hide OfLe32, Swap, Be32;
    SwapOrder(|bs|, bs + rest);
    var all := Counted(bs) + rest;
    assert all == Be32(|bs|) + (bs + rest);
    assert all[4..4 + |bs|] == bs && all[4 + |bs|..] == rest;
  }

  /** What was received says what the answer e says, and the rest is behind it. */
  predicate Reads(e: Exchange, r: Received, rest: seq<byte>) {
    match e.outcome
    case Payload(bs) => r == Received(Succeed(bs), rest)
    case Exception(cls, stack) =>
      && r.response == Error
      && RecvString(r.rest) == Some(Text(true, cls, Counted(stack) + rest))
      && RecvString(Counted(stack) + rest) == Some(Text(true, stack, rest))
    case Broken => false
  }

  lemma WireArrives(env: Env, id: int, e: Exchange, rest: seq<byte>)
    requires RESPONSE_HEADER in env.msgs && Answers(env, id, e)
    ensures Arrives(env, id, Wire(e) + rest)
  {
    hide Recv, Wire, Answers, Reads;
    forall last: set<Name> ensures Recv(env, last, id, Wire(e) + rest).Some? {
      WireReceived(env, id, e, rest, last);
    }
  }

  /** An answer, whatever follows it, is received as what it says. */
  lemma WireReceived(env: Env, id: int, e: Exchange, rest: seq<byte>, last: set<Name>)
    requires RESPONSE_HEADER in env.msgs && Answers(env, id, e)
    ensures Recv(env, last, id, Wire(e) + rest).Some?
    ensures Reads(e, Recv(env, last, id, Wire(e) + rest).value, rest)
  {
    hide Varint.Bytes, Raw, RMessage.Read, RMessage.Integer, Counted, RecvString, RecvPayload, Ascii;
    var behind := match e.outcome
                  case Payload(bs) => Counted(bs) + rest
                  case Exception(cls, stack) => Counted(cls) + (Counted(stack) + rest)
                  case Broken => rest;
    var all := Varint.Bytes(|e.header|) + (e.header + behind);
    assert Wire(e) + rest == all;
    RawOfBytes(|e.header|, e.header + behind);
    var from := |Varint.Bytes(|e.header|)|;
    assert all[from..] == e.header + behind;
    assert (e.header + behind)[..|e.header|] == e.header && (e.header + behind)[|e.header|..] == behind;
    match e.outcome {
      case Payload(bs) => CountedReads(bs, rest);
      case Exception(cls, stack) =>
        CountedReads(cls, Counted(stack) + rest);
        CountedReads(stack, rest);
      case Broken =>
    }
  }
}
