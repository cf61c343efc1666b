/**
 The server's receive path as objects: a connection with its phase and magic bytes, a parser with
 its counters and the request under construction, and a receive buffer with a read position.
 `ParseConnection` is proved to do exactly what `RpcStream.Run` says, whatever the chunk.  Line
 numbers are those of parser.cpp unless another file is named.
 */
module RpcServer {
  import opened Basics
  import opened RpcStream
  import opened RpcTheorems

  datatype ParseType = M_MAGIC | M_HEADER | M_RPC_HEADER | M_RPC_CONTENT

  /** A request as received: raw lengths, and header and body in fragments. */
  datatype RequestBuf = RequestBuf(lengths: seq<Byte>, header: seq<seq<Byte>>, body: seq<seq<Byte>>)

  const EMPTY_REQUEST := RequestBuf([], [], [])

  function Contents(r: RequestBuf): Request {
    Request(Flatten(r.header), Flatten(r.body))
  }

  /** The lengths that came with the request are those of its header and body. */
  predicate Whole(r: RequestBuf) {
    && |r.lengths| == LENGTHS_SIZE
    && HeaderLength(r.lengths) == |Contents(r).header| && BodyLength(r.lengths) == |Contents(r).body|
  }

  class Buffer {
    var data: seq<Byte>
    var cur: nat

    constructor (bytes: seq<Byte>)
      ensures data == bytes && cur == 0
    {
      data, cur := bytes, 0;
    }

    ghost function Ahead(n: nat): seq<Byte>
      requires cur + n <= |data|
      reads this
    {
      data[cur..cur + n]
    }

    method Consume(n: nat)
      modifies this`cur
      ensures cur == old(cur) + n
    {
      cur := cur + n;
    }
  }

  class Connection {
    var magic: seq<Byte>
    var magicRemain: int
    var parseType: ParseType
    var parser: Parser?

    constructor ()
      ensures Valid() && Abs() == FRESH && parser == null
    {
      magic, magicRemain, parseType, parser := [], MAGIC_SIZE, M_MAGIC, null;
    }

    ghost predicate Valid()
      reads this, parser
    {
      && magicRemain == MAGIC_SIZE - |magic| && magicRemain >= 0
      && (parseType != M_MAGIC ==> magicRemain == 0)
      && (parser == null ==> parseType == M_MAGIC || parseType == M_HEADER)
      && (parser != null ==> parser.conn == this && parser.Consistent(parseType))
    }

    ghost function Abs(): (c: Conn)
      requires Valid()
      reads this, parser
      ensures Ok(c) && !c.phase.Lost?
    {
      Conn(magic, if parseType == M_MAGIC then Magic
                  else if parser == null then Lengths([])
                  else parser.AbsPhase(parseType))
    }
  }

  class Parser {
    const conn: Connection
    var headerRemain: int
    var rpcRemain: int
    var req: RequestBuf

    constructor (c: Connection)
      ensures conn == c && headerRemain == LENGTHS_SIZE && req == EMPTY_REQUEST && Consistent(M_HEADER)
    {
      conn := c;
      headerRemain, rpcRemain, req := LENGTHS_SIZE, 0, EMPTY_REQUEST;
    }

    ghost predicate Consistent(p: ParseType)
      reads this
    {
      var h, b := Flatten(req.header), Flatten(req.body);
      && headerRemain == LENGTHS_SIZE - |req.lengths|
      && match p
         case M_MAGIC => req == EMPTY_REQUEST
         case M_HEADER => headerRemain > 0 && req.header == [] && req.body == []
         case M_RPC_HEADER =>
           headerRemain == 0 && req.body == [] && rpcRemain == HeaderLength(req.lengths) - |h| && rpcRemain >= 0
         case M_RPC_CONTENT =>
           && headerRemain == 0 && |h| == HeaderLength(req.lengths)
           && rpcRemain == BodyLength(req.lengths) - |b| && rpcRemain >= 0
    }

    ghost function AbsPhase(p: ParseType): Phase
      requires Consistent(p)
      reads this
    {
      match p
      case M_MAGIC => Magic
      case M_HEADER => Lengths(req.lengths)
      case M_RPC_HEADER => RpcHeader(req.lengths, Flatten(req.header))
      case M_RPC_CONTENT => RpcContent(req.lengths, Flatten(req.header), Flatten(req.body))
    }

    /** Lines 29-42: fill the length header. */
    method TurnLengths(buf: Buffer, length: nat) returns (n: nat)
      requires conn.parser == this && conn.Valid() && conn.parseType == M_HEADER
      requires 0 < length && buf.cur + length <= |buf.data|
      requires !Turn(conn.Abs(), buf.Ahead(length)).0.conn.phase.Lost?
      modifies this, conn`parseType, buf`cur
      ensures conn.Valid() && conn.parseType in {M_HEADER, M_RPC_HEADER} && buf.cur == old(buf.cur) + n
      ensures n <= length && req == old(req).(lengths := old(req.lengths) + old(buf.Ahead(length))[..n])
      ensures (Outcome(conn.Abs(), []), n) == old(Turn(conn.Abs(), buf.Ahead(length)))
    {
      n := if headerRemain <= length then headerRemain else length;
      req := req.(lengths := req.lengths + buf.data[buf.cur..buf.cur + n]);
      assert old(buf.Ahead(length))[..n] == buf.data[buf.cur..buf.cur + n];
      buf.Consume(n);
      headerRemain := headerRemain - n;
      if headerRemain == 0 {
        conn.parseType := M_RPC_HEADER;
        rpcRemain := HeaderLength(req.lengths);
      }
    }

    /** Lines 43-55: collect header fragments. */
    method TurnHeader(buf: Buffer, length: nat) returns (n: nat)
      requires conn.parser == this && conn.Valid() && conn.parseType == M_RPC_HEADER
      requires 0 < length && buf.cur + length <= |buf.data|
      requires !Turn(conn.Abs(), buf.Ahead(length)).0.conn.phase.Lost?
      modifies this, conn`parseType, buf`cur
      ensures conn.Valid() && conn.parseType in {M_RPC_HEADER, M_RPC_CONTENT} && buf.cur == old(buf.cur) + n
      ensures n <= length && req == old(req).(header := old(req.header) + [old(buf.Ahead(length))[..n]])
      ensures (Outcome(conn.Abs(), []), n) == old(Turn(conn.Abs(), buf.Ahead(length)))
    {
      n := if rpcRemain <= length then rpcRemain else length;
      var fragment := buf.data[buf.cur..buf.cur + n];
      FlattenAppend(req.header, fragment);
      assert buf.Ahead(length)[..n] == fragment;
      req := req.(header := req.header + [fragment]);
      buf.Consume(n);
      rpcRemain := rpcRemain - n;
      if rpcRemain == 0 {
        conn.parseType := M_RPC_CONTENT;
        rpcRemain := BodyLength(req.lengths);
      }
    }

    /** Lines 56-69: collect body fragments; a full body is a request. */
    method TurnContent(buf: Buffer, length: nat) returns (n: nat, done: Option<RequestBuf>)
      requires conn.parser == this && conn.Valid() && conn.parseType == M_RPC_CONTENT
      requires 0 < length && buf.cur + length <= |buf.data|
      modifies this, conn`parseType, buf`cur
      ensures conn.Valid() && buf.cur == old(buf.cur) + n
      ensures conn.parseType == if done.Some? then M_MAGIC else M_RPC_CONTENT
      ensures n <= length && (if done.Some? then done.value else req) ==
        old(req).(body := old(req.body) + [old(buf.Ahead(length))[..n]])
      ensures done.Some? ==> Whole(done.value) && req == EMPTY_REQUEST
      ensures (Outcome(conn.Abs(), Emitted(done)), n) == old(Turn(conn.Abs(), buf.Ahead(length)))
    {
      n := if rpcRemain <= length then rpcRemain else length;
      var fragment := buf.data[buf.cur..buf.cur + n];
      FlattenAppend(req.body, fragment);
      assert buf.Ahead(length)[..n] == fragment;
      req := req.(body := req.body + [fragment]);
      buf.Consume(n);
      rpcRemain := rpcRemain - n;
      if rpcRemain > 0 {
        return n, None;
      }
      done := Some(req);
      req := EMPTY_REQUEST;
      Reset();
    }

    /** Lines 28-70: the turn of the current phase. */
    method PhaseTurn(buf: Buffer, length: nat) returns (n: nat, done: Option<RequestBuf>)
      requires conn.parser == this && conn.Valid() && conn.parseType != M_MAGIC
      requires 0 < length && buf.cur + length <= |buf.data|
      requires !Turn(conn.Abs(), buf.Ahead(length)).0.conn.phase.Lost?
      modifies this, conn`parseType, buf`cur
      ensures conn.Valid() && buf.cur == old(buf.cur) + n
      ensures done.Some? <==> conn.parseType == M_MAGIC
      ensures done.Some? ==> Whole(done.value)
      ensures (Outcome(conn.Abs(), Emitted(done)), n) == old(Turn(conn.Abs(), buf.Ahead(length)))
    {
      match conn.parseType {
        case M_HEADER =>
          n := TurnLengths(buf, length);
          done := None;
        case M_RPC_HEADER =>
          n := TurnHeader(buf, length);
          done := None;
        case M_RPC_CONTENT =>
          n, done := TurnContent(buf, length);
      }
    }

    /** The same turn, on the way to `out`. */
    method OneTurn(buf: Buffer, length: nat, ghost reqs: seq<Request>, ghost out: Outcome)
      returns (n: nat, done: Option<RequestBuf>)
      requires conn.parser == this && conn.Valid() && conn.parseType != M_MAGIC
      requires 0 < length && buf.cur + length <= |buf.data| && Leads(reqs, conn.Abs(), buf.Ahead(length), out)
      modifies this, conn`parseType, buf`cur
      ensures conn.Valid() && buf.cur == old(buf.cur) + n && n <= length
      ensures done.Some? <==> conn.parseType == M_MAGIC
      ensures done.Some? ==> Whole(done.value)
      ensures n == 0 ==> Rank(conn.Abs().phase) < old(Rank(conn.Abs().phase))
      ensures Leads(reqs + Emitted(done), conn.Abs(), buf.Ahead(length - n), out)
    {
      hide RpcStream.Run;
      ghost var before := buf.Ahead(length);
      LeadsTurn(reqs, conn.Abs(), before, out);
      n, done := PhaseTurn(buf, length);
      assert buf.Ahead(length - n) == before[n..];
    }

    /**
     `SplitMessage`: turns until a request is complete or the chunk is used up; `rest` bytes remain.
     Whatever outcome the parser was on its way to (having emitted `reqs`), it still is.
     */
    method SplitMessage(buf: Buffer, length: nat, ghost reqs: seq<Request>, ghost out: Outcome)
      returns (done: Option<RequestBuf>, rest: nat)
      requires conn.parser == this && conn.Valid() && conn.parseType != M_MAGIC
      requires buf.cur + length <= |buf.data| && Leads(reqs, conn.Abs(), buf.Ahead(length), out)
      modifies this, conn`parseType, buf`cur
      ensures conn.Valid() && rest <= length && buf.cur + rest == old(buf.cur) + length
      ensures done.None? ==> rest == 0
      ensures done.Some? ==> Whole(done.value)
      ensures rest == length > 0 ==> Rank(conn.Abs().phase) < old(Rank(conn.Abs().phase))
      ensures Leads(reqs + Emitted(done), conn.Abs(), buf.Ahead(rest), out)
    {
      hide RpcStream.Run;
      ghost var c, rank := conn.Abs(), Rank(conn.Abs().phase);
      done, rest := None, length;
      assert reqs + [] == reqs;
      while rest > 0
        invariant conn.Valid() && conn.parseType != M_MAGIC && conn.Abs() == c && done.None?
        invariant rest <= length && buf.cur + rest == old(buf.cur) + length
        invariant rest == length ==> Rank(c.phase) <= rank
        invariant Leads(reqs, c, buf.Ahead(rest), out)
        decreases rest, Rank(c.phase)
      {
        var n;
        n, done := OneTurn(buf, rest, reqs, out);
        rest, c := rest - n, conn.Abs();
        if done.Some? {
          return;
        }
      }
    }

    method Reset()
      modifies this`headerRemain, this`rpcRemain, conn`parseType
      ensures headerRemain == LENGTHS_SIZE && rpcRemain == 0 && conn.parseType == M_MAGIC
    {
      headerRemain := LENGTHS_SIZE;
      rpcRemain := 0;
      conn.parseType := M_MAGIC;
    }
  }

  ghost function Emitted(r: Option<RequestBuf>): seq<Request> {
    if r.None? then [] else [Contents(r.value)]
  }

  /** Having emitted `reqs`, the parser in state `c` with `bytes` ahead is on its way to `out`. */
  ghost predicate Leads(reqs: seq<Request>, c: Conn, bytes: seq<Byte>, out: Outcome) {
    Ok(c) && Then(reqs, Run(c, bytes)) == out && !out.conn.phase.Lost?
  }

  lemma LeadsTurn(reqs: seq<Request>, c: Conn, bytes: seq<Byte>, out: Outcome)
    requires Leads(reqs, c, bytes, out) && bytes != []
    ensures var (o, n) := Turn(c, bytes);
      && Leads(reqs + o.reqs, o.conn, bytes[n..], out) && !o.conn.phase.Lost?
      && (n == 0 ==> Rank(o.conn.phase) < Rank(c.phase))
  {
    var (o, n) := Turn(c, bytes);
    TurnIsRun(c, bytes);
    TurnNotLost(c, bytes);
    TurnKeepsMagic(c, bytes);
    ThenAssoc(reqs, o.reqs, Run(o.conn, bytes[n..]));
  }

  lemma TurnNotLost(c: Conn, bytes: seq<Byte>)
    requires Ok(c) && bytes != [] && !Run(c, bytes).conn.phase.Lost?
    ensures !Turn(c, bytes).0.conn.phase.Lost?
  {
    TurnIsRun(c, bytes);
    var (o, n) := Turn(c, bytes);
    if o.conn.phase.Lost? {
      LostStays(o.conn, bytes[n..]);
    }
  }

  function ContentsAll(rs: seq<RequestBuf>): seq<Request> {
    seq(|rs|, i requires 0 <= i < |rs| => Contents(rs[i]))
  }

  /** Lines 109-121 of main.cpp: the magic phase. */
  method TurnMagic(conn: Connection, buf: Buffer, length: nat) returns (n: nat)
    requires conn.Valid() && conn.parseType == M_MAGIC && 0 < length && buf.cur + length <= |buf.data|
    modifies conn`magic, conn`magicRemain, conn`parseType, buf`cur
    ensures conn.Valid() && buf.cur == old(buf.cur) + n
    ensures (Outcome(conn.Abs(), []), n) == old(Turn(conn.Abs(), buf.Ahead(length)))
  {
    n := if conn.magicRemain <= length then conn.magicRemain else length;
    conn.magic := conn.magic + buf.data[buf.cur..buf.cur + n];
    assert old(buf.Ahead(length))[..n] == buf.data[buf.cur..buf.cur + n];
    buf.Consume(n);
    conn.magicRemain := conn.magicRemain - n;
    if conn.magicRemain == 0 {
      conn.parseType := M_HEADER;
    }
  }

  /** Lines 108-132 of main.cpp: one turn of the outer loop, either the magic phase or a call of the parser. */
  method OuterTurn(conn: Connection, buf: Buffer, length: nat, ghost reqs: seq<Request>, ghost out: Outcome)
    returns (req: Option<RequestBuf>, rest: nat)
    requires conn.Valid() && 0 < length && buf.cur + length <= |buf.data|
    requires Leads(reqs, conn.Abs(), buf.Ahead(length), out)
    modifies conn, conn.parser, buf`cur
    ensures conn.Valid() && rest <= length && buf.cur + rest == old(buf.cur) + length
    ensures conn.parser == old(conn.parser) || (old(conn.parser) == null && fresh(conn.parser))
    ensures rest == length ==> Rank(conn.Abs().phase) < old(Rank(conn.Abs().phase))
    ensures req.Some? ==> Whole(req.value)
    ensures Leads(reqs + Emitted(req), conn.Abs(), buf.Ahead(rest), out)
  {
    hide Run;
    hide Turn;
    hide Ok;
    if conn.parseType == M_MAGIC {
      ghost var before := buf.Ahead(length);
      LeadsTurn(reqs, conn.Abs(), before, out);
      var n := TurnMagic(conn, buf, length);
      req, rest := None, length - n;
      assert buf.Ahead(rest) == before[n..];
    } else {
      if conn.parser == null {
        conn.parser := new Parser(conn);
      }
      req, rest := conn.parser.SplitMessage(buf, length, reqs, out);
    }
  }

  /**
   `parse_connection`: feed one chunk.  The state and the requests are those of the byte-by-byte parser,
   for every chunk that decodes no negative length.
   */
  method ParseConnection(conn: Connection, buf: Buffer, length: nat) returns (reqs: seq<RequestBuf>)
    requires conn.Valid() && buf.cur + length <= |buf.data|
    requires !Run(conn.Abs(), buf.Ahead(length)).conn.phase.Lost?
    modifies conn, conn.parser, buf`cur
    ensures conn.Valid() && buf.cur == old(buf.cur) + length
    ensures conn.parser == old(conn.parser) || (old(conn.parser) == null && fresh(conn.parser))
    ensures Outcome(conn.Abs(), ContentsAll(reqs)) == old(Run(conn.Abs(), buf.Ahead(length)))
    ensures forall i :: 0 <= i < |reqs| ==> Whole(reqs[i])
  {
    hide Whole;
    hide Ok;
    hide Settle;
    hide Step;
    ghost var out := Run(conn.Abs(), buf.Ahead(length));
    var rest: nat := length;
    reqs := [];
    ThenNil(out);
    while rest > 0
      invariant conn.Valid() && rest <= length && buf.cur + rest == old(buf.cur) + length
      invariant conn.parser == old(conn.parser) || (old(conn.parser) == null && fresh(conn.parser))
      invariant Leads(ContentsAll(reqs), conn.Abs(), buf.Ahead(rest), out)
      invariant forall i :: 0 <= i < |reqs| ==> Whole(reqs[i])
      decreases rest, Rank(conn.Abs().phase)
    {
      var req;
      req, rest := OuterTurn(conn, buf, rest, ContentsAll(reqs), out);
      if req.Some? {
        assert ContentsAll(reqs + [req.value]) == ContentsAll(reqs) + Emitted(req);
        reqs := reqs + [req.value];
      } else {
        assert ContentsAll(reqs) + Emitted(req) == ContentsAll(reqs);
      }
    }
    assert ContentsAll(reqs) + [] == ContentsAll(reqs);
  }

  // ---------- Writing ----------

  /** `memcpy` to an offset, behind what has been written so far. */
  method CopyAt(buf: array<Byte>, at: nat, bytes: seq<Byte>, ghost written: seq<Byte>)
    requires at + |bytes| <= buf.Length && buf[..at] == written
    modifies buf
    ensures buf[..at + |bytes|] == written + bytes
    ensures forall k :: at + |bytes| <= k < buf.Length ==> buf[k] == old(buf[k])
  {
    for i := 0 to |bytes|
      invariant buf[..at + i] == written + bytes[..i]
      invariant forall k :: at + i <= k < buf.Length ==> buf[k] == old(buf[k])
    {
      buf[at + i] := bytes[i];
    }
  }

  /** The client's request and the server's reply: magic, lengths, header and body at computed offsets. */
  method WriteMessage(buf: array<Byte>, r: Request) returns (length: nat)
    requires Encodable(r) && MAGIC_SIZE + LENGTHS_SIZE + |r.header| + |r.body| <= buf.Length
    modifies buf
    ensures length == |EncodeMessage(r)| <= buf.Length
    ensures buf[..length] == EncodeMessage(r)
    ensures forall i :: length <= i < buf.Length ==> buf[i] == old(buf[i])
  {
    hide EncodeInt;
    hide EncodeMessage;
    var lengths := EncodeInt(|r.header|) + EncodeInt(|r.body|);
    MessageParts(r, lengths);
    CopyAt(buf, 0, MAGIC_BYTES, []);
    assert [] + MAGIC_BYTES == MAGIC_BYTES;
    CopyAt(buf, 4, lengths, MAGIC_BYTES);
    CopyAt(buf, 12, r.header, MAGIC_BYTES + lengths);
    CopyAt(buf, 12 + |r.header|, r.body, MAGIC_BYTES + lengths + r.header);
    length := 12 + |r.header| + |r.body|;
  }

  lemma MessageParts(r: Request, lengths: seq<Byte>)
    requires Encodable(r) && lengths == EncodeInt(|r.header|) + EncodeInt(|r.body|)
    ensures EncodeMessage(r) == MAGIC_BYTES + lengths + r.header + r.body
  {
    hide EncodeInt;
  }
}
