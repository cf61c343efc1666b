/**
 What the stream parser guarantees over whole streams: independence of chunking, losslessness,
 and the round trip with the encoders.
 */
module RpcTheorems {
  import opened Basics
  import opened RpcStream

  // ---------- Chunking ----------

  lemma {:induction false} RunSplits(c: Conn, a: seq<Byte>, b: seq<Byte>)
    requires Ok(c)
    ensures Run(c, a + b) == Then(Run(c, a).reqs, Run(Run(c, a).conn, b))
    decreases |a|
  {
    if a == [] {
      assert a + b == b;
      ThenNil(Run(c, b));
    } else {
      var o := Step(c, a[0]);
      assert (a + b)[0] == a[0] && (a + b)[1..] == a[1..] + b;
      RunSplits(o.conn, a[1..], b);
      var r := Run(o.conn, a[1..]);
      ThenAssoc(o.reqs, r.reqs, Run(r.conn, b));
    }
  }

  /** Feed the chunks one after the other, collecting the requests of each. */
  function RunChunks(c: Conn, chunks: seq<seq<Byte>>): (r: Outcome)
    requires Ok(c)
    ensures Ok(r.conn)
    decreases |chunks|
  {
    if chunks == [] then Outcome(c, [])
    else
      var o := Run(c, chunks[0]);
      Then(o.reqs, RunChunks(o.conn, chunks[1..]))
  }

  /** From any reachable state, every way of cutting the stream gives the same state and the same requests. */
  lemma {:induction false} ChunkingIndependent(c: Conn, chunks: seq<seq<Byte>>)
    requires Ok(c)
    ensures RunChunks(c, chunks) == Run(c, Flatten(chunks))
    decreases |chunks|
  {
    if chunks != [] {
      RunSplits(c, chunks[0], Flatten(chunks[1..]));
      ChunkingIndependent(Run(c, chunks[0]).conn, chunks[1..]);
    }
  }

  // ---------- Losslessness ----------

  predicate Encodable(r: Request) {
    |r.header| < INT_LIMIT && |r.body| < INT_LIMIT
  }

  function EncodeFrame(r: Request): seq<Byte>
    requires Encodable(r)
  {
    EncodeInt(|r.header|) + EncodeInt(|r.body|) + r.header + r.body
  }

  function EncodeAll(rs: seq<Request>): seq<Byte>
    requires forall r :: r in rs ==> Encodable(r)
  {
    if rs == [] then [] else EncodeFrame(rs[0]) + EncodeAll(rs[1..])
  }

  /** The bytes of the unfinished frame. */
  function Pending(p: Phase): seq<Byte> {
    match p
    case Magic => []
    case Lost => []
    case Lengths(got) => got
    case RpcHeader(lengths, got) => lengths + got
    case RpcContent(lengths, header, got) => lengths + header + got
  }

  predicate AllEncodable(rs: seq<Request>) {
    forall r :: r in rs ==> Encodable(r)
  }

  lemma {:induction false} EncodeAllSplits(a: seq<Request>, b: seq<Request>)
    requires AllEncodable(a) && AllEncodable(b)
    ensures AllEncodable(a + b) && EncodeAll(a + b) == EncodeAll(a) + EncodeAll(b)
    decreases |a|
  {
    if a == [] {
      assert a + b == b;
    } else {
      assert (a + b)[1..] == a[1..] + b;
      EncodeAllSplits(a[1..], b);
    }
  }

  /** `o` was reached from `c` by `bytes` with nothing lost, invented or reordered. */
  predicate Accounts(c: Conn, bytes: seq<Byte>, o: Outcome) {
    && AllEncodable(o.reqs)
    && c.magic + Pending(c.phase) + bytes == o.conn.magic + EncodeAll(o.reqs) + Pending(o.conn.phase)
  }

  lemma FrameBytes(lengths: seq<Byte>, r: Request)
    requires |lengths| == LENGTHS_SIZE && HeaderLength(lengths) == |r.header| && BodyLength(lengths) == |r.body|
    ensures Encodable(r) && EncodeFrame(r) == lengths + r.header + r.body
  {
    EncodeDecode(lengths[..4]);
    EncodeDecode(lengths[4..]);
    assert lengths == lengths[..4] + lengths[4..];
  }

  lemma CompleteAccounts(c: Conn, b: seq<Byte>)
    requires Ok(c) && |b| == Wanted(c) && !Complete(c, b).conn.phase.Lost?
    ensures Accounts(c, b, Complete(c, b))
  {
    hide DecodeInt;
    hide EncodeInt;
    match c.phase
    case Magic =>
    case Lengths(got) =>
    case RpcHeader(lengths, got) =>
    case RpcContent(lengths, header, got) =>
      var r := Request(header, got + b);
      FrameBytes(lengths, r);
      assert EncodeAll([r]) == EncodeFrame(r) + [];
  }

  lemma TurnAccounts(c: Conn, bytes: seq<Byte>)
    requires Ok(c) && bytes != [] && !Turn(c, bytes).0.conn.phase.Lost?
    ensures Accounts(c, bytes[..Turn(c, bytes).1], Turn(c, bytes).0)
  {
    if Wanted(c) <= |bytes| {
      CompleteAccounts(c, bytes[..Wanted(c)]);
    } else {
      assert bytes[..|bytes|] == bytes;
    }
  }

  lemma AccountsThen(c: Conn, a: seq<Byte>, o: Outcome, b: seq<Byte>, p: Outcome)
    requires Accounts(c, a, o) && Accounts(o.conn, b, p)
    requires o.reqs == [] || p.conn.magic == o.conn.magic
    ensures Accounts(c, a + b, Then(o.reqs, p))
  {
    EncodeAllSplits(o.reqs, p.reqs);
    var pre, m, x, y := c.magic + Pending(c.phase), o.conn.magic, Pending(o.conn.phase), Pending(p.conn.phase);
    if o.reqs == [] {
      assert Then(o.reqs, p).reqs == p.reqs;
      JoinFirst(pre, a, m, x, b, p.conn.magic + EncodeAll(p.reqs) + y);
    } else {
      JoinLater(pre, a, m, EncodeAll(o.reqs), x, b, EncodeAll(p.reqs), y);
    }
  }

  lemma JoinFirst(pre: seq<Byte>, a: seq<Byte>, m: seq<Byte>, x: seq<Byte>, b: seq<Byte>, t: seq<Byte>)
    requires pre + a == m + [] + x && m + x + b == t
    ensures pre + (a + b) == t
  {
    assert pre + (a + b) == (pre + a) + b;
    assert m + [] + x == m + x;
  }

  lemma JoinLater(pre: seq<Byte>, a: seq<Byte>, m: seq<Byte>, e: seq<Byte>, x: seq<Byte>, b: seq<Byte>,
                  f: seq<Byte>, y: seq<Byte>)
    requires pre + a == m + e + x && m + x + b == m + f + y
    ensures pre + (a + b) == m + (e + f) + y
  {
    Cancel(m, x, b, f, y);
    assert pre + (a + b) == (pre + a) + b;
    assert (m + e + x) + b == m + e + (x + b);
    assert m + (e + f) + y == m + e + (f + y);
  }

  lemma Cancel(m: seq<Byte>, x: seq<Byte>, b: seq<Byte>, f: seq<Byte>, y: seq<Byte>)
    requires m + x + b == m + f + y
    ensures x + b == f + y
  {
    assert m + x + b == m + (x + b) && m + f + y == m + (f + y);
    assert x + b == (m + (x + b))[|m|..];
    assert f + y == (m + (f + y))[|m|..];
  }

  lemma {:induction false} LostStays(c: Conn, bytes: seq<Byte>)
    requires Ok(c) && c.phase.Lost?
    ensures Run(c, bytes).conn.phase.Lost? && Run(c, bytes).reqs == []
    decreases |bytes|
  {
    if bytes != [] {
      LostStays(Step(c, bytes[0]).conn, bytes[1..]);
    }
  }

  /**
   From any reachable state and for every stream that decodes no negative length: magic bytes, then the
   encodings of the requests in order, then the unfinished frame, are exactly the bytes received.
   */
  lemma {:induction false} RunLosesNothing(c: Conn, bytes: seq<Byte>)
    requires Ok(c) && !Run(c, bytes).conn.phase.Lost?
    ensures Accounts(c, bytes, Run(c, bytes))
    ensures |c.magic| == MAGIC_SIZE ==> Run(c, bytes).conn.magic == c.magic
    decreases |bytes|, Rank(c.phase)
  {
    if bytes == [] {
      NothingAccounts(c);
    } else {
      TurnIsRun(c, bytes);
      TurnKeepsMagic(c, bytes);
      var (o, n) := Turn(c, bytes);
      hide *;
      if o.conn.phase.Lost? {
        LostStays(o.conn, bytes[n..]);
      } else {
        RunLosesNothing(o.conn, bytes[n..]);
        TurnThenRest(c, bytes, Run(o.conn, bytes[n..]));
      }
    }
  }

  /** If the rest of the run accounts for the rest of the bytes, the turn and the rest account for all. */
  lemma TurnThenRest(c: Conn, bytes: seq<Byte>, p: Outcome)
    requires Ok(c) && bytes != []
    requires var (o, n) := Turn(c, bytes);
      && !o.conn.phase.Lost? && Accounts(o.conn, bytes[n..], p)
      && (|o.conn.magic| == MAGIC_SIZE ==> p.conn.magic == o.conn.magic)
    ensures Accounts(c, bytes, Then(Turn(c, bytes).0.reqs, p))
    ensures |c.magic| == MAGIC_SIZE ==> p.conn.magic == c.magic
  {
    TurnKeepsMagic(c, bytes);
    TurnAccounts(c, bytes);
    var (o, n) := Turn(c, bytes);
    assert bytes[..n] + bytes[n..] == bytes;
    hide *;
    AccountsThen(c, bytes[..n], o, bytes[n..], p);
  }

  lemma NothingAccounts(c: Conn)
    ensures Accounts(c, [], Outcome(c, []))
  {
  }

  lemma TurnKeepsMagic(c: Conn, bytes: seq<Byte>)
    requires Ok(c) && bytes != []
    ensures var (o, n) := Turn(c, bytes);
      && (|c.magic| == MAGIC_SIZE ==> o.conn.magic == c.magic)
      && (o.reqs != [] ==> |o.conn.magic| == MAGIC_SIZE)
      && (n == 0 ==> Rank(o.conn.phase) < Rank(c.phase))
  {
  }

  /** The byte count: four magic bytes (or fewer so far), the sizes of the emitted frames, the partial frame. */
  lemma BytesAreCounted(bytes: seq<Byte>)
    requires !Run(FRESH, bytes).conn.phase.Lost?
    ensures var r := Run(FRESH, bytes);
      AllEncodable(r.reqs) && |bytes| == |r.conn.magic| + FrameSizes(r.reqs) + |Pending(r.conn.phase)|
  {
    hide Run;
    hide EncodeAll;
    RunLosesNothing(FRESH, bytes);
    var r := Run(FRESH, bytes);
    SizeOfEncoding(r.reqs);
    assert FRESH.magic + Pending(FRESH.phase) + bytes == bytes;
  }

  function FrameSizes(rs: seq<Request>): nat {
    if rs == [] then 0 else LENGTHS_SIZE + |rs[0].header| + |rs[0].body| + FrameSizes(rs[1..])
  }

  lemma {:induction false} SizeOfEncoding(rs: seq<Request>)
    requires AllEncodable(rs)
    ensures |EncodeAll(rs)| == FrameSizes(rs)
  {
    if rs != [] {
      SizeOfEncoding(rs[1..]);
    }
  }

  // ---------- Round trip ----------

  /** A connection that has its magic bytes and stands at the start of a frame. */
  predicate AtFrameStart(c: Conn) {
    Ok(c) && |c.magic| == MAGIC_SIZE && c.phase == Lengths([])
  }

  lemma ReadTurn(c: Conn, b: seq<Byte>, rest: seq<Byte>)
    requires Ok(c) && |b| == Wanted(c) && |b + rest| > 0
    ensures Run(c, b + rest) == Then(Complete(c, b).reqs, Run(Turn(c, b + rest).0.conn, rest))
    ensures Turn(c, b + rest) == (Complete(c, b), |b|)
  {
    var s := b + rest;
    assert s[..|b|] == b && s[|b|..] == rest;
    TurnIsRun(c, s);
  }

  lemma CompleteLengths(c: Conn, lengths: seq<Byte>)
    requires AtFrameStart(c) && |lengths| == LENGTHS_SIZE && HeaderLength(lengths) >= 0
    ensures Complete(c, lengths) == Outcome(c.(phase := RpcHeader(lengths, [])), [])
  {
    assert [] + lengths == lengths;
  }

  lemma ReadLengths(c: Conn, lengths: seq<Byte>, rest: seq<Byte>)
    requires AtFrameStart(c) && |lengths| == LENGTHS_SIZE && HeaderLength(lengths) >= 0
    ensures Run(c, lengths + rest) == Run(c.(phase := RpcHeader(lengths, [])), rest)
  {
    CompleteLengths(c, lengths);
    ReadTurn(c, lengths, rest);
    ThenNil(Run(Complete(c, lengths).conn, rest));
  }

  lemma ReadHeader(c: Conn, lengths: seq<Byte>, h: seq<Byte>, rest: seq<Byte>)
    requires AtFrameStart(c) && |lengths| == LENGTHS_SIZE && |h + rest| > 0
    requires HeaderLength(lengths) == |h| && BodyLength(lengths) >= 0
    ensures Run(c.(phase := RpcHeader(lengths, [])), h + rest) == Run(c.(phase := RpcContent(lengths, h, [])), rest)
  {
    assert [] + h == h;
    ReadTurn(c.(phase := RpcHeader(lengths, [])), h, rest);
    ThenNil(Run(c.(phase := RpcContent(lengths, h, [])), rest));
  }

  lemma ReadBody(c: Conn, lengths: seq<Byte>, r: Request, rest: seq<Byte>)
    requires AtFrameStart(c) && |lengths| == LENGTHS_SIZE && |r.body + rest| > 0
    requires HeaderLength(lengths) == |r.header| && BodyLength(lengths) == |r.body|
    ensures Run(c.(phase := RpcContent(lengths, r.header, [])), r.body + rest) ==
      Then([r], Run(c.(phase := Magic), rest))
  {
    assert [] + r.body == r.body;
    ReadTurn(c.(phase := RpcContent(lengths, r.header, [])), r.body, rest);
  }

  function LengthsOf(r: Request): (l: seq<Byte>)
    requires Encodable(r)
    ensures |l| == LENGTHS_SIZE && HeaderLength(l) == |r.header| && BodyLength(l) == |r.body|
  {
    var a, b := EncodeInt(|r.header|), EncodeInt(|r.body|);
    assert (a + b)[..4] == a && (a + b)[4..] == b;
    a + b
  }

  /** Reading one frame from a frame start, with at least one more byte to come or a body to end on. */
  lemma FrameIsRead(c: Conn, r: Request, rest: seq<Byte>)
    requires AtFrameStart(c) && Encodable(r) && |r.body + rest| > 0
    ensures Run(c, EncodeFrame(r) + rest) == Then([r], Run(c.(phase := Magic), rest))
  {
    var l := LengthsOf(r);
    assert EncodeFrame(r) + rest == l + (r.header + (r.body + rest));
    ReadLengths(c, l, r.header + (r.body + rest));
    ReadHeader(c, l, r.header, r.body + rest);
    ReadBody(c, l, r, rest);
  }

  /** An empty body at the very end of the stream is complete but waits for a further byte. */
  lemma EmptyBodyWaits(c: Conn, r: Request)
    requires AtFrameStart(c) && Encodable(r) && r.body == []
    ensures var o := Run(c, EncodeFrame(r)); o.reqs == [] && Settle(o.conn).reqs == [r]
  {
    var l := LengthsOf(r);
    assert EncodeFrame(r) == l + r.header;
    ReadLengths(c, l, r.header);
    var c1 := c.(phase := RpcHeader(l, []));
    var c2 := c.(phase := RpcContent(l, r.header, []));
    ContentSettles(c2, r);
    if r.header != [] {
      assert r.header + [] == r.header;
      ReadHeader(c, l, r.header, []);
    } else {
      assert Complete(c1, []) == Outcome(c2, []);
    }
  }

  lemma ContentSettles(c: Conn, r: Request)
    requires Ok(c) && c.phase.RpcContent? && c.phase.header == r.header && c.phase.got == []
    requires r.body == [] && BodyLength(c.phase.lengths) == 0
    ensures Settle(c).reqs == [r]
  {
    var m := c.(phase := Magic);
    assert [] + [] == r.body;
    assert Complete(c, []) == Outcome(m, [r]);
    assert Settle(m).reqs == [];
  }

  lemma StartSettles(c: Conn)
    requires Ok(c) && |c.magic| == MAGIC_SIZE && (c.phase == Magic || c.phase == Lengths([]))
    ensures Settle(c) == Outcome(c.(phase := Lengths([])), [])
  {
  }

  /** After the magic, any list of frames parses to that list in order; only an empty last body still waits. */
  lemma {:induction false} FramesRoundTrip(c: Conn, rs: seq<Request>)
    requires Ok(c) && |c.magic| == MAGIC_SIZE && (c.phase == Magic || c.phase == Lengths([]))
    requires AllEncodable(rs)
    ensures var o := Run(c, EncodeAll(rs));
      && o.reqs + Settle(o.conn).reqs == rs
      && (rs == [] || rs[|rs| - 1].body != [] ==> o.reqs == rs)
    decreases |rs|
  {
    StartSettles(c);
    if rs != [] {
      var d := c.(phase := Lengths([]));
      var r, rest := rs[0], EncodeAll(rs[1..]);
      SettleFirst(c, EncodeAll(rs));
      ThenNil(Run(d, EncodeAll(rs)));
      if |r.body + rest| > 0 {
        FrameIsRead(d, r, rest);
        FramesRoundTrip(c.(phase := Magic), rs[1..]);
        FirstThenRest(rs, Run(c.(phase := Magic), rest));
      } else {
        SizeOfEncoding(rs[1..]);
        assert rs == [r];
        assert EncodeFrame(r) + [] == EncodeFrame(r);
        EmptyBodyWaits(d, r);
      }
    }
  }

  lemma FirstThenRest(rs: seq<Request>, o: Outcome)
    requires rs != [] && Ok(o.conn) && o.reqs + Settle(o.conn).reqs == rs[1..]
    ensures Then([rs[0]], o).reqs + Settle(o.conn).reqs == rs
    ensures o.reqs == rs[1..] ==> Then([rs[0]], o).reqs == rs
  {
  }

  /** What the client and the server's reply write: magic, lengths, header, body. */
  function EncodeMessage(r: Request): seq<Byte>
    requires Encodable(r)
  {
    MAGIC_BYTES + EncodeFrame(r)
  }

  /** The bytes on the wire: "peng", both lengths with the header's first, the header, the body. */
  lemma MessageLayout(r: Request)
    requires Encodable(r)
    ensures var m, h := EncodeMessage(r), |r.header|;
      && |m| == 12 + h + |r.body| && m[..4] == [112, 101, 110, 103]
      && Unsigned(m[4..8]) == h && Unsigned(m[8..12]) == |r.body|
      && m[12..12 + h] == r.header && m[12 + h..] == r.body
  {
    hide DecodeInt;
    hide EncodeInt;
    hide Unsigned;
    var m, a, b := EncodeMessage(r), EncodeInt(|r.header|), EncodeInt(|r.body|);
    assert m == MAGIC_BYTES + a + b + r.header + r.body;
    assert m[4..8] == a && m[8..12] == b;
    TwosComplement(a);
    TwosComplement(b);
  }

  lemma {:induction false} MagicIsRead(m: seq<Byte>, rest: seq<Byte>)
    requires |m| == MAGIC_SIZE
    ensures Run(FRESH, m + rest) == Run(Conn(m, Lengths([])), rest)
  {
    assert (m + rest)[..4] == m && (m + rest)[4..] == rest;
    TurnIsRun(FRESH, m + rest);
    assert [] + m == m;
    assert Turn(FRESH, m + rest) == (Outcome(Conn(m, Lengths([])), []), 4);
    ThenNil(Run(Conn(m, Lengths([])), rest));
  }

  /** Magic and any list of frames, delivered in any chunks to a new connection, parse to that list. */
  lemma StreamRoundTrip(m: seq<Byte>, rs: seq<Request>, chunks: seq<seq<Byte>>)
    requires |m| == MAGIC_SIZE && AllEncodable(rs)
    requires Flatten(chunks) == m + EncodeAll(rs)
    ensures var o := RunChunks(FRESH, chunks);
      && o.reqs + Settle(o.conn).reqs == rs
      && (rs == [] || rs[|rs| - 1].body != [] ==> o.reqs == rs)
  {
    ChunkingIndependent(FRESH, chunks);
    MagicIsRead(m, EncodeAll(rs));
    FramesRoundTrip(Conn(m, Lengths([])), rs);
  }

  /** One client message with a body, delivered in any chunks, parses to exactly its header and body. */
  lemma MessageRoundTrip(r: Request, chunks: seq<seq<Byte>>)
    requires Encodable(r) && r.body != [] && Flatten(chunks) == EncodeMessage(r)
    ensures RunChunks(FRESH, chunks) == Outcome(Conn(MAGIC_BYTES, Magic), [r])
  {
    ChunkingIndependent(FRESH, chunks);
    MagicIsRead(MAGIC_BYTES, EncodeFrame(r));
    assert EncodeFrame(r) + [] == EncodeFrame(r);
    FrameIsRead(Conn(MAGIC_BYTES, Lengths([])), r, []);
  }
}
