/**
 The RPC byte stream: four magic bytes once per connection, then frames of
 two 32-bit lengths, header bytes and body bytes.

 The specification reads one byte at a time.  Phase changes that need no byte are made only when
 a further byte is at hand, as in the server's loops.
 */
module RpcStream {
  import opened Basics

  const MAGIC_SIZE := 4
  const LENGTHS_SIZE := 8
  const MAGIC_BYTES: seq<Byte> := [112, 101, 110, 103]  // "peng"
  const INT_LIMIT := 0x8000_0000

  datatype Request = Request(header: seq<Byte>, body: seq<Byte>)

  /** Where the parser stands inside a frame; `lengths` are the eight raw bytes of the length header. */
  datatype Phase =
    | Magic
    | Lengths(got: seq<Byte>)
    | RpcHeader(lengths: seq<Byte>, got: seq<Byte>)
    | RpcContent(lengths: seq<Byte>, header: seq<Byte>, got: seq<Byte>)
    | Lost  // a negative length was decoded

  datatype Conn = Conn(magic: seq<Byte>, phase: Phase)

  datatype Outcome = Outcome(conn: Conn, reqs: seq<Request>)

  const FRESH := Conn([], Magic)

  // ---------- Lengths ----------

  function DecodeInt(b: seq<Byte>): int
    requires |b| == 4
  {
    var b0: int, b1: int, b2: int, b3: int := b[0], b[1], b[2], b[3];
    var v := b0 + 256 * b1 + 65536 * b2 + 16777216 * b3;
    if v < INT_LIMIT then v else v - 2 * INT_LIMIT
  }

  /** Four bytes, the least significant first. */
  function EncodeInt(n: nat): (b: seq<Byte>)
    requires n < INT_LIMIT
    ensures |b| == 4 && DecodeInt(b) == n
  {
    var x := n / 256;
    var y := x / 256;
    [n % 256, x % 256, y % 256, y / 256]
  }

  lemma Digit(low: int, high: int)
    requires 0 <= low < 256
    ensures (low + 256 * high) / 256 == high && (low + 256 * high) % 256 == low
  {
  }

  lemma EncodeDecode(b: seq<Byte>)
    requires |b| == 4 && 0 <= DecodeInt(b)
    ensures DecodeInt(b) < INT_LIMIT && EncodeInt(DecodeInt(b)) == b
  {
    var b0: int, b1: int, b2: int, b3: int := b[0], b[1], b[2], b[3];
    var y := b2 + 256 * b3;
    var x := b1 + 256 * y;
    assert DecodeInt(b) == b0 + 256 * x;
    Digit(b0, x);
    Digit(b1, y);
    Digit(b2, b3);
  }

  /** The least significant byte comes first; the next three are those of the number without it. */
  lemma LittleEndian(n: nat)
    requires n < INT_LIMIT
    ensures EncodeInt(n)[0] == n % 256 && EncodeInt(n)[1..] == EncodeInt(n / 256)[..3]
  {
  }

  /** The number that bytes stand for, the least significant first. */
  function Unsigned(b: seq<Byte>): nat {
    if b == [] then 0
    else
      var low: int := b[0];
      low + 256 * Unsigned(b[1..])
  }

  /** Decoding four bytes gives their two's complement number, and encoding a length its own bytes. */
  lemma TwosComplement(b: seq<Byte>)
    requires |b| == 4
    ensures DecodeInt(b) == if Unsigned(b) < INT_LIMIT then Unsigned(b) else Unsigned(b) - 2 * INT_LIMIT
    ensures -INT_LIMIT <= DecodeInt(b) < INT_LIMIT && Unsigned(b) < 2 * INT_LIMIT
  {
    assert b[1..][1..] == b[2..] && b[2..][1..] == b[3..] && b[3..][1..] == [];
    assert Unsigned(b[3..]) == b[3];
    assert Unsigned(b[2..]) == b[2] as int + 256 * Unsigned(b[3..]);
    assert Unsigned(b[1..]) == b[1] as int + 256 * Unsigned(b[2..]);
  }

  function HeaderLength(lengths: seq<Byte>): int
    requires |lengths| == LENGTHS_SIZE
  {
    DecodeInt(lengths[..4])
  }

  function BodyLength(lengths: seq<Byte>): int
    requires |lengths| == LENGTHS_SIZE
  {
    DecodeInt(lengths[4..])
  }

  // ---------- The parser, byte by byte ----------

  /** What every reachable connection satisfies. */
  predicate Ok(c: Conn) {
    && |c.magic| <= MAGIC_SIZE
    && (!c.phase.Magic? && !c.phase.Lost? ==> |c.magic| == MAGIC_SIZE)
    && match c.phase
       case Magic => true
       case Lost => true
       case Lengths(got) => |got| < LENGTHS_SIZE
       case RpcHeader(lengths, got) =>
         |lengths| == LENGTHS_SIZE && |got| <= HeaderLength(lengths)
       case RpcContent(lengths, header, got) =>
         |lengths| == LENGTHS_SIZE && |header| == HeaderLength(lengths) && |got| <= BodyLength(lengths)
  }

  /** Bytes the current phase still wants; a lost connection swallows everything. */
  function Wanted(c: Conn): nat
    requires Ok(c)
  {
    match c.phase
    case Magic => MAGIC_SIZE - |c.magic|
    case Lengths(got) => LENGTHS_SIZE - |got|
    case RpcHeader(lengths, got) => HeaderLength(lengths) - |got|
    case RpcContent(lengths, header, got) => BodyLength(lengths) - |got|
    case Lost => 1
  }

  function Take(c: Conn, b: seq<Byte>): Conn
    requires Ok(c) && |b| <= Wanted(c)
  {
    match c.phase
    case Magic => c.(magic := c.magic + b)
    case Lengths(got) => c.(phase := Lengths(got + b))
    case RpcHeader(lengths, got) => c.(phase := RpcHeader(lengths, got + b))
    case RpcContent(lengths, header, got) => c.(phase := RpcContent(lengths, header, got + b))
    case Lost => c
  }

  /** The phase after `b` more bytes, when those complete the current one. */
  function Complete(c: Conn, b: seq<Byte>): Outcome
    requires Ok(c) && |b| == Wanted(c)
  {
    match c.phase
    case Magic => Outcome(Conn(c.magic + b, Lengths([])), [])
    case Lengths(got) => Outcome(c.(phase := StartHeader(got + b)), [])
    case RpcHeader(lengths, got) => Outcome(c.(phase := StartContent(lengths, got + b)), [])
    case RpcContent(lengths, header, got) => Outcome(c.(phase := Magic), [Request(header, got + b)])
    case Lost => Outcome(c, [])
  }

  function StartHeader(lengths: seq<Byte>): Phase
    requires |lengths| == LENGTHS_SIZE
  {
    if HeaderLength(lengths) < 0 then Lost else RpcHeader(lengths, [])
  }

  function StartContent(lengths: seq<Byte>, header: seq<Byte>): Phase
    requires |lengths| == LENGTHS_SIZE
  {
    if BodyLength(lengths) < 0 then Lost else RpcContent(lengths, header, [])
  }

  /** One turn of the server's loops: take as many of the bytes at hand as the phase wants. */
  function Turn(c: Conn, bytes: seq<Byte>): (r: (Outcome, nat))
    requires Ok(c) && bytes != []
    ensures r.1 <= |bytes| && Ok(r.0.conn)
  {
    if Wanted(c) <= |bytes| then (Complete(c, bytes[..Wanted(c)]), Wanted(c))
    else (Outcome(Take(c, bytes), []), |bytes|)
  }

  function Rank(p: Phase): nat {
    match p
    case RpcHeader(_, _) => 3
    case RpcContent(_, _, _) => 2
    case Magic => 1
    case Lengths(_) => 0
    case Lost => 0
  }

  /** The phase changes that need no byte. */
  function Settle(c: Conn): (r: Outcome)
    requires Ok(c)
    ensures Ok(r.conn) && Wanted(r.conn) > 0
    decreases Rank(c.phase)
  {
    if Wanted(c) > 0 then Outcome(c, [])
    else
      var o := Complete(c, []);
      Then(o.reqs, Settle(o.conn))
  }

  function Then(reqs: seq<Request>, o: Outcome): Outcome {
    Outcome(o.conn, reqs + o.reqs)
  }

  function Step(c: Conn, b: Byte): (r: Outcome)
    requires Ok(c)
    ensures Ok(r.conn)
  {
    var s := Settle(c);
    Then(s.reqs, Turn(s.conn, [b]).0)
  }

  function Run(c: Conn, bytes: seq<Byte>): (r: Outcome)
    requires Ok(c)
    ensures Ok(r.conn)
    decreases |bytes|
  {
    if bytes == [] then Outcome(c, [])
    else
      var o := Step(c, bytes[0]);
      Then(o.reqs, Run(o.conn, bytes[1..]))
  }

  // ---------- A turn is a run of its bytes ----------

  lemma ThenAssoc(a: seq<Request>, b: seq<Request>, o: Outcome)
    ensures Then(a, Then(b, o)) == Then(a + b, o)
  {
  }

  lemma ThenNil(o: Outcome)
    ensures Then([], o) == o
  {
  }

  lemma SettleFirst(c: Conn, bytes: seq<Byte>)
    requires Ok(c) && bytes != []
    ensures Run(c, bytes) == Then(Settle(c).reqs, Run(Settle(c).conn, bytes))
  {
    var s := Settle(c);
    var o := Turn(s.conn, [bytes[0]]).0;
    ThenNil(o);
    assert Step(s.conn, bytes[0]) == o;
    ThenAssoc(s.reqs, o.reqs, Run(o.conn, bytes[1..]));
  }

  lemma TakeOneRun(c: Conn, bytes: seq<Byte>)
    requires Ok(c) && Wanted(c) > 1 && bytes != []
    ensures Ok(Take(c, bytes[..1])) && Wanted(Take(c, bytes[..1])) == Wanted(c) - 1
    ensures Run(c, bytes) == Run(Take(c, bytes[..1]), bytes[1..])
  {
    var d := Take(c, bytes[..1]);
    assert bytes[..1] == [bytes[0]];
    assert Step(c, bytes[0]) == Outcome(d, []);
    ThenNil(Run(d, bytes[1..]));
  }

  lemma TakeOneTurn(c: Conn, bytes: seq<Byte>)
    requires Ok(c) && Wanted(c) > 1 && |bytes| > 1 && Ok(Take(c, bytes[..1]))
    ensures var d := Take(c, bytes[..1]);
      Turn(c, bytes) == (Turn(d, bytes[1..]).0, Turn(d, bytes[1..]).1 + 1)
  {
    var d := Take(c, bytes[..1]);
    if Wanted(c) <= |bytes| {
      assert bytes[..Wanted(c)] == bytes[..1] + bytes[1..][..Wanted(c) - 1];
      TakeComplete(c, bytes[..1], bytes[1..][..Wanted(c) - 1]);
    } else {
      assert bytes == bytes[..1] + bytes[1..];
      TakeTake(c, bytes[..1], bytes[1..]);
    }
  }

  lemma TakeTake(c: Conn, a: seq<Byte>, b: seq<Byte>)
    requires Ok(c) && !c.phase.Lost? && |a + b| < Wanted(c)
    ensures Ok(Take(c, a)) && Wanted(Take(c, a)) == Wanted(c) - |a|
    ensures Take(Take(c, a), b) == Take(c, a + b)
  {
    AppendAppend(c.magic, a, b);
    if !c.phase.Magic? {
      AppendAppend(c.phase.got, a, b);
    }
  }

  lemma TakeComplete(c: Conn, a: seq<Byte>, b: seq<Byte>)
    requires Ok(c) && !c.phase.Lost? && |a + b| == Wanted(c) && |b| > 0
    ensures Ok(Take(c, a)) && Wanted(Take(c, a)) == |b|
    ensures Complete(Take(c, a), b) == Complete(c, a + b)
  {
    AppendAppend(c.magic, a, b);
    if !c.phase.Magic? {
      AppendAppend(c.phase.got, a, b);
    }
  }

  lemma AppendAppend(x: seq<Byte>, a: seq<Byte>, b: seq<Byte>)
    ensures (x + a) + b == x + (a + b)
  {
  }

  /** Whatever a turn takes at once, the byte-by-byte parser takes one by one, with the same result. */
  lemma {:induction false} TurnIsRun(c: Conn, bytes: seq<Byte>)
    requires Ok(c) && bytes != []
    ensures var (o, n) := Turn(c, bytes); Run(c, bytes) == Then(o.reqs, Run(o.conn, bytes[n..]))
    decreases |bytes|
  {
    if Wanted(c) == 0 {
      var o := Complete(c, []);
      assert bytes[..0] == [] && bytes[0..] == bytes;
      SettleFirst(c, bytes);
      SettleFirst(o.conn, bytes);
      ThenAssoc(o.reqs, Settle(o.conn).reqs, Run(Settle(o.conn).conn, bytes));
    } else if Wanted(c) == 1 {
      assert bytes[..1] == [bytes[0]] == [bytes[0]][..1];
      assert Turn(c, bytes).0 == Turn(c, [bytes[0]]).0;
      ThenNil(Turn(c, [bytes[0]]).0);
      assert Step(c, bytes[0]) == Turn(c, bytes).0;
    } else {
      TakeOneRun(c, bytes);
      var d := Take(c, bytes[..1]);
      if |bytes| > 1 {
        TakeOneTurn(c, bytes);
        TurnIsRun(d, bytes[1..]);
        var n := Turn(d, bytes[1..]).1;
        assert bytes[1..][n..] == bytes[n + 1..];
      } else {
        assert bytes[..1] == bytes && bytes[1..] == [];
        ThenNil(Run(d, []));
      }
    }
  }
}
