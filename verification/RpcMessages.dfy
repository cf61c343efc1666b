/**
 Several messages on one connection.  The client writes the magic before every message; the server
 consumes it once.
 */
module RpcMessages {
  import opened Basics
  import opened RpcStream
  import opened RpcTheorems

  /** The bytes a client writes for `ms`, one message after the other. */
  function Messages(ms: seq<Request>): seq<Byte>
    requires AllEncodable(ms)
  {
    if ms == [] then [] else EncodeMessage(ms[0]) + Messages(ms[1..])
  }

  /** The magic bytes, read as a header length. */
  const MAGIC_AS_LENGTH := 1735288176

  /** The magic bytes over and over, `n` bytes of them. */
  function Echo(n: nat): (s: seq<Byte>)
    ensures |s| == n
  {
    seq(n, i requires 0 <= i => MAGIC_BYTES[i % 4])
  }

  /** The only message whose frame is nothing but magic bytes. */
  const ECHO := Request(Echo(MAGIC_AS_LENGTH), Echo(MAGIC_AS_LENGTH))

  const ECHO_SIZE := LENGTHS_SIZE + 2 * MAGIC_AS_LENGTH

  // ---------- What is emitted was received ----------

  /** Even on a run that gets lost, the emitted frames are the first bytes received. */
  lemma {:induction false} EmittedIsPrefix(c: Conn, bytes: seq<Byte>)
    requires Ok(c) && |c.magic| == MAGIC_SIZE
    ensures var rs := Run(c, bytes).reqs; AllEncodable(rs) && EncodeAll(rs) <= Pending(c.phase) + bytes
    decreases |bytes|, Rank(c.phase)
  {
    hide Ok;
    hide Turn;
    hide Run;
    hide Accounts;
    hide Pending;
    hide EncodeAll;
    NothingIsPrefix(Pending(c.phase) + bytes);
    if bytes == [] {
      RunNothing(c);
    } else {
      TurnIsRun(c, bytes);
      TurnKeepsMagic(c, bytes);
      var (o, n) := Turn(c, bytes);
      if o.conn.phase.Lost? {
        LostTurn(c, bytes);
      } else {
        TurnAccounts(c, bytes);
        assert bytes[..n] + bytes[n..] == bytes;
        EmittedIsPrefix(o.conn, bytes[n..]);
        PrefixThen(c, bytes[..n], o, bytes[n..], Run(o.conn, bytes[n..]).reqs);
      }
    }
  }

  lemma RunNothing(c: Conn)
    requires Ok(c)
    ensures Run(c, []).reqs == []
  {
  }

  lemma NothingIsPrefix(s: seq<Byte>)
    ensures AllEncodable([]) && EncodeAll([]) <= s
  {
  }

  lemma LostTurn(c: Conn, bytes: seq<Byte>)
    requires Ok(c) && bytes != [] && Turn(c, bytes).0.conn.phase.Lost?
    ensures Run(c, bytes).reqs == []
  {
    var (o, n) := Turn(c, bytes);
    TurnIsRun(c, bytes);
    LostStays(o.conn, bytes[n..]);
  }

  lemma PrefixThen(c: Conn, a: seq<Byte>, o: Outcome, b: seq<Byte>, rs: seq<Request>)
    requires Accounts(c, a, o) && o.conn.magic == c.magic
    requires AllEncodable(rs) && EncodeAll(rs) <= Pending(o.conn.phase) + b
    ensures AllEncodable(o.reqs + rs) && EncodeAll(o.reqs + rs) <= Pending(c.phase) + (a + b)
  {
    EncodeAllSplits(o.reqs, rs);
    hide EncodeAll;
    hide Pending;
    Cancel(c.magic, Pending(c.phase), a, EncodeAll(o.reqs), Pending(o.conn.phase));
    JoinPrefix(Pending(c.phase), a, EncodeAll(o.reqs), Pending(o.conn.phase), b, EncodeAll(rs));
  }

  lemma JoinPrefix(x: seq<Byte>, a: seq<Byte>, e: seq<Byte>, y: seq<Byte>, b: seq<Byte>, t: seq<Byte>)
    requires x + a == e + y && t <= y + b
    ensures e + t <= x + (a + b)
  {
    assert x + (a + b) == (x + a) + b;
    assert (e + y) + b == e + (y + b);
  }

  // ---------- Frames of magic bytes ----------

  lemma MagicIsLength()
    ensures DecodeInt(MAGIC_BYTES) == MAGIC_AS_LENGTH && EncodeInt(MAGIC_AS_LENGTH) == MAGIC_BYTES
  {
    EncodeDecode(MAGIC_BYTES);
  }

  lemma EchoJoins(a: nat, b: nat)
    requires a % 4 == 0
    ensures Echo(a) + Echo(b) == Echo(a + b)
  {
    var s, t := Echo(a) + Echo(b), Echo(a + b);
    forall i | 0 <= i < a + b ensures s[i] == t[i] {
      if i >= a {
        SamePhase(a, i - a);
        assert s[i] == Echo(b)[i - a];
      }
    }
  }

  lemma SamePhase(a: nat, i: nat)
    requires a % 4 == 0
    ensures (a + i) % 4 == i % 4
  {
    assert a + i == 4 * (a / 4 + i / 4) + i % 4;
  }

  lemma MagicIsEcho(n: nat)
    requires n % 4 == 0
    ensures MAGIC_BYTES == Echo(4) && Echo(n) + MAGIC_BYTES == Echo(n + 4)
  {
    EchoJoins(n, 4);
  }

  lemma EchoFrame()
    ensures Encodable(ECHO) && EncodeFrame(ECHO) == Echo(ECHO_SIZE)
  {
    hide Echo;
    hide EncodeInt;
    MagicIsLength();
    MagicIsEcho(4);
    EchoJoins(8, MAGIC_AS_LENGTH);
    EchoJoins(8 + MAGIC_AS_LENGTH, MAGIC_AS_LENGTH);
  }

  lemma EchoSlice(n: nat, i: nat, k: nat)
    requires i % 4 == 0 && i + k <= n
    ensures Echo(n)[i..i + k] == Echo(k)
  {
    EchoJoins(i, n - i);
  }

  lemma FrameParts(r: Request)
    requires Encodable(r)
    ensures var f, h, b := EncodeFrame(r), |r.header|, |r.body|;
      && |f| == LENGTHS_SIZE + h + b
      && f[..4] == EncodeInt(h) && f[4..8] == EncodeInt(b) && f[8..8 + h] == r.header && f[8 + h..8 + h + b] == r.body
  {
    hide EncodeInt;
  }

  lemma SameLength(n: nat)
    requires n < INT_LIMIT && EncodeInt(n) == MAGIC_BYTES
    ensures n == MAGIC_AS_LENGTH
  {
    MagicIsLength();
  }

  /** A frame of magic bytes encodes the one message. */
  lemma EchoIsUnique(r: Request)
    requires Encodable(r) && EncodeFrame(r) == Echo(|EncodeFrame(r)|)
    ensures r == ECHO
  {
    hide Echo;
    hide EncodeFrame;
    hide EncodeInt;
    var n := |EncodeFrame(r)|;
    MagicIsEcho(0);
    FrameParts(r);
    EchoSlice(n, 0, 4);
    EchoSlice(n, 4, 4);
    assert EncodeInt(|r.header|) == MAGIC_BYTES;
    SameLength(|r.header|);
    SameLength(|r.body|);
    EchoSlice(n, 8, MAGIC_AS_LENGTH);
    EchoSlice(n, 8 + MAGIC_AS_LENGTH, MAGIC_AS_LENGTH);
  }

  /** A word that starts its own shift by whole magics is made of magics. */
  lemma {:induction false} ShiftIsEcho(n: nat, f: seq<Byte>, rest: seq<Byte>, i: nat)
    requires n > 0 && n % 4 == 0 && f <= Echo(n) + f + rest && i < |f|
    ensures f[i] == MAGIC_BYTES[i % 4]
    decreases i
  {
    assert f[i] == (Echo(n) + f + rest)[i];
    if i >= n {
      ShiftIsEcho(n, f, rest, i - n);
      SamePhase(n, i - n);
    }
  }

  lemma ShiftedFrame(n: nat, r: Request, rest: seq<Byte>)
    requires Encodable(r) && n > 0 && n % 4 == 0
    requires EncodeFrame(r) <= Echo(n) + EncodeFrame(r) + rest
    ensures r == ECHO
  {
    var f := EncodeFrame(r);
    forall i | 0 <= i < |f| ensures f[i] == Echo(|f|)[i] {
      ShiftIsEcho(n, f, rest, i);
    }
    assert f == Echo(|f|);
    EchoIsUnique(r);
  }

  // ---------- Messages read as frames ----------

  predicate AllEcho(ms: seq<Request>) {
    forall i :: 0 <= i < |ms| ==> ms[i] == ECHO
  }

  /** A message of magic bytes only is its frame, shifted. */
  lemma EchoShifts(n: nat, rest: seq<Byte>)
    requires n % 4 == 0
    ensures Encodable(ECHO) && Echo(n) + (MAGIC_BYTES + EncodeFrame(ECHO) + rest) == EncodeFrame(ECHO) + (Echo(n + 4) + rest)
  {
    hide Echo;
    hide EncodeFrame;
    EchoFrame();
    MagicIsEcho(n);
    EchoJoins(n + 4, ECHO_SIZE);
    EchoJoins(ECHO_SIZE, n + 4);
    Regroup(Echo(n), MAGIC_BYTES, EncodeFrame(ECHO), Echo(n + 4), rest);
  }

  lemma Regroup(e: seq<Byte>, m: seq<Byte>, f: seq<Byte>, g: seq<Byte>, rest: seq<Byte>)
    requires e + m == g && g + f == f + g
    ensures e + (m + f + rest) == f + (g + rest)
  {
    assert e + (m + f + rest) == (e + m) + f + rest;
    assert (g + f) + rest == f + (g + rest);
  }

  /** The frames of `ms` come first in the written bytes only if all the messages are echoes. */
  lemma {:induction false} FramesFirstAreEchoes(n: nat, ms: seq<Request>)
    requires AllEncodable(ms) && n % 4 == 0 && EncodeAll(ms) <= Echo(n) + Messages(ms)
    ensures AllEcho(ms)
    decreases |ms|
  {
    hide Echo;
    hide Messages;
    hide EncodeAll;
    if ms != [] {
      FirstIsEcho(n, ms);
      DropEcho(n, ms);
      FramesFirstAreEchoes(n + 4, ms[1..]);
    }
  }

  lemma DropEcho(n: nat, ms: seq<Request>)
    requires AllEncodable(ms) && ms != [] && ms[0] == ECHO
    requires n % 4 == 0 && EncodeAll(ms) <= Echo(n) + Messages(ms)
    ensures EncodeAll(ms[1..]) <= Echo(n + 4) + Messages(ms[1..])
  {
    hide Echo;
    hide EncodeFrame;
    EchoShifts(n, Messages(ms[1..]));
    DropPrefix(EncodeFrame(ECHO), EncodeAll(ms[1..]), Echo(n + 4) + Messages(ms[1..]));
  }

  lemma DropPrefix(f: seq<Byte>, a: seq<Byte>, b: seq<Byte>)
    requires f + a <= f + b
    ensures a <= b
  {
    assert a == (f + a)[|f|..] && b == (f + b)[|f|..];
  }

  lemma FirstIsEcho(n: nat, ms: seq<Request>)
    requires AllEncodable(ms) && ms != [] && n % 4 == 0 && EncodeAll(ms) <= Echo(n) + Messages(ms)
    ensures ms[0] == ECHO
  {
    var f, rest := EncodeFrame(ms[0]), Messages(ms[1..]);
    assert EncodeAll(ms) == f + EncodeAll(ms[1..]) && Messages(ms) == MAGIC_BYTES + f + rest;
    hide *;
    MagicIsEcho(n);
    FirstOf(f, EncodeAll(ms[1..]), Echo(n), MAGIC_BYTES, rest);
    ShiftedFrame(n + 4, ms[0], rest);
  }

  lemma FirstOf(f: seq<Byte>, g: seq<Byte>, e: seq<Byte>, m: seq<Byte>, rest: seq<Byte>)
    requires f + g <= e + (m + f + rest)
    ensures f <= (e + m) + f + rest
  {
    assert e + (m + f + rest) == (e + m) + f + rest;
    assert f <= f + g;
  }

  /** Echoes read as frames leave one magic each at the end. */
  lemma {:induction false} EchoesAreFrames(n: nat, ms: seq<Request>)
    requires AllEncodable(ms) && AllEcho(ms) && n % 4 == 0
    ensures Echo(n) + Messages(ms) == EncodeAll(ms) + Echo(n + 4 * |ms|)
    decreases |ms|
  {
    if ms != [] {
      EchoesAreFrames(n + 4, ms[1..]);
      EchoShifts(n, Messages(ms[1..]));
      hide Echo;
      hide EncodeFrame;
      assert EncodeFrame(ECHO) + (EncodeAll(ms[1..]) + Echo(n + 4 * |ms|))
        == EncodeFrame(ECHO) + EncodeAll(ms[1..]) + Echo(n + 4 * |ms|);
    }
  }

  // ---------- Runs ----------

  /** A connection between two frames. */
  predicate Between(c: Conn) {
    Ok(c) && |c.magic| == MAGIC_SIZE && c.phase == Magic
  }

  lemma {:induction false} FramesAreRead(c: Conn, rs: seq<Request>, rest: seq<Byte>)
    requires Between(c) && AllEncodable(rs) && rest != []
    ensures Run(c, EncodeAll(rs) + rest) == Then(rs, Run(c, rest))
    decreases |rs|
  {
    if rs == [] {
      assert EncodeAll(rs) + rest == rest;
      ThenNil(Run(c, rest));
    } else {
      var more := EncodeAll(rs[1..]) + rest;
      assert EncodeAll(rs) + rest == EncodeFrame(rs[0]) + more;
      FrameBetween(c, rs[0], more);
      FramesAreRead(c, rs[1..], rest);
      ThenAssoc([rs[0]], rs[1..], Run(c, rest));
      assert [rs[0]] + rs[1..] == rs;
    }
  }

  lemma FrameBetween(c: Conn, r: Request, rest: seq<Byte>)
    requires Between(c) && Encodable(r) && |r.body + rest| > 0
    ensures Run(c, EncodeFrame(r) + rest) == Then([r], Run(c, rest))
  {
    var d, s := c.(phase := Lengths([])), EncodeFrame(r) + rest;
    StartSettles(c);
    SettleFirst(c, s);
    ThenNil(Run(d, s));
    FrameIsRead(d, r, rest);
    assert d.(phase := Magic) == c;
  }

  /** Magic bytes alone emit nothing until they make a whole frame. */
  lemma EchoTail(c: Conn, n: nat)
    requires Between(c)
    ensures Run(c, Echo(n)).reqs == [] <==> n < ECHO_SIZE
  {
    EchoFrame();
    if n >= ECHO_SIZE {
      EchoJoins(ECHO_SIZE, n - ECHO_SIZE);
      FrameBetween(c, ECHO, Echo(n - ECHO_SIZE));
    } else {
      EmittedIsPrefix(c, Echo(n));
      var rs := Run(c, Echo(n)).reqs;
      assert Pending(c.phase) + Echo(n) == Echo(n);
      if rs != [] {
        FirstOfEcho(rs, n);
      }
    }
  }

  lemma FirstOfEcho(rs: seq<Request>, n: nat)
    requires AllEncodable(rs) && rs != [] && EncodeAll(rs) <= Echo(n)
    ensures n >= ECHO_SIZE
  {
    var f := EncodeFrame(rs[0]);
    assert f <= EncodeAll(rs);
    forall i | 0 <= i < |f| ensures f[i] == Echo(|f|)[i] {
      assert f[i] == Echo(n)[i];
    }
    assert f == Echo(|f|);
    EchoIsUnique(rs[0]);
    EchoFrame();
  }

  /** Echoes are read as themselves, and their magics are left over. */
  lemma EchoesAreRead(c: Conn, ms: seq<Request>)
    requires Between(c) && AllEncodable(ms) && AllEcho(ms) && ms != []
    ensures Run(c, Messages(ms)).reqs == ms <==> 4 * |ms| < ECHO_SIZE
  {
    MessagesOfEchoes(ms);
    hide Run;
    hide Echo;
    TailDecides(c, ms, Echo(4 * |ms|));
    EchoTail(c, 4 * |ms|);
  }

  lemma MessagesOfEchoes(ms: seq<Request>)
    requires AllEncodable(ms) && AllEcho(ms)
    ensures Messages(ms) == EncodeAll(ms) + Echo(4 * |ms|)
  {
    hide *;
    EchoesAreFrames(0, ms);
    NoEcho(Messages(ms));
  }

  lemma NoEcho(s: seq<Byte>)
    ensures Echo(0) + s == s
  {
  }

  lemma TailDecides(c: Conn, ms: seq<Request>, tail: seq<Byte>)
    requires Between(c) && AllEncodable(ms) && tail != []
    ensures Run(c, EncodeAll(ms) + tail).reqs == ms <==> Run(c, tail).reqs == []
  {
    FramesAreRead(c, ms, tail);
    var o := Run(c, tail);
    assert Then(ms, o).reqs[|ms|..] == o.reqs;
  }

  /** Reading messages as frames yields them only if they are echoes, too few to make one more. */
  lemma RepeatedMagicExact(c: Conn, ms: seq<Request>)
    requires Between(c) && AllEncodable(ms) && ms != []
    ensures Run(c, Messages(ms)).reqs == ms <==> AllEcho(ms) && 4 * |ms| < ECHO_SIZE
  {
    hide Echo;
    hide Messages;
    hide EncodeAll;
    hide Run;
    var s := Messages(ms);
    if Run(c, s).reqs == ms {
      EmittedIsPrefix(c, s);
      NoEcho(s);
      assert Pending(c.phase) + s == s;
      FramesFirstAreEchoes(0, ms);
    }
    if AllEcho(ms) {
      EchoesAreRead(c, ms);
    }
  }

  /** The first message is read; the rest are read as frames. */
  lemma FirstMessageIsRead(ms: seq<Request>)
    requires AllEncodable(ms) && ms != [] && |ms[0].body + Messages(ms[1..])| > 0
    ensures Run(FRESH, Messages(ms)) == Then([ms[0]], Run(Conn(MAGIC_BYTES, Magic), Messages(ms[1..])))
  {
    var c, rest := Conn(MAGIC_BYTES, Lengths([])), Messages(ms[1..]);
    assert Messages(ms) == MAGIC_BYTES + (EncodeFrame(ms[0]) + rest);
    MagicIsRead(MAGIC_BYTES, EncodeFrame(ms[0]) + rest);
    FrameIsRead(c, ms[0], rest);
  }

  /** When the messages of a client, delivered in any chunks on one connection, are all parsed. */
  predicate Parseable(ms: seq<Request>) {
    if |ms| <= 1 then ms == [] || ms[0].body != []
    else AllEcho(ms[1..]) && 4 * (|ms| - 1) < ECHO_SIZE
  }

  lemma MessagesExact(ms: seq<Request>, chunks: seq<seq<Byte>>)
    requires AllEncodable(ms) && Flatten(chunks) == Messages(ms)
    ensures RunChunks(FRESH, chunks).reqs == ms <==> Parseable(ms)
  {
    ChunkingIndependent(FRESH, chunks);
    if |ms| == 1 && ms[0].body == [] {
      LoneEmptyBody(ms[0]);
    } else if ms != [] {
      FirstMessageIsRead(ms);
      if |ms| > 1 {
        RepeatedMagicExact(Conn(MAGIC_BYTES, Magic), ms[1..]);
      }
    }
  }

  lemma LoneEmptyBody(r: Request)
    requires Encodable(r) && r.body == []
    ensures Run(FRESH, Messages([r])).reqs == []
  {
    assert Messages([r]) == MAGIC_BYTES + EncodeFrame(r);
    MagicIsRead(MAGIC_BYTES, EncodeFrame(r));
    EmptyBodyWaits(Conn(MAGIC_BYTES, Lengths([])), r);
  }

  /** Below the size the magic stands for, every message after the first is swallowed. */
  lemma MessagesAreSwallowed(ms: seq<Request>, chunks: seq<seq<Byte>>)
    requires AllEncodable(ms) && |ms| > 1 && Flatten(chunks) == Messages(ms)
    requires |Messages(ms[1..])| < LENGTHS_SIZE + MAGIC_AS_LENGTH
    ensures RunChunks(FRESH, chunks).reqs == ms[..1]
  {
    var s := Messages(ms[1..]);
    ChunkingIndependent(FRESH, chunks);
    FirstMessageIsRead(ms);
    var c := Conn(MAGIC_BYTES, Magic);
    EmittedIsPrefix(c, s);
    assert Pending(c.phase) + s == s;
    var rs := Run(c, s).reqs;
    if rs != [] {
      MagicFirst(rs, s);
    }
  }

  /** A frame that starts with the magic is at least as long as the magic says. */
  lemma MagicFirst(rs: seq<Request>, s: seq<Byte>)
    requires AllEncodable(rs) && rs != [] && EncodeAll(rs) <= s && MAGIC_BYTES <= s
    ensures |s| >= LENGTHS_SIZE + MAGIC_AS_LENGTH
  {
    var f := EncodeFrame(rs[0]);
    FrameParts(rs[0]);
    assert f <= EncodeAll(rs) && f[..4] == s[..4];
    SameLength(|rs[0].header|);
  }

  /** Messages of ordinary size with a body at the end are all parsed only if there is at most one. */
  lemma OneMessagePerConnection(ms: seq<Request>, chunks: seq<seq<Byte>>)
    requires AllEncodable(ms) && Flatten(chunks) == Messages(ms)
    requires ms != [] ==> ms[|ms| - 1].body != [] && |Messages(ms[1..])| < LENGTHS_SIZE + MAGIC_AS_LENGTH
    ensures RunChunks(FRESH, chunks).reqs == ms <==> |ms| <= 1
  {
    if |ms| > 1 {
      MessagesAreSwallowed(ms, chunks);
    } else {
      MessagesExact(ms, chunks);
    }
  }

  /** Two small messages on one connection: the second is never parsed. */
  lemma TwoMessagesFail()
    ensures var m := Request([1], [2]); Run(FRESH, Messages([m, m])).reqs == [m]
  {
    var m := Request([1], [2]);
    var ms := [m, m];
    var s := Messages(ms);
    assert ms[1..] == [m] && Messages([m]) == EncodeMessage(m) + [];
    assert |EncodeMessage(m)| == 14;
    assert [s][0] + Flatten([s][1..]) == s;
    MessagesAreSwallowed(ms, [s]);
    ChunkingIndependent(FRESH, [s]);
  }
}
