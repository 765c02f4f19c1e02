/**
 The byte stream between a server thread and its client: sends and receives that move
 any positive number of bytes at a time, and the client's command loop over them.
 */
module Transfer {
  import opened Bytes

  // ------------------------------------------------------------------ commands

  const CLIENT_PLAY: Byte := 0
  const CLIENT_PAUSE: Byte := 1
  const CLIENT_RESUME: Byte := 2
  const CLIENT_SEEK: Byte := 3
  const CLIENT_LOOP: Byte := 4
  const CLIENT_NOLOOP: Byte := 5
  const CLIENT_NFILE: Byte := 6
  const CLIENT_QUIT: Byte := 7

  /** What the client does for a command. */
  datatype Action =
    | Play | Pause | Resume | Seek(tick: nat) | Loop | NoLoop | Load(file: seq<Byte>) | Quit | Unrecognized(code: Byte)

  /** What the server sends to have it done. */
  function Encode(a: Action): seq<Byte> {
    match a
    case Play => [CLIENT_PLAY]
    case Pause => [CLIENT_PAUSE]
    case Resume => [CLIENT_RESUME]
    case Seek(tick) => [CLIENT_SEEK] + Be32(tick)
    case Loop => [CLIENT_LOOP]
    case NoLoop => [CLIENT_NOLOOP]
    case Load(file) => [CLIENT_NFILE] + Be32(|file|) + file
    case Quit => [CLIENT_QUIT]
    case Unrecognized(code) => [code]
  }

  predicate Sendable(a: Action) {
    match a
    case Seek(tick) => tick < 0x1_0000_0000
    case Load(file) => Countable(|file|)
    case Unrecognized(code) => code > CLIENT_QUIT
    case _ => true
  }

  /** A file size `recvall` can count: positive, or its result is undefined, and within an `int`. */
  predicate Countable(size: nat) {
    0 < size < 0x8000_0000
  }

  /** The first command of a stream and its length; None while it is incomplete. */
  function Next(s: seq<Byte>): (r: Option<(Action, nat)>)
    ensures r.Some? ==> 1 <= r.value.1 <= |s|
  {
    if s == [] then None
    else if s[0] == CLIENT_PLAY then Some((Play, 1))
    else if s[0] == CLIENT_PAUSE then Some((Pause, 1))
    else if s[0] == CLIENT_RESUME then Some((Resume, 1))
    else if s[0] == CLIENT_SEEK then
      if |s| < 5 then None else Some((Seek(FromBe32(s[1..5])), 5))
    else if s[0] == CLIENT_LOOP then Some((Loop, 1))
    else if s[0] == CLIENT_NOLOOP then Some((NoLoop, 1))
    else if s[0] == CLIENT_NFILE then
      if |s| < 5 || !Countable(FromBe32(s[1..5])) || |s| < 5 + FromBe32(s[1..5]) then None
      else Some((Load(s[5..5 + FromBe32(s[1..5])]), 5 + FromBe32(s[1..5])))
    else if s[0] == CLIENT_QUIT then Some((Quit, 1))
    else Some((Unrecognized(s[0]), 1))
  }

  /** What the client has done when it has read all it can of a stream. */
  function Interpret(s: seq<Byte>): seq<Action> {
    match Next(s)
    case None => []
    case Some((Quit, _)) => [Quit]
    case Some((a, n)) => [a] + Interpret(s[n..])
  }

  /** The commands byte by byte; numbers follow in four bytes, the most significant first. */
  lemma CommandBytes()
    ensures Encode(Play) == [0] && Encode(Pause) == [1] && Encode(Resume) == [2]
    ensures Encode(Loop) == [4] && Encode(NoLoop) == [5] && Encode(Quit) == [7]
    ensures Encode(Seek(0x0102_0304)) == [3, 1, 2, 3, 4] && Encode(Load([9])) == [6, 0, 0, 0, 1, 9]
    ensures forall rest: seq<Byte> :: Next([0] + rest) == Some((Play, 1)) && Next([7] + rest) == Some((Quit, 1))
  {
  }

  /** A command is recognised as such, whatever follows. */
  lemma NextEncode(a: Action, rest: seq<Byte>)
    requires Sendable(a)
    ensures Next(Encode(a) + rest) == Some((a, |Encode(a)|)) && (Encode(a) + rest)[|Encode(a)|..] == rest
  {
    var s := Encode(a) + rest;
    match a
    case Seek(tick) =>
      Be32Inverse(tick);
      assert s[1..5] == Be32(tick);
    case Load(file) =>
      Be32Inverse(|file|);
      assert s[1..5] == Be32(|file|) && s[5..5 + |file|] == file;
    case _ =>
  }

  /** Until the last byte of a command is there, the client does nothing. */
  lemma NothingEarly(a: Action, k: nat)
    requires Sendable(a) && k < |Encode(a)|
    ensures Interpret(Encode(a)[..k]) == []
  {
    var s := Encode(a)[..k];
    match a
    case Load(file) =>
      Be32Inverse(|file|);
      assert Encode(a)[1..5] == Be32(|file|);
      assert k >= 5 ==> s[1..5] == Encode(a)[1..5];
    case _ =>
  }

  lemma InterpretOn(s: seq<Byte>)
    ensures Next(s) == None ==> Interpret(s) == []
    ensures Next(s) != None ==>
              var (a, n) := Next(s).value;
              1 <= n <= |s| && Interpret(s) == if a == Quit then [Quit] else [a] + Interpret(s[n..])
  {
    hide Next;
  }

  function EncodeAll(cs: seq<Action>): seq<Byte> {
    if cs == [] then [] else Encode(cs[0]) + EncodeAll(cs[1..])
  }

  ghost predicate AllSendable(cs: seq<Action>) {
    forall i :: 0 <= i < |cs| ==> Sendable(cs[i]) && cs[i] != Quit
  }

  /** Commands are carried out as sent, one after the other, and the stream goes on behind them. */
  lemma {:induction false} InterpretEncode(cs: seq<Action>, rest: seq<Byte>)
    requires AllSendable(cs)
    ensures Interpret(EncodeAll(cs) + rest) == cs + Interpret(rest)
  {
    hide *;
    EncodeUnfold(cs);
    if cs == [] {
      assert [] + rest == rest && [] + Interpret(rest) == Interpret(rest);
    } else {
      var more := EncodeAll(cs[1..]) + rest;
      assert Encode(cs[0]) + EncodeAll(cs[1..]) + rest == Encode(cs[0]) + more;
      NextEncode(cs[0], more);
      InterpretOn(Encode(cs[0]) + more);
      InterpretEncode(cs[1..], rest);
      assert [cs[0]] + (cs[1..] + Interpret(rest)) == cs + Interpret(rest);
    }
  }

  lemma EncodeUnfold(cs: seq<Action>)
    requires AllSendable(cs)
    ensures cs == [] ==> EncodeAll(cs) == []
    ensures cs != [] ==> EncodeAll(cs) == Encode(cs[0]) + EncodeAll(cs[1..])
    ensures cs != [] ==> Sendable(cs[0]) && cs[0] != Quit && AllSendable(cs[1..])
  {
  }

  /**
   Of a file followed by the play command, whatever prefix has arrived: nothing before
   the whole file, then the file and nothing else, and play only last.
   */
  lemma PlayAfterFile(file: seq<Byte>, k: nat)
    requires Sendable(Load(file)) && k <= |Encode(Load(file))| + 1
    ensures var sent, n := Encode(Load(file)) + Encode(Play), |Encode(Load(file))|;
            && k <= |sent|
            && Interpret(sent[..k]) == if k < n then [] else if k == n then [Load(file)] else [Load(file), Play]
  {
    var load := Encode(Load(file));
    var sent, n := load + Encode(Play), |load|;
    if k < n {
      assert sent[..k] == load[..k];
      NothingEarly(Load(file), k);
    } else {
      NextEncode(Load(file), sent[n..k]);
      assert sent[..k] == load + sent[n..k];
      assert Interpret([]) == [] && Interpret([CLIENT_PLAY]) == [Play] + Interpret([CLIENT_PLAY][1..]);
      assert k == n + 1 ==> sent[n..k] == [CLIENT_PLAY] && [CLIENT_PLAY][1..] == [];
      assert sent[n..k] == if k == n then [] else [CLIENT_PLAY];
      assert Interpret(load + sent[n..k]) == [Load(file)] + Interpret(sent[n..k]);
    }
  }

  // ------------------------------------------------------------------- sockets

  /** One direction of a connection: bytes sent and not yet received. */
  class Stream {
    var bytes: seq<Byte>

    constructor ()
      ensures bytes == []
    {
      bytes := [];
    }

    /** `send`: some of the bytes, at least one, or failure. */
    method Send(buf: seq<Byte>) returns (n: int)
      requires buf != []
      modifies this
      ensures n == -1 || 1 <= n <= |buf|
      ensures bytes == old(bytes) + buf[..if n == -1 then 0 else n]
    {
      var fails: bool := *;
      if fails {
        assert bytes + buf[..0] == bytes;
        return -1;
      }
      var some: nat :| 1 <= some <= |buf|;
      bytes := bytes + buf[..some];
      n := some;
    }

    /** `recv` into a buffer: some of what is there, at least one byte, or failure. */
    method Recv(buf: array<Byte>, at: nat, most: nat) returns (n: int)
      requires 1 <= most && at + most <= buf.Length && bytes != []
      modifies this, buf
      ensures n == -1 || (1 <= n <= most && n <= |old(bytes)|)
      ensures var k := if n == -1 then 0 else n;
              && bytes == old(bytes)[k..] && buf[..at + k] == old(buf[..at]) + old(bytes)[..k]
    {
      var fails: bool := *;
      if fails {
        return -1;
      }
      var some: nat :| 1 <= some <= most && some <= |bytes|;
      ghost var front := buf[..at];
      var i := 0;
      while i < some
        invariant 0 <= i <= some && bytes == old(bytes) && buf[..at + i] == front + bytes[..i]
      {
        buf[at + i] := bytes[i];
        assert bytes[..i + 1] == bytes[..i] + [bytes[i]];
        assert buf[..at + (i + 1)] == buf[..at + i] + [bytes[i]];
        i := i + 1;
      }
      bytes := bytes[some..];
      n := some;
    }
  }

  /** `sendall`: -1 with what could be sent, or 0 and everything is sent. */
  method SendAll(stream: Stream, buf: seq<Byte>) returns (r: int, len: nat)
    requires buf != []
    modifies stream
    ensures len <= |buf| && stream.bytes == old(stream.bytes) + buf[..len]
    ensures (r == 0 && len == |buf|) || (r == -1 && len < |buf|)
  {
    var total, bytesleft, n := 0, |buf|, 0;
    assert stream.bytes + buf[..0] == stream.bytes;
    while total < |buf|
      invariant 0 <= total <= |buf| && bytesleft == |buf| - total && n != -1
      invariant stream.bytes == old(stream.bytes) + buf[..total]
    {
      n := stream.Send(buf[total..total + bytesleft]);
      if n == -1 {
        break;
      }
      assert buf[total..total + bytesleft][..n] == buf[total..total + n];
      assert buf[..total] + buf[total..total + n] == buf[..total + n];
      total := total + n;
      bytesleft := bytesleft - n;
    }
    len := total;
    r := if n == -1 then -1 else 0;
  }

  /** `recvall`: as long as the stream holds enough, exactly the announced bytes. */
  method RecvAll(stream: Stream, buf: array<Byte>) returns (r: int, len: nat)
    requires 0 < buf.Length <= |stream.bytes|
    modifies stream, buf
    ensures len <= buf.Length && buf[..len] == old(stream.bytes)[..len] && stream.bytes == old(stream.bytes)[len..]
    ensures (r == 0 && len == buf.Length) || (r == -1 && len < buf.Length)
  {
    var total, bytesleft, n := 0, buf.Length, 0;
    ghost var s := stream.bytes;
    while total < buf.Length
      invariant 0 <= total <= buf.Length && bytesleft == buf.Length - total && n != -1
      invariant buf[..total] == s[..total] && stream.bytes == s[total..]
    {
      n := stream.Recv(buf, total, bytesleft);
      if n == -1 {
        assert buf[..total + 0] == s[..total] + [];
        break;
      }
      assert s[..total] + s[total..][..n] == s[..total + n];
      total := total + n;
      bytesleft := bytesleft - n;
    }
    len := total;
    r := if n == -1 then -1 else 0;
  }

  lemma LoadBytes(before: seq<Byte>, file: seq<Byte>)
    ensures before + [CLIENT_NFILE] + Be32(|file|) + file == before + Encode(Load(file))
  {
    hide Be32;
  }

  /**
   What `server_thread` sends for its file: the command byte, the size, the data.  Only a
   failed send of the data makes the thread give up; `ok` says whether all three arrived.
   */
  method SendFile(stream: Stream, file: seq<Byte>) returns (r: int, ok: bool)
    requires Countable(|file|)
    modifies stream
    ensures ok ==> r == 0 && stream.bytes == old(stream.bytes) + Encode(Load(file))
    ensures r == 0 || (r == -1 && !ok)
  {
    hide Be32, Encode;
    ghost var before := stream.bytes;
    var n := stream.Send([CLIENT_NFILE]);
    assert n != -1 ==> [CLIENT_NFILE][..n] == [CLIENT_NFILE];
    var size, sizeSent := SendAll(stream, Be32(|file|));
    assert size == 0 ==> Be32(|file|)[..sizeSent] == Be32(|file|);
    var dataSent;
    r, dataSent := SendAll(stream, file);
    assert r == 0 ==> file[..dataSent] == file;
    ok := n != -1 && size == 0 && r == 0;
    assert ok ==> stream.bytes == before + [CLIENT_NFILE] + Be32(|file|) + file;
    LoadBytes(before, file);
  }

  // -------------------------------------------------------------- the client

  /** Acknowledgements: one for every file. */
  function Acks(actions: seq<Action>): seq<Byte> {
    if actions == [] then [] else Acks(actions[..|actions| - 1]) + if actions[|actions| - 1].Load? then [1] else []
  }

  lemma AcksSnoc(actions: seq<Action>, a: Action)
    ensures Acks(actions + [a]) == Acks(actions) + if a.Load? then [1] else []
  {
    assert (actions + [a])[..|actions|] == actions;
  }

  lemma NoAcks()
    ensures Acks([]) == []
  {
  }

  class Client {
    /** The file buffer, and what the player has been told. */
    var file: seq<Byte>
    var done: seq<Action>

    constructor ()
      ensures file == [] && done == []
    {
      file, done := [], [];
    }

    /** `get_file`: None when the connection fails. */
    method GetFile(input: Stream, size: nat) returns (r: Option<seq<Byte>>)
      requires 0 < size <= |input.bytes|
      modifies input
      ensures r.Some? ==> r.value == old(input.bytes)[..size] && input.bytes == old(input.bytes)[size..]
    {
      var buf := new Byte[size];
      var ok, len := RecvAll(input, buf);
      if ok == -1 {
        return None;
      }
      r := Some(buf[..]);
    }

    /** The body of the command loop, once a whole command is there; false when the client gives up. */
    method Execute(input: Stream, back: Stream) returns (running: bool, ok: bool)
      requires input != back && Next(input.bytes).Some?
      modifies this, input, back
      ensures ok ==>
                var (a, n) := Next(old(input.bytes)).value;
                && done == old(done) + [a] && input.bytes == old(input.bytes)[n..] && (running <==> a != Quit)
                && back.bytes == old(back.bytes) + (if a.Load? then [1] else [])
                && file == if a.Load? then a.file else old(file)
      ensures !ok ==> || done == old(done)
                      || (done == old(done) + [Next(old(input.bytes)).value.0] && Next(old(input.bytes)).value.0.Load?)
    {
      running, ok := true, true;
      ghost var s := input.bytes;
      var sbuf := input.bytes[0];
      input.bytes := input.bytes[1..];
      assert back.bytes + [] == back.bytes;
      if sbuf == CLIENT_PLAY {
        done := done + [Play];
      } else if sbuf == CLIENT_PAUSE {
        done := done + [Pause];
      } else if sbuf == CLIENT_RESUME {
        done := done + [Resume];
      } else if sbuf == CLIENT_SEEK {
        assert s[1..][..4] == s[1..5] && s[1..][4..] == s[5..];
        var tick := FromBe32(input.bytes[..4]);
        input.bytes := input.bytes[4..];
        done := done + [Seek(tick)];
      } else if sbuf == CLIENT_LOOP {
        done := done + [Loop];
      } else if sbuf == CLIENT_NOLOOP {
        done := done + [NoLoop];
      } else if sbuf == CLIENT_NFILE {
        assert s[1..][..4] == s[1..5] && s[1..][4..] == s[5..];
        var size := FromBe32(input.bytes[..4]);
        input.bytes := input.bytes[4..];
        var received := GetFile(input, size);
        if received == None {
          return false, false;
        }
        assert s[5..][..size] == s[5..5 + size] && s[5..][size..] == s[5 + size..];
        file := received.value;
        done := done + [Load(file)];
        var n := back.Send([1]);
        if n == -1 {
          return false, false;
        }
        assert [1 as Byte][..1] == [1];
      } else if sbuf == CLIENT_QUIT {
        done := done + [Quit];
        running := false;
      } else {
        done := done + [Unrecognized(sbuf)];
      }
    }

    static lemma RunStep(s: seq<Byte>, now: seq<Action>, acked: seq<Byte>)
      requires Next(s).Some?
      ensures var (a, n) := Next(s).value;
              && 1 <= n <= |s|
              && now + Interpret(s) == (now + [a]) + (if a == Quit then [] else Interpret(s[n..]))
              && acked + Acks(now) + (if a.Load? then [1] else []) == acked + Acks(now + [a])
    {
      hide Next, Interpret, Acks;
      InterpretOn(s);
      AcksSnoc(now, Next(s).value.0);
    }

    /** The command loop of `main`, until the client quits, gives up or has to wait for more. */
    method Run(input: Stream, back: Stream) returns (ok: bool)
      requires input != back
      modifies this, input, back
      ensures ok ==> done == old(done) + Interpret(old(input.bytes))
      ensures ok ==> back.bytes == old(back.bytes) + Acks(Interpret(old(input.bytes)))
    {
      hide *;
      ghost var all := Interpret(input.bytes);
      assert [] + all == all;
      NoAcks();
      ghost var now: seq<Action> := [];
      var running := true;
      assert done + [] == done && back.bytes + [] == back.bytes;
      while running && Next(input.bytes).Some?
        invariant done == old(done) + now && back.bytes == old(back.bytes) + Acks(now)
        invariant all == now + if running then Interpret(input.bytes) else []
        decreases running, |input.bytes|
      {
        ghost var (a, n) := Next(input.bytes).value;
        ghost var s, acks := input.bytes, back.bytes;
        RunStep(s, now, old(back.bytes));
        running, ok := Execute(input, back);
        if !ok {
          return;
        }
        assert old(done) + now + [a] == old(done) + (now + [a]);
        now := now + [a];
      }
      ok := true;
      InterpretOn(input.bytes);
      assert now + [] == now;
    }
  }
}
