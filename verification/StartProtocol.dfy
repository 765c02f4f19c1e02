/**
 The synchronised start: one server thread a client, a condition variable, a file
 transfer, an acknowledgement and a barrier.  A state machine over any number of clients,
 every shared access a step of its own.
 */
module StartProtocol {
  /** What travels to a client: the greeting, its id, and commands; a file goes as one message. */
  datatype Message = Connected | Ident(id: nat) | NewFile | File(id: nat) | Play

  /** Where a server thread is in `server_thread`. */
  datatype ThreadPc =
    | SendConnected | SendIdent
    | Lock | Check | Waiting | Woken | Unlock
    | SendNewFile | Open | SendFile | AwaitAck
    | Arrive | InBarrier | SendPlay | Done

  /** Where a client is: connecting, in its command loop, or in `get_file`. */
  datatype ClientPc = Connecting | Confirming | Idle | Getting | Loaded | Playing

  /** A thread, its client, the messages on their way to the client, and acknowledgements on their way back. */
  datatype Thread = Thread(pc: ThreadPc, tid: nat, client: ClientPc, sent: seq<Message>, acks: nat)

  /** Where the main thread is in `handle_play`. */
  datatype MainPc =
    | Accepting | WriteFiles | MainLock | SetReady | InitBarrier | Broadcast | MainUnlock
    | MainArrive | MainInBarrier | MainDone

  datatype Owner = Nobody | Main | Server(thread: nat)

  /** `files` counts the files written, `barrier` is 0 until it is initialised. */
  datatype State = State(
    main: MainPc, accepting: bool, nextTid: nat, threads: seq<Thread>, files: nat,
    ready: bool, mutex: Owner, barrier: nat, arrived: nat)

  const INIT := State(Accepting, true, 0, [], 0, false, Nobody, 0, 0)

  datatype Step = Accept | MainStep | ThreadStep(thread: nat) | ClientStep(thread: nat) | SpuriousWakeup(thread: nat)

  // --------------------------------------------------------------------- steps

  function MainEnabled(s: State): bool {
    match s.main
    case Accepting => s.threads != []
    case MainLock => s.mutex == Nobody
    case MainInBarrier => s.arrived == s.barrier
    case MainDone => false
    case _ => true
  }

  function MainMove(s: State): State
    requires MainEnabled(s)
  {
    match s.main
    case Accepting => s.(main := WriteFiles, accepting := false, ready := false)
    case WriteFiles =>
      if s.files < |s.threads| then s.(files := s.files + 1) else s.(main := MainLock)
    case MainLock => s.(main := SetReady, mutex := Main)
    case SetReady => s.(main := InitBarrier, ready := true)
    case InitBarrier => s.(main := Broadcast, barrier := |s.threads| + 1)
    case Broadcast => s.(main := MainUnlock, threads := WakeAll(s.threads))
    case MainUnlock => s.(main := MainArrive, mutex := Nobody)
    case MainArrive => s.(main := MainInBarrier, arrived := s.arrived + 1)
    case MainInBarrier => s.(main := MainDone)
  }

  function Wake(t: Thread): Thread {
    if t.pc == Waiting then t.(pc := Woken) else t
  }

  function WakeAll(ts: seq<Thread>): (r: seq<Thread>)
    ensures |r| == |ts| && forall i :: 0 <= i < |ts| ==> r[i] == Wake(ts[i])
  {
    seq(|ts|, i requires 0 <= i < |ts| => Wake(ts[i]))
  }

  predicate ThreadEnabled(s: State, i: nat)
    requires i < |s.threads|
  {
    match s.threads[i].pc
    case Lock => s.mutex == Nobody
    case Woken => s.mutex == Nobody
    case Waiting => false
    case AwaitAck => s.threads[i].acks > 0
    case InBarrier => s.arrived == s.barrier
    case Done => false
    case _ => true
  }

  function Send(t: Thread, m: Message, pc: ThreadPc): Thread {
    t.(pc := pc, sent := t.sent + [m])
  }

  function SetThread(s: State, i: nat, t: Thread): State
    requires i < |s.threads|
  {
    s.(threads := s.threads[i := t])
  }

  function ThreadMove(s: State, i: nat): State
    requires i < |s.threads| && ThreadEnabled(s, i)
  {
    var t := s.threads[i];
    match t.pc
    case SendConnected => SetThread(s, i, Send(t, Connected, SendIdent))
    case SendIdent => SetThread(s, i, Send(t, Ident(t.tid), Lock))
    case Lock => SetThread(s, i, t.(pc := Check)).(mutex := Server(i))
    case Check =>
      if s.ready then SetThread(s, i, t.(pc := Unlock))
      else SetThread(s, i, t.(pc := Waiting)).(mutex := Nobody)
    case Woken => SetThread(s, i, t.(pc := Check)).(mutex := Server(i))
    case Unlock => SetThread(s, i, t.(pc := SendNewFile)).(mutex := Nobody)
    case SendNewFile => SetThread(s, i, Send(t, NewFile, Open))
    case Open => SetThread(s, i, t.(pc := SendFile))
    case SendFile => SetThread(s, i, Send(t, File(t.tid), AwaitAck))
    case AwaitAck => SetThread(s, i, t.(pc := Arrive, acks := t.acks - 1))
    case Arrive => SetThread(s, i, t.(pc := InBarrier)).(arrived := s.arrived + 1)
    case InBarrier => SetThread(s, i, t.(pc := SendPlay))
    case SendPlay => SetThread(s, i, Send(t, Play, Done))
  }

  /** What a client makes of the next message; one it cannot use there changes nothing. */
  function Receive(c: ClientPc, m: Message): ClientPc {
    match (c, m)
    case (Connecting, Connected) => Confirming
    case (Confirming, Ident(_)) => Idle
    case (Idle, NewFile) => Getting
    case (Getting, File(_)) => Loaded
    case (Loaded, Play) => Playing
    case (Idle, Play) => Playing
    case (_, _) => c
  }

  function ClientMove(s: State, i: nat): State
    requires i < |s.threads| && s.threads[i].sent != []
  {
    var t := s.threads[i];
    var c := Receive(t.client, t.sent[0]);
    SetThread(s, i, t.(
      client := c, sent := t.sent[1..], acks := t.acks + if t.client == Getting && c == Loaded then 1 else 0))
  }

  predicate Enabled(s: State, a: Step) {
    match a
    case Accept => s.main == Accepting
    case MainStep => MainEnabled(s)
    case ThreadStep(i) => i < |s.threads| && ThreadEnabled(s, i)
    case ClientStep(i) => i < |s.threads| && s.threads[i].sent != []
    case SpuriousWakeup(i) => i < |s.threads| && s.threads[i].pc == Waiting
  }

  function Move(s: State, a: Step): State
    requires Enabled(s, a)
  {
    match a
    case Accept =>
      s.(threads := s.threads + [Thread(SendConnected, s.nextTid, Connecting, [], 0)], nextTid := s.nextTid + 1)
    case MainStep => MainMove(s)
    case ThreadStep(i) => ThreadMove(s, i)
    case ClientStep(i) => ClientMove(s, i)
    case SpuriousWakeup(i) => SetThread(s, i, s.threads[i].(pc := Woken))
  }

  ghost predicate IsRun(ss: seq<State>) {
    && ss != [] && ss[0] == INIT
    && forall i :: 0 <= i < |ss| - 1 ==> exists a :: Enabled(ss[i], a) && ss[i + 1] == Move(ss[i], a)
  }

  // ----------------------------------------------------------------- invariant

  function Phase(m: MainPc): nat {
    match m
    case Accepting => 0
    case WriteFiles => 1
    case MainLock => 2
    case SetReady => 3
    case InitBarrier => 4
    case Broadcast => 5
    case MainUnlock => 6
    case MainArrive => 7
    case MainInBarrier => 8
    case MainDone => 9
  }

  predicate Past(pc: ThreadPc) {
    pc == InBarrier || pc == SendPlay || pc == Done
  }

  /** Past the wait for `midi_ready`. */
  predicate SawReady(pc: ThreadPc) {
    match pc
    case SendConnected => false
    case SendIdent => false
    case Lock => false
    case Check => false
    case Waiting => false
    case Woken => false
    case _ => true
  }

  function Script(tid: nat): (r: seq<Message>)
    ensures |r| == 5
  {
    [Connected, Ident(tid), NewFile, File(tid), Play]
  }

  function SentCount(pc: ThreadPc): (r: nat)
    ensures r <= 5
  {
    match pc
    case SendConnected => 0
    case SendIdent => 1
    case Open => 3
    case SendFile => 3
    case Done => 5
    case AwaitAck => 4
    case Arrive => 4
    case InBarrier => 4
    case SendPlay => 4
    case _ => 2
  }

  function ReadCount(c: ClientPc): (r: nat)
    ensures r <= 5
  {
    match c
    case Connecting => 0
    case Confirming => 1
    case Idle => 2
    case Getting => 3
    case Loaded => 4
    case Playing => 5
  }

  /** The client has read a prefix of what the thread sent, and the rest is on its way. */
  predicate Talking(t: Thread) {
    && ReadCount(t.client) <= SentCount(t.pc)
    && t.sent == Script(t.tid)[ReadCount(t.client)..SentCount(t.pc)]
    && t.acks == (if ReadCount(t.client) >= 4 && t.pc == AwaitAck then 1 else 0)
    && (SentCount(t.pc) >= 4 && t.pc != AwaitAck ==> ReadCount(t.client) >= 4)
  }

  predicate ThreadOk(s: State, i: nat)
    requires i < |s.threads|
  {
    var t := s.threads[i];
    && t.tid == i && Talking(t)
    && (s.mutex == Server(i) <==> t.pc == Check || t.pc == Unlock)
    && (SawReady(t.pc) ==> Phase(s.main) >= 7)
    && (t.pc == Waiting ==> Phase(s.main) <= 5)
    && ((t.pc == SendPlay || t.pc == Done) ==> s.arrived == |s.threads| + 1)
  }

  function Arrivals(ts: seq<Thread>): (r: nat)
    ensures r <= |ts|
  {
    if ts == [] then 0 else Arrivals(ts[..|ts| - 1]) + if Past(ts[|ts| - 1].pc) then 1 else 0
  }

  predicate MainOk(s: State) {
    var n, p := |s.threads|, Phase(s.main);
    && s.nextTid == n && (s.accepting <==> p == 0) && (p >= 1 ==> n >= 1)
    && (s.ready <==> p >= 4)
    && (s.mutex == Main <==> 3 <= p <= 6)
    && (s.mutex.Server? ==> s.mutex.thread < n)
    && s.barrier == (if p >= 5 then n + 1 else 0)
    && (p == 0 ==> s.files == 0) && s.files <= n && (p >= 2 ==> s.files == n)
    && s.arrived == Arrivals(s.threads) + (if p >= 8 then 1 else 0)
    && (p == 9 ==> s.arrived == n + 1)
  }

  ghost predicate Inv(s: State) {
    MainOk(s) && forall i :: 0 <= i < |s.threads| ==> ThreadOk(s, i)
  }

  // --------------------------------------------------------------- preservation

  lemma {:induction false} ArrivalsAt(ts: seq<Thread>, i: nat, t: Thread)
    requires i < |ts|
    ensures Arrivals(ts[i := t]) == Arrivals(ts) - (if Past(ts[i].pc) then 1 else 0) + (if Past(t.pc) then 1 else 0)
    decreases |ts|
  {
    var us := ts[i := t];
    if i == |ts| - 1 {
      assert us[..i] == ts[..i];
    } else {
      assert us[..|ts| - 1] == ts[..|ts| - 1][i := t];
      ArrivalsAt(ts[..|ts| - 1], i, t);
    }
  }

  lemma {:induction false} ArrivalsSame(ts: seq<Thread>, us: seq<Thread>)
    requires |ts| == |us| && forall i :: 0 <= i < |ts| ==> Past(ts[i].pc) == Past(us[i].pc)
    ensures Arrivals(ts) == Arrivals(us)
  {
    if ts != [] {
      ArrivalsSame(ts[..|ts| - 1], us[..|us| - 1]);
    }
  }

  /** Everybody has arrived exactly when the count says so. */
  lemma {:induction false} AllArrived(ts: seq<Thread>)
    ensures Arrivals(ts) == |ts| <==> forall i :: 0 <= i < |ts| ==> Past(ts[i].pc)
  {
    if ts != [] {
      var init := ts[..|ts| - 1];
      AllArrived(init);
      assert forall i :: 0 <= i < |init| ==> init[i] == ts[i];
    }
  }

  lemma MainKeeps(s: State)
    requires Inv(s) && MainEnabled(s)
    ensures Inv(MainMove(s))
  {
    var r := MainMove(s);
    if s.main == Broadcast {
      ArrivalsSame(s.threads, r.threads);
    }
    forall i | 0 <= i < |r.threads| ensures ThreadOk(r, i) {
      assert ThreadOk(s, i);
    }
  }

  lemma AcceptKeeps(s: State)
    requires Inv(s) && s.main == Accepting
    ensures Inv(Move(s, Accept))
  {
    var r := Move(s, Accept);
    var n := |s.threads|;
    assert r.threads[..n] == s.threads;
    forall i | 0 <= i < |r.threads| ensures ThreadOk(r, i) {
      if i < n {
        assert ThreadOk(s, i);
      } else {
        assert Script(n)[0..0] == [];
      }
    }
  }

  /** Thread i changes, the shared state but for the mutex and the arrivals does not. */
  lemma OthersKeep(s: State, r: State, i: nat)
    requires Inv(s) && i < |s.threads| && |r.threads| == |s.threads|
    requires forall j :: 0 <= j < |s.threads| && j != i ==> r.threads[j] == s.threads[j]
    requires r.main == s.main
    requires || r.mutex == s.mutex
             || (s.mutex == Nobody && r.mutex == Server(i))
             || (s.mutex == Server(i) && r.mutex == Nobody)
    requires r.arrived == s.arrived || s.arrived <= |s.threads|
    ensures forall j :: 0 <= j < |s.threads| && j != i ==> ThreadOk(r, j)
  {
    forall j | 0 <= j < |s.threads| && j != i ensures ThreadOk(r, j) {
      assert ThreadOk(s, j);
    }
  }

  /** The conversation after the thread has sent the next message. */
  lemma TalkOn(t: Thread, m: Message, pc: ThreadPc)
    requires Talking(t) && SentCount(pc) == SentCount(t.pc) + 1 && m == Script(t.tid)[SentCount(t.pc)]
    requires t.pc != AwaitAck && (SentCount(pc) == 4 ==> pc == AwaitAck)
    ensures Talking(Send(t, m, pc))
  {
    assert Send(t, m, pc).sent == Script(t.tid)[ReadCount(t.client)..SentCount(pc)];
  }

  /** The conversation after the thread has gone on without sending. */
  lemma TalkSame(t: Thread, pc: ThreadPc)
    requires Talking(t) && SentCount(pc) == SentCount(t.pc) && pc != AwaitAck && t.pc != AwaitAck
    ensures Talking(t.(pc := pc))
  {
    hide Script;
  }

  lemma TalkAcked(t: Thread)
    requires Talking(t) && t.pc == AwaitAck && t.acks > 0
    ensures Talking(t.(pc := Arrive, acks := t.acks - 1))
  {
    hide Script;
  }

  lemma RoomToArrive(s: State, i: nat)
    requires MainOk(s) && i < |s.threads| && !Past(s.threads[i].pc)
    ensures Arrivals(s.threads) < |s.threads| && s.arrived <= |s.threads|
  {
    AllArrived(s.threads);
  }

  lemma ThreadKeepsMain(s: State, i: nat)
    requires Inv(s) && i < |s.threads| && ThreadEnabled(s, i)
    ensures MainOk(ThreadMove(s, i))
  {
    hide ThreadOk, Talking, Script, Arrivals, SentCount, ReadCount;
    var r := ThreadMove(s, i);
    ThreadPlace(s, i);
    ArrivalsAt(s.threads, i, r.threads[i]);
  }

  lemma ThreadPlace(s: State, i: nat)
    requires Inv(s) && i < |s.threads|
    ensures var t := s.threads[i];
            && t.tid == i && (s.mutex == Server(i) <==> t.pc == Check || t.pc == Unlock)
            && (t.pc == Waiting ==> Phase(s.main) <= 5)
  {
    assert ThreadOk(s, i);
  }

  /** The conversation after a step of the thread. */
  lemma ThreadKeepsTalking(s: State, i: nat)
    requires Inv(s) && i < |s.threads| && ThreadEnabled(s, i)
    ensures var t := ThreadMove(s, i).threads[i]; t.tid == i && Talking(t)
  {
    hide Talking;
    var t := s.threads[i];
    assert ThreadOk(s, i);
    var next := ThreadMove(s, i).threads[i];
    if SentCount(next.pc) > SentCount(t.pc) {
      TalkOn(t, Script(t.tid)[SentCount(t.pc)], next.pc);
    } else if t.pc == AwaitAck {
      TalkAcked(t);
    } else {
      TalkSame(t, next.pc);
    }
  }

  lemma ThreadKeepsPlace(s: State, i: nat)
    requires Inv(s) && i < |s.threads| && ThreadEnabled(s, i)
    ensures ThreadOk(ThreadMove(s, i), i)
  {
    hide Talking, Script, Arrivals;
    assert ThreadOk(s, i);
    ThreadKeepsTalking(s, i);
  }

  lemma ThreadKeeps(s: State, i: nat)
    requires Inv(s) && i < |s.threads| && ThreadEnabled(s, i)
    ensures Inv(ThreadMove(s, i))
  {
    hide Talking, Script, Arrivals;
    var t, r := s.threads[i], ThreadMove(s, i);
    ThreadKeepsMain(s, i);
    ThreadKeepsPlace(s, i);
    assert ThreadOk(s, i);
    if t.pc == Arrive {
      RoomToArrive(s, i);
    }
    OthersKeep(s, r, i);
  }

  lemma ClientKeeps(s: State, i: nat)
    requires Inv(s) && i < |s.threads| && s.threads[i].sent != []
    ensures Inv(ClientMove(s, i))
  {
    hide Talking, Script, Arrivals, SentCount, ReadCount, Receive;
    var t, r := s.threads[i], ClientMove(s, i);
    assert ThreadOk(s, i);
    ClientTalks(t);
    ArrivalsAt(s.threads, i, r.threads[i]);
    OthersKeep(s, r, i);
    assert ThreadOk(r, i);
  }

  /** The conversation after the client has read a message. */
  lemma ClientTalks(t: Thread)
    requires Talking(t) && t.sent != []
    ensures var c := Receive(t.client, t.sent[0]);
            Talking(t.(
              client := c, sent := t.sent[1..], acks := t.acks + if t.client == Getting && c == Loaded then 1 else 0))
  {
    assert t.sent[0] == Script(t.tid)[ReadCount(t.client)];
    assert t.sent[1..] == Script(t.tid)[ReadCount(t.client) + 1..SentCount(t.pc)];
  }

  lemma SpuriousKeeps(s: State, i: nat)
    requires Inv(s) && Enabled(s, SpuriousWakeup(i))
    ensures Inv(Move(s, SpuriousWakeup(i)))
  {
    var r := Move(s, SpuriousWakeup(i));
    assert ThreadOk(s, i);
    ArrivalsAt(s.threads, i, r.threads[i]);
    OthersKeep(s, r, i);
    assert ThreadOk(r, i);
  }

  /** Every step of every thread, client and of main keeps the invariant. */
  lemma StepKeeps(s: State, a: Step)
    requires Inv(s) && Enabled(s, a)
    ensures Inv(Move(s, a))
  {
    match a
    case Accept => AcceptKeeps(s);
    case MainStep => MainKeeps(s);
    case ThreadStep(i) => ThreadKeeps(s, i);
    case ClientStep(i) => ClientKeeps(s, i);
    case SpuriousWakeup(i) => SpuriousKeeps(s, i);
  }

  lemma {:induction false} RunKeeps(ss: seq<State>, k: nat)
    requires IsRun(ss) && k < |ss|
    ensures Inv(ss[k])
  {
    if k > 0 {
      RunKeeps(ss, k - 1);
      var a :| Enabled(ss[k - 1], a) && ss[k - 1 + 1] == Move(ss[k - 1], a);
      StepKeeps(ss[k - 1], a);
    }
  }

  // -------------------------------------------------------------------- safety

  /** A message that names a thread. */
  predicate Names(m: Message) {
    m.Ident? || m.File?
  }

  /** What must never fail to hold, whatever the number of clients and the interleaving. */
  ghost predicate Safe(s: State) {
    // a thread about to send the play command, or past it: everybody is ready
    && (forall i :: 0 <= i < |s.threads| && (s.threads[i].pc == SendPlay || s.threads[i].pc == Done) ==>
          && (s.main == MainInBarrier || s.main == MainDone)
          && forall j :: 0 <= j < |s.threads| ==> Past(s.threads[j].pc) && ReadCount(s.threads[j].client) >= 4)
    // a thread about to open its file: all files are written, its own among them
    && (forall i :: 0 <= i < |s.threads| && s.threads[i].pc == Open ==>
          s.files == |s.threads| && s.threads[i].tid < s.files)
    // a thread at the barrier: the barrier is initialised, for all of them and main
    && (forall i :: 0 <= i < |s.threads| && (s.threads[i].pc == Arrive || Past(s.threads[i].pc)) ==>
          s.barrier == |s.threads| + 1)
    // a client playing: every client has its file
    && (forall i :: 0 <= i < |s.threads| && s.threads[i].client == Playing ==>
          forall j :: 0 <= j < |s.threads| ==> ReadCount(s.threads[j].client) >= 4)
    // every client finds a message it can use
    && (forall i :: 0 <= i < |s.threads| && s.threads[i].sent != [] ==>
          Receive(s.threads[i].client, s.threads[i].sent[0]) != s.threads[i].client)
    // an id or a file on its way to a client is that of its own thread
    && (forall i :: 0 <= i < |s.threads| ==>
          forall m :: m in s.threads[i].sent && Names(m) ==> m.id == s.threads[i].tid)
    && (forall i, j :: 0 <= i < j < |s.threads| ==> s.threads[i].tid != s.threads[j].tid)
  }

  lemma OwnNames(t: Thread)
    requires Talking(t)
    ensures forall m :: m in t.sent && Names(m) ==> m.id == t.tid
  {
    hide SentCount, ReadCount;
    assert forall m :: m in t.sent ==> m in Script(t.tid);
  }

  lemma ThreadFacts(s: State, i: nat)
    requires Inv(s) && i < |s.threads|
    ensures var t := s.threads[i];
            && t.tid == i && (SawReady(t.pc) ==> Phase(s.main) >= 7)
            && (t.sent != [] ==> Receive(t.client, t.sent[0]) != t.client)
            && (forall m :: m in t.sent && Names(m) ==> m.id == t.tid)
            && (Past(t.pc) ==> ReadCount(t.client) >= 4)
            && (t.client == Playing ==> t.pc == Done)
            && (t.pc == SendPlay || t.pc == Done ==> s.arrived == |s.threads| + 1)
  {
    assert ThreadOk(s, i);
    var t := s.threads[i];
    if t.sent != [] {
      assert t.sent[0] == Script(t.tid)[ReadCount(t.client)];
    }
    OwnNames(t);
  }

  /** Once the barrier has let anybody through, all threads and main have arrived. */
  lemma AllThere(s: State)
    requires MainOk(s) && s.arrived == |s.threads| + 1
    ensures Phase(s.main) >= 8 && forall j :: 0 <= j < |s.threads| ==> Past(s.threads[j].pc)
  {
    AllArrived(s.threads);
  }

  lemma InvSafe(s: State)
    requires Inv(s)
    ensures Safe(s)
  {
    hide ThreadOk, Talking, Script, Arrivals, ReadCount, Receive;
    forall i | 0 <= i < |s.threads|
      ensures s.threads[i].tid == i && (SawReady(s.threads[i].pc) ==> Phase(s.main) >= 7)
      ensures s.threads[i].sent != [] ==> Receive(s.threads[i].client, s.threads[i].sent[0]) != s.threads[i].client
      ensures forall m :: m in s.threads[i].sent && Names(m) ==> m.id == s.threads[i].tid
      ensures Past(s.threads[i].pc) ==> ReadCount(s.threads[i].client) >= 4
      ensures s.threads[i].client == Playing ==> s.threads[i].pc == Done
      ensures s.threads[i].pc == SendPlay || s.threads[i].pc == Done ==> s.arrived == |s.threads| + 1
    {
      ThreadFacts(s, i);
    }
    if s.arrived == |s.threads| + 1 {
      AllThere(s);
    }
  }

  /** Safety over every run. */
  lemma {:induction false} RunSafe(ss: seq<State>, k: nat)
    requires IsRun(ss) && k < |ss|
    ensures Safe(ss[k])
  {
    RunKeeps(ss, k);
    InvSafe(ss[k]);
  }

  /**
   Over a whole run, no two clients get one file or one id: a message that names a thread, whenever
   it comes next for a client, is for that client alone.
   */
  lemma {:induction false} OneReceiver(ss: seq<State>, k: nat, i: nat, l: nat, j: nat)
    requires IsRun(ss) && k < |ss| && l < |ss| && i < |ss[k].threads| && j < |ss[l].threads|
    requires ss[k].threads[i].sent != [] && ss[l].threads[j].sent != []
    requires Names(ss[k].threads[i].sent[0]) && ss[k].threads[i].sent[0] == ss[l].threads[j].sent[0]
    ensures i == j
  {
    RunKeeps(ss, k);
    RunKeeps(ss, l);
    ThreadFacts(ss[k], i);
    ThreadFacts(ss[l], j);
  }

  // ------------------------------------------------------------------ progress

  /** Main and all threads are through, and every client plays. */
  ghost predicate Finished(s: State) {
    s.main == MainDone && forall i :: 0 <= i < |s.threads| ==> s.threads[i].pc == Done && s.threads[i].client == Playing
  }

  /** A step of the protocol itself: no new client, no wakeup out of nowhere. */
  predicate Own(a: Step) {
    a.MainStep? || a.ThreadStep? || a.ClientStep?
  }

  predicate Moves(s: State, a: Step) {
    Own(a) && Enabled(s, a)
  }

  /** If the mutex is taken, whoever holds it can go on. */
  lemma HolderMoves(s: State) returns (a: Step)
    requires Inv(s) && s.mutex != Nobody
    ensures Moves(s, a)
  {
    if s.mutex == Main {
      a := MainStep;
    } else {
      a := ThreadStep(s.mutex.thread);
      assert ThreadOk(s, s.mutex.thread);
    }
  }

  /** A thread not yet at the barrier can go on, or its client or the holder of the mutex can. */
  lemma ThreadMoves(s: State, i: nat) returns (a: Step)
    requires Inv(s) && i < |s.threads| && !Past(s.threads[i].pc) && Phase(s.main) >= 6
    ensures Moves(s, a)
  {
    var t := s.threads[i];
    assert ThreadOk(s, i);
    if (t.pc == Lock || t.pc == Woken) && s.mutex != Nobody {
      a := HolderMoves(s);
    } else if t.pc == AwaitAck && t.acks == 0 {
      a := ClientStep(i);
      assert ReadCount(t.client) < SentCount(t.pc);
    } else {
      a := ThreadStep(i);
    }
  }

  /** At the end only messages can be left, and they can be read. */
  lemma LastMoves(s: State) returns (a: Step)
    requires Inv(s) && s.main == MainDone && !Finished(s)
    ensures Moves(s, a)
  {
    AllThere(s);
    var i :| 0 <= i < |s.threads| && !(s.threads[i].pc == Done && s.threads[i].client == Playing);
    assert ThreadOk(s, i);
    a := if s.threads[i].pc == Done then ClientStep(i) else ThreadStep(i);
    if s.threads[i].pc == Done {
      assert ReadCount(s.threads[i].client) < 5;
    }
  }

  /** No deadlock and no lost wakeup: while anybody is not through, somebody can move. */
  lemma {:induction false} NoDeadlock(s: State) returns (a: Step)
    requires Inv(s) && s.threads != [] && !Finished(s)
    ensures Moves(s, a)
  {
    if s.main == MainDone {
      a := LastMoves(s);
    } else if s.main == MainInBarrier {
      if Arrivals(s.threads) == |s.threads| {
        a := MainStep;
      } else {
        AllArrived(s.threads);
        var i :| 0 <= i < |s.threads| && !Past(s.threads[i].pc);
        a := ThreadMoves(s, i);
      }
    } else if s.main == MainLock && s.mutex != Nobody {
      a := HolderMoves(s);
    } else {
      a := MainStep;
    }
  }

  function Rank(pc: ThreadPc, ready: bool): nat {
    match pc
    case SendConnected => 20
    case SendIdent => 19
    case Lock => 18
    case Woken => if ready then 14 else 17
    case Check => if ready then 13 else 16
    case Waiting => 15
    case Unlock => 12
    case SendNewFile => 11
    case Open => 10
    case SendFile => 9
    case AwaitAck => 8
    case Arrive => 7
    case InBarrier => 6
    case SendPlay => 5
    case Done => 0
  }

  function Weight(t: Thread, ready: bool): nat {
    4 * Rank(t.pc, ready) + 2 * |t.sent| + t.acks
  }

  function Total(ts: seq<Thread>, ready: bool): nat {
    if ts == [] then 0 else Total(ts[..|ts| - 1], ready) + Weight(ts[|ts| - 1], ready)
  }

  function MainRank(s: State): int {
    match s.main
    case Accepting => |s.threads| + 9
    case WriteFiles => |s.threads| - s.files + 8
    case m => 9 - Phase(m)
  }

  /** Steps left at most. */
  function Measure(s: State): int {
    MainRank(s) + Total(s.threads, s.ready)
  }

  lemma {:induction false} TotalAt(ts: seq<Thread>, i: nat, t: Thread, ready: bool)
    requires i < |ts|
    ensures Total(ts[i := t], ready) == Total(ts, ready) - Weight(ts[i], ready) + Weight(t, ready)
    decreases |ts|
  {
    var us := ts[i := t];
    if i == |ts| - 1 {
      assert us[..i] == ts[..i];
    } else {
      assert us[..|ts| - 1] == ts[..|ts| - 1][i := t];
      TotalAt(ts[..|ts| - 1], i, t, ready);
    }
  }

  lemma {:induction false} TotalFalls(ts: seq<Thread>, us: seq<Thread>, before: bool, after: bool)
    requires |ts| == |us| && forall i :: 0 <= i < |ts| ==> Weight(us[i], after) <= Weight(ts[i], before)
    ensures Total(us, after) <= Total(ts, before)
  {
    if ts != [] {
      TotalFalls(ts[..|ts| - 1], us[..|us| - 1], before, after);
    }
  }

  lemma MainFalls(s: State)
    requires Inv(s) && MainEnabled(s)
    ensures Measure(MainMove(s)) < Measure(s)
  {
    hide ThreadOk, Total;
    var r := MainMove(s);
    TotalFalls(s.threads, r.threads, s.ready, r.ready);
  }

  lemma ThreadFalls(s: State, i: nat)
    requires Inv(s) && i < |s.threads| && ThreadEnabled(s, i)
    ensures Measure(ThreadMove(s, i)) < Measure(s)
  {
    hide ThreadOk, Total, Inv, Weight, ThreadMove;
    WeightFalls(s, i);
    OnlyThread(s, i);
    TotalAt(s.threads, i, ThreadMove(s, i).threads[i], s.ready);
  }

  lemma WeightFalls(s: State, i: nat)
    requires i < |s.threads| && ThreadEnabled(s, i)
    ensures Weight(ThreadMove(s, i).threads[i], s.ready) < Weight(s.threads[i], s.ready)
  {
  }

  lemma OnlyThread(s: State, i: nat)
    requires i < |s.threads| && ThreadEnabled(s, i)
    ensures var r := ThreadMove(s, i);
            && r.threads == s.threads[i := r.threads[i]] && |r.threads| == |s.threads|
            && r.main == s.main && r.files == s.files && r.ready == s.ready
  {
  }

  lemma ClientFalls(s: State, i: nat)
    requires i < |s.threads| && s.threads[i].sent != []
    ensures Measure(ClientMove(s, i)) < Measure(s)
  {
    hide Total, Receive, Rank;
    TotalAt(s.threads, i, ClientMove(s, i).threads[i], s.ready);
  }

  /** Every step of the protocol itself uses up some of what is left. */
  lemma MeasureFalls(s: State, a: Step)
    requires Inv(s) && Moves(s, a)
    ensures 0 <= Measure(Move(s, a)) < Measure(s)
  {
    hide Measure, Inv, MainMove, ThreadMove, ClientMove;
    StepKeeps(s, a);
    MeasureNatural(Move(s, a));
    match a
    case MainStep => MainFalls(s);
    case ThreadStep(i) => ThreadFalls(s, i);
    case ClientStep(i) => ClientFalls(s, i);
  }

  lemma MeasureNatural(s: State)
    requires Inv(s)
    ensures Measure(s) >= 0
  {
  }

  ghost predicate CanMove(s: State) {
    exists a :: Moves(s, a)
  }

  ghost predicate Undisturbed(s: State, r: State) {
    exists a :: Moves(s, a) && r == Move(s, a)
  }

  /** A stretch of a run in which only the protocol itself moves. */
  ghost predicate IsStretch(ss: seq<State>) {
    ss != [] && forall i :: 0 <= i < |ss| - 1 ==> Undisturbed(ss[i], ss[i + 1])
  }

  /** One undisturbed step: the invariant stays, there are as many clients, less is left. */
  lemma UndisturbedFalls(s: State, r: State)
    requires Inv(s) && s.threads != [] && Undisturbed(s, r)
    ensures Inv(r) && r.threads != [] && Measure(r) < Measure(s)
  {
    var a :| Moves(s, a) && r == Move(s, a);
    StepKeeps(s, a);
    MeasureFalls(s, a);
    SameClients(s, a);
  }

  lemma SameClients(s: State, a: Step)
    requires Moves(s, a)
    ensures |Move(s, a).threads| == |s.threads|
  {
  }

  /**
   However the steps interleave, an undisturbed stretch is no longer than its measure, and
   one that cannot go on has reached the end: every client has been told to play.
   */
  lemma {:induction false} EveryStretchEnds(ss: seq<State>)
    requires IsStretch(ss) && Inv(ss[0]) && ss[0].threads != []
    ensures |ss| - 1 <= Measure(ss[0])
    ensures Inv(ss[|ss| - 1]) && (Finished(ss[|ss| - 1]) || CanMove(ss[|ss| - 1]))
    decreases |ss|
  {
    hide Inv, Measure, Undisturbed, Finished, Moves;
    if |ss| == 1 {
      if !Finished(ss[0]) {
        var a := NoDeadlock(ss[0]);
      }
      MeasureNatural(ss[0]);
    } else {
      assert Undisturbed(ss[0], ss[0 + 1]);
      UndisturbedFalls(ss[0], ss[1]);
      var tail := ss[1..];
      forall i | 0 <= i < |tail| - 1 ensures Undisturbed(tail[i], tail[i + 1]) {
        assert Undisturbed(ss[i + 1], ss[i + 1 + 1]);
      }
      EveryStretchEnds(tail);
    }
  }
}
