/**
 The retrying sink of internal/stream/grpc_client.go: one connection and three
 client streams, shared by five sends that each retry under the client's mutex.
 */
module GRPCClient {
  import opened Wrappers
  import opened VMInfoSync

  datatype StreamKind = NodeMetrics | VMMetrics | VMRuntime

  /** A stream handle: its number, the connection it was issued on, and its method. */
  datatype Stream = Stream(id: nat, conn: nat, kind: StreamKind)

  /** The two unary calls. Only the inventory frame touches the mirror. */
  datatype Unary = InfoSync(frame: Frame) | HardwareInfo(payload: string)

  function ApplyUnary(mirror: Inventory, u: Unary): Inventory {
    match u
    case InfoSync(frame) => Apply(mirror, frame)
    case HardwareInfo(_) => mirror
  }

  function Copies(u: Unary, k: nat): seq<Unary> {
    seq(k, i => u)
  }

  // ---------------------------------------------------------------------------
  // Backoff
  // ---------------------------------------------------------------------------

  /** The wait requested after a failed attempt, in nanoseconds. */
  function Backoff(retryBackoff: int, attempt: nat): int {
    if retryBackoff * attempt <= 0 then 1_000_000_000 else retryBackoff * attempt
  }

  function Backoffs(retryBackoff: int, k: nat): seq<int> {
    seq(k, (i: nat) => Backoff(retryBackoff, i + 1))
  }

  lemma {:induction false} BackoffTotal(retryBackoff: int, k: nat)
    ensures retryBackoff > 0 ==> 2 * Sum(Backoffs(retryBackoff, k)) == retryBackoff * (k * (k + 1))
    ensures retryBackoff <= 0 ==> Sum(Backoffs(retryBackoff, k)) == 1_000_000_000 * k
  {
    if k > 0 {
      var waits := Backoffs(retryBackoff, k);
      assert waits[..k - 1] == Backoffs(retryBackoff, k - 1);
      BackoffTotal(retryBackoff, k - 1);
      BackoffArithmetic(retryBackoff, k);
    }
  }

  lemma BackoffArithmetic(retryBackoff: int, k: nat)
    requires k > 0
    ensures retryBackoff > 0 <==> retryBackoff * k > 0
    ensures retryBackoff * (k * (k + 1)) == retryBackoff * ((k - 1) * k) + 2 * (retryBackoff * k)
  {
    assert k * (k + 1) == (k - 1) * k + 2 * k;
  }

  /** Fewer than n waits of a positive backoff total at most retryBackoff * n * (n - 1) / 2. */
  lemma BackoffBound(retryBackoff: int, k: nat, n: nat)
    requires retryBackoff > 0 && k < n
    ensures 2 * Sum(Backoffs(retryBackoff, k)) <= retryBackoff * (n * (n - 1))
  {
    BackoffTotal(retryBackoff, k);
    ProductGrows(k, n - 1, k + 1, n);
    ProductGrows(retryBackoff, retryBackoff, k * (k + 1), (n - 1) * n);
  }

  /**
   The waits a send of some attempts asks for: one after every attempt but the last, and one
   more if the context ended during it. The i-th is i times a positive backoff, else a second.
   */
  ghost predicate Waited(retryBackoff: int, before: seq<int>, after: seq<int>, attempts: nat, interrupted: bool) {
    && before <= after
    && |after| - |before| == (if interrupted then attempts else attempts - 1)
    && forall i :: |before| <= i < |after| ==>
         after[i] == if retryBackoff > 0 then retryBackoff * (i - |before| + 1) else 1_000_000_000
  }

  lemma BackoffsWaited(retryBackoff: int, before: seq<int>, after: seq<int>, attempts: nat, interrupted: bool)
    requires attempts > 0
    ensures Waited(retryBackoff, before, after, attempts, interrupted)
            <==> after == before + Backoffs(retryBackoff, if interrupted then attempts else attempts - 1)
  {
    var k := if interrupted then attempts else attempts - 1;
    forall i | 0 <= i < k
      ensures Backoffs(retryBackoff, k)[i] == if retryBackoff > 0 then retryBackoff * (i + 1) else 1_000_000_000
    {
      BackoffArithmetic(retryBackoff, i + 1);
    }
    if Waited(retryBackoff, before, after, attempts, interrupted) {
      forall i | |before| <= i < |after|
        ensures after[i] == Backoffs(retryBackoff, k)[i - |before|]
      {
      }
      assert after == before + Backoffs(retryBackoff, k);
    }
  }

  /** A positive backoff adds up to at most retryBackoff * n * (n - 1) / 2 over one send of at most n attempts. */
  lemma WaitedTotal(
    retryBackoff: int, n: nat, before: seq<int>, after: seq<int>, attempts: nat, interrupted: bool)
    requires retryBackoff > 0 && 0 < attempts <= n && (interrupted ==> attempts < n)
    requires Waited(retryBackoff, before, after, attempts, interrupted)
    ensures 2 * Sum(after[|before|..]) <= retryBackoff * (n * (n - 1))
  {
    var k := if interrupted then attempts else attempts - 1;
    BackoffsWaited(retryBackoff, before, after, attempts, interrupted);
    assert after[|before|..] == Backoffs(retryBackoff, k);
    BackoffBound(retryBackoff, k, n);
  }

  lemma ProductGrows(a: nat, b: nat, x: nat, y: nat)
    requires a <= b && x <= y
    ensures a * x <= b * y
  {
    assert b * y == a * x + a * (y - x) + (b - a) * y;
  }

  // ---------------------------------------------------------------------------
  // The handles a client holds, and the transport's record of them
  // ---------------------------------------------------------------------------

  /**
   closes[h] counts how often connection h was closed, halfCloses[i] how often stream i
   was half-closed, and streams[i] says on which connection and for what it was opened.
   */
  datatype Session = Session(
    conn: Option<nat>,
    node: Option<Stream>,
    vm: Option<Stream>,
    runtime: Option<Stream>,
    closes: seq<nat>,
    streams: seq<(nat, StreamKind)>,
    halfCloses: seq<nat>
  ) {
    function StreamOf(kind: StreamKind): Option<Stream> {
      match kind
      case NodeMetrics => node
      case VMMetrics => vm
      case VMRuntime => runtime
    }

    function With(kind: StreamKind, s: Option<Stream>): Session {
      match kind
      case NodeMetrics => this.(node := s)
      case VMMetrics => this.(vm := s)
      case VMRuntime => this.(runtime := s)
    }

    /** A held stream was opened for its kind, on the connection held now. */
    ghost predicate OnCurrentConn(kind: StreamKind) {
      var s := StreamOf(kind);
      s.Some? ==>
        && s.value.kind == kind
        && conn == Some(s.value.conn)
        && s.value.id < |streams|
        && streams[s.value.id] == (s.value.conn, kind)
    }

    predicate Holds(id: nat) {
      || (node.Some? && node.value.id == id)
      || (vm.Some? && vm.value.id == id)
      || (runtime.Some? && runtime.value.id == id)
    }

    /**
     Every held stream belongs to the held connection, and every connection and every
     stream ever opened is either held or was closed exactly once.
     */
    ghost predicate Sound() {
      && OnCurrentConn(NodeMetrics) && OnCurrentConn(VMMetrics) && OnCurrentConn(VMRuntime)
      && (conn.Some? ==> conn.value < |closes|)
      && |halfCloses| == |streams|
      && (forall h :: 0 <= h < |closes| ==> closes[h] == if conn == Some(h) then 0 else 1)
      && (forall i :: 0 <= i < |halfCloses| ==> halfCloses[i] == if Holds(i) then 0 else 1)
    }
  }

  function Closed(closes: seq<nat>, h: nat): seq<nat>
    requires h < |closes|
  {
    closes[h := closes[h] + 1]
  }

  lemma HalfCloseSound(t: Session, kind: StreamKind)
    requires t.Sound() && t.StreamOf(kind).Some?
    ensures t.With(kind, None).(halfCloses := Closed(t.halfCloses, t.StreamOf(kind).value.id)).Sound()
  {
  }

  /** With a stream of a kind, opened on the held connection unless there is one already. */
  function Opened(t: Session, kind: StreamKind): Session
    requires t.conn.Some?
  {
    if t.StreamOf(kind).Some? then t
    else t.With(kind, Some(Stream(|t.streams|, t.conn.value, kind)))
         .(streams := t.streams + [(t.conn.value, kind)], halfCloses := t.halfCloses + [0])
  }

  lemma OpenSound(t: Session, kind: StreamKind)
    requires t.Sound() && t.conn.Some?
    ensures Opened(t, kind).Sound()
  {
  }

  lemma CloseConnSound(t: Session)
    requires t.Sound() && t.conn.Some? && t.node == t.vm == t.runtime == None
    ensures t.(conn := None, closes := Closed(t.closes, t.conn.value)).Sound()
  {
  }

  lemma DialSound(t: Session)
    requires t.Sound() && t.conn == None
    ensures t.(conn := Some(|t.closes|), closes := t.closes + [0]).Sound()
  {
  }

  lemma {:induction false} SumOfCloses(closes: seq<nat>, held: set<nat>)
    requires forall h :: h in held ==> h < |closes|
    requires forall h :: 0 <= h < |closes| ==> closes[h] == if h in held then 0 else 1
    ensures Sum(closes) + |held| == |closes|
  {
    if closes == [] {
      assert held == {};
    } else {
      var n := |closes| - 1;
      SumOfCloses(closes[..n], held - {n});
      assert n in held ==> held == (held - {n}) + {n};
      assert n !in held ==> held == held - {n};
    }
  }

  /** Opened equals closed plus held, for connections and for streams. */
  lemma SoundCounts(t: Session)
    requires t.Sound()
    ensures |t.closes| == Sum(t.closes) + (if t.conn.Some? then 1 else 0)
    ensures |t.streams| == Sum(t.halfCloses) + (if t.node.Some? then 1 else 0)
                           + (if t.vm.Some? then 1 else 0) + (if t.runtime.Some? then 1 else 0)
    ensures t.conn == None ==> t.node == t.vm == t.runtime == None
  {
    SumOfCloses(t.closes, if t.conn.Some? then {t.conn.value} else {});
    HeldCount(t);
    SumOfCloses(t.halfCloses, HeldIDs(t));
  }

  ghost function HeldIDs(t: Session): (r: set<nat>)
    ensures forall id :: id in r <==> t.Holds(id)
  {
    IDs(t.node) + IDs(t.vm) + IDs(t.runtime)
  }

  /** Held streams of different kinds have different numbers. */
  lemma HeldCount(t: Session)
    requires t.OnCurrentConn(NodeMetrics) && t.OnCurrentConn(VMMetrics) && t.OnCurrentConn(VMRuntime)
    ensures |HeldIDs(t)| == (if t.node.Some? then 1 else 0) + (if t.vm.Some? then 1 else 0)
                            + (if t.runtime.Some? then 1 else 0)
  {
    var a, b, c := IDs(t.node), IDs(t.vm), IDs(t.runtime);
    assert a !! b && a + b !! c;
    assert |a + b| == |a| + |b| && |(a + b) + c| == |a + b| + |c|;
  }

  ghost function IDs(s: Option<Stream>): set<nat> {
    if s.Some? then {s.value.id} else {}
  }

  // ---------------------------------------------------------------------------
  // The transport and the receiver, as an environment
  // ---------------------------------------------------------------------------

  /**
   The gRPC transport. Every call may fail; a unary call that reports failure may have
   been applied by the receiver nevertheless. The ghost fields record what happened; refusals
   counts the calls that failed.
   */
  class Network {
    var closes: seq<nat>
    var streams: seq<(nat, StreamKind)>
    var halfCloses: seq<nat>
    var shut: set<nat>
    ghost var accepted: seq<(StreamKind, string)>
    ghost var waits: seq<int>
    ghost var interrupts: nat
    ghost var applied: seq<Unary>
    ghost var acks: nat
    ghost var refusals: nat
    ghost var mirror: Inventory

    constructor (ghost mirror: Inventory)
      ensures closes == [] && streams == [] && halfCloses == []
      ensures accepted == [] && waits == [] && applied == [] && this.mirror == mirror
    {
      closes, streams, halfCloses := [], [], [];
      shut, accepted, waits, interrupts := {}, [], [], 0;
      applied, acks, refusals, this.mirror := [], 0, 0, mirror;
    }

    method Dial() returns (conn: Option<nat>)
      modifies `closes, `refusals
      ensures refusals == old(refusals) + if conn == None then 1 else 0
      ensures conn == None ==> closes == old(closes)
      ensures conn.Some? ==> conn.value == |old(closes)| && closes == old(closes) + [0]
    {
      if * {
        conn := Some(|closes|);
        closes := closes + [0];
      } else {
        conn := None;
        refusals := refusals + 1;
      }
    }

    /** A connection may have shut down by itself since it was last asked. */
    method IsShutdown(conn: nat) returns (down: bool)
      modifies `shut
      ensures shut == old(shut) || shut == old(shut) + {conn}
      ensures down <==> conn in shut
    {
      if * {
        shut := shut + {conn};
      }
      down := conn in shut;
    }

    method CloseConn(conn: nat) returns (ok: bool)
      requires conn < |closes|
      modifies `closes
      ensures closes == Closed(old(closes), conn)
    {
      closes := Closed(closes, conn);
      ok := *;
    }

    method NewStream(conn: nat, kind: StreamKind) returns (s: Option<Stream>)
      modifies `streams, `halfCloses, `refusals
      ensures refusals == old(refusals) + if s == None then 1 else 0
      ensures s == None ==> streams == old(streams) && halfCloses == old(halfCloses)
      ensures s.Some? ==> s.value == Stream(|old(streams)|, conn, kind) && streams == old(streams) + [(conn, kind)]
                          && halfCloses == old(halfCloses) + [0]
    {
      if * {
        s := Some(Stream(|streams|, conn, kind));
        streams := streams + [(conn, kind)];
        halfCloses := halfCloses + [0];
      } else {
        s := None;
        refusals := refusals + 1;
      }
    }

    method CloseSend(s: Stream)
      requires s.id < |halfCloses|
      modifies `halfCloses
      ensures halfCloses == Closed(old(halfCloses), s.id)
    {
      halfCloses := Closed(halfCloses, s.id);
    }

    method SendMsg(s: Stream, msg: string) returns (ok: bool)
      modifies `accepted, `refusals
      ensures accepted == old(accepted) + if ok then [(s.kind, msg)] else []
      ensures refusals == old(refusals) + if ok then 0 else 1
    {
      ok := *;
      refusals := refusals + if ok then 0 else 1;
      accepted := accepted + if ok then [(s.kind, msg)] else [];
    }

    /** Refused, applied but reported as failed, or applied and acknowledged. */
    method Invoke(conn: nat, u: Unary) returns (ok: bool, ghost landed: bool)
      modifies `applied, `acks, `refusals, `mirror
      ensures ok ==> landed
      ensures refusals == old(refusals) + if ok then 0 else 1
      ensures acks == old(acks) + if ok then 1 else 0
      ensures applied == old(applied) + if landed then [u] else []
      ensures mirror == if landed then ApplyUnary(old(mirror), u) else old(mirror)
    {
      ok := *;
      var reached: bool := *;
      landed := ok || reached;
      acks := acks + if ok then 1 else 0;
      refusals := refusals + if ok then 0 else 1;
      applied := applied + if landed then [u] else [];
      mirror := if landed then ApplyUnary(mirror, u) else mirror;
    }

    /** A timer of the given length, unless the context ends first. */
    method Wait(backoff: int) returns (fired: bool)
      modifies `waits, `interrupts
      ensures waits == old(waits) + [backoff]
      ensures interrupts == old(interrupts) + if fired then 0 else 1
    {
      waits := waits + [backoff];
      fired := *;
      interrupts := interrupts + if fired then 0 else 1;
    }
  }

  // ---------------------------------------------------------------------------
  // The client
  // ---------------------------------------------------------------------------

  /** The connection is there, and was not found shut down. */
  ghost predicate Alive(conn: Option<nat>, shut: set<nat>) {
    conn.Some? && conn.value !in shut
  }

  class Client {
    const net: Network
    const maxRetries: int
    const retryBackoff: int
    const nodeHardwareInfoMethod: string
    const vmInfoMethod: string
    const vmRuntimeMethod: string
    var conn: Option<nat>
    var nodeStream: Option<Stream>
    var vmStream: Option<Stream>
    var vmRuntimeStream: Option<Stream>

    constructor (net: Network, maxRetries: int, retryBackoff: int,
                 nodeHardwareInfoMethod: string, vmInfoMethod: string, vmRuntimeMethod: string)
      requires net.closes == [] && net.streams == [] && net.halfCloses == []
      ensures Valid() && Disconnected()
      ensures this.net == net && this.maxRetries == maxRetries && this.retryBackoff == retryBackoff
      ensures this.nodeHardwareInfoMethod == nodeHardwareInfoMethod && this.vmInfoMethod == vmInfoMethod
      ensures this.vmRuntimeMethod == vmRuntimeMethod
    {
      this.net, this.maxRetries, this.retryBackoff := net, maxRetries, retryBackoff;
      this.nodeHardwareInfoMethod, this.vmInfoMethod := nodeHardwareInfoMethod, vmInfoMethod;
      this.vmRuntimeMethod := vmRuntimeMethod;
      conn, nodeStream, vmStream, vmRuntimeStream := None, None, None, None;
    }

    function StreamOf(kind: StreamKind): Option<Stream>
      reads this
    {
      match kind
      case NodeMetrics => nodeStream
      case VMMetrics => vmStream
      case VMRuntime => vmRuntimeStream
    }

    ghost predicate Disconnected()
      reads this
    {
      conn == None && nodeStream == None && vmStream == None && vmRuntimeStream == None
    }

    ghost function State(): Session
      reads `conn, `nodeStream, `vmStream, `vmRuntimeStream
      reads net`closes, net`streams, net`halfCloses
    {
      Session(conn, nodeStream, vmStream, vmRuntimeStream, net.closes, net.streams, net.halfCloses)
    }

    ghost predicate Valid()
      reads `conn, `nodeStream, `vmStream, `vmRuntimeStream
      reads net`closes, net`streams, net`halfCloses
    {
      State().Sound()
    }

    /** Attempts a send makes at most. */
    function MaxAttempts(): (n: nat)
      ensures n >= 1 && (n == maxRetries || maxRetries < n == 1)
    {
      if maxRetries <= 0 then 1 else maxRetries
    }

    /** Half-close the stream of one kind if it is open. */
    method HalfClose(kind: StreamKind)
      requires Valid()
      modifies `nodeStream, `vmStream, `vmRuntimeStream, net`halfCloses
      ensures State() == old(State()).With(kind, None).(halfCloses := net.halfCloses)
      ensures Valid()
    {
      var s := StreamOf(kind);
      if s == None {
        return;
      }
      HalfCloseSound(State(), kind);
      net.CloseSend(s.value);
      match kind {
        case NodeMetrics => nodeStream := None;
        case VMMetrics => vmStream := None;
        case VMRuntime => vmRuntimeStream := None;
      }
    }

    method HalfCloseStreams()
      requires Valid()
      modifies `nodeStream, `vmStream, `vmRuntimeStream, net`halfCloses
      ensures nodeStream == None && vmStream == None && vmRuntimeStream == None
      ensures Valid()
    {
      HalfClose(NodeMetrics);
      HalfClose(VMMetrics);
      HalfClose(VMRuntime);
    }

    method ResetConn() returns (ok: bool)
      requires Valid()
      modifies `conn, `nodeStream, `vmStream, `vmRuntimeStream, net`closes, net`halfCloses
      ensures Valid() && Disconnected() && |net.closes| == |old(net.closes)|
      ensures old(conn) == None ==> ok
    {
      ok := true;
      HalfCloseStreams();
      if conn.Some? {
        CloseConnSound(State());
        ok := net.CloseConn(conn.value);
        conn := None;
      }
    }

    /** Shutting the client down closes what is open, and reports how closing the connection went. */
    method Close() returns (ok: bool)
      requires Valid()
      modifies `conn, `nodeStream, `vmStream, `vmRuntimeStream, net`closes, net`halfCloses
      ensures Valid() && Disconnected()
      ensures old(conn) == None ==> ok
    {
      ok := ResetConn();
    }

    /** Keep a connection that is alive, and replace any other. */
    method EnsureConn() returns (ok: bool)
      requires Valid()
      modifies `conn, `nodeStream, `vmStream, `vmRuntimeStream, net`shut, net`refusals, net`closes, net`halfCloses
      ensures Valid()
      ensures if ok then conn.Some? else Disconnected()
      ensures net.refusals == old(net.refusals) + if ok then 0 else 1
      ensures Alive(old(conn), net.shut) ==> ok && State() == old(State())
      ensures ok && !Alive(old(conn), net.shut) ==>
                && conn == Some(|old(net.closes)|)
                && nodeStream == None && vmStream == None && vmRuntimeStream == None
    {
      if conn.Some? {
        var down := net.IsShutdown(conn.value);
        if !down {
          return true;
        }
        var _ := ResetConn();
      }
      DialSound(State());
      conn := net.Dial();
      ok := conn.Some?;
    }

    method OpenStream(kind: StreamKind) returns (ok: bool)
      requires Valid() && StreamOf(kind) == None
      modifies `nodeStream, `vmStream, `vmRuntimeStream, net`streams, net`halfCloses, net`refusals
      ensures Valid()
      ensures net.refusals == old(net.refusals)
              + if !ok && old(conn).Some? && !(kind.VMRuntime? && vmRuntimeMethod == "") then 1 else 0
      ensures ok ==> conn == old(conn) && |net.streams| == |old(net.streams)| + 1
      ensures ok ==> old(conn).Some? && State() == Opened(old(State()), kind)
      ensures !ok ==> State() == old(State())
      ensures kind.VMRuntime? && vmRuntimeMethod == "" ==> !ok
    {
      if conn == None || (kind.VMRuntime? && vmRuntimeMethod == "") {
        return false;
      }
      OpenSound(State(), kind);
      var s := net.NewStream(conn.value, kind);
      if s == None {
        return false;
      }
      match kind {
        case NodeMetrics => nodeStream := s;
        case VMMetrics => vmStream := s;
        case VMRuntime => vmRuntimeStream := s;
      }
      ok := true;
    }

    /** Wait before the next attempt; false when there is none. */
    method WaitRetry(attempt: nat, n: nat) returns (again: bool)
      modifies net`waits, net`interrupts
      ensures attempt >= n ==> !again && net.waits == old(net.waits) && net.interrupts == old(net.interrupts)
      ensures attempt < n ==> net.waits == old(net.waits) + [Backoff(retryBackoff, attempt)]
      ensures attempt < n ==> net.interrupts == old(net.interrupts) + if again then 0 else 1
    {
      if attempt >= n {
        return false;
      }
      again := net.Wait(Backoff(retryBackoff, attempt));
    }

    /** The wait between attempts, seen from the start of the send. */
    method NextAttempt(attempt: nat, n: nat, ghost start: seq<int>) returns (again: bool)
      requires 1 <= attempt <= n && net.waits == start + Backoffs(retryBackoff, attempt - 1)
      modifies net`waits, net`interrupts
      ensures again ==> attempt < n && net.waits == start + Backoffs(retryBackoff, attempt)
      ensures !again ==> Waited(retryBackoff, start, net.waits, attempt, attempt < n)
      ensures net.interrupts == old(net.interrupts) + if again || attempt == n then 0 else 1
    {
      assert Backoffs(retryBackoff, attempt)
          == Backoffs(retryBackoff, attempt - 1) + [Backoff(retryBackoff, attempt)];
      again := WaitRetry(attempt, n);
      BackoffsWaited(retryBackoff, start, net.waits, attempt, attempt < n);
    }

    /** One attempt at sending on a stream: connect, open the stream, send. Any failure resets. */
    method TryStream(kind: StreamKind, msg: string) returns (ok: bool)
      requires Valid()
      modifies this, net`shut, net`refusals, net`closes, net`halfCloses
      modifies net`streams, net`accepted
      ensures Valid()
      ensures net.accepted == old(net.accepted) + if ok then [(kind, msg)] else []
      ensures if ok then StreamOf(kind).Some? else Disconnected()
      ensures ok && Alive(old(conn), net.shut) ==> State() == Opened(old(State()), kind)
      ensures !(kind.VMRuntime? && vmRuntimeMethod == "") ==>
                net.refusals == old(net.refusals) + if ok then 0 else 1
    {
      ok := EnsureConn();
      if ok && StreamOf(kind) == None {
        ok := OpenStream(kind);
      }
      if ok {
        ok := net.SendMsg(StreamOf(kind).value, msg);
      }
      if !ok {
        var _ := ResetConn();
      }
    }

    /**
     The retry loop of the three stream sends: maxRetries attempts, or one if that is not positive,
     fewer only after success or an interrupted wait, and all but a successful last one refused.
     Exactly one message is accepted when it reports success and none otherwise, and nothing is left
     open on failure. A first attempt that works keeps what is open.
     */
    method SendFrameWithRetry(kind: StreamKind, msg: string) returns (ok: bool, ghost attempts: nat)
      requires Valid()
      modifies this, net`shut, net`refusals, net`closes, net`halfCloses
      modifies net`streams, net`accepted, net`waits, net`interrupts
      ensures Valid()
      ensures 1 <= attempts <= if maxRetries <= 0 then 1 else maxRetries
      ensures !(kind.VMRuntime? && vmRuntimeMethod == "") ==>
                net.refusals == old(net.refusals) + attempts - if ok then 1 else 0
      ensures net.accepted == old(net.accepted) + if ok then [(kind, msg)] else []
      ensures if ok then StreamOf(kind).Some? else Disconnected()
      ensures ok && attempts == 1 && Alive(old(conn), net.shut) ==> State() == Opened(old(State()), kind)
      ensures net.interrupts == old(net.interrupts) <==> ok || attempts == if maxRetries <= 0 then 1 else maxRetries
      ensures Waited(retryBackoff, old(net.waits), net.waits, attempts, net.interrupts != old(net.interrupts))
    {
      var n := MaxAttempts();
      var attempt := 1;
      attempts := 0;
      while true
        invariant Valid()
        invariant 1 <= attempt <= n && attempts == attempt - 1
        invariant net.accepted == old(net.accepted) && net.interrupts == old(net.interrupts)
        invariant !(kind.VMRuntime? && vmRuntimeMethod == "") ==> net.refusals == old(net.refusals) + attempts
        invariant attempt == 1 ==> State() == old(State())
        invariant net.waits == old(net.waits) + Backoffs(retryBackoff, attempt - 1)
        decreases n - attempt
      {
        attempts := attempts + 1;
        ok := TryStream(kind, msg);
        if ok {
          BackoffsWaited(retryBackoff, old(net.waits), net.waits, attempts, false);
          return;
        }
        var again := NextAttempt(attempt, n, old(net.waits));
        if !again {
          return;
        }
        attempt := attempt + 1;
      }
    }

    /**
     One attempt at a unary call: connect, check that a method is configured, invoke. A missing
     method gives up at once; any other failure resets.
     */
    method TryUnary(target: string, u: Unary, ghost start: Inventory, ghost before: seq<Unary>, ghost copies: nat)
      returns (ok: bool, giveUp: bool, ghost landed: nat)
      requires Valid() && net.applied == before + Copies(u, copies)
      requires net.mirror == if copies > 0 then ApplyUnary(start, u) else start
      modifies this, net`shut, net`refusals, net`closes, net`halfCloses
      modifies net`applied, net`acks, net`mirror
      ensures Valid()
      ensures landed == copies || landed == copies + 1
      ensures net.acks == old(net.acks) + if ok then 1 else 0
      ensures ok ==> landed == copies + 1 && conn.Some? && !giveUp
      ensures target == "" ==> !ok && landed == copies
      ensures net.refusals == old(net.refusals) + if ok || giveUp then 0 else 1
      ensures giveUp ==> target == ""
      ensures !ok && !giveUp ==> Disconnected()
      ensures net.applied == before + Copies(u, landed)
      ensures net.mirror == if landed > 0 then ApplyUnary(start, u) else start
    {
      landed, giveUp := copies, false;
      ok := EnsureConn();
      if ok && target == "" {
        return false, true, copies;
      }
      if ok {
        ghost var reached;
        ok, reached := net.Invoke(conn.value, u);
        landed := if reached then copies + 1 else copies;
        assert Copies(u, copies + 1) == Copies(u, copies) + [u];
        ApplyUnaryTwice(start, u);
      }
      if !ok {
        var _ := ResetConn();
      }
    }

    /**
     The retry loop of the two unary calls: maxRetries attempts, or one if that is not positive, fewer
     only after success, an interrupted wait or for lack of a method. The frame lands some number of
     times, at least once on success and at most once an attempt, nothing else lands in between, and
     however often it landed the mirror is as after one application.
     */
    method InvokeWithRetry(target: string, u: Unary) returns (ok: bool, ghost attempts: nat, ghost copies: nat)
      requires Valid()
      modifies this, net`shut, net`refusals, net`closes, net`halfCloses
      modifies net`applied, net`acks, net`mirror, net`waits, net`interrupts
      ensures Valid()
      ensures 1 <= attempts <= if maxRetries <= 0 then 1 else maxRetries
      ensures target != "" ==> net.refusals == old(net.refusals) + attempts - if ok then 1 else 0
      ensures net.applied == old(net.applied) + Copies(u, copies) && copies <= attempts
      ensures net.mirror == if copies > 0 then ApplyUnary(old(net.mirror), u) else old(net.mirror)
      ensures net.acks == old(net.acks) + if ok then 1 else 0
      ensures ok ==> copies > 0 && conn.Some?
      ensures !ok && target != "" ==> Disconnected()
      ensures target == "" ==> !ok && copies == 0
      ensures net.refusals >= old(net.refusals)
      ensures target != "" ==>
                (net.interrupts == old(net.interrupts) <==> ok || attempts == if maxRetries <= 0 then 1 else maxRetries)
      ensures target != "" ==>
                Waited(retryBackoff, old(net.waits), net.waits, attempts, net.interrupts != old(net.interrupts))
    {
      var n := MaxAttempts();
      var attempt := 1;
      attempts, copies := 0, 0;
      while true
        invariant Valid()
        invariant 1 <= attempt <= n && attempts == attempt - 1
        invariant net.acks == old(net.acks) && net.interrupts == old(net.interrupts)
        invariant net.refusals == old(net.refusals) + attempts
        invariant copies <= attempts && (target == "" ==> copies == 0)
        invariant net.applied == old(net.applied) + Copies(u, copies)
        invariant net.mirror == if copies > 0 then ApplyUnary(old(net.mirror), u) else old(net.mirror)
        invariant net.waits == old(net.waits) + Backoffs(retryBackoff, attempt - 1)
        decreases n - attempt
      {
        attempts := attempts + 1;
        var giveUp: bool;
        ok, giveUp, copies := TryUnary(target, u, old(net.mirror), old(net.applied), copies);
        if ok || giveUp {
          BackoffsWaited(retryBackoff, old(net.waits), net.waits, attempts, false);
          return;
        }
        var again := NextAttempt(attempt, n, old(net.waits));
        if !again {
          return;
        }
        attempt := attempt + 1;
      }
    }

    lemma ApplyUnaryTwice(mirror: Inventory, u: Unary)
      ensures ApplyUnary(ApplyUnary(mirror, u), u) == ApplyUnary(mirror, u)
    {
      match u {
        case InfoSync(frame) => ApplyIdempotent(mirror, frame);
        case HardwareInfo(_) =>
      }
    }

    // The five sends.

    method SendNodeMetrics(msg: string) returns (ok: bool)
      requires Valid()
      modifies this, net`shut, net`refusals, net`closes, net`halfCloses
      modifies net`streams, net`accepted, net`waits, net`interrupts
      ensures Valid()
      ensures net.accepted == old(net.accepted) + if ok then [(NodeMetrics, msg)] else []
      ensures !ok ==> Disconnected()
      ensures !ok && net.interrupts == old(net.interrupts) ==>
                net.refusals == old(net.refusals) + if maxRetries <= 0 then 1 else maxRetries
      ensures net.refusals >= old(net.refusals)
      ensures !ok ==> net.refusals > old(net.refusals)
    {
      ghost var attempts;
      ok, attempts := SendFrameWithRetry(NodeMetrics, msg);
    }

    method SendVMMetrics(count: nat, msg: string) returns (ok: bool)
      requires Valid()
      modifies this, net`shut, net`refusals, net`closes, net`halfCloses
      modifies net`streams, net`accepted, net`waits, net`interrupts
      ensures Valid()
      ensures count == 0 ==> ok && net.accepted == old(net.accepted)
      ensures count != 0 ==> net.accepted == old(net.accepted) + if ok then [(VMMetrics, msg)] else []
      ensures !ok ==> Disconnected()
      ensures !ok && net.interrupts == old(net.interrupts) ==>
                net.refusals == old(net.refusals) + if maxRetries <= 0 then 1 else maxRetries
      ensures net.refusals >= old(net.refusals)
      ensures !ok ==> net.refusals > old(net.refusals)
    {
      if count == 0 {
        return true;
      }
      ghost var attempts;
      ok, attempts := SendFrameWithRetry(VMMetrics, msg);
    }

    method SendVMRuntimeMetrics(count: nat, msg: string) returns (ok: bool)
      requires Valid()
      modifies this, net`shut, net`refusals, net`closes, net`halfCloses
      modifies net`streams, net`accepted, net`waits, net`interrupts
      ensures Valid()
      ensures count == 0 || vmRuntimeMethod == "" ==> ok && net.accepted == old(net.accepted)
      ensures count != 0 && vmRuntimeMethod != ""
              ==> net.accepted == old(net.accepted) + if ok then [(VMRuntime, msg)] else []
      ensures !ok ==> Disconnected()
      ensures !ok && net.interrupts == old(net.interrupts) ==>
                net.refusals == old(net.refusals) + if maxRetries <= 0 then 1 else maxRetries
      ensures net.refusals >= old(net.refusals)
      ensures !ok ==> net.refusals > old(net.refusals)
    {
      if count == 0 || vmRuntimeMethod == "" {
        return true;
      }
      ghost var attempts;
      ok, attempts := SendFrameWithRetry(VMRuntime, msg);
    }

    method SendNodeHardwareInfo(payload: string) returns (ok: bool)
      requires Valid()
      modifies this, net`shut, net`refusals, net`closes, net`halfCloses
      modifies net`applied, net`acks, net`mirror, net`waits, net`interrupts
      ensures Valid()
      ensures net.mirror == old(net.mirror) && net.acks == old(net.acks) + if ok then 1 else 0
      ensures !ok && nodeHardwareInfoMethod != "" ==> Disconnected() && net.refusals > old(net.refusals)
      ensures !ok && nodeHardwareInfoMethod != "" && net.interrupts == old(net.interrupts) ==>
                net.refusals == old(net.refusals) + if maxRetries <= 0 then 1 else maxRetries
      ensures ok ==> |net.applied| > |old(net.applied)|
      ensures forall i :: |old(net.applied)| <= i < |net.applied| ==> net.applied[i] == HardwareInfo(payload)
      ensures old(net.applied) <= net.applied
      ensures |net.applied| - |old(net.applied)| <= if maxRetries <= 0 then 1 else maxRetries
    {
      ghost var attempts, copies;
      ok, attempts, copies := InvokeWithRetry(nodeHardwareInfoMethod, HardwareInfo(payload));
    }

    /** A reported success means the frame was applied; a reported failure leaves it unapplied or applied once. */
    method SendVMInfoSync(frame: Frame) returns (ok: bool)
      requires Valid()
      modifies this, net`shut, net`refusals, net`closes, net`halfCloses
      modifies net`applied, net`acks, net`mirror, net`waits, net`interrupts
      ensures Valid()
      ensures net.acks == old(net.acks) + if ok then 1 else 0
      ensures net.refusals >= old(net.refusals) && (ok ==> |net.applied| > |old(net.applied)|)
      ensures ok ==> net.mirror == Apply(old(net.mirror), frame)
      ensures !ok ==> net.mirror == old(net.mirror) || net.mirror == Apply(old(net.mirror), frame)
      ensures !ok && vmInfoMethod != "" ==> Disconnected() && net.refusals > old(net.refusals)
      ensures !ok && vmInfoMethod != "" && net.interrupts == old(net.interrupts) ==>
                net.refusals == old(net.refusals) + if maxRetries <= 0 then 1 else maxRetries
      ensures forall i :: |old(net.applied)| <= i < |net.applied| ==> net.applied[i] == InfoSync(frame)
      ensures old(net.applied) <= net.applied
      ensures |net.applied| - |old(net.applied)| <= if maxRetries <= 0 then 1 else maxRetries
    {
      ghost var attempts, copies;
      ok, attempts, copies := InvokeWithRetry(vmInfoMethod, InfoSync(frame));
    }
  }
}
