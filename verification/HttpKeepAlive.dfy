/** A worker serves one connection after the other with one buffer: worker_thread and process_new_connection. */
module HttpKeepAlive {
  import opened Wrappers
  import opened Bytes
  import opened Sequences
  import opened HttpFraming
  import opened HttpRequest

  /** The bytes of a request, and what the handler has read of its body. */
  datatype Exchange = Exchange(request: seq<byte>, body: seq<byte>)

  /**
   The configuration and the handler: whether connections may be kept alive, whether the handler reads the
   body of a request to its end, and whether it asks to close the connection or answers with status 401.
   */
  datatype App = App(enabled: bool, readsBody: seq<byte> -> bool, closes: Exchange -> bool)

  /** should_keep_alive, once the handler is through with a request. */
  predicate KeptAlive(app: App, x: Exchange) {
    app.enabled && !app.closes(x) && x.request != [] && Judge(Parse(x.request)) == Handled &&
    AsksToKeepAlive(Parse(x.request))
  }

  // ---------- what is served of the bytes of a connection ----------

  /** The first bytes of s, as many as the content length says; a negative one says that there is no body. */
  function BodyOf(s: seq<byte>, contentLen: int): (body: seq<byte>)
    ensures body <= s && (0 <= contentLen <= |s| ==> |body| == contentLen)
  {
    s[..Min(|s|, Max(contentLen, 0))]
  }

  /** The exchange for the request in the first n bytes. */
  function ExchangeAt(all: seq<byte>, n: nat, app: App): (x: Exchange)
    requires 0 < n <= |all|
    ensures x.request == all[..n] && n + |x.body| <= |all|
  {
    Exchange(all[..n], if app.readsBody(all[..n]) then BodyOf(all[n..], ContentLength(Parse(all[..n]))) else [])
  }

  /** Where the bytes behind a request begin does not depend on how they are read. */
  predicate Settled(request: seq<byte>, app: App)
    requires request != []
  {
    app.readsBody(request) || ContentLength(Parse(request)) <= 0
  }

  /**
   What comes of all the bytes of a connection: the exchanges; the bytes that are left when the connection
   is closed, if how they are read does not decide it; and whether the exchanges do not depend on it.
   */
  datatype Outcome = Outcome(served: seq<Exchange>, rest: Option<seq<byte>>, fixed: bool)

  function RunOf(all: seq<byte>, size: nat, app: App): Outcome
    decreases |all|, 1
  {
    var n := RequestLen(all[..Min(|all|, size)]);
    if n <= 0 then Outcome([], Some(all), true)
    else
      var r := Parse(all[..n]);
      match Judge(r)
      case BadRequest => Outcome([], None, true)
      case BadVersion => Outcome([], None, !(app.enabled && AsksToKeepAlive(r)))
      case Handled => RunFrom(all, n, size, app)
  }

  /** The same with a request that is handled in the first n bytes. */
  function RunFrom(all: seq<byte>, n: nat, size: nat, app: App): Outcome
    requires 0 < n <= |all|
    decreases |all|, 0
  {
    var x := ExchangeAt(all, n, app);
    var contentLen := ContentLength(Parse(all[..n]));
    var next := all[n + |x.body|..];
    var goesOn := contentLen >= 0 && KeptAlive(app, x);
    if goesOn && Settled(all[..n], app) then Prefixed(x, RunOf(next, size, app))
    else Outcome([x], if contentLen >= 0 && Settled(all[..n], app) then Some(next) else None, !goesOn)
  }

  function Prefixed(x: Exchange, o: Outcome): Outcome {
    o.(served := [x] + o.served)
  }

  /** A buffer in which no request will ever be found: no byte is read, and none leaves it. */
  predicate Stuck(buffered: seq<byte>, size: nat) {
    RequestLen(buffered) < 0 || (RequestLen(buffered) == 0 && |buffered| >= size)
  }

  predicate IsEnd(rest: seq<byte>, all: seq<byte>) {
    |rest| <= |all| && rest == all[|all| - |rest|..]
  }

  // ---------- one pass of the loop ----------

  /** A handler that reads the whole body, some bytes at a time. */
  method ReadBody(conn: Connection, chunk: nat) returns (body: seq<byte>, failed: bool)
    requires conn.Valid() && conn.consumed == 0 && chunk > 0
    modifies conn`consumed, conn.socket
    ensures conn.Valid()
    ensures failed || Fails(conn.socket.sizes) ==> Fails(old(conn.socket.sizes))
    ensures !failed ==> body == BodyOf(conn.body, conn.contentLen) && conn.consumed == |body|
  {
    hide Connection.Valid, Fails;
    body, failed := [], false;
    var n := 1;
    while n > 0
      invariant conn.Valid() && body == conn.body[..conn.consumed]
      invariant n <= 0 ==> conn.Left() == 0 || conn.consumed == |conn.body|
      invariant Fails(conn.socket.sizes) ==> Fails(old(conn.socket.sizes))
      decreases |conn.body| - conn.consumed, n
    {
      var dst := new byte[chunk];
      ghost var was := conn.consumed;
      n := conn.Read(dst, chunk);
      if n < 0 {
        return body, true;
      }
      assert conn.body[..was] + conn.body[was..conn.consumed] == conn.body[..conn.consumed];
      body := body + dst[..n];
    }
  }

  lemma StreamLeft(conn: Connection)
    requires conn.Valid()
    ensures conn.requestLen <= conn.dataLen <= conn.buf.Length
    ensures |conn.socket.stream| == |conn.body| - Max(conn.dataLen - conn.requestLen, conn.consumed)
  {
  }

  /** The body of a request is read or not, and what is in the buffer of it leaves the buffer. */
  method Handle(conn: Connection, chunk: nat, readsBody: bool) returns (body: seq<byte>, failed: bool)
    requires conn.Valid() && conn.consumed == 0 && chunk > 0
    modifies conn`consumed, conn`dataLen, conn.socket, conn.buf
    ensures conn.dataLen <= conn.buf.Length
    ensures failed || Fails(conn.socket.sizes) ==> Fails(old(conn.socket.sizes))
    ensures IsEnd(conn.buf[..conn.dataLen] + conn.socket.stream, old(conn.body))
    ensures |conn.socket.stream| <= |old(conn.socket.stream)|
    ensures !failed ==> body == if readsBody then BodyOf(old(conn.body), conn.contentLen) else []
    ensures !failed ==>
      NextStart(conn.contentLen, old(conn.dataLen) - conn.requestLen, |body|) <= |old(conn.body)| &&
      conn.buf[..conn.dataLen] + conn.socket.stream ==
      old(conn.body)[NextStart(conn.contentLen, old(conn.dataLen) - conn.requestLen, |body|)..]
  {
    hide Fails, BodyOf, NextStart, Connection.Valid;
    body, failed := [], false;
    StreamLeft(conn);
    if readsBody {
      body, failed := ReadBody(conn, chunk);
    }
    StreamLeft(conn);
    conn.Discard();
  }

  /** What is taken of all the bytes to come for a request of n bytes, with b more in the buffer, and what is left. */
  predicate Takes(all: seq<byte>, n: nat, b: nat, app: App, x: Exchange, rest: seq<byte>, goOn: bool) {
    0 < n <= |all| && Judge(Parse(all[..n])) == Handled && x == ExchangeAt(all, n, app) &&
    var contentLen := ContentLength(Parse(all[..n]));
    var k := NextStart(contentLen, b, |x.body|);
    goOn == (contentLen >= 0 && KeptAlive(app, x)) && n + k <= |all| && rest == all[n + k..]
  }

  lemma TakesAs(all: seq<byte>, n: nat, b: nat, app: App, x: Exchange, rest: seq<byte>, goOn: bool)
    requires 0 < n <= |all| && b <= |all| - n && x.request == all[..n]
    ensures var contentLen := ContentLength(Parse(all[..n]));
            Judge(Parse(all[..n])) == Handled &&
            x.body == (if app.readsBody(all[..n]) then BodyOf(all[n..], contentLen) else []) &&
            goOn == (contentLen >= 0 && KeptAlive(app, x)) &&
            NextStart(contentLen, b, |x.body|) <= |all| - n && rest == all[n..][NextStart(contentLen, b, |x.body|)..] ==>
              Takes(all, n, b, app, x, rest, goOn)
  {
    hide Judge, Parse, ContentLength, KeptAlive, BodyOf, NextStart;
  }

  /** What becomes of a request of n bytes, with b more in the buffer. */
  predicate Dispatched(all: seq<byte>, n: nat, b: nat, app: App, exchange: Option<Exchange>, rest: seq<byte>, goOn: bool)
    requires 0 < n <= |all|
  {
    match Judge(Parse(all[..n]))
    case BadRequest => exchange == None && !goOn
    case BadVersion => exchange == None && (goOn ==> app.enabled && AsksToKeepAlive(Parse(all[..n])))
    case Handled => exchange.Some? && Takes(all, n, b, app, exchange.value, rest, goOn)
  }

  /** What one pass of the loop does, with size bytes of room and read bytes in the buffer. */
  predicate Step(all: seq<byte>, size: nat, read: nat, app: App, exchange: Option<Exchange>, rest: seq<byte>, goOn: bool) {
    var n := RequestLen(all[..Min(|all|, size)]);
    if n <= 0 then exchange == None && !goOn && rest == all
    else n <= read <= |all| && Dispatched(all, n, read - n, app, exchange, rest, goOn)
  }

  /**
   What a connection with the given stream is served when it finds entry in the buffer, and what it leaves
   in the buffer to the next one.
   */
  ghost predicate Connected(entry: seq<byte>, stream: seq<byte>, sizes: seq<int>, size: nat, app: App,
                            served: seq<Exchange>, next: seq<byte>) {
    var run := RunOf(entry + stream, size, app);
    (!Fails(sizes) && run.fixed ==>
      served == run.served &&
      (run.rest.Some? ==>
        next <= run.rest.value && (ReadTo(entry, stream, sizes, size) == entry + stream ==> next == run.rest.value))) &&
    StaysStuck(entry, size, served, next)
  }

  predicate StaysStuck(entry: seq<byte>, size: nat, served: seq<Exchange>, next: seq<byte>) {
    Stuck(entry, size) ==> served == [] && next == entry
  }

  /** The mg_connection of a worker thread, which outlives the connections it serves. */
  class Worker {
    const app: App
    const buf: array<byte>
    var dataLen: nat
    var contentLen: int

    ghost predicate Valid()
      reads this
    {
      dataLen <= buf.Length
    }

    ghost function Buffered(): seq<byte>
      reads this, buf
      requires Valid()
    {
      buf[..dataLen]
    }

    /** All the bytes that are still to come. */
    ghost function Pending(socket: Socket): seq<byte>
      reads this, buf, socket
      requires Valid()
    {
      Buffered() + socket.stream
    }

    constructor (app: App, size: nat)
      ensures Valid() && Buffered() == [] && contentLen == 0 && fresh(buf)
      ensures this.app == app && buf.Length == size
    {
      this.app, dataLen, contentLen := app, 0, 0;
      buf := new byte[size];
    }

    /** The handler for a request of n bytes at the front of the buffer, which then leaves the buffer. */
    method HandleBody(socket: Socket, n: nat, chunk: nat, readsBody: bool) returns (body: seq<byte>, failed: bool)
      requires Valid() && 0 < n <= dataLen && chunk > 0
      modifies this`dataLen, buf, socket
      ensures Valid()
      ensures failed || Fails(socket.sizes) ==> Fails(old(socket.sizes))
      ensures IsEnd(Pending(socket), old(Pending(socket))[n..]) && |socket.stream| <= |old(socket.stream)|
      ensures !failed ==>
        body == (if readsBody then BodyOf(old(Pending(socket))[n..], contentLen) else []) &&
        NextStart(contentLen, old(dataLen) - n, |body|) <= |old(Pending(socket))| - n &&
        Pending(socket) == old(Pending(socket))[n..][NextStart(contentLen, old(dataLen) - n, |body|)..]
    {
      hide Fails, BodyOf, NextStart, IsEnd, Connection.Valid;
      ghost var all := Pending(socket);
      var conn := new Connection(buf, socket, n, dataLen, contentLen);
      assert conn.body == all[n..];
      body, failed := Handle(conn, chunk, readsBody);
      dataLen := conn.dataLen;
    }

    /** A request that can be handled is at the front of the buffer. */
    method HandleFound(socket: Socket, n: nat, chunk: nat) returns (x: Exchange, goOn: bool, failed: bool)
      requires Valid() && 0 < n <= dataLen && chunk > 0
      modifies this`dataLen, this`contentLen, buf, socket
      ensures Valid()
      ensures failed || Fails(socket.sizes) ==> Fails(old(socket.sizes))
      ensures IsEnd(Pending(socket), old(Pending(socket))[n..]) && |socket.stream| <= |old(socket.stream)|
      ensures !failed && Judge(Parse(old(buf[..n]))) == Handled ==> Takes(old(Pending(socket)), n, old(dataLen) - n, app, x, Pending(socket), goOn)
      ensures failed ==> !goOn
    {
      hide Judge, Parse, ContentLength, KeptAlive, BodyOf, NextStart, IsEnd, Takes, Fails;
      ghost var all, b := Pending(socket), dataLen - n;
      var request := buf[..n];
      RequestInFront(socket, n);
      contentLen := ContentLength(Parse(request));
      var body;
      body, failed := HandleBody(socket, n, chunk, app.readsBody(request));
      x := Exchange(request, body);
      goOn := !failed && contentLen >= 0 && KeptAlive(app, x);
      if !failed {
        TakesAs(all, n, b, app, x, Pending(socket), goOn);
      }
    }

    lemma RequestInFront(socket: Socket, n: nat)
      requires Valid() && n <= dataLen
      ensures n <= |Pending(socket)| && Pending(socket)[..n] == buf[..n]
      ensures dataLen - n <= |Pending(socket)| - n
    {
    }

    /** A request that is not handled leaves with as much as an earlier one said. */
    method Refuse(socket: Socket, n: nat)
      requires Valid() && 0 < n <= dataLen
      modifies this`dataLen, buf
      ensures Valid()
      ensures IsEnd(Pending(socket), old(Pending(socket))[n..])
    {
      ghost var all := Pending(socket);
      var conn := new Connection(buf, socket, n, dataLen, contentLen);
      assert conn.body == all[n..];
      conn.Discard();
      dataLen := conn.dataLen;
    }

    /** A request of n bytes at the front of the buffer is handled or refused. */
    method Dispatch(socket: Socket, n: nat, chunk: nat) returns (exchange: Option<Exchange>, goOn: bool)
      requires Valid() && 0 < n <= dataLen && chunk > 0
      modifies this`dataLen, this`contentLen, buf, socket
      ensures Valid()
      ensures Fails(socket.sizes) ==> Fails(old(socket.sizes))
      ensures IsEnd(Pending(socket), old(Pending(socket))[n..]) && |socket.stream| <= |old(socket.stream)|
      ensures !Fails(old(socket.sizes)) ==>
        Dispatched(old(Pending(socket)), n, old(dataLen) - n, app, exchange, Pending(socket), goOn)
    {
      hide Fails, Takes, Judge, Parse, AsksToKeepAlive, IsEnd;
      RequestInFront(socket, n);
      var request := buf[..n];
      exchange, goOn := None, false;
      match Judge(Parse(request)) {
        case BadRequest => Refuse(socket, n);
        case BadVersion =>
          Refuse(socket, n);
          goOn := contentLen >= 0 && app.enabled && AsksToKeepAlive(Parse(request));
        case Handled =>
          var x, failed;
          x, goOn, failed := HandleFound(socket, n, chunk);
          exchange := if failed then None else Some(x);
      }
    }

    /** One pass of the loop: a request is read and handled or refused. */
    method ServeOne(socket: Socket, chunk: nat) returns (exchange: Option<Exchange>, goOn: bool)
      requires Valid() && chunk > 0
      modifies this`dataLen, this`contentLen, buf, socket
      ensures Valid()
      ensures Fails(socket.sizes) ==> Fails(old(socket.sizes))
      ensures IsEnd(Pending(socket), old(Pending(socket))) && (goOn ==> |Pending(socket)| < |old(Pending(socket))|)
      ensures |socket.stream| <= |old(Pending(socket))| - |old(ReadNow(socket))|
      ensures Stuck(old(Buffered()), buf.Length) ==>
        exchange == None && !goOn && Buffered() == old(Buffered()) && socket.stream == old(socket.stream)
      ensures !Fails(old(socket.sizes)) ==>
        Step(old(Pending(socket)), buf.Length, |old(ReadNow(socket))|, app, exchange, Pending(socket), goOn)
    {
      hide RequestLen, ReadTo, Fails, Dispatched, IsEnd;
      ghost var all, read := Pending(socket), ReadNow(socket);
      StuckStays(Buffered(), socket.stream, socket.sizes, buf.Length);
      var n;
      n, dataLen := ReadRequest(socket, buf, dataLen);
      assert Buffered() == read && Pending(socket) == all && all[|read|..] == socket.stream;
      exchange, goOn := None, false;
      EndOf(all, 0);
      if n > 0 {
        exchange, goOn := Dispatch(socket, n, chunk);
        EndOf(all, n);
        EndOfEnd(Pending(socket), all, n);
      }
    }

    /** process_new_connection: one connection from its first request to its end. */
    method Process(socket: Socket, chunk: nat) returns (served: seq<Exchange>)
      requires Valid() && chunk > 0
      modifies this`dataLen, this`contentLen, buf, socket
      ensures Valid() && IsEnd(Pending(socket), old(Pending(socket)))
      ensures old(ReadNow(socket) == Pending(socket)) ==> socket.stream == []
      ensures !Fails(old(socket.sizes)) ==> Agrees(RunOf(old(Pending(socket)), buf.Length, app), served, Pending(socket))
      ensures Stuck(old(Buffered()), buf.Length) ==>
        served == [] && Buffered() == old(Buffered()) && socket.stream == old(socket.stream)
    {
      hide *;
      ghost var all, size := Pending(socket), buf.Length;
      ghost var run, first, started := RunOf(all, size, app), ReadNow(socket), false;
      served := [];
      var goOn := true;
      EndOf(all, 0);
      ContinuesFirst(run);
      Reading(socket);
      while goOn
        invariant Valid() && IsEnd(Pending(socket), all)
        invariant Fails(socket.sizes) ==> Fails(old(socket.sizes))
        invariant started ==> |socket.stream| <= |all| - |first|
        invariant !started ==>
          goOn && Buffered() == old(Buffered()) && socket.stream == old(socket.stream) && socket.sizes == old(socket.sizes)
        invariant Stuck(old(Buffered()), size) ==>
          served == [] && Buffered() == old(Buffered()) && socket.stream == old(socket.stream)
        invariant !Fails(old(socket.sizes)) ==>
          if goOn then Continues(run, served, RunOf(Pending(socket), size, app)) else Agrees(run, served, Pending(socket))
        decreases goOn, |Pending(socket)|
      {
        ghost var left, read := Pending(socket), |ReadNow(socket)|;
        ghost var done := served;
        Reading(socket);
        var exchange;
        exchange, goOn := ServeOne(socket, chunk);
        EndAgain(Pending(socket), left, all);
        served := served + Taken(exchange);
        TakenMeans(exchange);
        started := true;
        if !Fails(old(socket.sizes)) {
          StepRuns(left, size, read, app, exchange, Pending(socket), goOn);
          RunsOn(run, done, RunOf(left, size, app), Taken(exchange), RunOf(Pending(socket), size, app), Pending(socket));
        }
      }
    }

    /**
     worker_thread: one connection after the other.  entries says what is in the buffer in front of each
     connection and at the end.
     */
    method Run(sockets: seq<Socket>, chunk: nat) returns (served: seq<seq<Exchange>>, ghost entries: seq<seq<byte>>)
      requires Valid() && chunk > 0 && forall i, j :: 0 <= i < j < |sockets| ==> sockets[i] != sockets[j]
      modifies this`dataLen, this`contentLen, buf, set s | s in sockets
      ensures Valid() && |served| == |sockets| && |entries| == |sockets| + 1
      ensures entries[0] == old(Buffered()) && entries[|sockets|] == Buffered()
      ensures forall i :: 0 <= i < |sockets| ==>
        Connected(entries[i], old(sockets[i].stream), old(sockets[i].sizes), buf.Length, app, served[i], entries[i + 1])
    {
      hide Connected;
      served, entries := [], [Buffered()];
      for i := 0 to |sockets|
        invariant Valid() && |served| == i && |entries| == i + 1
        invariant entries[0] == old(Buffered()) && entries[i] == Buffered()
        invariant forall j :: i <= j < |sockets| ==>
          sockets[j].stream == old(sockets[j].stream) && sockets[j].sizes == old(sockets[j].sizes)
        invariant forall j :: 0 <= j < i ==>
          Connected(entries[j], old(sockets[j].stream), old(sockets[j].sizes), buf.Length, app, served[j], entries[j + 1])
      {
        var one := Connect(sockets[i], chunk);
        served, entries := served + [one], entries + [Buffered()];
      }
    }

    method Connect(socket: Socket, chunk: nat) returns (served: seq<Exchange>)
      requires Valid() && chunk > 0
      modifies this`dataLen, this`contentLen, buf, socket
      ensures Valid()
      ensures Connected(old(Buffered()), old(socket.stream), old(socket.sizes), buf.Length, app, served, Buffered())
    {
      hide Fails, RunOf, IsEnd, Stuck, ReadTo;
      served := Process(socket, chunk);
    }

    lemma Reading(socket: Socket)
      requires Valid()
      ensures ReadNow(socket) == ReadTo(Buffered(), socket.stream, socket.sizes, buf.Length)
      ensures |ReadNow(socket)| >= |Buffered()| && Pending(socket) == Buffered() + socket.stream
    {
    }

    /** What is in the buffer when the end of the next request has been looked for. */
    ghost function ReadNow(socket: Socket): seq<byte>
      reads this, buf, socket
      requires Valid()
    {
      ReadTo(Buffered(), socket.stream, socket.sizes, buf.Length)
    }
  }

  function Taken(exchange: Option<Exchange>): seq<Exchange> {
    if exchange.Some? then [exchange.value] else []
  }

  lemma TakenMeans(exchange: Option<Exchange>)
    ensures Taken(exchange) == if exchange.Some? then [exchange.value] else []
  {
  }

  /** What was served and is left is what comes of the bytes, if that does not depend on how they are read. */
  predicate Agrees(run: Outcome, served: seq<Exchange>, rest: seq<byte>) {
    run.fixed ==> served == run.served && (run.rest.Some? ==> rest == run.rest.value)
  }

  /** The same with more to come. */
  predicate Continues(run: Outcome, done: seq<Exchange>, more: Outcome) {
    run.fixed ==> more.fixed && run.served == done + more.served && run.rest == more.rest
  }

  lemma ContinuesFirst(run: Outcome)
    ensures Continues(run, [], run)
  {
  }

  lemma RunsOn(run: Outcome, done: seq<Exchange>, now: Outcome, taken: seq<Exchange>, more: Outcome, rest: seq<byte>)
    ensures Continues(run, done, now) && Continues(now, taken, more) ==> Continues(run, done + taken, more)
    ensures Continues(run, done, now) && Agrees(now, taken, rest) ==> Agrees(run, done + taken, rest)
  {
  }

  /** One pass of the loop is one step of the run. */
  lemma StepRuns(all: seq<byte>, size: nat, read: nat, app: App, exchange: Option<Exchange>, rest: seq<byte>, goOn: bool)
    requires Step(all, size, read, app, exchange, rest, goOn)
    ensures goOn ==> Continues(RunOf(all, size, app), Taken(exchange), RunOf(rest, size, app))
    ensures !goOn ==> Agrees(RunOf(all, size, app), Taken(exchange), rest)
  {
    hide RequestLen, Parse, Judge, AsksToKeepAlive, Takes, RunFrom;
    var n := RequestLen(all[..Min(|all|, size)]);
    if n > 0 && Judge(Parse(all[..n])) == Handled {
      HandledRuns(all, n, read - n, size, app, exchange.value, rest, goOn);
    }
  }

  lemma HandledRuns(all: seq<byte>, n: nat, b: nat, size: nat, app: App, x: Exchange, rest: seq<byte>, goOn: bool)
    requires 0 < n <= |all| && b <= |all| - n
    ensures Takes(all, n, b, app, x, rest, goOn) ==>
      if goOn then Continues(RunFrom(all, n, size, app), [x], RunOf(rest, size, app))
      else Agrees(RunFrom(all, n, size, app), [x], rest)
  {
    hide Parse, Judge, AsksToKeepAlive, ContentLength, ExchangeAt, KeptAlive, RunOf, NextStart, Settled;
    if Settled(all[..n], app) && ContentLength(Parse(all[..n])) >= 0 {
      NextIsSettled(all, n, b, app);
    }
  }

  /** Where the next request starts if that does not depend on how the bytes are read. */
  lemma NextIsSettled(all: seq<byte>, n: nat, b: nat, app: App)
    requires 0 < n <= |all| && b <= |all| - n
    ensures Settled(all[..n], app) && ContentLength(Parse(all[..n])) >= 0 ==>
      NextStart(ContentLength(Parse(all[..n])), b, |ExchangeAt(all, n, app).body|) == |ExchangeAt(all, n, app).body|
  {
    hide Parse, Judge, ContentLength;
  }

  lemma EndAgain(rest: seq<byte>, left: seq<byte>, all: seq<byte>)
    requires IsEnd(left, all)
    ensures IsEnd(rest, left) ==> IsEnd(rest, all)
  {
  }

  lemma StuckStays(buffered: seq<byte>, stream: seq<byte>, sizes: seq<int>, size: nat)
    ensures Stuck(buffered, size) ==> ReadTo(buffered, stream, sizes, size) == buffered
    ensures (buffered + stream)[|buffered|..] == stream
  {
  }

  lemma EndOf(all: seq<byte>, n: nat)
    requires n <= |all|
    ensures IsEnd(all[n..], all) && all[0..] == all
  {
  }

  lemma EndOfEnd(rest: seq<byte>, all: seq<byte>, n: nat)
    requires n <= |all| && IsEnd(rest, all[n..])
    ensures IsEnd(rest, all) && |rest| <= |all| - n
  {
  }

  // ---------- what is sent is what is served ----------

  datatype Message = Message(request: Request, body: seq<byte>)

  /** A request in the standard form that fits the buffer, with a body as long as it says. */
  predicate WellFramed(m: Message, size: nat, app: App) {
    Standard(m.request) && |Print(m.request)| <= size && ContentLength(m.request) == |m.body| &&
    (app.readsBody(Print(m.request)) || m.body == [])
  }

  function Wire(sent: seq<Message>): seq<byte> {
    if sent == [] then [] else Print(sent[0].request) + sent[0].body + Wire(sent[1..])
  }

  function ExchangeOf(m: Message): Exchange {
    Exchange(Print(m.request), m.body)
  }

  function Exchanges(sent: seq<Message>): (r: seq<Exchange>)
    ensures |r| == |sent| && forall i :: 0 <= i < |r| ==> r[i] == ExchangeOf(sent[i])
  {
    if sent == [] then [] else [ExchangeOf(sent[0])] + Exchanges(sent[1..])
  }

  /** Whether the connection goes on behind a message. */
  predicate Keeps(m: Message, app: App) {
    app.enabled && !app.closes(ExchangeOf(m)) && |m.request.version| >= 5 && AsksToKeepAlive(m.request)
  }

  /** How many of the messages are served: up to the first that closes the connection. */
  function ServedCount(sent: seq<Message>, app: App): (k: nat)
    ensures k <= |sent| && (sent != [] ==> k > 0) && (k < |sent| ==> !Keeps(sent[k - 1], app))
    ensures forall i :: 0 <= i < k - 1 ==> Keeps(sent[i], app)
  {
    if sent == [] then 0 else if Keeps(sent[0], app) then 1 + ServedCount(sent[1..], app) else 1
  }

  /**
   Requests with their bodies, sent one behind the other: they are served one by one up to the first that
   closes the connection, and the others are left.
   */
  lemma {:induction false} PipelineServed(sent: seq<Message>, size: nat, app: App)
    requires forall i :: 0 <= i < |sent| ==> WellFramed(sent[i], size, app)
    ensures var k := ServedCount(sent, app);
            RunOf(Wire(sent), size, app) == Outcome(Exchanges(sent[..k]), Some(Wire(sent[k..])), true)
  {
    hide WellFramed, RunOf, Keeps;
    var k := ServedCount(sent, app);
    if sent == [] {
      NothingSent(size, app);
    } else {
      MessageServed(sent[0], Wire(sent[1..]), size, app);
      assert sent[..k][0] == sent[0] && sent[..k][1..] == sent[1..][..k - 1] && sent[k..] == sent[1..][k - 1..];
      if Keeps(sent[0], app) {
        PipelineServed(sent[1..], size, app);
      } else {
        assert Exchanges(sent[1..][..0]) == [];
      }
    }
  }

  lemma NothingSent(size: nat, app: App)
    ensures RunOf([], size, app) == Outcome([], Some([]), true)
  {
    NothingRead();
    var none: seq<byte> := [];
    assert none[..0] == none;
  }

  /** A message in front of more bytes. */
  lemma MessageServed(m: Message, more: seq<byte>, size: nat, app: App)
    requires WellFramed(m, size, app)
    ensures RunOf(Print(m.request) + m.body + more, size, app) ==
            if Keeps(m, app) then Prefixed(ExchangeOf(m), RunOf(more, size, app))
            else Outcome([ExchangeOf(m)], Some(more), true)
  {
    hide *;
    var r := Print(m.request);
    WellFramedMeans(m, size, app);
    ParsePrint(m.request);
    PrintFramed(m.request);
    StandardIsHandled(m.request);
    RequestInFrontRuns(r, m.body + more, size, app);
    assert r + (m.body + more) == r + m.body + more;
    MessageInFrontRuns(m, r, more, size, app);
  }

  lemma WellFramedMeans(m: Message, size: nat, app: App)
    requires WellFramed(m, size, app)
    ensures Standard(m.request) && |Print(m.request)| <= size && ContentLength(m.request) == |m.body|
    ensures app.readsBody(Print(m.request)) || m.body == []
  {
  }

  lemma MessageInFrontRuns(m: Message, r: seq<byte>, more: seq<byte>, size: nat, app: App)
    requires r != [] && |m.request.version| >= 5 && (app.readsBody(r) || m.body == [])
    ensures r == Print(m.request) && Parse(r) == m.request && ContentLength(m.request) == |m.body| && Judge(m.request) == Handled ==>
      RunFrom(r + m.body + more, |r|, size, app) ==
      if Keeps(m, app) then Prefixed(ExchangeOf(m), RunOf(more, size, app))
      else Outcome([ExchangeOf(m)], Some(more), true)
  {
    hide Parse, Judge, AsksToKeepAlive, ContentLength, RunOf, Print, Prefixed;
    if r != Print(m.request) || Parse(r) != m.request || ContentLength(m.request) != |m.body| || Judge(m.request) != Handled {
      return;
    }
    var all, n := r + m.body + more, |r|;
    assert all[..n] == r && all[n..] == m.body + more;
    assert (m.body + more)[..|m.body|] == m.body && all[n + |m.body|..] == more;
    assert ExchangeAt(all, n, app) == ExchangeOf(m);
  }

  lemma StandardIsHandled(r: Request)
    requires Standard(r)
    ensures Judge(r) == Handled && |r.version| >= 5
  {
  }

  /** A request that can be handled, at the front of all the bytes to come. */
  lemma RequestInFrontRuns(r: seq<byte>, more: seq<byte>, size: nat, app: App)
    requires 0 < |r| <= size
    ensures RequestLen(r) == |r| && Judge(Parse(r)) == Handled ==>
      RunOf(r + more, size, app) == RunFrom(r + more, |r|, size, app)
  {
    hide RequestLen, Parse, Judge, RunFrom;
    if RequestLen(r) != |r| {
      return;
    }
    var all, n := r + more, |r|;
    var fill := all[..Min(|all|, size)];
    assert fill == r + fill[n..] && all[..n] == r;
    RequestLenStays(r, fill[n..]);
  }

  // ---------- the buffer between connections ----------

  /** A small request: GET / HTTP/1.1 */
  const HOME := Request(Ascii("GET"), Ascii("/"), Ascii("HTTP/1.1"), [])

  lemma HomeIsStandard()
    ensures Standard(HOME) && |Print(HOME)| == 18 && ContentLength(HOME) == 0 && |HOME.version| >= 5 && AsksToKeepAlive(HOME)
  {
    assert HOME.version[5..] == Ascii("1.1");
    assert Lower(Ascii("GET")[0]) != Lower(Ascii("PUT")[0]);
    assert Ascii("HTTP/") <= HOME.version;
  }

  /** A request in the buffer is served before anything the client sends. */
  lemma LeftoverFirst(r: seq<byte>, more: seq<byte>, size: nat, app: App)
    requires 0 < |r| <= size
    ensures RequestLen(r) == |r| && Judge(Parse(r)) == Handled ==>
      RunOf(r + more, size, app).served != [] && RunOf(r + more, size, app).served[0].request == r
  {
    hide RequestLen, Parse, Judge, RunOf;
    RequestInFrontRuns(r, more, size, app);
    assert (r + more)[..|r|] == r;
  }

  lemma FirstIsPrefix(all: seq<byte>, size: nat, app: App)
    ensures RunOf(all, size, app).served != [] ==> RunOf(all, size, app).served[0].request <= all
  {
    hide RequestLen, Parse, Judge, ContentLength, KeptAlive, Settled;
  }

  /** A leftover shows: what a client is served may not be what it has sent. */
  lemma LeftoverShows(left: seq<byte>, size: nat, app: App) returns (stream: seq<byte>)
    requires size >= 18 && left != []
    ensures RunOf(left + stream, size, app).served != RunOf(stream, size, app).served
  {
    hide RunOf, RequestLen, Parse, Judge, Print;
    HomeIsStandard();
    ParsePrint(HOME);
    PrintFramed(HOME);
    StandardIsHandled(HOME);
    var r := Print(HOME);
    LeftoverFirst(r, [], size, app);
    assert r + [] == r;
    if left <= r {
      stream := r[|left|..];
      assert left + stream == r;
      FirstIsPrefix(stream, size, app);
    } else if r <= left {
      stream := [];
      assert left + stream == r + left[|r|..];
      LeftoverFirst(r, left[|r|..], size, app);
      NothingSent(size, app);
    } else {
      stream := r;
      FirstIsPrefix(left + r, size, app);
      PrefixOfJoin(r, left, r);
    }
  }

  lemma PrefixOfJoin(r: seq<byte>, a: seq<byte>, b: seq<byte>)
    ensures r <= a + b ==> r <= a || a <= r
  {
    assert (a + b)[..|a|] == a;
  }

  /** Each client is served its own requests, whatever it sends, exactly if the buffer is empty when it comes. */
  lemma OwnRequests(left: seq<byte>, size: nat, app: App)
    requires size >= 18
    ensures left == [] <==> forall stream :: RunOf(left + stream, size, app).served == RunOf(stream, size, app).served
  {
    hide RunOf;
    if left == [] {
      assert forall stream :: left + stream == stream;
    } else {
      var stream := LeftoverShows(left, size, app);
    }
  }

  /** Connections that leave nothing behind: every one is served its own requests. */
  lemma {:induction false} OwnExchanges(sent: seq<seq<Message>>, sizes: seq<seq<int>>, size: nat, app: App,
                                        served: seq<seq<Exchange>>, entries: seq<seq<byte>>, i: nat)
    requires |sizes| == |sent| == |served| && |entries| == |sent| + 1 && entries[0] == [] && i <= |sent|
    requires forall j :: 0 <= j < |sent| ==>
      !Fails(sizes[j]) && Connected(entries[j], Wire(sent[j]), sizes[j], size, app, served[j], entries[j + 1])
    requires forall j, k :: 0 <= j < |sent| && 0 <= k < |sent[j]| ==>
      WellFramed(sent[j][k], size, app) && Keeps(sent[j][k], app)
    ensures entries[i] == [] && forall j :: 0 <= j < i ==> served[j] == Exchanges(sent[j])
  {
    hide WellFramed, Keeps, Fails, RunOf, Stuck;
    if i > 0 {
      var m := sent[i - 1];
      OwnExchanges(sent, sizes, size, app, served, entries, i - 1);
      PipelineServed(m, size, app);
      assert m[..|m|] == m && m[|m|..] == [];
      assert [] + Wire(m) == Wire(m);
    }
  }

  /** A worker that is stuck serves nothing to any later connection. */
  lemma {:induction false} StuckForever(size: nat, served: seq<seq<Exchange>>, entries: seq<seq<byte>>, k: nat, i: nat)
    requires |entries| == |served| + 1 && k <= i <= |served|
    requires forall j :: 0 <= j < |served| ==> StaysStuck(entries[j], size, served[j], entries[j + 1])
    requires Stuck(entries[k], size)
    ensures entries[i] == entries[k] && forall j :: k <= j < i ==> served[j] == []
  {
    hide Stuck;
    if i > k {
      StuckForever(size, served, entries, k, i - 1);
    }
  }

  // ---------- requests served to the wrong client ----------

  /** A connection that closes after the first message it finds leaves the rest, if one read has brought in all. */
  lemma OneServed(entry: seq<byte>, stream: seq<byte>, m: Message, more: seq<byte>, size: nat, app: App,
                  served: seq<Exchange>, next: seq<byte>)
    requires entry + stream == Print(m.request) + m.body + more
    ensures WellFramed(m, size, app) && !Keeps(m, app) && Connected(entry, stream, [], size, app, served, next) ==>
      served == [ExchangeOf(m)] && (entry == [] && |stream| <= size ==> next == more)
  {
    hide RunOf, WellFramed, Keeps, Print, RequestLen, ReadTo;
    NothingRead();
    if WellFramed(m, size, app) {
      MessageServed(m, more, size, app);
      if entry == [] && |stream| <= size {
        AllAtOnce(entry, stream, size);
      }
    }
  }

  /**
   Two messages in one read, the first of which closes the connection: the second one is served to the
   next client of the worker, in front of whatever that has sent itself.
   */
  method LeftToTheNext(a: Message, b: Message, own: seq<byte>, size: nat, app: App)
      returns (first: seq<Exchange>, second: seq<Exchange>)
    requires WellFramed(a, size, app) && WellFramed(b, size, app) && !Keeps(a, app) && !Keeps(b, app)
    requires |Print(a.request) + a.body + (Print(b.request) + b.body)| <= size
    ensures first == [ExchangeOf(a)] && second == [ExchangeOf(b)]
  {
    hide Print, Connected, RunOf, WellFramed, Keeps;
    var next := Print(b.request) + b.body;
    var worker := new Worker(app, size);
    var pipelined := new Socket(Print(a.request) + a.body + next, []);
    var alone := new Socket(own, []);
    var served, entries := worker.Run([pipelined, alone], 16);
    assert [pipelined, alone][0] == pipelined && [pipelined, alone][1] == alone;
    OneServed(entries[0], Print(a.request) + a.body + next, a, next, size, app, served[0], entries[1]);
    OneServed(entries[1], own, b, own, size, app, served[1], entries[2]);
    return served[0], served[1];
  }

  const PLAIN := App(false, _ => true, _ => false)

  function Page(uri: seq<byte>): Message {
    Message(HOME.(uri := uri), [])
  }

  /** Two such messages: GET /a HTTP/1.1 and GET /b HTTP/1.1 on a server without keep-alive. */
  lemma PagesFramed(m: Message)
    requires m == Page(Ascii("/a")) || m == Page(Ascii("/b"))
    ensures WellFramed(m, 64, PLAIN) && |Print(m.request) + m.body| == 19 && !Keeps(m, PLAIN)
  {
    HomeIsStandard();
  }

  /** Two control characters: they stay in the buffer, and the worker serves no later connection. */
  method StuckWorker(others: seq<Socket>) returns (first: seq<Exchange>, served: seq<seq<Exchange>>)
    requires forall i, j :: 0 <= i < j < |others| ==> others[i] != others[j]
    modifies set s | s in others
    ensures first == [] && |served| == |others| && forall i :: 0 <= i < |served| ==> served[i] == []
  {
    hide RunOf, Connected, Stuck, StaysStuck, ReadTo, Fails;
    var worker := new Worker(PLAIN, 64);
    var socket := new Socket([1, 1], []);
    ghost var before := worker.Buffered();
    first := worker.Connect(socket, 16);
    ControlsStick(first, before, [1, 1], 64, PLAIN, worker.Buffered());
    label before:
    ghost var entries;
    served, entries := worker.Run(others, 16);
    forall j | 0 <= j < |others|
      ensures StaysStuck(entries[j], 64, served[j], entries[j + 1])
    {
      ConnectedStays(entries[j], old@before(others[j].stream), old@before(others[j].sizes), 64, PLAIN, served[j], entries[j + 1]);
    }
    StuckForever(64, served, entries, 0, |others|);
  }

  lemma ConnectedStays(entry: seq<byte>, stream: seq<byte>, sizes: seq<int>, size: nat, app: App,
                       served: seq<Exchange>, next: seq<byte>)
    ensures Connected(entry, stream, sizes, size, app, served, next) ==> StaysStuck(entry, size, served, next)
  {
    hide RunOf, ReadTo, Stuck;
  }

  lemma ControlsStick(served: seq<Exchange>, entry: seq<byte>, stream: seq<byte>, size: nat, app: App, next: seq<byte>)
    requires entry == [] && stream == [1, 1] && size >= 2
    ensures Connected(entry, stream, [], size, app, served, next) ==> served == [] && next == stream && Stuck(next, size)
  {
    hide ReadTo;
    NothingRead();
    AllAtOnce(entry, stream, size);
    assert entry + stream == stream && stream[..2] == stream;
    assert FoundAt(stream, 0) == -1;
  }

  // ---------- a body taken for a request ----------

  /** One pass over a request whose body the handler does not read. */
  lemma IdleStep(r: seq<byte>, more: seq<byte>, size: nat, read: nat, app: App, exchange: Option<Exchange>,
                 rest: seq<byte>, goOn: bool)
    requires 0 < |r| <= size && !app.readsBody(r)
    ensures RequestLen(r) == |r| && Judge(Parse(r)) == Handled && Step(r + more, size, read, app, exchange, rest, goOn) ==>
      exchange == Some(Exchange(r, [])) && |r| <= read &&
      var k := NextStart(ContentLength(Parse(r)), read - |r|, 0);
      k <= |more| && rest == more[k..]
  {
    hide RequestLen, Parse, Judge, ContentLength, RunFrom, KeptAlive, NextStart;
    if RequestLen(r) != |r| {
      return;
    }
    var all, n := r + more, |r|;
    var fill := all[..Min(|all|, size)];
    assert fill == r + fill[n..] && all[..n] == r && all[n..] == more;
    RequestLenStays(r, fill[n..]);
  }

  /**
   A handler that does not read a body that is still on the socket and is itself a request: the body is
   read as the next request.
   */
  method UnreadBody(m: Message, inner: Request, size: nat, app: App)
      returns (first: Option<Exchange>, second: Option<Exchange>)
    requires Standard(m.request) && Standard(inner) && m.body == Print(inner) && ContentLength(m.request) == |m.body|
    requires |Print(m.request)| <= size && |m.body| <= size
    requires !app.readsBody(Print(m.request)) && !app.readsBody(m.body)
    ensures first == Some(Exchange(Print(m.request), [])) && second == Some(Exchange(m.body, []))
  {
    hide Print, RequestLen, Parse, Judge, ContentLength, Standard, Step, ReadTo, Fails, IsEnd, Stuck, NextStart;
    var r := Print(m.request);
    MessageParts(m.request);
    MessageParts(inner);
    FirstReadOnly(r, m.body, size);
    var worker := new Worker(app, size);
    var socket := new Socket(r + m.body, [|r|]);
    assert [] + (r + m.body) == r + m.body;
    var goOn;
    first, goOn := worker.ServeOne(socket, 16);
    IdleStep(r, m.body, size, |r|, app, first, worker.Pending(socket), goOn);
    StartOfUnread(|m.body|);
    assert m.body[0..] == m.body + [];
    ghost var read := |worker.ReadNow(socket)|;
    second, goOn := worker.ServeOne(socket, 16);
    IdleStep(m.body, [], size, read, app, second, worker.Pending(socket), goOn);
  }

  lemma MessageParts(r: Request)
    requires Standard(r)
    ensures RequestLen(Print(r)) == |Print(r)| > 0 && Parse(Print(r)) == r && Judge(r) == Handled
  {
    hide Print, RequestLen, Parse, Judge;
    ParsePrint(r);
    PrintFramed(r);
    StandardIsHandled(r);
  }

  lemma FirstReadOnly(r: seq<byte>, body: seq<byte>, size: nat)
    requires 0 < |r| <= size && body != []
    ensures RequestLen(r) == |r| ==> ReadTo([], r + body, [|r|], size) == r
    ensures !Fails([|r|]) && !Fails([])
  {
    hide RequestLen, ReadTo;
    assert (r + body)[..|r|] == r;
    if RequestLen(r) == |r| {
      FirstReadEnough(r + body, [|r|], size);
    }
  }

  lemma StartOfUnread(n: nat)
    requires n > 0
    ensures NextStart(n, 0, 0) == 0
  {
  }

  const IDLE := App(true, _ => false, _ => false)

  const POST := Message(WithLength(Request(Ascii("POST"), Ascii("/"), Ascii("HTTP/1.1"), []), 0, 18), Print(HOME))

  /** Such a request: POST / HTTP/1.1 with Content-Length: 18, and GET / HTTP/1.1 as its body. */
  lemma PostIsStandard()
    ensures Standard(POST.request) && ContentLength(POST.request) == |POST.body| == 18
    ensures |Print(POST.request)| <= 128 && Keeps(POST, IDLE)
  {
    hide Decimal, ContentLength;
    var plain := Request(Ascii("POST"), Ascii("/"), Ascii("HTTP/1.1"), []);
    HomeIsStandard();
    assert Judge(plain) == Handled by { assert Ascii("HTTP/") <= plain.version && plain.version[5..] == Ascii("1.1"); }
    WithLengthMeans(plain, 0, 18);
    PostSize();
  }

  lemma PostSize()
    ensures |Print(POST.request)| <= 128 && AsksToKeepAlive(POST.request)
  {
    assert |Decimal(18)| == 2;
    assert POST.request.headers[1..] == [];
    assert POST.request.version[5..] == Ascii("1.1");
  }
}
