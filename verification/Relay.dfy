/** One TLS to HTTP connection of the relay: the select mask and the pass the event loop makes over it. */
module Relay {
  import opened Bytes
  import opened Ring

  /** TMP_READ. */
  const TMP_READ: nat := 4096

  /** What a non-blocking read or write reports. */
  datatype Outcome =
    | Moved(n: nat)
    | EndOfStream
    | Retry
    | Failed

  predicate Ended(r: Outcome) {
    r == Failed || r == EndOfStream
  }

  /** One peer, seen through its socket. It decides how much moves, and when. */
  class Peer {
    /** Everything read from it so far. */
    var given: seq<byte>
    /** Everything it has accepted so far. */
    var taken: seq<byte>
    /** Bytes of the current record that the TLS library has decrypted and still holds. */
    var held: nat
    /** How often a write or a read found it not ready, and how often it ended or failed. */
    ghost var writeStalls: nat
    ghost var readStalls: nat
    ghost var ends: nat
    /** What the last read asked for and got. */
    ghost var asked: nat
    ghost var lastRead: nat

    constructor ()
      ensures given == [] && taken == [] && held == 0
    {
      given, taken, held := [], [], 0;
      writeStalls, readStalls, ends, asked, lastRead := 0, 0, 0, 0, 0;
    }

    /** A write: any non-empty part may be accepted. */
    method Send(data: seq<byte>) returns (r: Outcome)
      requires data != []
      modifies this
      ensures given == old(given) && held == old(held) && readStalls == old(readStalls)
      ensures asked == old(asked) && lastRead == old(lastRead)
      ensures writeStalls == old(writeStalls) + (if r.Retry? then 1 else 0)
      ensures ends == old(ends) + (if Ended(r) then 1 else 0)
      ensures r.Moved? ==> 0 < r.n <= |data| && taken == old(taken) + data[..r.n]
      ensures !r.Moved? ==> taken == old(taken)
    {
      r := *;
      if r.Moved? {
        var n := if r.n == 0 then 1 else Min(r.n, |data|);
        taken := taken + data[..n];
        r := Moved(n);
      }
      writeStalls := writeStalls + if r.Retry? then 1 else 0;
      ends := ends + if Ended(r) then 1 else 0;
    }

    /**
     A read of at most `max` bytes. Through TLS, held bytes are handed out first, without touching the socket, and a
     new record is held back as far as it exceeds what was asked for.
     */
    method Receive(max: nat, tls: bool) returns (r: Outcome, tmp: seq<byte>)
      requires max > 0
      modifies this
      ensures taken == old(taken) && writeStalls == old(writeStalls)
      ensures readStalls == old(readStalls) + (if r.Retry? then 1 else 0)
      ensures ends == old(ends) + (if Ended(r) then 1 else 0)
      ensures asked == max && lastRead == if r.Moved? then r.n else 0
      ensures r.Moved? ==> 0 < r.n == |tmp| <= max && given == old(given) + tmp
      ensures !r.Moved? ==> given == old(given)
      ensures !tls ==> held == old(held)
      ensures tls && old(held) > 0 ==> r == Moved(Min(max, old(held))) && held == old(held) - r.n
      ensures tls && old(held) == 0 ==> if r.Moved? then held > 0 ==> r.n == max else held == 0
    {
      r, tmp := *, *;
      if tls && held > 0 {
        var n := Min(max, held);
        tmp := (tmp + Zeros(n))[..n];
        held := held - n;
        r := Moved(n);
      } else if r.Moved? {
        tmp := if tmp == [] then [0] else tmp[..Min(|tmp|, max)];
        var rest: seq<byte> := *;
        held := if !tls then held else if |tmp| == max then |rest| else 0;
        r := Moved(|tmp|);
      }
      given := if r.Moved? then given + tmp else given;
      readStalls := readStalls + if r.Retry? then 1 else 0;
      ends := ends + if Ended(r) then 1 else 0;
      asked, lastRead := max, if r.Moved? then r.n else 0;
    }
  }

  /** Bytes in transit: what came in is what went out followed by what still waits. */
  predicate Carried(given: seq<byte>, taken: seq<byte>, waiting: seq<byte>) {
    given == taken + waiting
  }

  lemma SentFromFront(given: seq<byte>, taken: seq<byte>, waiting: seq<byte>, n: nat)
    requires Carried(given, taken, waiting) && n <= |waiting|
    ensures Carried(given, taken + waiting[..n], waiting[n..])
  {
  }

  lemma QueuedAtBack(given: seq<byte>, taken: seq<byte>, waiting: seq<byte>, tmp: seq<byte>)
    requires Carried(given, taken, waiting)
    ensures Carried(given + tmp, taken, waiting + tmp)
  {
  }

  lemma NothingWaits(given: seq<byte>, taken: seq<byte>, waiting: seq<byte>)
    requires Carried(given, taken, waiting)
    ensures waiting == [] ==> given == taken
  {
  }

  /** What the oldest piece starts with is what the queue starts with. */
  lemma FrontOfPiece(waiting: seq<byte>, chunk: nat, n: nat)
    requires n <= chunk <= |waiting|
    ensures waiting[..chunk][..n] == waiting[..n]
  {
  }

  /** The loop that writes a ring out until it is empty or the sink stalls; false asks for shutdown. */
  method Drain(ring: Buffer, sink: Peer, ghost given: seq<byte>) returns (ok: bool)
    requires ring.Valid() && Carried(given, sink.taken, ring.Contents())
    modifies ring, sink
    ensures ring.Valid() && Carried(given, sink.taken, ring.Contents())
    ensures sink.given == old(sink.given) && old(sink.taken) <= sink.taken
    ensures sink.readStalls == old(sink.readStalls) && sink.held == old(sink.held)
    ensures ok ==> ring.Contents() == [] || sink.writeStalls > old(sink.writeStalls)
    ensures if ok then sink.ends == old(sink.ends) else sink.ends > old(sink.ends)
  {
    hide Carried, Stored, After;
    while true
      invariant ring.Valid() && Carried(given, sink.taken, ring.Contents())
      invariant sink.given == old(sink.given) && old(sink.taken) <= sink.taken
      invariant sink.readStalls == old(sink.readStalls) && sink.held == old(sink.held)
      invariant sink.writeStalls == old(sink.writeStalls) && sink.ends == old(sink.ends)
      decreases ring.Size()
    {
      var at, chunk := ring.Peek();
      if chunk == 0 {
        return true;
      }
      ghost var waiting := ring.Contents();
      ghost var before := sink.taken;
      var sent := sink.Send(ring.buf[at..at + chunk]);
      if !sent.Moved? {
        return sent.Retry?;
      }
      FrontOfPiece(waiting, chunk, sent.n);
      SentFromFront(given, before, waiting, sent.n);
      ring.Consume(sent.n);
    }
  }

  /**
   The loop that reads into a ring while there is room and the source has more; false asks for shutdown. Through TLS,
   bytes stay behind in the library exactly if it decrypted more than the ring had room for.
   */
  method Refill(ring: Buffer, source: Peer, ghost taken: seq<byte>, tls: bool) returns (ok: bool)
    requires ring.Valid() && Carried(source.given, taken, ring.Contents())
    modifies ring, ring.buf, source
    ensures ring.Valid() && Carried(source.given, taken, ring.Contents())
    ensures source.taken == old(source.taken) && old(source.given) <= source.given
    ensures source.writeStalls == old(source.writeStalls)
    ensures ok ==>
              || ring.Space() == 0 || source.readStalls > old(source.readStalls)
              || (old(source.given) < source.given && if tls then source.held == 0 else source.lastRead < source.asked)
    ensures old(ring.Space()) > 0 ==> source.asked == Min(ring.Space() + source.lastRead, TMP_READ)
    ensures if tls
            then source.held > 0 <==>
                   |source.given| + source.held > |old(source.given)| + old(ring.Space())
            else source.held == old(source.held)
    ensures tls && source.held > 0 ==> ring.Space() == 0
    ensures if ok then source.ends == old(source.ends) else source.ends > old(source.ends)
  {
    hide Carried, Stored, After;
    while true
      invariant ring.Valid() && Carried(source.given, taken, ring.Contents())
      invariant source.taken == old(source.taken) && old(source.given) <= source.given
      invariant source.writeStalls == old(source.writeStalls) && source.readStalls == old(source.readStalls)
      invariant source.ends == old(source.ends) && (tls || source.held == old(source.held))
      invariant |source.given| + ring.Space() == |old(source.given)| + old(ring.Space())
      invariant ring.Space() < old(ring.Space()) ==> source.asked == Min(ring.Space() + source.lastRead, TMP_READ)
      decreases ring.Space()
    {
      var space := ring.Space();
      var toRead := Min(space, TMP_READ);
      if space == 0 {
        return true;
      }
      ghost var before, waiting := source.given, ring.Contents();
      var got, tmp := source.Receive(toRead, tls);
      if !got.Moved? {
        return got.Retry?;
      }
      QueuedAtBack(before, taken, waiting, tmp);
      var written := ring.Write(tmp);
      assert tmp[..written] == tmp;
      if if tls then source.held == 0 else got.n < toRead {
        return true;
      }
    }
  }

  /** Which of the four readiness bits of a connection are set. */
  datatype Ready = Ready(tlsRead: bool, tlsWrite: bool, httpRead: bool, httpWrite: bool) {
    predicate Within(o: Ready) {
      (tlsRead ==> o.tlsRead) && (tlsWrite ==> o.tlsWrite) && (httpRead ==> o.httpRead) && (httpWrite ==> o.httpWrite)
    }
  }

  const NONE_READY := Ready(false, false, false, false)

  datatype State =
    | Handshake
    | Shutdown
    | Closed

  /** What `mbedtls_ssl_handshake` reports. */
  datatype Greeting =
    | Complete
    | WantRead
    | WantWrite
    | Broken

  /** `conn_t`. */
  class Connection {
    var state: State
    var tlsDone: bool
    var tlsWantRead: bool
    var tlsWantWrite: bool
    var clientOpen: bool
    var httpOpen: bool
    var httpConnected: bool
    const tls: Peer
    const http: Peer
    const toHttp: Buffer
    const toTls: Buffer

    /** A connection is either live with both sockets open, or on its way out. */
    ghost predicate Valid()
      reads this, toHttp, toHttp.buf, toTls, toTls.buf
    {
      && tls != http && toHttp != toTls && toHttp.buf != toTls.buf
      && toHttp.Valid() && toTls.Valid()
      && (state == Handshake ==> clientOpen && httpOpen && (tlsDone || tlsWantRead || tlsWantWrite))
      && (state == Closed ==> !clientOpen && !httpOpen)
    }

    /** Both directions carry their bytes in order, with nothing lost, repeated or added. */
    ghost predicate Safe()
      reads this, toHttp, toHttp.buf, toTls, toTls.buf, tls, http
      requires Valid()
    {
      && Carried(tls.given, http.taken, toHttp.Contents())
      && Carried(http.given, tls.taken, toTls.Contents())
    }

    /** No byte has been read or written in either direction. */
    ghost predicate Untouched()
      reads this, tls, http
    {
      tls.given == [] && tls.taken == [] && http.given == [] && http.taken == []
    }

    /** Both sides are ready for data. */
    predicate Open()
      reads this
    {
      tlsDone && httpConnected
    }

    /** A client was accepted; `backend` says whether a connection to the server could be begun. */
    constructor (backend: bool)
      ensures Valid() && Safe() && Untouched() && !Open()
      ensures state == if backend then Handshake else Shutdown
      ensures fresh(this) && fresh(tls) && fresh(http)
      ensures fresh(toHttp) && fresh(toHttp.buf) && fresh(toTls) && fresh(toTls.buf)
    {
      tls := new Peer();
      http := new Peer();
      toHttp := new Buffer();
      toTls := new Buffer();
      tlsDone, tlsWantRead, tlsWantWrite := false, true, true;
      clientOpen, httpOpen, httpConnected := true, backend, false;
      state := if backend then Handshake else Shutdown;
    }

    /** The bits the loop asks `select` to watch. */
    function Interest(): Ready
      reads this, toHttp, toHttp.buf, toTls, toTls.buf
      requires Valid()
    {
      var connecting := httpOpen && !httpConnected;
      if state == Closed then NONE_READY
      else if !tlsDone then Ready(clientOpen && tlsWantRead, clientOpen && tlsWantWrite, false, connecting)
      else
        Ready(clientOpen && toHttp.Space() > 0,
              clientOpen && toTls.Size() > 0,
              httpOpen && httpConnected && toTls.Space() > 0,
              connecting || (httpOpen && httpConnected && toHttp.Size() > 0))
    }

    /** Decrypted bytes wait in the library though the ring has room for them. */
    ghost predicate Stranded()
      reads this, toHttp, toHttp.buf, tls
      requires toHttp.Valid()
    {
      tls.held > 0 && toHttp.Space() > 0
    }

    /** How often either peer has ended or failed. */
    ghost function Ends(): nat
      reads this, tls, http
    {
      tls.ends + http.ends
    }

    /** The sink has everything that was read before the pass, or it stalled during the pass. */
    ghost predicate Delivered(sink: Peer, given: seq<byte>, stalls: nat)
      reads sink
    {
      given <= sink.taken || sink.writeStalls > stalls
    }

    /** Something new was read, or the source stalled during the pass, or the ring is full. */
    ghost predicate Taken(source: Peer, ring: Buffer, given: seq<byte>, stalls: nat)
      reads source, ring, ring.buf
      requires ring.Valid()
    {
      given < source.given || source.readStalls > stalls || ring.Space() == 0
    }

    /** The pass the event loop makes over one connection. */
    method Serve(ready: Ready)
      requires Valid() && Safe() && ready.Within(Interest())
      requires Open() || Untouched()
      modifies this, tls, http, toHttp, toHttp.buf, toTls, toTls.buf
      ensures Valid() && Safe()
      ensures old(Open()) ==> Open()
      ensures Open() || Untouched()
      ensures old(tls.given) <= tls.given && old(tls.taken) <= tls.taken
      ensures old(http.given) <= http.given && old(http.taken) <= http.taken
      ensures state != Shutdown
      ensures old(state) == Handshake && Open() && state != Closed ==>
                && (ready.httpWrite ==> Delivered(http, old(tls.given), old(http.writeStalls)))
                && (ready.tlsWrite ==> Delivered(tls, old(http.given), old(tls.writeStalls)))
                && (ready.tlsRead ==> Taken(tls, toHttp, old(tls.given), old(tls.readStalls)))
                && (ready.httpRead ==> Taken(http, toTls, old(http.given), old(http.readStalls)))
      ensures old(state) == Handshake && Open() ==> state == if Ends() > old(Ends()) then Closed else Handshake
      ensures old(state) == Handshake && Open() ==>
                (Stranded() <==> old(tls.held) > 0 && !ready.tlsRead && toHttp.Space() > 0)
      ensures old(state) == Handshake && ready.httpWrite ==> httpConnected || state == Closed
      ensures old(state) == Handshake && !old(tlsDone) && (ready.tlsRead || ready.tlsWrite) ==>
                tlsDone || state == Closed || tlsWantRead != tlsWantWrite
      ensures old(state) == Shutdown ==>
                && state == Closed && tls.given == old(tls.given) && tls.taken == old(tls.taken)
                && http.given == old(http.given) && http.taken == old(http.taken)
      ensures (!ready.httpWrite ==> http.taken == old(http.taken)) && (!ready.tlsWrite ==> tls.taken == old(tls.taken))
      ensures (!ready.tlsRead ==> tls.given == old(tls.given)) && (!ready.httpRead ==> http.given == old(http.given))
    {
      hide Carried, Stored, After, Delivered, Taken;
      Establish(ready);
      if tlsDone && httpConnected && state != Shutdown {
        Forward(ready);
      }
      CloseIfAsked();
    }

    /** `close_conn`, for a connection on its way out. */
    method CloseIfAsked()
      requires Valid()
      modifies this`state, this`clientOpen, this`httpOpen
      ensures Valid() && state == if old(state) == Shutdown then Closed else old(state)
    {
      if state == Shutdown {
        clientOpen, httpOpen := false, false;
        state := Closed;
      }
    }

    /**
     A pass in which everything that is watched turns out to be ready delivers, in both directions, whatever had been
     read before, unless a sink stalls or a peer ends.
     */
    method PassWithAllReady()
      requires Valid() && Safe() && Open() && state == Handshake
      modifies this, tls, http, toHttp, toHttp.buf, toTls, toTls.buf
      ensures Valid() && Safe() && Open()
      ensures state == if Ends() > old(Ends()) then Closed else Handshake
      ensures state == Handshake && http.writeStalls == old(http.writeStalls) ==> old(tls.given) <= http.taken
      ensures state == Handshake && tls.writeStalls == old(tls.writeStalls) ==> old(http.given) <= tls.taken
      ensures state == Handshake && old(toHttp.Space()) > 0 ==>
                Taken(tls, toHttp, old(tls.given), old(tls.readStalls)) && !Stranded()
      ensures state == Handshake && old(toTls.Space()) > 0 ==>
                Taken(http, toTls, old(http.given), old(http.readStalls))
    {
      hide Stored, After;
      Serve(Interest());
    }

    /** An ordinary pass strands bytes: the server takes what waits for it while the library holds more. */
    method DrainingPass()
      requires Valid() && Safe() && Open() && state == Handshake
      requires toHttp.Contents() != [] && tls.held > 0
      modifies this, tls, http, toHttp, toHttp.buf, toTls, toTls.buf
      ensures Valid() && Safe()
      ensures state == Handshake && http.writeStalls == old(http.writeStalls) ==> toHttp.Contents() == [] && Stranded()
    {
      hide Stored, After;
      Serve(Ready(false, false, false, true));
    }

    /** Finishes the connection to the server and takes a step of the TLS handshake. */
    method Establish(ready: Ready)
      requires Valid()
      modifies this`state, this`httpConnected, this`tlsDone, this`tlsWantRead, this`tlsWantWrite
      ensures Valid()
      ensures state == old(state) || state == Shutdown
      ensures old(Open()) ==> Open()
      ensures Open() ==> state == old(state) && clientOpen == old(clientOpen) && httpOpen == old(httpOpen)
      ensures state == Closed <==> old(state) == Closed
      ensures httpConnected ==> old(httpConnected) || ready.httpWrite
      ensures old(httpOpen && !httpConnected) && ready.httpWrite ==> httpConnected || state == Shutdown
      ensures tlsDone ==> old(tlsDone) || ready.tlsRead || ready.tlsWrite
      ensures old(clientOpen && !tlsDone) && (ready.tlsRead || ready.tlsWrite) ==>
                tlsDone || state == Shutdown || tlsWantRead != tlsWantWrite
    {
      FinishConnect(ready);
      Greet(ready);
    }

    /** The socket to the server became writable: its pending connection succeeded or failed. */
    method FinishConnect(ready: Ready)
      requires Valid()
      modifies this`state, this`httpConnected
      ensures Valid()
      ensures state == old(state) || (state == Shutdown && !httpConnected)
      ensures if old(httpOpen && !httpConnected) && ready.httpWrite then httpConnected || state == Shutdown
              else httpConnected == old(httpConnected) && state == old(state)
    {
      if httpOpen && !httpConnected && ready.httpWrite {
        var connected: bool := *;
        if connected {
          httpConnected := true;
        } else {
          state := Shutdown;
        }
      }
    }

    /** A step of the TLS handshake. */
    method Greet(ready: Ready)
      requires Valid()
      modifies this`state, this`tlsDone, this`tlsWantRead, this`tlsWantWrite
      ensures Valid()
      ensures state == old(state) || (state == Shutdown && !tlsDone)
      ensures if old(clientOpen && !tlsDone) && (ready.tlsRead || ready.tlsWrite)
              then tlsDone || state == Shutdown || tlsWantRead != tlsWantWrite
              else tlsDone == old(tlsDone) && state == old(state)
    {
      if !tlsDone && clientOpen && (ready.tlsRead || ready.tlsWrite) {
        var ret: Greeting := *;
        match ret
        case Complete => tlsDone, tlsWantRead, tlsWantWrite := true, false, false;
        case WantRead => tlsWantRead, tlsWantWrite := true, false;
        case WantWrite => tlsWantRead, tlsWantWrite := false, true;
        case Broken => state := Shutdown;
      }
    }

    /** The forwarding phase: drain both rings, then fill both. */
    method Forward(ready: Ready)
      requires Valid() && Safe()
      modifies this`state, tls, http, toHttp, toHttp.buf, toTls, toTls.buf
      ensures Valid() && Safe()
      ensures old(tls.given) <= tls.given && old(tls.taken) <= tls.taken
      ensures old(http.given) <= http.given && old(http.taken) <= http.taken
      ensures httpOpen && ready.httpWrite ==>
                Delivered(http, old(tls.given), old(http.writeStalls)) || state == Shutdown
      ensures clientOpen && ready.tlsWrite ==>
                Delivered(tls, old(http.given), old(tls.writeStalls)) || state == Shutdown
      ensures clientOpen && ready.tlsRead ==>
                Taken(tls, toHttp, old(tls.given), old(tls.readStalls)) || state == Shutdown
      ensures httpOpen && ready.httpRead ==>
                Taken(http, toTls, old(http.given), old(http.readStalls)) || state == Shutdown
      ensures Ends() >= old(Ends()) && state == if Ends() > old(Ends()) then Shutdown else old(state)
      ensures if clientOpen && ready.tlsRead then tls.held > 0 ==> toHttp.Space() == 0 else tls.held == old(tls.held)
      ensures (!ready.httpWrite ==> http.taken == old(http.taken)) && (!ready.tlsWrite ==> tls.taken == old(tls.taken))
      ensures (!ready.tlsRead ==> tls.given == old(tls.given)) && (!ready.httpRead ==> http.given == old(http.given))
    {
      hide Carried, Stored, After;
      DrainToHttp(ready.httpWrite);
      DrainToTls(ready.tlsWrite);
      RefillFromTls(ready.tlsRead);
      RefillFromHttp(ready.httpRead);
    }

    /** The server takes what waits for it. */
    method DrainToHttp(on: bool)
      requires Valid() && Safe()
      modifies this`state, http, toHttp
      ensures Valid() && Safe()
      ensures http.given == old(http.given) && http.held == old(http.held) && http.readStalls == old(http.readStalls)
      ensures old(http.taken) <= http.taken && (!on ==> http.taken == old(http.taken))
      ensures httpOpen && on ==> Delivered(http, tls.given, old(http.writeStalls)) || state == Shutdown
      ensures http.ends >= old(http.ends)
      ensures state == if http.ends > old(http.ends) then Shutdown else old(state)
    {
      hide Carried, Stored, After;
      if httpOpen && on && toHttp.Size() > 0 {
        var ok := Drain(toHttp, http, tls.given);
        state := if ok then state else Shutdown;
      }
      NothingWaits(tls.given, http.taken, toHttp.Contents());
    }

    /** The client takes what waits for it. */
    method DrainToTls(on: bool)
      requires Valid() && Safe()
      modifies this`state, tls, toTls
      ensures Valid() && Safe()
      ensures tls.given == old(tls.given) && tls.held == old(tls.held) && tls.readStalls == old(tls.readStalls)
      ensures old(tls.taken) <= tls.taken && (!on ==> tls.taken == old(tls.taken))
      ensures clientOpen && on ==> Delivered(tls, http.given, old(tls.writeStalls)) || state == Shutdown
      ensures tls.ends >= old(tls.ends)
      ensures state == if tls.ends > old(tls.ends) then Shutdown else old(state)
    {
      hide Carried, Stored, After;
      if clientOpen && on && toTls.Size() > 0 {
        var ok := Drain(toTls, tls, http.given);
        state := if ok then state else Shutdown;
      }
      NothingWaits(http.given, tls.taken, toTls.Contents());
    }

    /** What the client sends is read into the ring. */
    method RefillFromTls(on: bool)
      requires Valid() && Safe()
      modifies this`state, tls, toHttp, toHttp.buf
      ensures Valid() && Safe()
      ensures tls.taken == old(tls.taken) && tls.writeStalls == old(tls.writeStalls)
      ensures old(tls.given) <= tls.given && (!on ==> tls.given == old(tls.given))
      ensures clientOpen && on ==> Taken(tls, toHttp, old(tls.given), old(tls.readStalls)) || state == Shutdown
      ensures if clientOpen && on then tls.held > 0 ==> toHttp.Space() == 0 else tls.held == old(tls.held)
      ensures tls.ends >= old(tls.ends)
      ensures state == if tls.ends > old(tls.ends) then Shutdown else old(state)
    {
      hide Carried, Stored, After;
      if clientOpen && on {
        var ok := Refill(toHttp, tls, http.taken, true);
        state := if ok then state else Shutdown;
      }
    }

    /** What the server sends is read into the ring. */
    method RefillFromHttp(on: bool)
      requires Valid() && Safe()
      modifies this`state, http, toTls, toTls.buf
      ensures Valid() && Safe()
      ensures http.taken == old(http.taken) && http.writeStalls == old(http.writeStalls)
      ensures old(http.given) <= http.given && (!on ==> http.given == old(http.given))
      ensures httpOpen && on ==> Taken(http, toTls, old(http.given), old(http.readStalls)) || state == Shutdown
      ensures http.ends >= old(http.ends)
      ensures state == if http.ends > old(http.ends) then Shutdown else old(state)
    {
      hide Carried, Stored, After;
      if httpOpen && on {
        var ok := Refill(toTls, http, tls.taken, false);
        state := if ok then state else Shutdown;
      }
    }

    /** Any number of passes over any readiness that `select` may report. */
    method Run(rounds: nat)
      requires Valid() && Safe() && (Open() || Untouched())
      modifies this, tls, http, toHttp, toHttp.buf, toTls, toTls.buf
      ensures Valid() && Safe() && (Open() || Untouched())
      ensures old(tls.given) <= tls.given && old(tls.taken) <= tls.taken
      ensures old(http.given) <= http.given && old(http.taken) <= http.taken
    {
      for i := 0 to rounds
        invariant Valid() && Safe() && (Open() || Untouched())
        invariant old(tls.given) <= tls.given && old(tls.taken) <= tls.taken
        invariant old(http.given) <= http.given && old(http.taken) <= http.taken
      {
        var any: Ready, mask := *, Interest();
        var ready := Ready(any.tlsRead && mask.tlsRead, any.tlsWrite && mask.tlsWrite,
                           any.httpRead && mask.httpRead, any.httpWrite && mask.httpWrite);
        if state != Closed {
          Serve(ready);
        }
      }
    }
  }

  /**
   What a safe connection promises: each side has been given a prefix of what the other sent, at most a ring behind.
   */
  lemma PrefixAndBacklog(c: Connection)
    requires c.Valid() && c.Safe()
    ensures c.http.taken <= c.tls.given && |c.tls.given| - |c.http.taken| == |c.toHttp.Contents()| <= RBUF_SIZE
    ensures c.tls.taken <= c.http.given && |c.http.given| - |c.tls.taken| == |c.toTls.Contents()| <= RBUF_SIZE
  {
  }

  /**
   `select` always watches a live connection for something. Once data may flow, a sink is watched exactly while bytes
   wait for it, and a source exactly while there is room for its bytes.
   */
  lemma NeverDeaf(c: Connection)
    requires c.Valid() && c.state == Handshake
    ensures c.Interest() != NONE_READY
    ensures c.Open() ==>
              && (c.Interest().httpWrite <==> c.toHttp.Contents() != [])
              && (c.Interest().tlsWrite <==> c.toTls.Contents() != [])
              && (c.Interest().tlsRead <==> |c.toHttp.Contents()| < RBUF_SIZE)
              && (c.Interest().httpRead <==> |c.toTls.Contents()| < RBUF_SIZE)
  {
  }

  /** Bytes stranded behind empty rings wait for the sockets alone: nothing that is watched tells of them. */
  lemma StrandedWaitsForNewInput(c: Connection)
    requires c.Valid() && c.state == Handshake && c.Open() && c.Stranded()
    requires c.toHttp.Contents() == [] && c.toTls.Contents() == []
    ensures c.Interest() == Ready(true, false, true, false)
  {
  }

  // ---- the pass-through mode of the other copy ----

  /**
   Pass-through writes straight to the sink and queues only what the sink would not take, so a failed write
   loses the rest.
   */
  method PassThrough(ring: Buffer, sink: Peer, tmp: seq<byte>) returns (off: nat, ok: bool)
    requires ring.Valid() && |tmp| <= ring.Space()
    modifies ring, ring.buf, sink
    ensures ring.Valid() && sink.given == old(sink.given) && off <= |tmp|
    ensures sink.taken == old(sink.taken) + tmp[..off]
    ensures ring.Contents() == old(ring.Contents()) + if ok then tmp[off..] else []
  {
    hide Stored, After;
    off, ok := 0, true;
    while off < |tmp|
      invariant off <= |tmp| && ring.Valid() && ring.Contents() == old(ring.Contents())
      invariant sink.taken == old(sink.taken) + tmp[..off] && sink.given == old(sink.given)
    {
      var w := sink.Send(tmp[off..]);
      if w.Moved? {
        assert tmp[..off] + tmp[off..][..w.n] == tmp[..off + w.n];
        off := off + w.n;
      } else {
        if w.Retry? {
          var written := ring.Write(tmp[off..]);
          assert tmp[off..][..written] == tmp[off..];
        }
        return off, w.Retry?;
      }
    }
  }

  /**
   Pass-through keeps the order of bytes, whatever is read into the free space and however much is taken, only over an
   empty ring; over a full one nothing is read at all.
   */
  lemma PassThroughKeepsOrder(given: seq<byte>, taken: seq<byte>, waiting: seq<byte>)
    requires Carried(given, taken, waiting) && |waiting| <= RBUF_SIZE
    ensures (forall tmp: seq<byte>, off: nat :: off <= |tmp| <= Min(TMP_READ, RBUF_SIZE - |waiting|) ==>
               Carried(given + tmp, taken + tmp[..off], waiting + tmp[off..]))
        <==> waiting == [] || |waiting| == RBUF_SIZE
  {
    if waiting == [] || |waiting| == RBUF_SIZE {
      forall tmp: seq<byte>, off: nat | off <= |tmp| <= Min(TMP_READ, RBUF_SIZE - |waiting|)
        ensures Carried(given + tmp, taken + tmp[..off], waiting + tmp[off..])
      {
        assert tmp == tmp[..off] + tmp[off..];
        assert waiting == [] || tmp == [];
      }
    } else {
      var tmp := [Add(waiting[0], 1)];
      assert tmp[0] != waiting[0];
      assert (given + tmp)[|taken|] == waiting[0];
      assert (taken + tmp[..1] + (waiting + tmp[1..]))[|taken|] == tmp[0];
      assert !Carried(given + tmp, taken + tmp[..1], waiting + tmp[1..]);
    }
  }
}
