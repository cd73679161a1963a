/**
 The tagged request/response protocol between the Go executor and its Python server process.
 A command writes a header line and a body line and reads back a tag line and a body line. The server is a
 process of its own: between any two operations of the client it may make any number of steps, or die.
 */
module PythonExecutor {
  import opened Options

  const TAGS := 0x1_0000_0000_0000_0000

  datatype Line =
    | RequestHeader(cmd: string, tag: nat)
    | Request(data: string)
    | ResponseHeader(tag: nat)
    | Response(body: string)
    | Noise(tag: nat)   // what a module printed itself; its tag is the one a JSON decoder finds in it, or 0

  /** The tag of a line read as a response header; a line without one decodes to 0. */
  function TagOf(line: Line): nat {
    if line.ResponseHeader? || line.Noise? then line.tag else 0
  }

  function NoiseLines(tags: seq<nat>): seq<Line> {
    seq(|tags|, i requires 0 <= i < |tags| => Noise(tags[i]))
  }

  datatype Exchange = Exchange(cmd: string, tag: nat, data: string, body: string)

  /** Where the server's loop stands. */
  datatype Pc =
    | AwaitHeader
    | AwaitBody(cmd: string, tag: nat)
    | Answering(tag: nat, body: string)
    | PrintedHeader(body: string)
    | Exited

  const HANDLERS := {"hello", "execute"}

  /** What is in the two pipes, where the server stands, and what it has answered. */
  datatype Wire = Wire(stdin: seq<Line>, stdout: seq<Line>, pc: Pc, log: seq<Exchange>) {
    /**
     One command under way: the client has written the first `sent` of its two lines and has read the first
     `got` of the two answer lines; `before` is the log from before the command.
     */
    ghost predicate InFlight(cmd: string, tag: nat, data: string, sent: nat, got: nat, before: seq<Exchange>)
    {
      && sent <= 2 && got <= 2
      && (Asked(cmd, tag, data, sent, got, before)
          || (sent == 2 && exists body, noise :: Answered(cmd, tag, data, got, before, body, noise)))
    }

    /** No handler has run yet. */
    ghost predicate Asked(cmd: string, tag: nat, data: string, sent: nat, got: nat, before: seq<Exchange>)
      requires sent <= 2
    {
      var lines := [RequestHeader(cmd, tag), Request(data)];
      && log == before && stdout == [] && got == 0
      && match pc
         case AwaitHeader => stdin == lines[..sent]
         case AwaitBody(c, t) => c == cmd && t == tag && sent >= 1 && stdin == lines[1..sent]
         case Answering(_, _) => false
         case PrintedHeader(_) => false
         case Exited => true
    }

    /**
     The handler has produced `body`, which is on its way in one piece, behind whatever the module printed;
     no printed line carries the outstanding tag.
     */
    ghost predicate Answered(cmd: string, tag: nat, data: string, got: nat, before: seq<Exchange>, body: string,
        noise: seq<nat>)
      requires got <= 2
    {
      var lines := NoiseLines(noise) + [ResponseHeader(tag), Response(body)];
      && log == before + [Exchange(cmd, tag, data, body)]
      && stdin == [] && tag !in noise && (got > 0 ==> noise == [])
      && match pc
         case AwaitHeader => stdout == lines[got..]
         case AwaitBody(_, _) => false
         case Answering(t, b) => t == tag && b == body && got == 0 && stdout == lines[..|noise|]
         case PrintedHeader(b) => b == body && got <= 1 && stdout == lines[got..|noise| + 1]
         case Exited => got + |stdout| <= |lines| && stdout == lines[got..got + |stdout|]
    }

    /** What one step of the server may lead to; a handler that ran left `printed` behind. */
    ghost predicate Moved(next: Wire, printed: seq<nat>) {
      || next == this
      || (next.pc == Exited && next.stdout == stdout && next.log == log && (next.stdin == stdin || stdin != []))
      || match pc
         case AwaitHeader =>
           && stdin != [] && stdin[0].RequestHeader?
           && next == Wire(stdin[1..], stdout, AwaitBody(stdin[0].cmd, stdin[0].tag), log)
         case AwaitBody(cmd, tag) =>
           && stdin != [] && stdin[0].Request? && next.pc.Answering? && next.pc.tag == tag && tag !in printed
           && next.stdin == stdin[1..] && next.stdout == stdout + NoiseLines(printed)
           && next.log == log + [Exchange(cmd, tag, stdin[0].data, next.pc.body)]
         case Answering(tag, body) =>
           next == Wire(stdin, stdout + [ResponseHeader(tag)], PrintedHeader(body), log)
         case PrintedHeader(body) =>
           next == Wire(stdin, stdout + [Response(body)], AwaitHeader, log)
         case Exited => false
    }
  }

  lemma AskedMoved(w: Wire, w': Wire, cmd: string, tag: nat, data: string, sent: nat, got: nat, before: seq<Exchange>,
      printed: seq<nat>)
    requires sent <= 2 && got <= 2 && w.Moved(w', printed) && w.Asked(cmd, tag, data, sent, got, before)
    ensures w'.InFlight(cmd, tag, data, sent, got, before)
  {
    if w.pc.AwaitBody? && w'.pc.Answering? {
      assert sent == 2 && w.stdin == [Request(data)];
      assert w'.Answered(cmd, tag, data, got, before, w'.pc.body, printed);
    } else {
      assert w'.Asked(cmd, tag, data, sent, got, before);
    }
  }

  lemma AnsweredMoved(w: Wire, w': Wire, cmd: string, tag: nat, data: string, got: nat, before: seq<Exchange>,
      body: string, noise: seq<nat>, printed: seq<nat>)
    requires got <= 2 && w.Moved(w', printed) && w.Answered(cmd, tag, data, got, before, body, noise)
    ensures w'.InFlight(cmd, tag, data, 2, got, before)
  {
    assert w'.Answered(cmd, tag, data, got, before, body, noise);
  }

  /** A command under way stays under way whatever the server does. */
  lemma FlightKept(w: Wire, w': Wire, cmd: string, tag: nat, data: string, sent: nat, got: nat, before: seq<Exchange>,
      printed: seq<nat>)
    requires w.Moved(w', printed) && w.InFlight(cmd, tag, data, sent, got, before)
    ensures w'.InFlight(cmd, tag, data, sent, got, before)
  {
    hide Wire.Asked, Wire.Answered, Wire.Moved;
    if w.Asked(cmd, tag, data, sent, got, before) {
      AskedMoved(w, w', cmd, tag, data, sent, got, before, printed);
    } else {
      var body, noise :| w.Answered(cmd, tag, data, got, before, body, noise);
      AnsweredMoved(w, w', cmd, tag, data, got, before, body, noise, printed);
    }
  }

  /** The next line in the pipe is the next line of the answer, unless it is noise before its header. */
  lemma LineTaken(w: Wire, cmd: string, tag: nat, data: string, got: nat, before: seq<Exchange>)
    requires got < 2 && w.InFlight(cmd, tag, data, 2, got, before) && w.stdout != []
    ensures var line, w' := w.stdout[0], w.(stdout := w.stdout[1..]);
      && (got == 1 || TagOf(line) == tag ==>
           && w'.InFlight(cmd, tag, data, 2, got + 1, before)
           && |w.log| == |before| + 1
           && line == if got == 0 then ResponseHeader(tag) else Response(w.log[|before|].body))
      && (got == 0 && !line.Noise? ==> TagOf(line) == tag)
  {
    hide Wire.Asked, Wire.Answered;
    assert !w.Asked(cmd, tag, data, 2, got, before) by { NothingPrinted(w, cmd, tag, data, got, before); }
    var body, noise :| w.Answered(cmd, tag, data, got, before, body, noise);
    AnswerTaken(w, cmd, tag, data, got, before, body, noise);
  }

  lemma NothingPrinted(w: Wire, cmd: string, tag: nat, data: string, got: nat, before: seq<Exchange>)
    requires w.stdout != []
    ensures !w.Asked(cmd, tag, data, 2, got, before)
  {}

  lemma AnswerTaken(w: Wire, cmd: string, tag: nat, data: string, got: nat, before: seq<Exchange>, body: string,
      noise: seq<nat>)
    requires got < 2 && w.Answered(cmd, tag, data, got, before, body, noise) && w.stdout != []
    ensures |w.log| == |before| + 1 && w.log[|before|].body == body
    ensures if noise == [] then
        && w.(stdout := w.stdout[1..]).Answered(cmd, tag, data, got + 1, before, body, noise)
        && w.stdout[0] == if got == 0 then ResponseHeader(tag) else Response(body)
      else
        got == 0 && w.stdout[0] == Noise(noise[0]) && noise[0] != tag
  {}

  /** The Python process with its two pipes. The log records every request that a handler has answered. */
  class Server {
    var stdin: seq<Line>
    var stdout: seq<Line>
    var pc: Pc
    ghost var log: seq<Exchange>
    /** Nothing goes wrong: the process lives on, its pipes hold, its answers decode and its modules print nothing. */
    const steady: bool

    constructor (steady: bool)
      ensures Idle() && pc == AwaitHeader && log == [] && this.steady == steady
    {
      stdin, stdout, pc, log := [], [], AwaitHeader, [];
      this.steady := steady;
    }

    /** Alive, and nothing printed by a module in the pipe. */
    predicate Up()
      reads this
    {
      pc != Exited && forall line <- stdout :: !line.Noise?
    }

    /** Some command is under way. */
    ghost predicate Busy()
      reads this
    {
      exists cmd, tag, data, sent, got, before :: cmd in HANDLERS && InFlight(cmd, tag, data, sent, got, before)
    }

    /** Nothing unread and nothing unanswered in either pipe. */
    predicate Idle()
      reads this
    {
      stdin == [] && stdout == [] && (pc == AwaitHeader || pc == Exited)
    }

    ghost function Now(): Wire
      reads this
    {
      Wire(stdin, stdout, pc, log)
    }

    ghost predicate InFlight(cmd: string, tag: nat, data: string, sent: nat, got: nat, before: seq<Exchange>)
      reads this
    {
      Now().InFlight(cmd, tag, data, sent, got, before)
    }

    /** What is left to do before the server blocks on its input. */
    function Effort(): nat
      reads this
    {
      match pc
      case AwaitHeader => 4 * |stdin|
      case AwaitBody(_, _) => 4 * |stdin| + 3
      case Answering(_, _) => 4 * |stdin| + 2
      case PrintedHeader(_) => 4 * |stdin| + 1
      case Exited => 0
    }

    predicate Blocked()
      reads this
    {
      pc == Exited || (stdin == [] && (pc == AwaitHeader || pc.AwaitBody?))
    }

    /** One step of the server's loop; the process may also die instead. */
    method Step()
      modifies this
      ensures old(Blocked()) ==> pc == Exited || unchanged(this)
      ensures !old(Blocked()) ==> Effort() < old(Effort())
      ensures old(pc) == Exited ==> unchanged(this)
      ensures old(Idle()) ==> Idle() && log == old(log)
      ensures forall cmd, tag, data, sent, got, before ::
                cmd in HANDLERS && old(InFlight(cmd, tag, data, sent, got, before))
                ==> InFlight(cmd, tag, data, sent, got, before)
      ensures steady && old(Up()) && old(Idle() || Busy()) ==> Up()
    {
      var dies: bool := *;
      dies := dies && !steady;
      ghost var printed: seq<nat> := [];
      if dies {
        pc := Exited;
      } else {
        match pc {
          case AwaitHeader =>
            if stdin != [] {
              var line := stdin[0];
              stdin := stdin[1..];
              pc := if line.RequestHeader? then AwaitBody(line.cmd, line.tag) else Exited;
            }
          case AwaitBody(cmd, tag) =>
            if stdin != [] {
              var line := stdin[0];
              stdin := stdin[1..];
              if line.Request? && cmd in HANDLERS {
                var body: string, noise: seq<nat> := *, *;
                if steady || tag in noise { noise := []; }
                stdout := stdout + NoiseLines(noise);
                pc := Answering(tag, body);
                printed := noise;
                log := log + [Exchange(cmd, tag, line.data, body)];
              } else {
                pc := Exited;
              }
            }
          case Answering(tag, body) =>
            stdout := stdout + [ResponseHeader(tag)];
            pc := PrintedHeader(body);
          case PrintedHeader(body) =>
            stdout := stdout + [Response(body)];
            pc := AwaitHeader;
          case Exited =>
        }
      }
      assert old(Now()).Moved(Now(), printed);
      forall cmd, tag, data, sent, got, before | cmd in HANDLERS && old(InFlight(cmd, tag, data, sent, got, before))
        ensures InFlight(cmd, tag, data, sent, got, before)
      {
        FlightKept(old(Now()), Now(), cmd, tag, data, sent, got, before, printed);
      }
    }

    /** The client takes a line off the pipe: the next line of the answer, unless it is noise before its header. */
    method TakeLine(ghost cmd: string, ghost tag: nat, ghost data: string, ghost got: nat, ghost before: seq<Exchange>)
      returns (line: Line)
      requires got < 2 && InFlight(cmd, tag, data, 2, got, before) && stdout != []
      modifies this`stdout
      ensures got == 1 || TagOf(line) == tag ==>
        && InFlight(cmd, tag, data, 2, got + 1, before)
        && |log| == |before| + 1
        && line == if got == 0 then ResponseHeader(tag) else Response(log[|before|].body)
      ensures old(Up()) ==> Up() && (got == 0 ==> TagOf(line) == tag)
    {
      hide Wire.InFlight;
      LineTaken(Now(), cmd, tag, data, got, before);
      line := stdout[0];
      stdout := stdout[1..];
    }
  }

  datatype Failure = Unusable | BadRequest | WriteFailed | ReadFailed | TagMismatch

  datatype Result<T> = Ok(value: T) | Err(failure: Failure)

  /** The client side. */
  class Executor {
    const server: Server
    var invalid: bool
    var nextTag: nat

    /** The tags answered so far are consecutive, from 1. */
    ghost predicate TagsInOrder()
      reads this, server
    {
      && nextTag == (|server.log| + 1) % TAGS
      && forall k | 0 <= k < |server.log| :: server.log[k].tag == (k + 1) % TAGS
    }

    /** Between commands, a usable executor has nothing unread or unanswered in either pipe. */
    ghost predicate Valid()
      reads this, server
    {
      nextTag < TAGS && (!invalid ==> server.Idle() && TagsInOrder())
    }

    constructor (server: Server)
      requires server.Idle() && server.log == []
      ensures Valid() && this.server == server && !invalid && nextTag == 1
    {
      this.server := server;
      invalid, nextTag := false, 1;
    }

    method Invalidate()
      modifies this`invalid, server
      ensures invalid && server.log == old(server.log)
    {
      invalid := true;
      server.pc := Exited;
    }

    /** The server runs for a while. */
    method Interleave()
      modifies server
      ensures old(server.Idle()) ==> server.Idle() && server.log == old(server.log)
      ensures forall cmd, tag, data, sent, got, before ::
                cmd in HANDLERS && old(server.InFlight(cmd, tag, data, sent, got, before))
                ==> server.InFlight(cmd, tag, data, sent, got, before)
      ensures server.steady && old(server.Up()) && old(server.Idle() || server.Busy()) ==> server.Up()
    {
      var steps :| 0 <= steps;
      for k := 0 to steps
        invariant old(server.Idle()) ==> server.Idle() && server.log == old(server.log)
        invariant forall cmd, tag, data, sent, got, before ::
                    cmd in HANDLERS && old(server.InFlight(cmd, tag, data, sent, got, before))
                    ==> server.InFlight(cmd, tag, data, sent, got, before)
        invariant server.steady && old(server.Up()) && old(server.Idle() || server.Busy()) ==>
                    server.Up() && (server.Idle() || server.Busy())
      {
        server.Step();
      }
    }

    /** Marshals and writes one line; a line that does not marshal is not written and does not invalidate. */
    method WriteLine(line: Option<Line>) returns (r: Option<Failure>)
      modifies this`invalid, server
      ensures line.None? ==> r == Some(BadRequest) && unchanged(this`invalid) && unchanged(server)
      ensures r.Some? && line.Some? ==> r == Some(WriteFailed) && invalid
      ensures r.None? ==> line.Some? && invalid == old(invalid)
      ensures forall cmd, tag, data | r.None? && line == Some(RequestHeader(cmd, tag)) && old(server.Idle()) &&
          cmd in HANDLERS ::
                server.InFlight(cmd, tag, data, 1, 0, old(server.log))
      ensures forall cmd, tag, data, before | r.None? && line == Some(Request(data)) && cmd in HANDLERS
                && old(server.InFlight(cmd, tag, data, 1, 0, before)) :: server.InFlight(cmd, tag, data, 2, 0, before)
      ensures server.steady && old(server.Up()) && old(server.Idle() || server.Busy()) && line.Some? ==>
                r.None? && server.Up()
    {
      if line.None? { return Some(BadRequest); }
      Interleave();
      var fails: bool := *;
      if fails && !server.steady {
        Invalidate();
        return Some(WriteFailed);
      }
      server.stdin := server.stdin + [line.value];
      return None;
    }

    /** Blocks until there is output or the process is dead: as long as there is neither, the server can make a step. */
    method AwaitOutput(ghost cmd: string, ghost tag: nat, ghost data: string, ghost got: nat,
        ghost before: seq<Exchange>)
      requires cmd in HANDLERS && got < 2 && server.InFlight(cmd, tag, data, 2, got, before)
      modifies server
      ensures server.InFlight(cmd, tag, data, 2, got, before)
      ensures server.stdout != [] || server.pc == Exited
      ensures server.steady && old(server.Up()) ==> server.Up()
    {
      while server.stdout == [] && server.pc != Exited
        invariant server.InFlight(cmd, tag, data, 2, got, before)
        invariant server.steady && old(server.Up()) ==> server.Up()
        decreases server.Effort()
      {
        assert !server.Blocked();
        server.Step();
      }
    }

    /**
     Reads one line of the answer to a command that has been sent in full. The read cannot block forever: as
     long as there is nothing to read, the server has work to do or is dead.
     */
    method ReadLine(ghost cmd: string, ghost tag: nat, ghost data: string, ghost got: nat, ghost before: seq<Exchange>)
      returns (r: Option<Line>)
      requires cmd in HANDLERS && got < 2 && server.InFlight(cmd, tag, data, 2, got, before)
      modifies this`invalid, server
      ensures r.None? ==> invalid
      ensures r.Some? ==>
        && invalid == old(invalid)
        && (got == 1 || TagOf(r.value) == tag ==>
             && server.InFlight(cmd, tag, data, 2, got + 1, before)
             && |server.log| == |before| + 1
             && r.value == if got == 0 then ResponseHeader(tag) else Response(server.log[|before|].body))
      ensures server.steady && old(server.Up()) ==> r.Some? && server.Up() && (got == 0 ==> TagOf(r.value) == tag)
    {
      hide Server.InFlight;
      Interleave();
      AwaitOutput(cmd, tag, data, got, before);
      if server.stdout == [] {
        Invalidate();
        return None;
      }
      var line := server.TakeLine(cmd, tag, data, got, before);
      var malformed: bool := *;
      if malformed && !server.steady {
        Invalidate();
        return None;
      }
      return Some(line);
    }

    /** Writes header and body; whatever fails from here on invalidates. */
    method Send(cmd: string, tag: nat, data: Option<string>) returns (r: Option<Failure>)
      requires server.Idle() && cmd in HANDLERS && !invalid
      modifies this`invalid, server
      ensures r.Some? <==> invalid
      ensures r.None? ==> data.Some? && server.InFlight(cmd, tag, data.value, 2, 0, old(server.log))
      ensures server.steady && old(server.Up()) && data.Some? ==> r.None? && server.Up()
    {
      hide Server.Idle, Server.InFlight, Server.Up, Server.Busy;
      ghost var before := server.log;
      r := WriteLine(Some(RequestHeader(cmd, tag)));
      if r.Some? { return; }
      if data.None? {
        r := WriteLine(None);
        Invalidate();
        return;
      }
      assert server.InFlight(cmd, tag, data.value, 1, 0, before);
      assert server.Busy() by { UnderWay(server, cmd, tag, data.value, 1, 0, before); }
      r := WriteLine(Some(Request(data.value)));
      if r.Some? { Invalidate(); }
    }

    /** Reads the tag and the body of the answer. */
    method Receive(ghost cmd: string, tag: nat, ghost data: string, ghost before: seq<Exchange>)
      returns (r: Result<string>)
      requires cmd in HANDLERS && server.InFlight(cmd, tag, data, 2, 0, before) && !invalid
      modifies this`invalid, server
      ensures r.Ok? <==> !invalid
      ensures r.Ok? ==> server.Idle() && server.log == before + [Exchange(cmd, tag, data, r.value)]
      ensures server.steady && old(server.Up()) ==> r.Ok? && server.Up()
    {
      hide Server.Idle, Server.InFlight, Server.Up, Server.Busy;
      var header := ReadLine(cmd, tag, data, 0, before);
      if header.None? { return Err(ReadFailed); }
      if TagOf(header.value) != tag {
        Invalidate();
        return Err(TagMismatch);
      }
      var answer := ReadLine(cmd, tag, data, 1, before);
      if answer.None? { return Err(ReadFailed); }
      Received(server, cmd, tag, data, before);
      return Ok(answer.value.body);
    }

    /** One command; `data` is `None` when the request does not marshal. */
    method ExecuteCommand(cmd: string, data: Option<string>) returns (r: Result<string>)
      requires Valid() && cmd in HANDLERS
      modifies this, server
      ensures Valid()
      ensures old(invalid) ==> r == Err(Unusable) && unchanged(this) && unchanged(server)
      ensures r.Ok? <==> !invalid
      ensures r.Ok? ==>
        data.Some? && server.log == old(server.log) + [Exchange(cmd, old(nextTag), data.value, r.value)]
      ensures !old(invalid) && server.steady && old(server.Up()) && data.Some? ==> r.Ok? && server.Up()
    {
      hide Server.Idle, Server.InFlight, Server.Up;
      if invalid { return Err(Unusable); }
      ghost var before := server.log;
      var tag := nextTag;
      nextTag := (nextTag + 1) % TAGS;
      var failure := Send(cmd, tag, data);
      if failure.Some? { return Err(failure.value); }
      r := Receive(cmd, tag, data.value, before);
      NextTag(|before|);
    }
  }

  lemma UnderWay(server: Server, cmd: string, tag: nat, data: string, sent: nat, got: nat, before: seq<Exchange>)
    requires cmd in HANDLERS && server.InFlight(cmd, tag, data, sent, got, before)
    ensures server.Busy()
  {}

  /** Both lines of the answer read, the pipes are empty and the answer is the last in the log. */
  lemma Received(server: Server, cmd: string, tag: nat, data: string, before: seq<Exchange>)
    requires server.InFlight(cmd, tag, data, 2, 2, before)
    ensures server.Idle()
    ensures exists body :: server.log == before + [Exchange(cmd, tag, data, body)]
  {}

  lemma NextTag(n: nat)
    ensures ((n + 1) % TAGS + 1) % TAGS == (n + 2) % TAGS
  {}

  /** Hands out the one running executor, or starts another. */
  class Manager {
    var current: Executor?

    constructor ()
      ensures current == null
    {
      current := null;
    }

    ghost predicate Valid()
      reads this, current, if current == null then {} else {current.server}
    {
      current != null ==> current.Valid()
    }

    /** `newExecutor`: a fresh server process, greeted; the file system and the start of the process may fail. */
    method NewExecutor(starts: bool, steady: bool) returns (r: Result<Executor>)
      ensures r.Ok? ==> fresh(r.value) && fresh(r.value.server) && r.value.Valid() && !r.value.invalid
      ensures r.Ok? ==> exists body :: r.value.server.log == [Exchange("hello", 1, "{}", body)]
      ensures r.Ok? ==> r.value.server.steady == steady
      ensures starts && steady ==> r.Ok? && r.value.server.Up()
    {
      if !starts { return Err(Unusable); }
      var server := new Server(steady);
      var executor := new Executor(server);
      var hello := executor.ExecuteCommand("hello", Some("{}"));
      if hello.Err? { return Err(hello.failure); }
      return Ok(executor);
    }

    method GetExecutor(runtimeExists: bool, starts: bool, steady: bool) returns (r: Result<Executor>)
      requires Valid()
      modifies this
      ensures Valid()
      ensures r.Ok? ==> r.value == current && !r.value.invalid && r.value.server.Idle()
      ensures r.Err? ==> current == old(current)
      ensures old(current) != null && !old(current.invalid) ==> r.Ok? && current == old(current)
      ensures r.Ok? && current != old(current) ==> runtimeExists && fresh(current) && fresh(current.server)
      ensures runtimeExists && starts && steady ==> r.Ok?
    {
      if current != null && !current.invalid { return Ok(current); }
      if !runtimeExists { return Err(Unusable); }
      r := NewExecutor(starts, steady);
      if r.Ok? { current := r.value; }
    }
  }
}
