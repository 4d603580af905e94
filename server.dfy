/** The server's shared state and the two loops that work on it: the
    per-connection loop (Program.HandleClient) and the log consumer
    (Program.LoggingThreadRoutine). Threads are not modelled: a session runs to
    the end of its input, and the log consumer sees the other threads' work as
    a schedule of batches that arrive while it sleeps. */
module Server {
  import opened Wrappers
  import opened PathResolver
  import opened Framing
  import opened Strings
  import opened Session
  import opened Registry

  /** The console colours the server uses. */
  datatype Color = White | Green | Red

  /** A log line: a coloured part and a plain suffix (LogEntry). */
  datatype LogEntry = LogEntry(coloredPart: string, color: Color, uncoloredPart: string)

  /** The entry a session logs when it starts. */
  function NewClientEntry(endpoint: string): (e: LogEntry)
    ensures e.color == Green && e.uncoloredPart == []
    ensures EndsWith(e.coloredPart, endpoint) && "New Client: " <= e.coloredPart
  {
    LogEntry("New Client: " + endpoint, Green, "")
  }

  /** The entry a session logs when an exception ends it: the exception's type
      in red, then the remote endpoint. */
  function FaultEntry(f: Fault, endpoint: string): (e: LogEntry)
    ensures e.color == Red && e.uncoloredPart == endpoint
    ensures f.typeName <= e.coloredPart
    ensures EndsWith(e.coloredPart, " occured at client ")
  {
    LogEntry(f.typeName + " occured at client ", Red, endpoint)
  }

  /** What other threads do while the log consumer sleeps: entries they
      enqueue, and whether the stop flag gets raised. */
  datatype Tick = Tick(enqueued: seq<LogEntry>, stop: bool)

  /** All entries enqueued over a schedule, in order. */
  function Enqueued(schedule: seq<Tick>): seq<LogEntry>
  {
    if schedule == [] then []
    else Enqueued(schedule[..|schedule| - 1]) + schedule[|schedule| - 1].enqueued
  }

  /** Some tick of the schedule raises the stop flag. */
  predicate StopRaised(schedule: seq<Tick>)
  {
    schedule != [] && (StopRaised(schedule[..|schedule| - 1]) || schedule[|schedule| - 1].stop)
  }

  /** Running one more tick adds its batch after everything enqueued so far,
      and raises the stop flag if that tick does. */
  lemma ScheduleStep(schedule: seq<Tick>, t: nat)
    requires t < |schedule|
    ensures Enqueued(schedule[..t + 1]) == Enqueued(schedule[..t]) + schedule[t].enqueued
    ensures StopRaised(schedule[..t + 1]) == (StopRaised(schedule[..t]) || schedule[t].stop)
  {
    var done := schedule[..t + 1];
    assert done[..t] == schedule[..t] && done[t] == schedule[t];
  }

  /** Printing the oldest queued entry keeps printed-then-queued the same. */
  lemma MoveHead(printed: seq<LogEntry>, queue: seq<LogEntry>)
    requires queue != []
    ensures (printed + [queue[0]]) + queue[1..] == printed + queue
  {
    assert [queue[0]] + queue[1..] == queue;
  }

  /** Enqueuing a batch extends printed-then-queued by that batch. */
  lemma AppendBoth(printed: seq<LogEntry>, queue: seq<LogEntry>, before: seq<LogEntry>,
                   produced: seq<LogEntry>, batch: seq<LogEntry>)
    requires printed + queue == before + produced
    ensures printed + (queue + batch) == before + (produced + batch)
  {
    assert printed + (queue + batch) == (printed + queue) + batch;
    assert before + (produced + batch) == (before + produced) + batch;
  }

  /** One pass through the try block of HandleClient for one read: the same
      branches as Step, with GetPath run as the marshaling loop. */
  method ServeLine<C>(read: Read, env: Collaborators<C>) returns (outcome: StepOutcome)
    ensures outcome == Step(read, env)
    ensures outcome.Respond? ==> EndsWith(outcome.line, Sentinel)
    ensures read.EndOfStream? ==> outcome == Idle
  {
    match read
    case EndOfStream =>
      return Idle;
    case ReadFault(f) =>
      return Fail(f);
    case Line(text) =>
      var raw := StripSentinel(text);
      if raw == [] {
        return Idle;
      }
      var request := env.decode(raw);
      if request.Failure? {
        return Fail(request.error);
      }
      var req := request.value;
      var path := GetPath(env.engine, req.a, req.b, req.mapId);
      if path.Failure? {
        return Fail(path.error);
      }
      var json := env.encode(path.value);
      if json.Failure? {
        return Fail(json.error);
      }
      FrameRoundTrip(json.value);
      return Respond(Frame(json.value));
  }

  /** The process-wide state the sessions and the log consumer share. */
  class Server {
    var clientCount: int
    var stopServer: bool
    var logQueue: seq<LogEntry>
    /** The entries the log consumer has printed, in print order. */
    var console: seq<LogEntry>
    /** Every counter update so far, one per session start or end. */
    ghost var history: seq<Event>

    /** The counter is the result of its update history, and that history is
        one that sessions can produce. */
    ghost predicate Valid()
      reads this
    {
      WellFormed(history) && clientCount == CountAfter(history)
    }

    /** The state at startup (SetupLogging): no clients, empty queue. */
    constructor ()
      ensures Valid() && history == []
      ensures clientCount == 0 && !stopServer && logQueue == [] && console == []
    {
      clientCount := 0;
      stopServer := false;
      logQueue := [];
      console := [];
      history := [];
    }

    /** LogQueue.Enqueue. */
    method Log(e: LogEntry)
      modifies this`logQueue
      ensures logQueue == old(logQueue) + [e]
    {
      logQueue := logQueue + [e];
    }

    /** Interlocked.Increment(ref clientCount) as a session starts. */
    method Increment(session: nat)
      requires Valid() && session !in Started(history)
      modifies this`clientCount, this`history
      ensures Valid()
      ensures clientCount == old(clientCount) + 1 && history == old(history) + [Opened(session)]
      ensures session in Started(history) && session !in Finished(history)
    {
      CountIsOpenSessions(history);
      CountAfterExtend(history, Opened(session));
      clientCount := clientCount + 1;
      history := history + [Opened(session)];
    }

    /** Interlocked.Decrement(ref clientCount) as a session ends. */
    method Decrement(session: nat)
      requires Valid() && session in Started(history) && session !in Finished(history)
      modifies this`clientCount, this`history
      ensures Valid()
      ensures clientCount == old(clientCount) - 1 && history == old(history) + [Closed(session)]
    {
      CountAfterExtend(history, Closed(session));
      clientCount := clientCount - 1;
      history := history + [Closed(session)];
    }

    /** The while (isClientConnected) loop of HandleClient: serves reads while
        the flag holds; the first exception enqueues exactly one fault entry
        with the endpoint and clears the flag, and no later read is looked
        at. If the reads run out with the flag still set, the session is still
        open. */
    method ServeConnection<C>(endpoint: string, input: seq<Read>, env: Collaborators<C>)
      returns (responses: seq<string>, isClientConnected: bool)
      modifies this`logQueue
      ensures var t := Run(input, env);
        responses == t.responses &&
        isClientConnected == t.fault.None? &&
        logQueue == old(logQueue) + if t.fault.Some? then [FaultEntry(t.fault.value, endpoint)] else []
    {
      isClientConnected := true;
      responses := [];
      var i := 0;
      ghost var t := Trace([], None, 0);
      while isClientConnected && i < |input|
        invariant 0 <= i <= |input|
        invariant t == Run(input[..i], env)
        invariant responses == t.responses && isClientConnected == t.fault.None?
        invariant logQueue == old(logQueue) + if t.fault.Some? then [FaultEntry(t.fault.value, endpoint)] else []
        decreases |input| - i
      {
        RunExtend(input[..i], input[i], env);
        assert input[..i + 1] == input[..i] + [input[i]];
        var outcome := ServeLine(input[i], env);
        t := Advance(t, outcome);
        match outcome {
          case Idle =>
          case Respond(line) =>
            responses := responses + [line];
          case Fail(f) =>
            Log(FaultEntry(f, endpoint));
            isClientConnected := false;
        }
        i := i + 1;
      }
      if isClientConnected {
        assert input[..i] == input;
      } else {
        assert input == input[..i] + input[i..];
        FaultIsFinal(input[..i], input[i..], env);
      }
    }

    /** HandleClient over the reads the connection delivers: logs the new
        client, increments the counter once, runs the session loop and, once
        the loop has ended, decrements the counter once. A session whose reads
        run out with the flag still set is still open, and its increment
        stands. */
    method HandleClient<C>(session: nat, endpoint: string, input: seq<Read>, env: Collaborators<C>)
      returns (responses: seq<string>, isClientConnected: bool)
      requires Valid() && session !in Started(history)
      modifies this`logQueue, this`clientCount, this`history
      ensures Valid()
      ensures history == old(history) + [Opened(session)] + (if isClientConnected then [] else [Closed(session)])
      ensures clientCount == old(clientCount) + (if isClientConnected then 1 else 0)
      ensures var t := Run(input, env);
        responses == t.responses &&
        isClientConnected == t.fault.None? &&
        logQueue == old(logQueue) + [NewClientEntry(endpoint)] +
          (if t.fault.Some? then [FaultEntry(t.fault.value, endpoint)] else [])
    {
      Log(NewClientEntry(endpoint));
      Increment(session);
      responses, isClientConnected := ServeConnection(endpoint, input, env);
      if !isClientConnected {
        Decrement(session);
      }
    }

    /** LoggingThreadRoutine: while the server runs or entries remain, print
        the oldest entry if there is one, then sleep, during which other
        threads run the next tick of the schedule. The model stops either
        where the loop exits (stop flag raised, queue empty: every entry
        enqueued so far printed exactly once, in enqueue order) or where the
        schedule runs out with the flag still down; in both cases nothing is
        printed out of order or lost. Ticks after an exit are not run. */
    method LoggingThreadRoutine(schedule: seq<Tick>) returns (exited: bool, ticksRun: nat)
      modifies this`logQueue, this`stopServer, this`console
      ensures ticksRun <= |schedule|
      ensures console + logQueue == old(console) + old(logQueue) + Enqueued(schedule[..ticksRun])
      ensures stopServer == (old(stopServer) || StopRaised(schedule[..ticksRun]))
      ensures exited <==> stopServer && logQueue == []
      ensures !exited ==> ticksRun == |schedule| && !stopServer
      ensures exited ==> console == old(console) + old(logQueue) + Enqueued(schedule[..ticksRun])
      ensures (old(stopServer) || StopRaised(schedule)) ==> exited
    {
      ticksRun := 0;
      assert schedule[..0] == [];
      // What was queued or printed at entry, and what producers added since.
      ghost var before, produced := console + logQueue, [];
      while (!stopServer || |logQueue| > 0) && (stopServer || ticksRun < |schedule|)
        invariant ticksRun <= |schedule|
        invariant produced == Enqueued(schedule[..ticksRun])
        invariant console + logQueue == before + produced
        invariant stopServer == (old(stopServer) || StopRaised(schedule[..ticksRun]))
        decreases |schedule| - ticksRun, |logQueue|
      {
        if |logQueue| > 0 {
          var entry := logQueue[0];
          MoveHead(console, logQueue);
          logQueue := logQueue[1..];
          console := console + [entry];
        }
        // Thread.Sleep(1): the producers' next batch.
        if ticksRun < |schedule| {
          var tick := schedule[ticksRun];
          ScheduleStep(schedule, ticksRun);
          AppendBoth(console, logQueue, before, produced, tick.enqueued);
          logQueue := logQueue + tick.enqueued;
          stopServer := stopServer || tick.stop;
          produced := produced + tick.enqueued;
          ticksRun := ticksRun + 1;
        }
      }
      exited := stopServer && logQueue == [];
      assert schedule[..|schedule|] == schedule;
    }
  }
}
