/** One client session of the server (Program.HandleClient), as a pure
    specification: the lines the reader returns go in, the response lines and
    the fault that ended the session come out. JSON decoding, the engine and
    JSON encoding are collaborators that may throw. */
module Session {
  import opened Wrappers
  import opened PathResolver
  import opened Framing
  import opened Strings

  /** A decoded request (PathRequest): start point, end point and map. */
  datatype PathRequest<C> = PathRequest(a: Vec3<C>, b: Vec3<C>, mapId: int)

  /** One call of reader.ReadLine(): a line, null at the end of the stream, or
      an exception from the connection. */
  datatype Read = Line(text: string) | EndOfStream | ReadFault(fault: Fault)

  /** The code outside the model that a session calls. */
  datatype Collaborators<!C> = Collaborators(
    decode: string -> Result<PathRequest<C>, Fault>,
    engine: Engine<C>,
    encode: seq<Vec3<C>> -> Result<string, Fault>)

  /** What one pass through the try block does: nothing, one response line, or
      a thrown exception. */
  datatype StepOutcome = Idle | Respond(line: string) | Fail(fault: Fault)

  /** One pass through the loop body: strip the sentinel, skip a null or empty
      line, otherwise decode, resolve, encode and frame. */
  function Step<C>(read: Read, env: Collaborators<C>): (o: StepOutcome)
    ensures read.EndOfStream? ==> o == Idle
    ensures read.ReadFault? ==> o == Fail(read.fault)
    ensures read.Line? && read.text == [] ==> o == Idle
    ensures o.Respond? ==> read.Line? && StripSentinel(read.text) != []
    ensures o.Fail? && !read.ReadFault? ==> read.Line? && StripSentinel(read.text) != []
  {
    match read
    case EndOfStream => Idle
    case ReadFault(f) => Fail(f)
    case Line(text) =>
      var raw := StripSentinel(text);
      if raw == [] then Idle
      else match env.decode(raw)
        case Failure(f) => Fail(f)
        case Success(req) =>
          match Resolve(env.engine, req.a, req.b, req.mapId)
          case Failure(f) => Fail(f)
          case Success(path) =>
            match env.encode(path)
            case Failure(f) => Fail(f)
            case Success(json) => Respond(Frame(json))
  }

  /** What a session has done after some reads: the lines written, the fault
      that cleared isClientConnected (None while it is still set) and how many
      reads the loop consumed. */
  datatype Trace = Trace(responses: seq<string>, fault: Option<Fault>, consumed: nat)

  /** The while (isClientConnected) loop over a finite run of reads. */
  function Run<C>(input: seq<Read>, env: Collaborators<C>): (t: Trace)
    ensures t.consumed <= |input|
    ensures t.fault.None? ==> t.consumed == |input|
    ensures t.fault.Some? ==> t.consumed >= 1
  {
    if input == [] then Trace([], None, 0)
    else match Step(input[0], env)
      case Fail(f) => Trace([], Some(f), 1)
      case Idle =>
        var t := Run(input[1..], env);
        Trace(t.responses, t.fault, t.consumed + 1)
      case Respond(line) =>
        var t := Run(input[1..], env);
        Trace([line] + t.responses, t.fault, t.consumed + 1)
  }

  /** Reference definition of the output: the response line of every read
      that produced one, in read order. */
  function Replies<C>(input: seq<Read>, env: Collaborators<C>): seq<string>
  {
    if input == [] then []
    else
      var rest := Replies(input[1..], env);
      match Step(input[0], env)
      case Respond(line) => [line] + rest
      case _ => rest
  }

  /** A null line is skipped, and a line is skipped exactly when nothing is
      left of it once its sentinels are deleted (so a bare "&gt;" is skipped
      too); skipped lines never end the session. */
  lemma SkippedLines<C>(text: string, env: Collaborators<C>)
    ensures Step(EndOfStream, env) == Idle
    ensures Step(Line(text), env) == Idle <==> StripSentinel(text) == []
    ensures Step(Line(Sentinel), env) == Idle
  {
    assert Sentinel[4..] == [];
  }

  /** A session only ends on a thrown exception: the fault is reported exactly
      when some read fails, and then it is the first failing read's fault and
      it is the last read consumed. */
  lemma {:induction false} RunEndsAtFirstFault<C>(input: seq<Read>, env: Collaborators<C>)
    ensures Run(input, env).fault.None? <==> forall j :: 0 <= j < |input| ==> !Step(input[j], env).Fail?
    ensures var t := Run(input, env);
      t.fault.Some? ==>
        Step(input[t.consumed - 1], env) == Fail(t.fault.value) &&
        forall j :: 0 <= j < t.consumed - 1 ==> !Step(input[j], env).Fail?
  {
    if input != [] {
      RunEndsAtFirstFault(input[1..], env);
      assert forall j :: 1 <= j < |input| ==> input[j] == input[1..][j - 1];
    }
  }

  /** The lines written are exactly the responses of the consumed input, one
      per served request, in input order. */
  lemma {:induction false} RunRespondsInOrder<C>(input: seq<Read>, env: Collaborators<C>)
    ensures Run(input, env).responses == Replies(input[..Run(input, env).consumed], env)
  {
    if input != [] {
      var t := Run(input, env);
      RunRespondsInOrder(input[1..], env);
      if Step(input[0], env).Fail? {
        assert input[..1][1..] == [];
      } else {
        var t' := Run(input[1..], env);
        assert input[..t.consumed][1..] == input[1..][..t'.consumed];
      }
    }
  }

  /** Every line written is a framed JSON text: it ends with the sentinel and
      a peer's Unframe recovers the text that was serialized. */
  lemma {:induction false} ResponsesAreFramed<C>(input: seq<Read>, env: Collaborators<C>)
    ensures forall line :: line in Run(input, env).responses ==>
      EndsWith(line, Sentinel) && Unframe(line).Some? && Frame(Unframe(line).value) == line
  {
    if input != [] {
      ResponsesAreFramed(input[1..], env);
      match Step(input[0], env)
      case Respond(line) =>
        var json :| line == Frame(json);
        FrameRoundTrip(json);
      case _ =>
    }
  }

  /** Reads that are all skipped change nothing but the read count. */
  lemma {:induction false} SkippedPrefix<C>(skipped: seq<Read>, rest: seq<Read>, env: Collaborators<C>)
    requires forall j :: 0 <= j < |skipped| ==> Step(skipped[j], env) == Idle
    ensures var t, u := Run(skipped + rest, env), Run(rest, env);
      t.responses == u.responses && t.fault == u.fault && t.consumed == |skipped| + u.consumed
  {
    if skipped != [] {
      assert (skipped + rest)[0] == skipped[0];
      assert (skipped + rest)[1..] == skipped[1..] + rest;
      SkippedPrefix(skipped[1..], rest, env);
    } else {
      assert skipped + rest == rest;
    }
  }

  /** Once a read has failed no later read is looked at: appending input to a
      failed session changes nothing. */
  lemma {:induction false} FaultIsFinal<C>(input: seq<Read>, more: seq<Read>, env: Collaborators<C>)
    requires Run(input, env).fault.Some?
    ensures Run(input + more, env) == Run(input, env)
  {
    assert (input + more)[0] == input[0];
    if !Step(input[0], env).Fail? {
      assert (input + more)[1..] == input[1..] + more;
      FaultIsFinal(input[1..], more, env);
    }
  }

  /** What one more loop pass does to a live session's trace. */
  function Advance(t: Trace, outcome: StepOutcome): Trace
  {
    match outcome
    case Idle => Trace(t.responses, t.fault, t.consumed + 1)
    case Respond(line) => Trace(t.responses + [line], t.fault, t.consumed + 1)
    case Fail(f) => Trace(t.responses, Some(f), t.consumed + 1)
  }

  /** One more read on a live session: the next loop pass adds nothing, one
      response at the end, or the fault that ends the session. */
  lemma {:induction false} RunExtend<C>(input: seq<Read>, next: Read, env: Collaborators<C>)
    requires Run(input, env).fault.None?
    ensures Run(input + [next], env) == Advance(Run(input, env), Step(next, env))
  {
    if input == [] {
      assert [next][1..] == [];
    } else {
      assert (input + [next])[0] == input[0];
      assert (input + [next])[1..] == input[1..] + [next];
      var first, outcome := Step(input[0], env), Step(next, env);
      var tail, longer := Run(input[1..], env), Run(input[1..] + [next], env);
      assert !first.Fail?;
      RunExtend(input[1..], next, env);
      assert longer == Advance(tail, outcome);
      if first.Respond? {
        match outcome {
          case Respond(line) =>
            assert [first.line] + (tail.responses + [line]) == ([first.line] + tail.responses) + [line];
          case Idle =>
          case Fail(_) =>
        }
      }
    }
  }
}
