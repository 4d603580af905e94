# AmeisenNavigation server — a Dafny model of its protocol core

AmeisenNavigation.Server is a TCP server that answers line-delimited JSON path
requests with paths computed by a native navigation engine. This project
models the sequential, data-shaped part of `Program.cs`:

- **Path resolver** (`PathResolver`): `GetPath` asks the engine for a path
  and walks the flat buffer `[x1, y1, z1, x2, y2, z2, …]` with a stride-3
  index, turning it into an ordered list of points. Coordinates are an opaque
  type, since nothing computes on them. The engine's contract (a buffer of at
  least `3 * count` cells) is the subset type `EngineReply`.
- **Line framing** (`Framing`): incoming lines lose every `&gt;` (.NET
  `string.Replace`, one left-to-right pass over non-overlapping matches).
  Outgoing lines are the JSON text followed by ` &gt;`.
- **Session** (`Session`, `Server.Server.HandleClient`): the
  `while (isClientConnected)` loop of one connection. Its input is the run
  of `ReadLine` results: a line, null, or an exception. JSON decoding, the
  engine and JSON encoding are collaborators that may throw (`Result`). The
  pure specification `Session.Run` is what the imperative `HandleClient` is
  proved against.
- **Client counter** (`Registry`, `Server.Server.clientCount`): each
  session increments the counter once before its loop and decrements it once
  after. The server keeps the history of these updates as a ghost field, and
  its invariant `Valid()` ties the counter to that history.
- **Log consumer** (`Server.Server.LoggingThreadRoutine`): the single thread
  that drains the shared log queue in FIFO order until the stop flag is
  raised and the queue is empty.
- **Configuration** (`Config`): `MmapsFolder` gets a trailing `/` unless it
  already ends with `/` or `\`.

Two behaviours of the code are worth stating plainly:

- `Replace` deletes every `&gt;` anywhere in the line, in one left-to-right
  pass, so `&g&gt;t;` becomes `&gt;` (`Framing.StripIsSinglePass`,
  `Framing.StripSplit`).
- A null `ReadLine()` is skipped like an empty line, and the loop keeps
  reading. Only an exception clears `isClientConnected`
  (`Session.SkippedLines`, `Session.RunEndsAtFirstFault`). A session whose
  modelled input runs out without a fault is therefore still open, and its
  increment of the counter stands.

## Model

| member | source | states |
|---|---|---|
| `PathResolver.PointsShape` | AmeisenNavigation.Server/Program.cs:93-96 | the grouped path has exactly `pathSize` points (none when `pathSize <= 0`), and point `i` is `(raw[3i], raw[3i+1], raw[3i+2])` |
| `PathResolver.PointsReadsOnlyPrefix` | AmeisenNavigation.Server/Program.cs:93-95 | only the first `3 * pathSize` buffer cells are read: extending the buffer leaves the path unchanged |
| `PathResolver.MarshalPath` | AmeisenNavigation.Server/Program.cs:93-96 | the stride-3 loop returns `pathSize` points (empty for `pathSize <= 0`), each the matching triple in buffer order, equal to the specification `Points` |
| `PathResolver.Resolve` | AmeisenNavigation.Server/Program.cs:78-101 | an engine fault is passed on; otherwise the path has `max(pathSize, 0)` points, each the matching triple of the engine's buffer |
| `PathResolver.GetPath` | AmeisenNavigation.Server/Program.cs:78-101 | an engine fault is passed on; otherwise the result has as many points as the engine reported, each the matching triple of its buffer |
| `Framing.RemoveAll` | AmeisenNavigation.Server/Program.cs:128 | the single-pass deletion never makes a line longer |
| `Framing.RemoveAllNoMatch` | AmeisenNavigation.Server/Program.cs:128 | a text with no match passes through `Replace` unchanged |
| `Framing.RemoveAllShrinks` | AmeisenNavigation.Server/Program.cs:128 | a text with a match loses at least one character |
| `Framing.StripSentinel` | AmeisenNavigation.Server/Program.cs:128 | the strip never makes a line longer, and leaves it unchanged if and only if it holds no `&gt;` |
| `Framing.StripSplit` | AmeisenNavigation.Server/Program.cs:128 | a `&gt;` anywhere in a line is deleted: a prefix with no `&gt;` is kept, the `&gt;` after it is dropped, and the strip goes on with the rest |
| `Framing.StripAppendedSentinel` | AmeisenNavigation.Server/Program.cs:128 | stripping `s + "&gt;"` gives back `s` whenever `s` holds no `&gt;` |
| `Framing.StripIsSinglePass` | AmeisenNavigation.Server/Program.cs:128 | the strip is one pass: `&g&gt;t;` becomes `&gt;`, which a second strip would delete |
| `Framing.Frame` | AmeisenNavigation.Server/Program.cs:135 | a response line is the JSON text unchanged, followed by the five characters ` &gt;`, so it ends with the sentinel |
| `Framing.FrameRoundTrip` | AmeisenNavigation.Server/Program.cs:135 | a framed response ends with the sentinel, and the peer's `Unframe` recovers the JSON text exactly |
| `Framing.UnframeInverse` | AmeisenNavigation.Server/Program.cs:135 | `Unframe` accepts only framed lines: what it returns frames back to the same line |
| `Framing.StripResponse` | AmeisenNavigation.Server/Program.cs:128-135 | the server's own strip applied to a response gives the JSON text plus the separating space |
| `Session.Step` | AmeisenNavigation.Server/Program.cs:126-154 | one loop pass: null and the empty line give nothing, a read exception is the fault as thrown, and a response or a decode/engine/encode fault only ever comes from a line that is non-empty after the strip |
| `Session.Run` | AmeisenNavigation.Server/Program.cs:124-155 | the loop never consumes more reads than it is given, consumes all of them unless a fault stops it, and a fault is reported only after at least one read |
| `Session.SkippedLines` | AmeisenNavigation.Server/Program.cs:128-129 | a null read is skipped, and a line is skipped if and only if nothing is left of it after the strip (a bare `&gt;` included) |
| `Session.RunEndsAtFirstFault` | AmeisenNavigation.Server/Program.cs:124-155 | the session ends if and only if some read throws; the fault reported is the first one, and no earlier read failed |
| `Session.RunRespondsInOrder` | AmeisenNavigation.Server/Program.cs:124-137 | the lines written are exactly the responses of the consumed reads, one per served request, in input order |
| `Session.ResponsesAreFramed` | AmeisenNavigation.Server/Program.cs:135 | every line written ends with the sentinel and is the framing of a JSON text |
| `Session.SkippedPrefix` | AmeisenNavigation.Server/Program.cs:128-129 | skipped reads produce nothing and do not end the session |
| `Session.FaultIsFinal` | AmeisenNavigation.Server/Program.cs:139-155 | after the first fault no further read is processed: more input changes nothing |
| `Session.RunExtend` | AmeisenNavigation.Server/Program.cs:124-155 | one more loop pass on a live session adds nothing, one response at the end, or the fault that ends it (`Advance`) |
| `Server.ServeLine` | AmeisenNavigation.Server/Program.cs:126-138 | the try block for one read computes the specification step; a response always ends with the sentinel, and null gives nothing |
| `Server.NewClientEntry` | AmeisenNavigation.Server/Program.cs:115 | the new-client entry is green, starts with `New Client: ` and ends with the remote endpoint |
| `Server.FaultEntry` | AmeisenNavigation.Server/Program.cs:141-142 | the fault entry is red, starts with the exception's type name and ends with ` occured at client `, with the endpoint as its plain part |
| `Server.Server.constructor` | AmeisenNavigation.Server/Program.cs:18-20 | startup state: no clients, stop flag clear, empty queue and console |
| `Server.Server.Log` | AmeisenNavigation.Server/Program.cs:142 | an enqueue appends one entry at the back of the log queue |
| `Server.Server.Increment` | AmeisenNavigation.Server/Program.cs:121 | the counter goes up by one, a new session opens in the update history, and the counter still equals the number of open sessions |
| `Server.Server.Decrement` | AmeisenNavigation.Server/Program.cs:157 | the counter goes down by one, an open session closes in the update history, and the counter still equals the number of open sessions |
| `Server.Server.ServeConnection` | AmeisenNavigation.Server/Program.cs:120-155 | the loop writes exactly the responses of `Session.Run`; a fault enqueues exactly one fault entry with the endpoint, clears the flag and ends the loop |
| `Server.Server.HandleClient` | AmeisenNavigation.Server/Program.cs:113-160 | logs the new client, increments the counter once before the loop, decrements it once after the loop ends, and in between runs the session loop |
| `Server.Server.LoggingThreadRoutine` | AmeisenNavigation.Server/Program.cs:173-185 | printed-then-queued is always what was there at entry plus everything enqueued since, in FIFO order; the loop exits exactly when the stop flag is raised and the queue is empty, and it does exit whenever the flag was raised before or during the schedule; otherwise the schedule has run out with the flag down |
| `Registry.CountIsOpenSessions` | AmeisenNavigation.Server/Program.cs:121-157 | over any interleaving of session starts and ends, the counter equals the number of sessions still open |
| `Registry.CountIsStartedMinusFinished` | AmeisenNavigation.Server/Program.cs:121-157 | after M sessions started and N of them finished, the counter reads M − N, which is never negative |
| `Config.NormalizedFolder` | AmeisenNavigation.Server/Program.cs:224-227 | the normalised folder ends with `/` or `\`; a folder that already does is unchanged; otherwise exactly `/` is appended |
| `Config.NormalizedFolderIdempotent` | AmeisenNavigation.Server/Program.cs:224-227 | normalising twice is normalising once |
| `Config.Settings.NormalizeMmapsFolder` | AmeisenNavigation.Server/Program.cs:224-227 | the in-place update leaves `MmapsFolder` normalised and touches no other setting |

## Left out

- The accept loop and one thread per connection (`EnterServerLoop`) are not modelled, because they are sockets and concurrency. Sessions are modelled one at a time. The counter's behaviour under interleaved sessions is stated over any history of atomic updates (`Registry`). `HandleClient` extends that history, but it runs a session's start and end back to back.
- Thread safety of the shared `Queue<LogEntry>` and of `Interlocked` is not modelled. Queue and counter updates are atomic steps. The log consumer sees other threads' work only at its `Thread.Sleep(1)`, as a schedule of batches.
- Server.Server.LoggingThreadRoutine: no code in `Program.cs` ever sets `stopServer` (declared at line 20, only read at lines 105 and 175), so as written the consumer never exits. The model therefore takes the stop flag from the schedule and also stops when the schedule runs out. Entries enqueued after an exit would never be printed; the model runs no ticks after the exit.
- JSON decoding and encoding (Newtonsoft) are abstract collaborators that may throw. No JSON round trip is stated.
- The native engine calls (`GetPath`, `LoadMap`, `Dispose`) and the unsafe pointer pinning are foreign code. The engine is an abstract function that returns a buffer and a count, or throws. An engine that breaks its buffer contract would make the C# read out of bounds; the model excludes this by type.
- PathResolver.MarshalPath: the 32-bit overflow of `pathSize * 3` and of `i += 3` is not modelled, because it needs a buffer of more than 2^31 floats.
- Exceptions from `writer.WriteLine` and `Flush` are not modelled. They would end the session like any other fault. Faults modelled: the read, decoding, the engine and encoding.
- Appending to `errors.txt` is not modelled, because it is file I/O. Its failure is swallowed, so it has no effect on the session.
- `BuildLog`'s `[time] >> ` prefix is not modelled, because it reads the clock. Log entries carry only the message text.
- Console output is not modelled: colours, `Console.Title` (`UpdateConnectedClientCount`), `PrintHeader` and `Console.ReadKey`. Printing is modelled as appending the entry to a `console` sequence.
- The rest of `LoadConfigFile` is not modelled: reading and parsing `config.json`, writing a default file, and the failure path. `Directory.Exists`, `PreloadMaps` and `Main` are also left out. All of this is file I/O and startup plumbing.
- Config.NormalizedFolder: `EndsWith` is modelled as an ordinal comparison. .NET's culture-sensitive `EndsWith(string)` also ignores zero-weight trailing characters, and that is not modelled.
- `AmeisenNavigation/ameisennavigation.h` holds only declarations, so it has no behaviour to model.
