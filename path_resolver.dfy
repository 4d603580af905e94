/** The path resolver: the navigation engine hands back a flat buffer
    [x1, y1, z1, x2, y2, z2, ...] and a point count, and the server groups the
    buffer into an ordered list of points (Program.GetPath). Coordinates are an
    opaque type C: nothing here does arithmetic on them. */
module PathResolver {
  import opened Wrappers

  /** A point in space (Vector3 in the source). */
  datatype Vec3<C> = Vec3(x: C, y: C, z: C)

  /** What the engine's path query returns: a raw buffer and a point count. */
  datatype RawReply<C> = RawReply(buffer: seq<C>, count: int)

  /** The engine's contract: the buffer holds at least `count` triples. */
  type EngineReply<C> = r: RawReply<C> | 3 * r.count <= |r.buffer| witness RawReply([], 0)

  /** The name of the exception type a failing step throws. */
  datatype Fault = Fault(typeName: string)

  /** The engine's path query, as seen from the server: it may throw. */
  type Engine<!C> = (int, Vec3<C>, Vec3<C>) -> Result<EngineReply<C>, Fault>

  /** The point at index i of a flat buffer. */
  function PointAt<C>(buf: seq<C>, i: nat): Vec3<C>
    requires 3 * i + 2 < |buf|
  {
    Vec3(buf[3 * i], buf[3 * i + 1], buf[3 * i + 2])
  }

  /** The first n points of a flat buffer, built the way the loop builds them:
      one point appended per stride of three. A count of zero or less gives no
      points. */
  function Points<C>(buf: seq<C>, n: int): seq<Vec3<C>>
    requires 3 * n <= |buf|
  {
    if n <= 0 then [] else Points(buf, n - 1) + [PointAt(buf, n - 1)]
  }

  /** Points has exactly max(n, 0) elements and its i-th element is the i-th
      triple of the buffer. */
  lemma {:induction false} PointsShape<C>(buf: seq<C>, n: int)
    requires 3 * n <= |buf|
    ensures n <= 0 ==> Points(buf, n) == []
    ensures n >= 0 ==> |Points(buf, n)| == n
    ensures forall i :: 0 <= i < n ==> Points(buf, n)[i] == PointAt(buf, i)
  {
    if n > 0 {
      PointsShape(buf, n - 1);
      var prev := Points(buf, n - 1);
      assert Points(buf, n) == prev + [PointAt(buf, n - 1)];
      forall i | 0 <= i < n ensures Points(buf, n)[i] == PointAt(buf, i) {
        if i < n - 1 {
          assert Points(buf, n)[i] == prev[i];
        }
      }
    }
  }

  /** Grouping reads only the first 3n buffer cells: whatever follows them does
      not change the path. */
  lemma PointsReadsOnlyPrefix<C>(buf: seq<C>, extra: seq<C>, n: int)
    requires 3 * n <= |buf|
    ensures Points(buf + extra, n) == Points(buf, n)
  {
    var a, b := Points(buf + extra, n), Points(buf, n);
    PointsShape(buf + extra, n);
    PointsShape(buf, n);
    if n > 0 {
      forall i | 0 <= i < n ensures a[i] == b[i] {
        assert PointAt(buf + extra, i) == PointAt(buf, i);
      }
    }
  }

  /** The marshaling loop of GetPath: walks the buffer with a stride-3 index up
      to 3 * pathSize and appends one point per step. */
  method MarshalPath<C>(raw: seq<C>, pathSize: int) returns (path: seq<Vec3<C>>)
    requires 3 * pathSize <= |raw|
    ensures pathSize <= 0 ==> path == []
    ensures pathSize >= 0 ==> |path| == pathSize
    ensures forall i :: 0 <= i < |path| ==> path[i] == Vec3(raw[3 * i], raw[3 * i + 1], raw[3 * i + 2])
    ensures path == Points(raw, pathSize)
  {
    path := [];
    var i := 0;
    while i < pathSize * 3
      invariant 0 <= i && i % 3 == 0
      invariant pathSize <= 0 ==> i == 0
      invariant pathSize > 0 ==> i <= pathSize * 3
      invariant path == Points(raw, i / 3)
      decreases pathSize * 3 - i
    {
      path := path + [Vec3(raw[i], raw[i + 1], raw[i + 2])];
      i := i + 3;
    }
    PointsShape(raw, pathSize);
  }

  /** What GetPath computes: the engine's answer for (mapId, start, end),
      grouped into points, or the fault the engine threw. */
  function Resolve<C>(engine: Engine<C>, start: Vec3<C>, end: Vec3<C>, mapId: int): (r: Result<seq<Vec3<C>>, Fault>)
    ensures engine(mapId, start, end).Failure? ==> r == Failure(engine(mapId, start, end).error)
    ensures engine(mapId, start, end).Success? ==>
      var reply := engine(mapId, start, end).value;
      r.Success? && |r.value| == (if reply.count < 0 then 0 else reply.count) &&
      forall i :: 0 <= i < |r.value| ==> r.value[i] == PointAt(reply.buffer, i)
  {
    match engine(mapId, start, end)
    case Failure(f) => Failure(f)
    case Success(reply) =>
      PointsShape(reply.buffer, reply.count);
      Success(Points(reply.buffer, reply.count))
  }

  /** GetPath: one engine query, then the marshaling loop. */
  method GetPath<C>(engine: Engine<C>, start: Vec3<C>, end: Vec3<C>, mapId: int)
    returns (r: Result<seq<Vec3<C>>, Fault>)
    ensures engine(mapId, start, end).Failure? ==> r == Failure(engine(mapId, start, end).error)
    ensures engine(mapId, start, end).Success? ==>
      var reply := engine(mapId, start, end).value;
      r.Success? && |r.value| == (if reply.count < 0 then 0 else reply.count) &&
      forall i :: 0 <= i < |r.value| ==> r.value[i] == PointAt(reply.buffer, i)
    ensures r == Resolve(engine, start, end, mapId)
  {
    var reply := engine(mapId, start, end);
    if reply.Failure? {
      return Failure(reply.error);
    }
    var path := MarshalPath(reply.value.buffer, reply.value.count);
    r := Success(path);
  }
}
