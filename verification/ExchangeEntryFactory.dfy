/**
  The factory that hands out exchange entries: fifteen object pools, one
  per kind of entry, all registering their entries in one shared
  completion registry. Each `forX` takes an entry from its own pool and
  calls that entry's `prepare` with the caller's arguments. Operations that
  may be guarded by a timeout also receive submission flags. When a timeout
  is present, the flags carry IOSQE_IO_LINK (bit 2 of the io_uring
  submission flags, value 4), which links the entry to the timeout entry
  submitted after it.

  Arguments the factory only passes on (buffers, paths, socket addresses,
  I/O vectors, option sets) are represented by opaque references. A set
  of flags that the factory folds with `Bitmask.combine` is represented by
  the symbolic term `Combined(set)`, because that fold is not part of this
  model. A pool is represented by its registry and by how many times it has
  been allocated from and cleared.
 */
module ExchangeEntryFactory {
  import opened JavaArith
  import opened Results
  import opened Timeouts

  type Handler = nat
  /** An argument the factory forwards without looking at it. */
  type Ref = nat

  /** `SQEntryFlags.IO_LINK.mask()`: IOSQE_IO_LINK of the io_uring
      interface. */
  const IoLinkMask: Int32 := 4

  datatype FileDescriptor = FileDescriptor(descriptor: Int32)
  datatype Offset = Offset(value: Int64)

  /** `Bitmask.combine(flags)`, left symbolic. */
  datatype Combined = Combined(flags: Ref)

  /** The fifteen kinds of entry, in the order the pools are declared. */
  datatype Kind =
    | NopKind | DelayKind | CloseKind | TimeoutKind | ReadKind | WriteKind
    | SpliceKind | OpenKind | SocketKind | StatKind | ReadVectorKind
    | WriteVectorKind | ConnectKind | ListenKind | AcceptKind

  /** A call of one of the factory's `forX` methods, with its arguments. */
  datatype Request =
    | ForNop(completion: Handler)
    | ForTimeout(timeout: Timeout)
    | ForDelay(completion: Handler, timeout: Timeout)
    | ForClose(completion: Handler, fd: FileDescriptor, linkTimeout: Option<Timeout>)
    | ForRead(completion: Handler, fd: FileDescriptor, buffer: Ref, offset: Offset, linkTimeout: Option<Timeout>)
    | ForWrite(completion: Handler, fd: FileDescriptor, buffer: Ref, offset: Offset, linkTimeout: Option<Timeout>)
    | ForSplice(completion: Handler, splice: Ref, linkTimeout: Option<Timeout>)
    | ForOpen(completion: Handler, path: Ref, openFlags: Ref, mode: Ref, linkTimeout: Option<Timeout>)
    | ForSocket(completion: Handler, family: Ref, socketType: Ref, socketFlags: Ref, options: Ref)
    | ForListen(completion: Handler, address: Ref, socketType: Ref, socketFlags: Ref, queueDepth: Ref, options: Ref)
    | ForAccept(completion: Handler, socket: FileDescriptor, socketFlags: Ref, v6: bool)
    | ForConnect(completion: Handler, socket: FileDescriptor, clientAddress: Ref, linkTimeout: Option<Timeout>)
    | ForStat(completion: Handler, statDescriptor: Int32, statFlags: Int32, statMask: Int32, rawPath: Ref)
    | ForReadVector(completion: Handler, fd: FileDescriptor, offset: Offset, linkTimeout: Option<Timeout>, ioVector: Ref)
    | ForWriteVector(completion: Handler, fd: FileDescriptor, offset: Offset, linkTimeout: Option<Timeout>, ioVector: Ref)

  /** The `prepare` call the factory makes on the allocated entry, with the
      arguments it passes, in the order it passes them. */
  datatype Prepared =
    | PrepareNop(completion: Handler)
    | PrepareTimeout(timeout: Timeout)
    | PrepareDelay(completion: Handler, timeout: Timeout)
    | PrepareClose(completion: Handler, descriptor: Int32, flags: JavaByte)
    | PrepareRead(completion: Handler, descriptor: Int32, buffer: Ref, offset: Int64, flags: JavaByte)
    | PrepareWrite(completion: Handler, descriptor: Int32, buffer: Ref, offset: Int64, flags: JavaByte)
    | PrepareSplice(completion: Handler, splice: Ref, flags: JavaByte)
    | PrepareOpen(completion: Handler, path: Ref, openFlags: Combined, mode: Combined, flags: JavaByte)
    | PrepareSocket(completion: Handler, family: Ref, socketType: Ref, socketFlags: Ref, options: Ref)
    | PrepareListen(completion: Handler, address: Ref, socketType: Ref, socketFlags: Ref, queueDepth: Ref, options: Ref)
    | PrepareAccept(completion: Handler, descriptor: Int32, acceptFlags: Combined, v6: bool)
    | PrepareConnect(completion: Handler, socket: FileDescriptor, clientAddress: Ref, flags: JavaByte)
    | PrepareStat(completion: Handler, descriptor: Int32, statFlags: Int32, statMask: Int32, rawPath: Ref)
    | PrepareReadVector(completion: Handler, descriptor: Int32, offset: Int64, flags: JavaByte, ioVector: Ref)
    | PrepareWriteVector(completion: Handler, descriptor: Int32, offset: Int64, flags: JavaByte, ioVector: Ref)

  /** `calculateFlags(timeout)`: nothing without a timeout, the link bit
      (cast to `byte`) with one. */
  function CalculateFlags(timeout: Option<Timeout>): (flags: JavaByte)
    ensures timeout.None? <==> flags == 0
    ensures timeout.Some? ==> flags == IoLinkMask
  {
    if timeout == None then 0 else NarrowToByte(IoLinkMask)
  }

  /** The kind of entry, and so the pool, that serves a request. */
  function RequestKind(req: Request): Kind {
    match req
    case ForNop(_) => NopKind
    case ForTimeout(_) => TimeoutKind
    case ForDelay(_, _) => DelayKind
    case ForClose(_, _, _) => CloseKind
    case ForRead(_, _, _, _, _) => ReadKind
    case ForWrite(_, _, _, _, _) => WriteKind
    case ForSplice(_, _, _) => SpliceKind
    case ForOpen(_, _, _, _, _) => OpenKind
    case ForSocket(_, _, _, _, _) => SocketKind
    case ForListen(_, _, _, _, _, _) => ListenKind
    case ForAccept(_, _, _, _) => AcceptKind
    case ForConnect(_, _, _, _) => ConnectKind
    case ForStat(_, _, _, _, _) => StatKind
    case ForReadVector(_, _, _, _, _) => ReadVectorKind
    case ForWriteVector(_, _, _, _, _) => WriteVectorKind
  }

  /** The kind of entry whose `prepare` is called. */
  function PreparedKind(p: Prepared): Kind {
    match p
    case PrepareNop(_) => NopKind
    case PrepareTimeout(_) => TimeoutKind
    case PrepareDelay(_, _) => DelayKind
    case PrepareClose(_, _, _) => CloseKind
    case PrepareRead(_, _, _, _, _) => ReadKind
    case PrepareWrite(_, _, _, _, _) => WriteKind
    case PrepareSplice(_, _, _) => SpliceKind
    case PrepareOpen(_, _, _, _, _) => OpenKind
    case PrepareSocket(_, _, _, _, _) => SocketKind
    case PrepareListen(_, _, _, _, _, _) => ListenKind
    case PrepareAccept(_, _, _, _) => AcceptKind
    case PrepareConnect(_, _, _, _) => ConnectKind
    case PrepareStat(_, _, _, _, _) => StatKind
    case PrepareReadVector(_, _, _, _, _) => ReadVectorKind
    case PrepareWriteVector(_, _, _, _, _) => WriteVectorKind
  }

  /** The argument list of each `forX` turned into the arguments of the
      entry's `prepare`. */
  function Route(req: Request): (p: Prepared)
    ensures PreparedKind(p) == RequestKind(req)
  {
    match req
    case ForNop(c) => PrepareNop(c)
    case ForTimeout(t) => PrepareTimeout(t)
    case ForDelay(c, t) => PrepareDelay(c, t)
    case ForClose(c, fd, t) => PrepareClose(c, fd.descriptor, CalculateFlags(t))
    case ForRead(c, fd, b, off, t) => PrepareRead(c, fd.descriptor, b, off.value, CalculateFlags(t))
    case ForWrite(c, fd, b, off, t) => PrepareWrite(c, fd.descriptor, b, off.value, CalculateFlags(t))
    case ForSplice(c, d, t) => PrepareSplice(c, d, CalculateFlags(t))
    case ForOpen(c, path, o, m, t) => PrepareOpen(c, path, Combined(o), Combined(m), CalculateFlags(t))
    case ForSocket(c, af, st, sf, opt) => PrepareSocket(c, af, st, sf, opt)
    case ForListen(c, a, st, sf, q, opt) => PrepareListen(c, a, st, sf, q, opt)
    case ForAccept(c, s, sf, v6) => PrepareAccept(c, s.descriptor, Combined(sf), v6)
    case ForConnect(c, s, a, t) => PrepareConnect(c, s, a, CalculateFlags(t))
    case ForStat(c, d, f, m, path) => PrepareStat(c, d, f, m, path)
    case ForReadVector(c, fd, off, t, v) => PrepareReadVector(c, fd.descriptor, off.value, CalculateFlags(t), v)
    case ForWriteVector(c, fd, off, t, v) => PrepareWriteVector(c, fd.descriptor, off.value, CalculateFlags(t), v)
  }

  /** The kinds whose `forX` takes an optional timeout to link to. */
  predicate Linkable(k: Kind) {
    k in {CloseKind, ReadKind, WriteKind, SpliceKind, OpenKind, ConnectKind, ReadVectorKind, WriteVectorKind}
  }

  /** The submission flags a `prepare` call carries, if it carries any. */
  function FlagsArgument(p: Prepared): Option<JavaByte> {
    if p.PrepareClose? || p.PrepareRead? || p.PrepareWrite? || p.PrepareSplice?
       || p.PrepareOpen? || p.PrepareConnect? || p.PrepareReadVector? || p.PrepareWriteVector?
    then Some(p.flags)
    else None
  }

  /** The descriptor a `prepare` call carries, if it carries a bare one. */
  function DescriptorArgument(p: Prepared): Option<Int32> {
    if p.PrepareClose? || p.PrepareRead? || p.PrepareWrite? || p.PrepareAccept?
       || p.PrepareStat? || p.PrepareReadVector? || p.PrepareWriteVector?
    then Some(p.descriptor)
    else None
  }

  /** The file offset a `prepare` call carries, if it carries one. */
  function OffsetArgument(p: Prepared): Option<Int64> {
    if p.PrepareRead? || p.PrepareWrite? || p.PrepareReadVector? || p.PrepareWriteVector?
    then Some(p.offset)
    else None
  }

  /** Exactly the operations that accept a timeout receive flags, and
      those flags are `calculateFlags` of that timeout: the link bit when
      a timeout is given, none otherwise. */
  lemma RouteLinkFlags(req: Request)
    ensures FlagsArgument(Route(req)).Some? <==> Linkable(RequestKind(req))
    ensures Linkable(RequestKind(req)) ==>
              FlagsArgument(Route(req)) == Some(CalculateFlags(req.linkTimeout))
    ensures Linkable(RequestKind(req)) ==>
              (FlagsArgument(Route(req)) == Some(IoLinkMask as JavaByte) <==> req.linkTimeout.Some?)
  {
  }

  /** Descriptors reach `prepare` as `fd.descriptor()` and offsets as
      `offset.value()`, unchanged, and so does the completion. */
  lemma RouteForwardsUnchanged(req: Request)
    ensures (req.ForClose? || req.ForRead? || req.ForWrite? || req.ForReadVector? || req.ForWriteVector?) ==>
              DescriptorArgument(Route(req)) == Some(req.fd.descriptor)
    ensures req.ForAccept? ==> DescriptorArgument(Route(req)) == Some(req.socket.descriptor)
    ensures req.ForStat? ==> DescriptorArgument(Route(req)) == Some(req.statDescriptor)
    ensures (req.ForRead? || req.ForWrite? || req.ForReadVector? || req.ForWriteVector?) ==>
              OffsetArgument(Route(req)) == Some(req.offset.value)
    ensures req.ForConnect? ==> Route(req).socket == req.socket
    ensures !req.ForTimeout? ==> Route(req).completion == req.completion
  {
  }

  // ---------------------------------------------------------------------
  // Pools

  /** A pool: the registry its entries are registered in, and how many
      entries it has handed out and how many times it has been cleared. */
  datatype Pool = Pool(registry: Ref, allocations: nat, clears: nat)

  datatype Factory = Factory(pools: map<Kind, Pool>)

  /** The pools in the order `clear` visits them. */
  const ClearOrder: seq<Kind> := [
    NopKind, DelayKind, CloseKind, TimeoutKind, ReadKind, WriteKind,
    SpliceKind, OpenKind, SocketKind, ListenKind, AcceptKind, ConnectKind,
    StatKind, ReadVectorKind, WriteVectorKind
  ]

  /** There is a pool for every kind, and all pools share one registry. */
  predicate Wellformed(f: Factory) {
    && (forall k: Kind :: k in f.pools)
    && (forall k: Kind, j: Kind :: f.pools[k].registry == f.pools[j].registry)
  }

  /** The constructor: one fresh pool per kind over the given registry. */
  function NewFactory(registry: Ref): (f: Factory)
    ensures Wellformed(f)
    ensures forall k: Kind :: f.pools[k] == Pool(registry, 0, 0)
  {
    AllKindsListed();
    Factory(map k | k in ClearOrder :: Pool(registry, 0, 0))
  }

  /** `clear` names every kind. */
  lemma AllKindsListed()
    ensures forall k: Kind :: k in ClearOrder
  {
    forall k: Kind
      ensures k in ClearOrder
    {
      match k
      case NopKind => assert ClearOrder[0] == k;
      case DelayKind => assert ClearOrder[1] == k;
      case CloseKind => assert ClearOrder[2] == k;
      case TimeoutKind => assert ClearOrder[3] == k;
      case ReadKind => assert ClearOrder[4] == k;
      case WriteKind => assert ClearOrder[5] == k;
      case SpliceKind => assert ClearOrder[6] == k;
      case OpenKind => assert ClearOrder[7] == k;
      case SocketKind => assert ClearOrder[8] == k;
      case ListenKind => assert ClearOrder[9] == k;
      case AcceptKind => assert ClearOrder[10] == k;
      case ConnectKind => assert ClearOrder[11] == k;
      case StatKind => assert ClearOrder[12] == k;
      case ReadVectorKind => assert ClearOrder[13] == k;
      case WriteVectorKind => assert ClearOrder[14] == k;
    }
  }

  /** `clear` names no kind twice. */
  lemma ClearOrderDistinct()
    ensures forall i, j :: 0 <= i < j < |ClearOrder| ==> ClearOrder[i] != ClearOrder[j]
  {
  }

  /** `forX(...)`: one entry out of the request's own pool, prepared with
      the routed arguments; no other pool is touched. */
  function Allocate(f: Factory, req: Request): (r: (Factory, Prepared))
    requires Wellformed(f)
    ensures Wellformed(r.0)
    ensures r.0.pools[RequestKind(req)].allocations == f.pools[RequestKind(req)].allocations + 1
    ensures forall k: Kind :: k != RequestKind(req) ==> r.0.pools[k] == f.pools[k]
    ensures r.0.pools[RequestKind(req)].clears == f.pools[RequestKind(req)].clears
    ensures PreparedKind(r.1) == RequestKind(req)
  {
    var k := RequestKind(req);
    var pool := f.pools[k];
    (Factory(f.pools[k := pool.(allocations := pool.allocations + 1)]), Route(req))
  }

  /** `clear()`: clears the pools one after another in `ClearOrder`,
      returning the kinds in the order they were cleared. */
  method Clear(f: Factory) returns (r: Factory, cleared: seq<Kind>)
    requires Wellformed(f)
    ensures Wellformed(r)
    ensures forall k: Kind :: multiset(cleared)[k] == 1
    ensures forall k: Kind :: r.pools[k].clears == f.pools[k].clears + 1
    ensures forall k: Kind :: r.pools[k].allocations == f.pools[k].allocations
    ensures forall k: Kind :: r.pools[k].registry == f.pools[k].registry
  {
    AllKindsListed();
    ClearOrderDistinct();
    r, cleared := f, [];
    var i := 0;
    while i < |ClearOrder|
      invariant 0 <= i <= |ClearOrder|
      invariant cleared == ClearOrder[..i]
      invariant forall k: Kind :: k in r.pools
      invariant forall k: Kind :: r.pools[k].registry == f.pools[k].registry
      invariant forall k: Kind :: r.pools[k].allocations == f.pools[k].allocations
      invariant forall k: Kind :: r.pools[k].clears == f.pools[k].clears + (if k in cleared then 1 else 0)
    {
      var k := ClearOrder[i];
      assert k !in cleared by {
        forall j | 0 <= j < i
          ensures ClearOrder[j] != k
        {
        }
      }
      var pool := r.pools[k];
      r := Factory(r.pools[k := pool.(clears := pool.clears + 1)]);
      cleared := cleared + [k];
      assert cleared == ClearOrder[..i + 1];
      i := i + 1;
    }
    assert cleared == ClearOrder;
    forall k: Kind
      ensures multiset(cleared)[k] == 1
    {
      OccursOnce(ClearOrder, k);
    }
  }

  /** An element of a sequence without repeats occurs in it exactly once. */
  lemma {:induction false} OccursOnce(s: seq<Kind>, k: Kind)
    requires k in s
    requires forall i, j :: 0 <= i < j < |s| ==> s[i] != s[j]
    ensures multiset(s)[k] == 1
    decreases |s|
  {
    var last := s[|s| - 1];
    var init := s[..|s| - 1];
    assert s == init + [last];
    if last == k {
      assert k !in init by {
        forall i | 0 <= i < |init|
          ensures init[i] != k
        {
          assert init[i] == s[i];
        }
      }
    } else {
      assert k in init;
      OccursOnce(init, k);
    }
  }
}
