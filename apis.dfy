/** The DPDK error taxonomy of the engine's `apis` module (errno tables for
    memory, port and EAL failures, the string-conversion error) and the
    bulk release of packet buffers to their pools. */
module Apis {
  import opened Types

  // Linux errno values the tables match on.
  const ENOENT: int := 2
  const ENOEXEC: int := 8
  const EAGAIN: int := 11
  const ENOMEM: int := 12
  const EFAULT: int := 14
  const EEXIST: int := 17
  const ENODEV: int := 19
  const EINVAL: int := 22
  const ENOSPC: int := 28
  const EPROTO: int := 71
  const ENOTSUP: int := 95
  const ENOBUFS: int := 105
  const EALREADY: int := 114

  // DPDK's own codes, above the system range.
  const E_RTE_SECONDARY: int := 1001
  const E_RTE_NO_CONFIG: int := 1002

  datatype MemoryError =
    | NoConfig | SecondaryProcess | Invalid | NoSpace | Exists
    | NoMem | NoBuf | NoEntries | BadVal

  datatype BufError =
    | BadOffset(offset: nat, dataLen: nat)
    | NotResized
    | OutOfBuffer(size: nat, remaining: int)

  datatype PortError = NoDevice | PortInvalid | NoSupport | PortNoMem | PortBadVal

  datatype EalError =
    | NoRsrc | DuplicateCall | InvalidArgs | EalNoMem | BadMemCnfg
    | BadSystem | BadPci | CoreLaunchFailed | Fault | Weird(code: i32)

  /** A NUL byte found inside a string handed to `CString::new`. */
  datatype NulError = NulError(position: nat, bytes: seq<byte>)

  /** `MemoryError::new`: classifies the current `rte_errno`. */
  function MemoryErrorNew(errno: i32): MemoryError
  {
    if errno == E_RTE_SECONDARY then SecondaryProcess
    else if errno == E_RTE_NO_CONFIG then NoConfig
    else if errno == EINVAL then Invalid
    else if errno == ENOSPC then NoSpace
    else if errno == EEXIST then Exists
    else if errno == ENOMEM then NoMem
    else if errno == ENOBUFS then NoBuf
    else if errno == ENOENT then NoEntries
    else BadVal
  }

  /** The errno each memory error stands for; BadVal stands for none. */
  function MemoryErrorCode(e: MemoryError): Option<i32>
  {
    match e
    case SecondaryProcess => Some(E_RTE_SECONDARY)
    case NoConfig => Some(E_RTE_NO_CONFIG)
    case Invalid => Some(EINVAL)
    case NoSpace => Some(ENOSPC)
    case Exists => Some(EEXIST)
    case NoMem => Some(ENOMEM)
    case NoBuf => Some(ENOBUFS)
    case NoEntries => Some(ENOENT)
    case BadVal => None
  }

  /** The memory table is exact: every errno it names comes back as its own
      variant, and every other errno becomes BadVal. */
  lemma MemoryErrorTable(errno: i32, e: MemoryError)
    ensures MemoryErrorCode(e).Some? ==> MemoryErrorNew(MemoryErrorCode(e).value) == e
    ensures MemoryErrorNew(errno) == BadVal <==>
      forall v :: MemoryErrorCode(v) != Some(errno)
  {
    if MemoryErrorNew(errno) != BadVal {
      var v := MemoryErrorNew(errno);
      assert MemoryErrorCode(v) == Some(errno);
    } else {
      forall v ensures MemoryErrorCode(v) != Some(errno) {
        match v
        case SecondaryProcess =>
        case NoConfig =>
        case Invalid =>
        case NoSpace =>
        case Exists =>
        case NoMem =>
        case NoBuf =>
        case NoEntries =>
        case BadVal =>
      }
    }
  }

  /** `impl From<NulError> for MemoryError`: every conversion error is BadVal. */
  function MemoryErrorFromNul(e: NulError): (r: MemoryError)
    ensures r == BadVal && MemoryErrorCode(r).None?
  {
    BadVal
  }

  /** `PortError::new`. */
  function PortErrorNew(errno: i32): PortError
  {
    if errno == ENODEV then NoDevice
    else if errno == EINVAL then PortInvalid
    else if errno == ENOTSUP then NoSupport
    else if errno == ENOMEM then PortNoMem
    else PortBadVal
  }

  function PortErrorCode(e: PortError): Option<i32>
  {
    match e
    case NoDevice => Some(ENODEV)
    case PortInvalid => Some(EINVAL)
    case NoSupport => Some(ENOTSUP)
    case PortNoMem => Some(ENOMEM)
    case PortBadVal => None
  }

  lemma PortErrorTable(errno: i32, e: PortError)
    ensures PortErrorCode(e).Some? ==> PortErrorNew(PortErrorCode(e).value) == e
    ensures PortErrorNew(errno) == PortBadVal <==>
      forall v :: PortErrorCode(v) != Some(errno)
  {
    if PortErrorNew(errno) != PortBadVal {
      var v := PortErrorNew(errno);
      assert PortErrorCode(v) == Some(errno);
    } else {
      forall v ensures PortErrorCode(v) != Some(errno) {
        match v
        case NoDevice =>
        case PortInvalid =>
        case NoSupport =>
        case PortNoMem =>
        case PortBadVal =>
      }
    }
  }

  /** `EALErrors::new` as written: ENOMEM is sent to NoRsrc, like EAGAIN. */
  function EalErrorNew(errno: i32): EalError
  {
    if errno == EAGAIN then NoRsrc
    else if errno == EALREADY then DuplicateCall
    else if errno == EINVAL then InvalidArgs
    else if errno == ENOMEM then NoRsrc
    else if errno == ENODEV then BadMemCnfg
    else if errno == ENOTSUP then BadSystem
    else if errno == EPROTO then BadPci
    else if errno == ENOEXEC then CoreLaunchFailed
    else if errno == EFAULT then Fault
    else Weird(errno)
  }

  /** The errno that `rte_eal_init` documents for each failure. */
  function EalErrorCode(e: EalError): i32
  {
    match e
    case NoRsrc => EAGAIN
    case DuplicateCall => EALREADY
    case InvalidArgs => EINVAL
    case EalNoMem => ENOMEM
    case BadMemCnfg => ENODEV
    case BadSystem => ENOTSUP
    case BadPci => EPROTO
    case CoreLaunchFailed => ENOEXEC
    case Fault => EFAULT
    case Weird(c) => c
  }

  predicate IsEalCode(errno: i32)
  {
    errno in {EAGAIN, EALREADY, EINVAL, ENOMEM, ENODEV, ENOTSUP, EPROTO, ENOEXEC, EFAULT}
  }

  /** As written, the out-of-memory variant can never be produced, the
      out-of-memory errno is reported as a transient resource shortage, and
      an unknown errno is carried unchanged inside Weird. */
  lemma EalErrorAsWritten(errno: i32)
    ensures EalErrorNew(errno) != EalNoMem
    ensures EalErrorNew(ENOMEM) == EalErrorNew(EAGAIN) == NoRsrc
    ensures !IsEalCode(errno) ==> EalErrorNew(errno) == Weird(errno)
  {
  }

  /** The table with ENOMEM sent to the out-of-memory variant. */
  function EalErrorNewIntended(errno: i32): (r: EalError)
    ensures (r == EalNoMem) == (errno == ENOMEM)
    ensures errno != ENOMEM ==> r == EalErrorNew(errno)
  {
    if errno == ENOMEM then EalNoMem else EalErrorNew(errno)
  }

  /** With the correction every variant is reached from the errno that
      stands for it, and no two known errnos share a variant. */
  lemma EalErrorIntendedRoundTrip(e: EalError, errno: i32)
    requires e.Weird? ==> !IsEalCode(e.code)
    ensures EalErrorNewIntended(EalErrorCode(e)) == e
    ensures IsEalCode(errno) ==> EalErrorCode(EalErrorNewIntended(errno)) == errno
  {
  }

  /** One `rte_mempool_put_bulk(pool, objs, |objs|)` call. */
  datatype PutBulk<P, M> = PutBulk(pool: P, objs: seq<M>)

  function Flatten<P, M>(calls: seq<PutBulk<P, M>>): seq<M>
  {
    if calls == [] then [] else Flatten(calls[..|calls| - 1]) + calls[|calls| - 1].objs
  }

  lemma FlattenSnoc<P, M>(calls: seq<PutBulk<P, M>>, c: PutBulk<P, M>)
    ensures Flatten(calls + [c]) == Flatten(calls) + c.objs
  {
    assert (calls + [c])[..|calls|] == calls;
  }

  lemma {:induction false} FlattenIndex<P, M>(calls: seq<PutBulk<P, M>>, i: nat)
    requires i < |Flatten(calls)|
    ensures exists k, j :: (0 <= k < |calls| && 0 <= j < |calls[k].objs| &&
      calls[k].objs[j] == Flatten(calls)[i])
  {
    if calls != [] {
      var front := calls[..|calls| - 1];
      var last := calls[|calls| - 1];
      assert Flatten(calls) == Flatten(front) + last.objs;
      if i < |Flatten(front)| {
        FlattenIndex(front, i);
        var k, j :| 0 <= k < |front| && 0 <= j < |front[k].objs| &&
          front[k].objs[j] == Flatten(front)[i];
        assert calls[k] == front[k];
      } else {
        var j := i - |Flatten(front)|;
        assert calls[|calls| - 1].objs[j] == Flatten(calls)[i];
      }
    }
  }

  /** The calls made so far all target `pool` and are non-empty; a call
      after the first starts with an mbuf of another pool and every later
      mbuf of a call, like every later mbuf of the pending batch, is of
      `pool`; a pending batch that follows a call starts with an mbuf of
      another pool. */
  ghost predicate SameTargetBatches<P, M>(poolOf: M -> P, pool: P, calls: seq<PutBulk<P, M>>, pending: seq<M>)
  {
    && (forall k :: 0 <= k < |calls| ==> calls[k].pool == pool && |calls[k].objs| > 0)
    && (forall k :: 0 < k < |calls| ==> poolOf(calls[k].objs[0]) != pool)
    && (forall k, j :: 0 <= k < |calls| && 0 < j < |calls[k].objs| ==> poolOf(calls[k].objs[j]) == pool)
    && (|calls| > 0 && |pending| > 0 ==> poolOf(pending[0]) != pool)
    && (forall j :: 0 < j < |pending| ==> poolOf(pending[j]) == pool)
  }

  /** What the batching of the source produces from `mbufs`: the put_bulk
      calls hand back every mbuf exactly once and in order, no call is
      empty, every call targets the first mbuf's pool, and a new call
      starts exactly at each mbuf whose pool differs from that pool. */
  ghost predicate FreeBulkShape<P, M>(mbufs: seq<M>, poolOf: M -> P, calls: seq<PutBulk<P, M>>)
    requires |mbufs| > 0
  {
    |calls| > 0 && Flatten(calls) == mbufs && SameTargetBatches(poolOf, poolOf(mbufs[0]), calls, [])
  }

  lemma SameTargetAppend<P, M>(poolOf: M -> P, pool: P, calls: seq<PutBulk<P, M>>, pending: seq<M>, m: M)
    requires SameTargetBatches(poolOf, pool, calls, pending)
    requires poolOf(m) == pool && (|pending| > 0 || calls == [])
    ensures SameTargetBatches(poolOf, pool, calls, pending + [m])
  {
  }

  lemma SameTargetFlush<P, M>(poolOf: M -> P, pool: P, calls: seq<PutBulk<P, M>>, pending: seq<M>)
    requires SameTargetBatches(poolOf, pool, calls, pending) && |pending| > 0
    ensures SameTargetBatches(poolOf, pool, calls + [PutBulk(pool, pending)], [])
  {
    var calls' := calls + [PutBulk(pool, pending)];
    forall k, j | 0 <= k < |calls'| && 0 < j < |calls'[k].objs|
      ensures poolOf(calls'[k].objs[j]) == pool
    {
      if k < |calls| { assert calls'[k] == calls[k]; }
    }
  }

  lemma SameTargetStartForeign<P, M>(poolOf: M -> P, pool: P, calls: seq<PutBulk<P, M>>, m: M)
    requires SameTargetBatches(poolOf, pool, calls, []) && poolOf(m) != pool
    ensures SameTargetBatches(poolOf, pool, calls, [m])
  {
  }

  /** `mbuf_free_bulk` of the `apis` module. The source asserts that the
      list is not empty; `pool` is read once from the first mbuf and never
      reassigned. The returned list is the sequence of put_bulk calls made. */
  method MbufFreeBulk<P(==), M>(mbufs: seq<M>, poolOf: M -> P) returns (calls: seq<PutBulk<P, M>>)
    requires |mbufs| > 0
    ensures FreeBulkShape(mbufs, poolOf, calls)
  {
    var toFree: seq<M> := [];
    var pool := poolOf(mbufs[0]);
    calls := [];
    for i := 0 to |mbufs|
      invariant Flatten(calls) + toFree == mbufs[..i]
      invariant i > 0 ==> |toFree| > 0
      invariant i == 0 ==> calls == [] && toFree == []
      invariant SameTargetBatches(poolOf, pool, calls, toFree)
    {
      var mbuf := mbufs[i];
      assert mbufs[..i + 1] == mbufs[..i] + [mbuf];
      if pool == poolOf(mbuf) {
        SameTargetAppend(poolOf, pool, calls, toFree, mbuf);
        toFree := toFree + [mbuf];
      } else {
        FlattenSnoc(calls, PutBulk(pool, toFree));
        SameTargetFlush(poolOf, pool, calls, toFree);
        calls := calls + [PutBulk(pool, toFree)];
        SameTargetStartForeign(poolOf, pool, calls, mbuf);
        toFree := [mbuf];
      }
    }
    FlattenSnoc(calls, PutBulk(pool, toFree));
    SameTargetFlush(poolOf, pool, calls, toFree);
    calls := calls + [PutBulk(pool, toFree)];
    assert mbufs[..|mbufs|] == mbufs;
  }

  /** Consequence of the quirk: as soon as one mbuf comes from a pool other
      than the first mbuf's, some put_bulk call hands an mbuf to a pool it
      does not belong to. */
  lemma FreeBulkMisroutes<P, M>(mbufs: seq<M>, poolOf: M -> P, calls: seq<PutBulk<P, M>>, i: nat)
    requires |mbufs| > 0 && FreeBulkShape(mbufs, poolOf, calls)
    requires i < |mbufs| && poolOf(mbufs[i]) != poolOf(mbufs[0])
    ensures exists k, j :: (0 <= k < |calls| && 0 <= j < |calls[k].objs| &&
      poolOf(calls[k].objs[j]) != calls[k].pool)
  {
    FlattenIndex(calls, i);
  }

  /** Each call hands back mbufs of its own target pool and is non-empty,
      and consecutive calls target different pools. */
  ghost predicate OwnPoolCalls<P, M>(poolOf: M -> P, calls: seq<PutBulk<P, M>>)
  {
    && (forall k :: 0 <= k < |calls| ==> |calls[k].objs| > 0)
    && (forall k, j :: 0 <= k < |calls| && 0 <= j < |calls[k].objs| ==>
          poolOf(calls[k].objs[j]) == calls[k].pool)
    && (forall k :: 0 < k < |calls| ==> calls[k].pool != calls[k - 1].pool)
  }

  /** The calls so far keep OwnPoolCalls, the pending batch holds mbufs of
      `pool` only, and `pool` differs from the last call's target. */
  ghost predicate OwnPoolBatches<P, M>(poolOf: M -> P, pool: P, calls: seq<PutBulk<P, M>>, pending: seq<M>)
  {
    && OwnPoolCalls(poolOf, calls)
    && (forall j :: 0 <= j < |pending| ==> poolOf(pending[j]) == pool)
    && (|calls| > 0 ==> calls[|calls| - 1].pool != pool)
  }

  /** Every mbuf goes back to its own pool, in order and exactly once, no
      call is empty, and consecutive calls target different pools. */
  ghost predicate FreeBulkByOwnPool<P, M>(mbufs: seq<M>, poolOf: M -> P, calls: seq<PutBulk<P, M>>)
  {
    |calls| > 0 && Flatten(calls) == mbufs && OwnPoolCalls(poolOf, calls)
  }

  lemma OwnPoolClose<P, M>(poolOf: M -> P, pool: P, calls: seq<PutBulk<P, M>>, pending: seq<M>)
    requires OwnPoolBatches(poolOf, pool, calls, pending) && |pending| > 0
    ensures OwnPoolCalls(poolOf, calls + [PutBulk(pool, pending)])
  {
    var calls' := calls + [PutBulk(pool, pending)];
    forall k, j | 0 <= k < |calls'| && 0 <= j < |calls'[k].objs|
      ensures poolOf(calls'[k].objs[j]) == calls'[k].pool
    {
      if k < |calls| { assert calls'[k] == calls[k]; }
    }
  }

  lemma OwnPoolAppend<P, M>(poolOf: M -> P, pool: P, calls: seq<PutBulk<P, M>>, pending: seq<M>, m: M)
    requires OwnPoolBatches(poolOf, pool, calls, pending) && poolOf(m) == pool
    ensures OwnPoolBatches(poolOf, pool, calls, pending + [m])
  {
  }

  lemma OwnPoolStart<P, M>(poolOf: M -> P, pool: P, calls: seq<PutBulk<P, M>>, m: M)
    requires OwnPoolCalls(poolOf, calls) && |calls| > 0
    requires calls[|calls| - 1].pool == pool && poolOf(m) != pool
    ensures OwnPoolBatches(poolOf, poolOf(m), calls, [m])
  {
  }

  /** Flushing the pending batch and starting a new one with `m`. */
  lemma OwnPoolFlush<P, M>(poolOf: M -> P, pool: P, calls: seq<PutBulk<P, M>>, pending: seq<M>, m: M)
    requires OwnPoolBatches(poolOf, pool, calls, pending) && |pending| > 0 && poolOf(m) != pool
    ensures OwnPoolBatches(poolOf, poolOf(m), calls + [PutBulk(pool, pending)], [m])
  {
    OwnPoolClose(poolOf, pool, calls, pending);
    OwnPoolStart(poolOf, pool, calls + [PutBulk(pool, pending)], m);
  }

  /** The batching with `pool` moved to the new mbuf's pool each time a
      batch is flushed. */
  method MbufFreeBulkByPool<P(==), M>(mbufs: seq<M>, poolOf: M -> P) returns (calls: seq<PutBulk<P, M>>)
    requires |mbufs| > 0
    ensures FreeBulkByOwnPool(mbufs, poolOf, calls)
  {
    var toFree: seq<M> := [];
    var pool := poolOf(mbufs[0]);
    calls := [];
    for i := 0 to |mbufs|
      invariant Flatten(calls) + toFree == mbufs[..i]
      invariant i > 0 ==> |toFree| > 0
      invariant i == 0 ==> calls == [] && toFree == [] && pool == poolOf(mbufs[0])
      invariant OwnPoolBatches(poolOf, pool, calls, toFree)
    {
      var mbuf := mbufs[i];
      assert mbufs[..i + 1] == mbufs[..i] + [mbuf];
      if pool == poolOf(mbuf) {
        OwnPoolAppend(poolOf, pool, calls, toFree, mbuf);
        toFree := toFree + [mbuf];
      } else {
        FlattenSnoc(calls, PutBulk(pool, toFree));
        OwnPoolFlush(poolOf, pool, calls, toFree, mbuf);
        calls := calls + [PutBulk(pool, toFree)];
        toFree := [mbuf];
        pool := poolOf(mbuf);
      }
    }
    FlattenSnoc(calls, PutBulk(pool, toFree));
    OwnPoolClose(poolOf, pool, calls, toFree);
    calls := calls + [PutBulk(pool, toFree)];
    assert mbufs[..|mbufs|] == mbufs;
  }
}
