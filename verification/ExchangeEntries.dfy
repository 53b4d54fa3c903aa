/**
  Two exchange entries of the io_uring proactor: the delay entry, which
  submits an IORING_OP_TIMEOUT and reports how long the wait took, and the
  close entry, which submits an IORING_OP_CLOSE. Each entry is a record
  that `prepare` fills in, `apply` renders into a submission-queue entry,
  and `doAccept` turns the kernel's completion code into a `Result` handed
  to the stored completion.

  The entries are state-passing functions over immutable records. Calling a
  completion is recorded by appending a `Call` to a log, so "called exactly
  once" is a statement about the log's length. Parts that the model does
  not define are parameters:
  - the clock reading;
  - the address of the off-heap time spec;
  - the base class's `apply`, given as a function on submission entries;
  - the translation of a native result code (`NativeFailureType.result`);
  - the magnitude of ETIME (`NativeFailureType.ETIME.code()`).
 */
module ExchangeEntries {
  import opened JavaArith
  import opened Results
  import opened Timeouts

  /** Stand-ins for a completion callback and for the submitter passed back
      to it; only their identity matters here. */
  type Handler = nat
  type Submitter = nat

  /** The unit value carried by a successful close. */
  datatype Unit = Unit

  /** One invocation of a completion with its result and submitter. */
  datatype Call<T, E> = Call(handler: Handler, result: Result<T, E>, submitter: Submitter)

  /** The fields of a submission-queue entry that the entries write. */
  datatype Sqe = Sqe(opcode: int, flags: JavaByte, fd: Int32, addr: Int64, len: Int32, off: Int64, userData: Int64)

  // ---------------------------------------------------------------------
  // DelayExchangeEntry

  /** The off-heap time spec: its native address, the (seconds, nanos) last
      written to it, and whether it has been released. */
  datatype TimeSpec = TimeSpec(address: Int64, value: SecondsNanos, disposed: bool)

  datatype DelayEntry = DelayEntry(completion: Handler, startNanos: Int64, timeSpec: TimeSpec)

  /** `prepare(completion, timeout)`: remembers the clock reading `now` as
      the start, writes the timeout into the time spec, and stores the
      completion. */
  function DelayPrepare(e: DelayEntry, completion: Handler, timeout: Timeout, now: Int64): (r: DelayEntry)
    ensures r.startNanos == now
    ensures r.completion == completion
    ensures r.timeSpec.value.seconds * NanosInSecond + r.timeSpec.value.nanos == timeout.timeout
    ensures Abs(r.timeSpec.value.nanos) < NanosInSecond
    ensures r.timeSpec.address == e.timeSpec.address && r.timeSpec.disposed == e.timeSpec.disposed
  {
    DelayEntry(completion, now, e.timeSpec.(value := SecondsAndNanos(timeout)))
  }

  /** The result `doAccept` hands over for completion code `res`, with the
      clock reading `now`: a code of magnitude ETIME means the timer
      expired as intended and carries the elapsed nanoseconds; any other
      code, 0 included, goes through the native translation. */
  function DelayResult<E>(e: DelayEntry, res: Int32, now: Int64, etime: Int32, native: Int32 -> Result<Timeout, E>): (r: Result<Timeout, E>)
    requires etime > 0
    ensures (res == etime || res == -etime) ==> r == Ok(Timeout(SubLong(now, e.startNanos)))
    ensures (res != etime && res != -etime) ==> r == native(res)
  {
    var totalNanos := SubLong(now, e.startNanos);
    if AbsInt(res) != etime then native(res) else Ok(Nanos(Of(totalNanos)))
  }

  /** `doAccept(res, flags, submitter)`: exactly one call of the stored
      completion, with the translated result and the submitter. */
  function DelayAccept<E>(e: DelayEntry, res: Int32, flags: Int32, submitter: Submitter, now: Int64,
                          etime: Int32, native: Int32 -> Result<Timeout, E>, log: seq<Call<Timeout, E>>): (r: seq<Call<Timeout, E>>)
    requires etime > 0
    ensures |r| == |log| + 1 && r[..|log|] == log
    ensures r[|log|].handler == e.completion && r[|log|].submitter == submitter
    ensures r[|log|].result == DelayResult(e, res, now, etime, native)
  {
    log + [Call(e.completion, DelayResult(e, res, now, etime, native), submitter)]
  }

  /** `apply(entry)`: the base rendering, then the time spec's address, no
      descriptor, one time spec and a completion count of one. */
  function DelayApply(e: DelayEntry, base: Sqe -> Sqe, entry: Sqe): (r: Sqe)
    ensures r.addr == e.timeSpec.address
    ensures r.fd == -1 && r.len == 1 && r.off == 1
    ensures r.opcode == base(entry).opcode && r.flags == base(entry).flags
    ensures r.userData == base(entry).userData
  {
    base(entry).(addr := e.timeSpec.address, fd := -1, len := 1, off := 1)
  }

  /** `close()`: releases the time spec and nothing else. */
  function DelayClose(e: DelayEntry): (r: DelayEntry)
    ensures r.timeSpec.disposed
    ensures r.completion == e.completion && r.startNanos == e.startNanos
    ensures r.timeSpec.address == e.timeSpec.address && r.timeSpec.value == e.timeSpec.value
  {
    e.(timeSpec := e.timeSpec.(disposed := true))
  }

  /** An expired timer reports the time since `prepare`: added back to the
      start it gives the clock reading at completion, when no wrap-around
      occurred. */
  lemma DelayReportsElapsed<E>(e: DelayEntry, completion: Handler, timeout: Timeout, start: Int64, now: Int64,
                               etime: Int32, native: Int32 -> Result<Timeout, E>)
    requires etime > 0
    requires LongMin <= now - start <= LongMax
    ensures DelayResult(DelayPrepare(e, completion, timeout, start), -etime, now, etime, native)
            == Ok(Timeout(now - start))
    ensures DelayResult(DelayPrepare(e, completion, timeout, start), etime, now, etime, native)
            == Ok(Timeout(now - start))
  {
  }

  /** The flags of the completion play no part in what is reported. */
  lemma DelayIgnoresCompletionFlags<E>(e: DelayEntry, res: Int32, f1: Int32, f2: Int32, submitter: Submitter, now: Int64,
                                       etime: Int32, native: Int32 -> Result<Timeout, E>, log: seq<Call<Timeout, E>>)
    requires etime > 0
    ensures DelayAccept(e, res, f1, submitter, now, etime, native, log)
            == DelayAccept(e, res, f2, submitter, now, etime, native, log)
  {
  }

  /** What `prepare` wrote is what `apply` points the kernel at, and the
      seconds and nanoseconds in it add up to the timeout. */
  lemma DelayPrepareThenApply(e: DelayEntry, completion: Handler, timeout: Timeout, now: Int64, base: Sqe -> Sqe, entry: Sqe)
    ensures var p := DelayPrepare(e, completion, timeout, now);
            && DelayApply(p, base, entry).addr == p.timeSpec.address == e.timeSpec.address
            && p.timeSpec.value == SecondsAndNanos(timeout)
  {
  }

  // ---------------------------------------------------------------------
  // CloseExchangeEntry

  /** A close entry: the completion, the descriptor to close and the
      submission flags (a Java `byte`). */
  datatype CloseEntry = CloseEntry(completion: Handler, descriptor: Int32, flags: JavaByte)

  /** `prepare(completion, descriptor, flags)`: stores exactly these. */
  function ClosePrepare(e: CloseEntry, completion: Handler, descriptor: Int32, flags: JavaByte): (r: CloseEntry)
    ensures r.completion == completion && r.descriptor == descriptor && r.flags == flags
  {
    CloseEntry(completion, descriptor, flags)
  }

  /** The result for completion code `res`: 0 is the unit success, every
      other code, positive ones included, goes through the native
      translation. */
  function CloseResult<E>(res: Int32, native: Int32 -> Result<Unit, E>): (r: Result<Unit, E>)
    ensures res == 0 ==> r.Ok?
    ensures res != 0 ==> r == native(res)
  {
    if res == 0 then Ok(Unit) else native(res)
  }

  /** `doAccept(res, flags, submitter)`: exactly one call of the stored
      completion. */
  function CloseAccept<E>(e: CloseEntry, res: Int32, flags: Int32, submitter: Submitter,
                          native: Int32 -> Result<Unit, E>, log: seq<Call<Unit, E>>): (r: seq<Call<Unit, E>>)
    ensures |r| == |log| + 1 && r[..|log|] == log
    ensures r[|log|].handler == e.completion && r[|log|].submitter == submitter
    ensures r[|log|].result == CloseResult(res, native)
  {
    log + [Call(e.completion, CloseResult(res, native), submitter)]
  }

  /** `apply(entry)`: the base rendering with the prepared flags and
      descriptor. */
  function CloseApply(e: CloseEntry, base: Sqe -> Sqe, entry: Sqe): (r: Sqe)
    ensures r.flags == e.flags && r.fd == e.descriptor
    ensures r.opcode == base(entry).opcode && r.addr == base(entry).addr
    ensures r.len == base(entry).len && r.off == base(entry).off
    ensures r.userData == base(entry).userData
  {
    base(entry).(flags := e.flags, fd := e.descriptor)
  }

  /** The descriptor and flags given to `prepare` are the ones submitted. */
  lemma ClosePrepareThenApply(e: CloseEntry, completion: Handler, descriptor: Int32, flags: JavaByte, base: Sqe -> Sqe, entry: Sqe)
    ensures CloseApply(ClosePrepare(e, completion, descriptor, flags), base, entry).fd == descriptor
    ensures CloseApply(ClosePrepare(e, completion, descriptor, flags), base, entry).flags == flags
  {
  }

  /** A close succeeds exactly on code 0, whatever the native translation
      makes of the other codes, provided it never turns a non-zero code
      into success. */
  lemma CloseSucceedsOnlyOnZero<E>(res: Int32, native: Int32 -> Result<Unit, E>)
    requires forall c: Int32 :: c != 0 ==> native(c).Fail?
    ensures CloseResult(res, native).Ok? <==> res == 0
  {
  }
}
