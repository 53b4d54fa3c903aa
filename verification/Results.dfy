/**
  The two-outcome value that every completion delivers: success carrying a
  value, or failure carrying a cause. Every operation is derived from
  `Reduce`, which hands the payload to exactly one of two mappers.

  Mappers, suppliers and consumers that must not run in some branch are
  partial arrows (`-->`): a contract that demands only the matching
  mapper's precondition shows that the other one is never applied.
  Consumers with side effects return the effect they would perform; an
  operation that runs consumers returns the list of effects in order.

  The failure type is a parameter `E`, because the library's `Failure` is
  not part of this model. Payloads are assumed non-null, so Java's
  `Objects.equals` is value equality here.

  The test suite of this library calls the two constructors
  `success`/`failure`; the library itself calls them `ok`/`fail`. They are
  taken to be the same constructors, named `Ok` and `Fail` below.
 */
module Results {

  datatype Option<T> = None | Some(value: T)

  datatype Result<T, E> = Ok(value: T) | Fail(failure: E)

  /** A result returned unchanged together with the side effects that the
      consumers passed to it performed. */
  datatype Consumed<T, E, A> = Consumed(result: Result<T, E>, effects: seq<A>)

  /** Collapses both outcomes into one value; only the mapper matching the
      outcome is applied. */
  function Reduce<T, E, R>(r: Result<T, E>, failureMapper: E --> R, successMapper: T --> R): (x: R)
    requires r.Fail? ==> failureMapper.requires(r.failure)
    requires r.Ok? ==> successMapper.requires(r.value)
    ensures r.Ok? ==> x == successMapper(r.value)
    ensures r.Fail? ==> x == failureMapper(r.failure)
  {
    match r
    case Ok(v) => successMapper(v)
    case Fail(f) => failureMapper(f)
  }

  /** Transforms a success value; a failure passes through and the mapper
      is not applied to anything. */
  function Map<T, E, R>(r: Result<T, E>, mapper: T --> R): (m: Result<R, E>)
    requires r.Ok? ==> mapper.requires(r.value)
    ensures r.Ok? ==> m == Ok(mapper(r.value))
    ensures r.Fail? ==> m == Fail(r.failure)
  {
    Reduce(r, (f: E) => Fail(f), (v: T) requires mapper.requires(v) => Ok(mapper(v)))
  }

  /** Chains a further result-producing step onto a success; a failure
      passes through and the mapper is not applied. */
  function FlatMap<T, E, R>(r: Result<T, E>, mapper: T --> Result<R, E>): (m: Result<R, E>)
    requires r.Ok? ==> mapper.requires(r.value)
    ensures r.Ok? ==> m == mapper(r.value)
    ensures r.Fail? ==> m == Fail(r.failure)
  {
    Reduce(r, (f: E) => Fail(f), mapper)
  }

  /** Runs exactly one of the two consumers, chosen by the outcome, and
      returns the receiver unchanged. */
  function Apply<T, E, A>(r: Result<T, E>, failureConsumer: E -> A, successConsumer: T -> A): (c: Consumed<T, E, A>)
    ensures c.result == r
    ensures |c.effects| == 1
    ensures r.Ok? ==> c.effects[0] == successConsumer(r.value)
    ensures r.Fail? ==> c.effects[0] == failureConsumer(r.failure)
  {
    Reduce(r, (f: E) => Consumed(r, [failureConsumer(f)]), (v: T) => Consumed(r, [successConsumer(v)]))
  }

  /** Runs the consumer on a success value only; returns the receiver. */
  function OnSuccess<T, E, A>(r: Result<T, E>, consumer: T -> A): (c: Consumed<T, E, A>)
    ensures c.result == r
    ensures r.Ok? <==> |c.effects| == 1
    ensures r.Fail? <==> c.effects == []
    ensures r.Ok? ==> c.effects == [consumer(r.value)]
  {
    Consumed(r, Reduce(r, (f: E) => [], (v: T) => [consumer(v)]))
  }

  /** Runs the action on success only; returns the receiver. */
  function OnSuccessDo<T, E, A>(r: Result<T, E>, action: A): (c: Consumed<T, E, A>)
    ensures c.result == r
    ensures c.effects == if r.Ok? then [action] else []
  {
    Consumed(r, Reduce(r, (f: E) => [], (v: T) => [action]))
  }

  /** Runs the consumer on a failure only; returns the receiver. */
  function OnFailure<T, E, A>(r: Result<T, E>, consumer: E -> A): (c: Consumed<T, E, A>)
    ensures c.result == r
    ensures r.Fail? <==> |c.effects| == 1
    ensures r.Ok? <==> c.effects == []
    ensures r.Fail? ==> c.effects == [consumer(r.failure)]
  {
    Consumed(r, Reduce(r, (f: E) => [consumer(f)], (v: T) => []))
  }

  /** Runs the action on failure only; returns the receiver. */
  function OnFailureDo<T, E, A>(r: Result<T, E>, action: A): (c: Consumed<T, E, A>)
    ensures c.result == r
    ensures c.effects == if r.Fail? then [action] else []
  {
    Consumed(r, Reduce(r, (f: E) => [action], (v: T) => []))
  }

  /** The receiver when it is a success, the replacement otherwise. */
  function Or<T, E>(r: Result<T, E>, replacement: Result<T, E>): (o: Result<T, E>)
    ensures r.Ok? ==> o == r
    ensures r.Fail? ==> o == replacement
    ensures o.Ok? <==> r.Ok? || replacement.Ok?
  {
    Reduce(r, (f: E) => replacement, (v: T) => r)
  }

  /** The receiver when it is a success; otherwise whatever the supplier
      produces. The supplier is consulted only on failure. */
  function OrElse<T, E>(r: Result<T, E>, supplier: () --> Result<T, E>): (o: Result<T, E>)
    requires r.Fail? ==> supplier.requires()
    ensures r.Ok? ==> o == r
    ensures r.Fail? ==> o == supplier()
  {
    Reduce(r, (f: E) requires supplier.requires() => supplier(), (v: T) => r)
  }

  /** Present with the value on success, empty on failure. */
  function ToOption<T, E>(r: Result<T, E>): (o: Option<T>)
    ensures o.Some? <==> r.Ok?
    ensures o.Some? ==> o.value == r.value
  {
    Reduce(r, (f: E) => None, (v: T) => Some(v))
  }

  /** `two.reduce(id, v -> null)`: the failure payload, or null. */
  function FailurePart<T, E>(r: Result<T, E>): Option<E> {
    Reduce(r, (f: E) => Some(f), (v: T) => None)
  }

  /** `two.reduce(v -> null, id)`: the success payload, or null. */
  function SuccessPart<T, E>(r: Result<T, E>): Option<T> {
    Reduce(r, (f: E) => None, (v: T) => Some(v))
  }

  /** `Result.equals`: compares `one`'s payload with the payload `two` holds
      in the same role, a missing payload reading as null. */
  function Equals<T(==), E(==)>(one: Result<T, E>, two: Result<T, E>): bool {
    Reduce(one, (f: E) => FailurePart(two) == Some(f), (v: T) => SuccessPart(two) == Some(v))
  }

  /** With non-null payloads, `equals` is structural: the same outcome with
      equal payloads. */
  lemma EqualsIsStructural<T, E>(one: Result<T, E>, two: Result<T, E>)
    ensures Equals(one, two) <==> one == two
    ensures Equals(one, two) <==> (one.Ok? && two.Ok? && one.value == two.value)
                                  || (one.Fail? && two.Fail? && one.failure == two.failure)
  {
    match one
    case Ok(v) =>
      assert Equals(one, two) == (SuccessPart(two) == Some(v));
    case Fail(f) =>
      assert Equals(one, two) == (FailurePart(two) == Some(f));
  }

  /** The left-to-right pass of `flatten`: every failure overwrites the
      remembered one, every success value is appended. */
  function Collect<T, E>(rs: seq<Result<T, E>>, failure: Option<E>, values: seq<T>): (Option<E>, seq<T>)
    decreases |rs|
  {
    if |rs| == 0 then (failure, values)
    else match rs[0]
      case Fail(f) => Collect(rs[1..], Some(f), values)
      case Ok(v) => Collect(rs[1..], failure, values + [v])
  }

  /** `Result.flatten`: a failure if any input failed, else the list of
      values. */
  function Flatten<T, E>(rs: seq<Result<T, E>>): Result<seq<T>, E> {
    var (failure, values) := Collect(rs, None, []);
    match failure
    case Some(f) => Fail(f)
    case None => Ok(values)
  }

  ghost predicate AllOk<T, E>(rs: seq<Result<T, E>>) {
    forall i :: 0 <= i < |rs| ==> rs[i].Ok?
  }

  /** The payloads of the successes in `rs`, in order. */
  function OkValues<T, E>(rs: seq<Result<T, E>>): seq<T> {
    if |rs| == 0 then []
    else (if rs[0].Ok? then [rs[0].value] else []) + OkValues(rs[1..])
  }

  /** `k` is the position of the last failure in `rs`. */
  ghost predicate IsLastFailure<T, E>(rs: seq<Result<T, E>>, k: int) {
    0 <= k < |rs| && rs[k].Fail? && forall j :: k < j < |rs| ==> rs[j].Ok?
  }

  lemma {:induction false} OkValuesOfAllOk<T, E>(rs: seq<Result<T, E>>)
    requires AllOk(rs)
    ensures |OkValues(rs)| == |rs|
    ensures forall i :: 0 <= i < |rs| ==> OkValues(rs)[i] == rs[i].value
    decreases |rs|
  {
    if |rs| > 0 {
      assert AllOk(rs[1..]) by {
        forall i | 0 <= i < |rs[1..]| ensures rs[1..][i].Ok? {
          assert rs[1..][i] == rs[i + 1];
        }
      }
      OkValuesOfAllOk(rs[1..]);
    }
  }

  lemma {:induction false} CollectValues<T, E>(rs: seq<Result<T, E>>, failure: Option<E>, values: seq<T>)
    ensures Collect(rs, failure, values).1 == values + OkValues(rs)
    decreases |rs|
  {
    if |rs| > 0 {
      var f' := if rs[0].Fail? then Some(rs[0].failure) else failure;
      var head := if rs[0].Ok? then [rs[0].value] else [];
      assert values + head == if rs[0].Ok? then values + [rs[0].value] else values;
      assert Collect(rs, failure, values) == Collect(rs[1..], f', values + head);
      CollectValues(rs[1..], f', values + head);
      assert (values + head) + OkValues(rs[1..]) == values + (head + OkValues(rs[1..]));
    }
  }

  lemma {:induction false} CollectFailure<T, E>(rs: seq<Result<T, E>>, failure: Option<E>, values: seq<T>)
    ensures AllOk(rs) ==> Collect(rs, failure, values).0 == failure
    ensures !AllOk(rs) ==> exists k :: IsLastFailure(rs, k) && Collect(rs, failure, values).0 == Some(rs[k].failure)
    decreases |rs|
  {
    if |rs| == 0 {
      return;
    }
    var rest := rs[1..];
    var f' := if rs[0].Fail? then Some(rs[0].failure) else failure;
    var v' := if rs[0].Ok? then values + [rs[0].value] else values;
    assert Collect(rs, failure, values) == Collect(rest, f', v');
    CollectFailure(rest, f', v');
    if AllOk(rest) {
      if rs[0].Fail? {
        assert IsLastFailure(rs, 0);
      } else {
        assert AllOk(rs) by {
          forall i | 0 <= i < |rs| ensures rs[i].Ok? {
            if i > 0 { assert rs[i] == rest[i - 1]; }
          }
        }
      }
    } else {
      var k :| IsLastFailure(rest, k) && Collect(rest, f', v').0 == Some(rest[k].failure);
      assert IsLastFailure(rs, k + 1) by {
        forall j | k + 1 < j < |rs| ensures rs[j].Ok? {
          assert rs[j] == rest[j - 1];
        }
      }
      assert !AllOk(rs) by { assert !rs[k + 1].Ok?; }
    }
  }

  /** `flatten` succeeds with every value in input order when all inputs
      succeed, and otherwise fails with the LAST failure in the list. */
  lemma FlattenSpec<T, E>(rs: seq<Result<T, E>>)
    ensures AllOk(rs) ==> Flatten(rs).Ok? && |Flatten(rs).value| == |rs|
    ensures AllOk(rs) ==> forall i :: 0 <= i < |rs| ==> Flatten(rs).value[i] == rs[i].value
    ensures !AllOk(rs) ==> exists k :: IsLastFailure(rs, k) && Flatten(rs) == Fail(rs[k].failure)
  {
    CollectValues(rs, None, []);
    CollectFailure(rs, None, []);
    if AllOk(rs) {
      OkValuesOfAllOk(rs);
    }
  }

  /** `all(r)`: the single value, or the failure. */
  function All1<T1, E>(r1: Result<T1, E>): (m: Result<T1, E>)
    ensures m.Ok? <==> r1.Ok?
    ensures m.Ok? ==> m.value == r1.value
    ensures r1.Fail? ==> m == Fail(r1.failure)
  {
    FlatMap(r1, (v1: T1) => Ok(v1))
  }

  /** `all(r1, r2)`: the pair of values when both succeed, otherwise the
      first failure in argument order. */
  function All2<T1, T2, E>(r1: Result<T1, E>, r2: Result<T2, E>): (m: Result<(T1, T2), E>)
    ensures m.Ok? <==> r1.Ok? && r2.Ok?
    ensures m.Ok? ==> m.value == (r1.value, r2.value)
    ensures r1.Fail? ==> m == Fail(r1.failure)
    ensures r1.Ok? && r2.Fail? ==> m == Fail(r2.failure)
  {
    FlatMap(r1, (v1: T1) => FlatMap(r2, (v2: T2) => Ok((v1, v2))))
  }

  /** `all(r1, r2, r3)`: the triple of values when all succeed, otherwise
      the first failure in argument order. */
  function All3<T1, T2, T3, E>(r1: Result<T1, E>, r2: Result<T2, E>, r3: Result<T3, E>): (m: Result<(T1, T2, T3), E>)
    ensures m.Ok? <==> r1.Ok? && r2.Ok? && r3.Ok?
    ensures m.Ok? ==> m.value == (r1.value, r2.value, r3.value)
    ensures r1.Fail? ==> m == Fail(r1.failure)
    ensures r1.Ok? && r2.Fail? ==> m == Fail(r2.failure)
    ensures r1.Ok? && r2.Ok? && r3.Fail? ==> m == Fail(r3.failure)
  {
    FlatMap(r1, (v1: T1) => FlatMap(r2, (v2: T2) => FlatMap(r3, (v3: T3) => Ok((v1, v2, v3)))))
  }

  /** `map` respects composition: mapping twice is mapping once with the
      composed function. */
  lemma MapComposes<T, E, R, S>(r: Result<T, E>, f: T -> R, g: R -> S)
    ensures Map(Map(r, f), g) == Map(r, (v: T) => g(f(v)))
  {
  }

  /** `flatMap` with `ok` is the identity. */
  lemma FlatMapOkIsIdentity<T, E>(r: Result<T, E>)
    ensures FlatMap(r, (v: T) => Ok(v)) == r
  {
  }
}
