/**
 * Exceptions as a finite chain of inner links, and the unwrapping the
 * error boundary applies before it reports a failure.
 */
module Causes {
  import opened Wrappers

  /** The wrapper the host's reflective dispatch adds, or any other exception type. */
  datatype ExnKind = TargetInvocation | OtherKind(typeName: string)

  /** An exception with its message and its (possibly null) inner exception. */
  datatype Exn = Exn(kind: ExnKind, message: string, inner: Option<Exn>)

  /** `new Exception(message)`, as the updater throws it. */
  function Thrown(message: string): Exn {
    Exn(OtherKind("System.Exception"), message, None)
  }

  /** The loop in `GetGoodCause` keeps unwrapping while this holds. */
  predicate Peelable(e: Exn) {
    e.kind == TargetInvocation && e.inner.Some?
  }

  /** The exceptions reached from `e` by following inner links, `e` first. */
  function Chain(e: Exn): (r: seq<Exn>)
    ensures |r| >= 1 && r[0] == e
  {
    match e.inner
    case None => [e]
    case Some(inner) => [e] + Chain(inner)
  }

  /** The cause the boundary reports: wrappers peeled off until one is not peelable. */
  function GoodCause(e: Exn): (r: Exn)
    ensures !Peelable(r)
  {
    if Peelable(e) then GoodCause(e.inner.value) else e
  }

  /**
   * The reported cause lies on the inner-link chain of `e`, every exception
   * before it on the chain is a peelable wrapper, and it is not itself one.
   */
  lemma {:induction false} GoodCauseSpec(e: Exn)
    ensures !Peelable(GoodCause(e))
    ensures exists k ::
              && 0 <= k < |Chain(e)| && Chain(e)[k] == GoodCause(e)
              && (forall m :: 0 <= m < k ==> Peelable(Chain(e)[m]))
  {
    if Peelable(e) {
      var inner := e.inner.value;
      GoodCauseSpec(inner);
      var k :| 0 <= k < |Chain(inner)| && Chain(inner)[k] == GoodCause(inner)
        && forall m :: 0 <= m < k ==> Peelable(Chain(inner)[m]);
      assert Chain(e) == [e] + Chain(inner);
      assert Chain(e)[k + 1] == GoodCause(e);
    } else {
      assert Chain(e)[0] == GoodCause(e);
    }
  }

  /** Unwrapping an already reported cause changes nothing. */
  lemma GoodCauseIdempotent(e: Exn)
    ensures GoodCause(GoodCause(e)) == GoodCause(e)
  {
  }

  /** `GetGoodCause`: the while loop that reassigns `e` to its inner exception. */
  method GetGoodCause(e: Exn) returns (cause: Exn)
    ensures cause == GoodCause(e)
    ensures !Peelable(cause)
    ensures cause in Chain(e)
  {
    cause := e;
    while cause.kind == TargetInvocation && cause.inner.Some?
      invariant GoodCause(cause) == GoodCause(e)
      invariant cause in Chain(e)
      decreases cause
    {
      ChainStep(e, cause);
      cause := cause.inner.value;
    }
  }

  /** The inner exception of a chain member is on the chain too. */
  lemma {:induction false} ChainStep(e: Exn, c: Exn)
    requires c in Chain(e) && c.inner.Some?
    ensures c.inner.value in Chain(e)
    decreases e
  {
    if c != e {
      ChainStep(e.inner.value, c);
    }
  }
}
