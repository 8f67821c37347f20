/** The shape of the keep-alive loop of app/main.go `handleConnection`,
    independent of what a buffer holds: each read either fails (`None`, and
    the loop reads again) or delivers a value (`Some`), which the loop takes;
    the loop stops after the first value that asks it to. `ok` is what a
    delivered value must satisfy to be taken at all, `stops` the stop
    decision. */
module KeepAlive {
  import opened Options

  /** Every value the loop takes satisfies `ok`: those delivered up to and
      including the first one that stops it. */
  predicate OkUntilStop<B>(arrivals: seq<Option<B>>, ok: B -> bool, stops: B -> bool)
    decreases |arrivals|
  {
    |arrivals| == 0 ||
    match arrivals[0]
    case None => OkUntilStop(arrivals[1..], ok, stops)
    case Some(b) => ok(b) && (stops(b) || OkUntilStop(arrivals[1..], ok, stops))
  }

  /** The values the loop takes, in order. */
  function Taken<B>(arrivals: seq<Option<B>>, ok: B -> bool, stops: B -> bool): (taken: seq<B>)
    requires OkUntilStop(arrivals, ok, stops)
    ensures forall i :: 0 <= i < |taken| ==> ok(taken[i])
    ensures forall i :: 0 <= i < |taken| - 1 ==> !stops(taken[i])
    decreases |arrivals|
  {
    if |arrivals| == 0 then []
    else match arrivals[0]
      case None => Taken(arrivals[1..], ok, stops)
      case Some(b) => if stops(b) then [b] else [b] + Taken(arrivals[1..], ok, stops)
  }

  /** Every delivered value, whether or not the loop would get to it. */
  function Delivered<B>(arrivals: seq<Option<B>>): seq<B>
    decreases |arrivals|
  {
    if |arrivals| == 0 then []
    else match arrivals[0]
      case None => Delivered(arrivals[1..])
      case Some(b) => [b] + Delivered(arrivals[1..])
  }

  predicate AllOk<B>(arrivals: seq<Option<B>>, ok: B -> bool)
  {
    forall i :: 0 <= i < |arrivals| && arrivals[i].Some? ==> ok(arrivals[i].value)
  }

  lemma AllOkTail<B>(arrivals: seq<Option<B>>, ok: B -> bool)
    requires |arrivals| > 0 && AllOk(arrivals, ok)
    ensures AllOk(arrivals[1..], ok)
  {
    forall i | 0 <= i < |arrivals| - 1 && arrivals[1..][i].Some?
      ensures ok(arrivals[1..][i].value)
    {
      assert arrivals[1..][i] == arrivals[i + 1];
    }
  }

  /** Every delivered value is acceptable when every read is. */
  lemma {:induction false} DeliveredOk<B>(arrivals: seq<Option<B>>, ok: B -> bool)
    requires AllOk(arrivals, ok)
    ensures forall i :: 0 <= i < |Delivered(arrivals)| ==> ok(Delivered(arrivals)[i])
    decreases |arrivals|
  {
    if |arrivals| > 0 {
      AllOkTail(arrivals, ok);
      DeliveredOk(arrivals[1..], ok);
      assert arrivals[0].Some? ==> ok(arrivals[0].value);
    }
  }

  lemma PrefixCons<T>(x: T, a: seq<T>, b: seq<T>)
    requires a <= b
    ensures [x] + a <= [x] + b
  {
    assert ([x] + b)[..|a| + 1] == [x] + a;
  }

  /** `f` applied to each of `xs`. */
  function Apply<A, R>(xs: seq<A>, f: A --> R): (ys: seq<R>)
    requires forall i :: 0 <= i < |xs| ==> f.requires(xs[i])
    ensures |ys| == |xs| && forall i :: 0 <= i < |xs| ==> ys[i] == f(xs[i])
  {
    seq(|xs|, i requires 0 <= i < |xs| => f(xs[i]))
  }

  lemma ApplyPrefix<A, R>(xs: seq<A>, ys: seq<A>, f: A --> R)
    requires xs <= ys && forall i :: 0 <= i < |ys| ==> f.requires(ys[i])
    ensures Apply(xs, f) <= Apply(ys, f)
  {
    assert Apply(ys, f)[..|xs|] == Apply(xs, f);
  }

  /** When every delivered value is acceptable, the loop takes the
      delivered values up to and including the first that stops it, or all
      of them when none does. */
  lemma {:induction false} TakenUpToStop<B>(arrivals: seq<Option<B>>, ok: B -> bool, stops: B -> bool)
    requires AllOk(arrivals, ok)
    ensures OkUntilStop(arrivals, ok, stops)
    ensures Taken(arrivals, ok, stops) <= Delivered(arrivals)
    ensures |Taken(arrivals, ok, stops)| == |Delivered(arrivals)| ||
      (|Taken(arrivals, ok, stops)| > 0 && stops(Taken(arrivals, ok, stops)[|Taken(arrivals, ok, stops)| - 1]))
    decreases |arrivals|
  {
    if |arrivals| > 0 {
      var rest := arrivals[1..];
      AllOkTail(arrivals, ok);
      TakenUpToStop(rest, ok, stops);
      match arrivals[0]
      case None =>
      case Some(b) =>
        assert ok(b);
        if !stops(b) {
          var t := Taken(rest, ok, stops);
          assert Taken(arrivals, ok, stops) == [b] + t;
          PrefixCons(b, t, Delivered(rest));
          if |t| > 0 {
            assert ([b] + t)[|t|] == t[|t| - 1];
          }
        }
    }
  }

  /** The same seen through `f`: what the loop makes of the values it takes
      is what it makes of the delivered ones, up to and including the first
      whose image is `done`. */
  lemma AppliedUpToStop<B, R>(arrivals: seq<Option<B>>, ok: B -> bool, stops: B -> bool, f: B --> R, done: R -> bool)
    requires AllOk(arrivals, ok)
    requires forall b :: ok(b) ==> f.requires(b)
    requires forall b :: ok(b) && stops(b) ==> done(f(b))
    ensures OkUntilStop(arrivals, ok, stops)
    ensures forall i :: 0 <= i < |Delivered(arrivals)| ==> ok(Delivered(arrivals)[i])
    ensures var taken := Apply(Taken(arrivals, ok, stops), f);
      var delivered := Apply(Delivered(arrivals), f);
      && taken <= delivered
      && (|taken| == |delivered| || (|taken| > 0 && done(taken[|taken| - 1])))
  {
    TakenUpToStop(arrivals, ok, stops);
    DeliveredOk(arrivals, ok);
    var taken := Taken(arrivals, ok, stops);
    ApplyPrefix(taken, Delivered(arrivals), f);
  }

  /** Whatever arrives after the value that stops the loop is never read:
      neither whether it is acceptable nor what it is matters. */
  lemma {:induction false} NothingAfterStop<B>(arrivals: seq<Option<B>>, later: seq<Option<B>>, ok: B -> bool, stops: B -> bool)
    requires OkUntilStop(arrivals, ok, stops)
    requires |Taken(arrivals, ok, stops)| > 0 && stops(Taken(arrivals, ok, stops)[|Taken(arrivals, ok, stops)| - 1])
    ensures OkUntilStop(arrivals + later, ok, stops)
    ensures Taken(arrivals + later, ok, stops) == Taken(arrivals, ok, stops)
    decreases |arrivals|
  {
    var rest := arrivals[1..];
    var all := arrivals + later;
    assert all[0] == arrivals[0] && all[1..] == rest + later;
    match arrivals[0]
    case None =>
      NothingAfterStop(rest, later, ok, stops);
    case Some(b) =>
      if !stops(b) {
        var t := Taken(rest, ok, stops);
        assert Taken(arrivals, ok, stops) == [b] + t;
        assert ([b] + t)[|t|] == t[|t| - 1];
        NothingAfterStop(rest, later, ok, stops);
      }
  }
}
