/** `BusyService`: the count of requests in flight and whether the loading
    spinner is shown. */
module Busy {

  datatype Busy = Busy(count: int, spinnerVisible: bool)

  const Initial := Busy(0, false)

  /** The count is never negative and the spinner shows exactly while it is
      positive. */
  predicate Valid(b: Busy) {
    b.count >= 0 && (b.spinnerVisible <==> b.count > 0)
  }

  /** `busy`: one more request, spinner shown. */
  function Start(b: Busy): (r: Busy)
    ensures r.count == b.count + 1 && r.spinnerVisible
    ensures Valid(b) ==> Valid(r)
  {
    Busy(b.count + 1, true)
  }

  /** `idle`: one request fewer; at or below zero the count is reset to 0 and
      the spinner hidden, otherwise the spinner is left as it is. */
  function Finish(b: Busy): (r: Busy)
    ensures r.count >= 0
    ensures b.count > 1 ==> r == b.(count := b.count - 1)
    ensures b.count <= 1 ==> r == Busy(0, false)
    ensures Valid(b) ==> Valid(r)
  {
    var c := b.count - 1;
    if c <= 0 then Busy(0, false) else Busy(c, b.spinnerVisible)
  }

  datatype Request = Started | Finished

  function Run(b: Busy, requests: seq<Request>): Busy
    decreases |requests|
  {
    if |requests| == 0 then b
    else Run(if requests[0].Started? then Start(b) else Finish(b), requests[1..])
  }

  function StartCount(requests: seq<Request>): nat {
    if |requests| == 0 then 0 else (if requests[0].Started? then 1 else 0) + StartCount(requests[1..])
  }

  /** From the initial state, any interleaving of requests keeps the state
      valid, and the spinner is hidden after a run exactly when the count
      came back to 0. */
  lemma {:induction false} RunKeepsValid(b: Busy, requests: seq<Request>)
    requires Valid(b)
    ensures Valid(Run(b, requests))
    ensures Run(b, requests).count <= b.count + StartCount(requests)
    decreases |requests|
  {
    if |requests| > 0 {
      var next := if requests[0].Started? then Start(b) else Finish(b);
      RunKeepsValid(next, requests[1..]);
    }
  }

  /** Balanced use returns to the initial state: n requests started and then
      n finished hide the spinner again. */
  lemma {:induction false} BalancedRunHidesSpinner(n: nat)
    ensures Run(Initial, Repeat(Started, n) + Repeat(Finished, n)) == Initial
  {
    RunAppend(Initial, Repeat(Started, n), Repeat(Finished, n));
    StartsCount(Initial, n);
    FinishesDrain(Busy(n, n > 0), n);
  }

  function Repeat(r: Request, n: nat): (s: seq<Request>)
    ensures |s| == n
    ensures forall i :: 0 <= i < n ==> s[i] == r
  {
    if n == 0 then [] else [r] + Repeat(r, n - 1)
  }

  lemma {:induction false} RunAppend(b: Busy, xs: seq<Request>, ys: seq<Request>)
    ensures Run(b, xs + ys) == Run(Run(b, xs), ys)
    decreases |xs|
  {
    if |xs| > 0 {
      assert (xs + ys)[1..] == xs[1..] + ys;
      RunAppend(if xs[0].Started? then Start(b) else Finish(b), xs[1..], ys);
    } else {
      assert xs + ys == ys;
    }
  }

  lemma {:induction false} StartsCount(b: Busy, n: nat)
    requires Valid(b)
    ensures Run(b, Repeat(Started, n)) == Busy(b.count + n, b.count + n > 0)
    decreases n
  {
    if n > 0 {
      assert Repeat(Started, n)[1..] == Repeat(Started, n - 1);
      StartsCount(Start(b), n - 1);
    }
  }

  lemma {:induction false} FinishesDrain(b: Busy, n: nat)
    requires Valid(b) && b.count == n
    ensures Run(b, Repeat(Finished, n)) == Initial
    decreases n
  {
    if n > 0 {
      assert Repeat(Finished, n)[1..] == Repeat(Finished, n - 1);
      FinishesDrain(Finish(b), n - 1);
    }
  }
}
