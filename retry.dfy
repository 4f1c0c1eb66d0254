/** The bounded retry loop that the end-to-end test wraps around its three
    flaky steps (transfer, bill pay, the transaction-date field check).

    The test writes the loop out three times with different constants; here
    it is written once, over a `Policy` holding those constants, and each
    call site is a wrapper that fixes them. The browser is abstracted: the
    caller supplies, for every attempt, whether the step succeeded, failed
    with the "An internal error has occurred" banner on the page, or failed
    without it. Diagnostics writes are not modelled; reloads and backoff
    delays (in milliseconds) are counted and recorded. */
module Retry {
  import opened Text

  datatype Attempt = Success | FailWithBanner(err: string) | FailNoBanner(err: string)

  /** maxAttempts: the loop bound; backoffUnit: the wait after a failed
      attempt `a` without the banner is backoffUnit * a; throwOnLast: whether
      such a failure on the last attempt rethrows (true) or breaks (false). */
  datatype Policy = Policy(maxAttempts: nat, backoffUnit: nat, throwOnLast: bool)

  const TransferPolicy := Policy(1, 2000, true)
  const BillPayPolicy := Policy(3, 1500, true)
  const FindTransactionsPolicy := Policy(3, 1000, false)

  /** How the loop ends: by `break` after a success, by rethrowing the
      caught error, or by running out of attempts (or breaking after a last
      failure when the policy does not throw). */
  datatype Exit = Passed | Threw(err: string) | FellThrough

  datatype LoopResult = LoopResult(exit: Exit, attempts: nat, reloads: nat, waits: seq<nat>, lastErr: Option<string>)

  // ---------------------------------------------------------------------
  // Closed-form description of the loop, independent of its control flow.

  /** Index of the first successful attempt in `s`, or |s| when none succeeded
      (the same search as `GlobalSetup.FirstFailure` and `DemoServer.IndexOf`). */
  function FirstSuccess(s: seq<Attempt>): (k: nat)
    ensures k <= |s|
    ensures k < |s| ==> s[k] == Success
    ensures forall j :: 0 <= j < k ==> s[j] != Success
  {
    if s == [] then 0 else if s[0] == Success then 0 else 1 + FirstSuccess(s[1..])
  }

  /** The number of attempts the loop makes: up to and including the first
      success, or all of them. */
  function Consumed(p: Policy, os: seq<Attempt>): nat
    requires p.maxAttempts <= |os|
  {
    var k := FirstSuccess(os[..p.maxAttempts]);
    if k < p.maxAttempts then k + 1 else p.maxAttempts
  }

  /** How the loop ends: passed when some allowed attempt succeeds; otherwise
      decided by the last attempt alone. */
  function ExitOf(p: Policy, os: seq<Attempt>): Exit
    requires p.maxAttempts <= |os|
  {
    if FirstSuccess(os[..p.maxAttempts]) < p.maxAttempts then Passed
    else if p.maxAttempts == 0 then FellThrough
    else match os[p.maxAttempts - 1]
      case FailNoBanner(e) => if p.throwOnLast then Threw(e) else FellThrough
      case _ => FellThrough
  }

  /** The number of attempts in `s` that showed the banner. */
  function Banners(s: seq<Attempt>): nat
    decreases |s|
  {
    if s == [] then 0
    else Banners(s[..|s| - 1]) + (if s[|s| - 1].FailWithBanner? then 1 else 0)
  }

  /** The backoff delays taken after the attempts in `s`, attempt number
      i + 1 being s[i]: one per failure without the banner that is not the
      last allowed attempt. */
  function Backoffs(p: Policy, s: seq<Attempt>): seq<nat>
    decreases |s|
  {
    if s == [] then []
    else Backoffs(p, s[..|s| - 1]) +
         (if s[|s| - 1].FailNoBanner? && |s| < p.maxAttempts then [p.backoffUnit * |s|] else [])
  }

  // ---------------------------------------------------------------------
  // The loop itself.

  /** `for (let attempt = 1; attempt <= max; attempt++) { try … } catch … }`
      over the supplied attempt outcomes. */
  method RunRetry(p: Policy, os: seq<Attempt>) returns (r: LoopResult)
    requires p.maxAttempts <= |os|
    ensures r.exit == ExitOf(p, os)
    ensures r.attempts == Consumed(p, os)
    ensures r.reloads == Banners(os[..r.attempts])
    ensures r.waits == Backoffs(p, os[..r.attempts])
    ensures r.lastErr == if r.exit == Passed || r.attempts == 0 then None else Some(os[r.attempts - 1].err)
  {
    var attempt := 1;
    var tried := 0;
    var lastErr: Option<string> := None;
    var reloads := 0;
    var waits: seq<nat> := [];
    var exit := FellThrough;
    while attempt <= p.maxAttempts
      invariant 1 <= attempt <= p.maxAttempts + 1
      invariant tried == attempt - 1
      invariant forall j :: 0 <= j < tried ==> os[j] != Success
      invariant reloads == Banners(os[..tried])
      invariant waits == Backoffs(p, os[..tried])
      invariant lastErr == if tried == 0 then None else Some(os[tried - 1].err)
      invariant tried == p.maxAttempts && tried >= 1 ==> os[tried - 1].FailWithBanner?
      invariant exit == FellThrough
    {
      var outcome := os[attempt - 1];
      tried := attempt;
      assert os[..tried][..tried - 1] == os[..tried - 1];
      if outcome == Success {
        lastErr := None;
        exit := Passed;
        break;
      }
      lastErr := Some(outcome.err);
      if outcome.FailWithBanner? {
        // diagnostics are best-effort; the page is reloaded and the loop
        // continues without looking at the attempt number
        reloads := reloads + 1;
        attempt := attempt + 1;
        continue;
      }
      if attempt == p.maxAttempts {
        exit := if p.throwOnLast then Threw(outcome.err) else FellThrough;
        break;
      }
      waits := waits + [p.backoffUnit * attempt];
      attempt := attempt + 1;
    }
    StoppedAt(p, os, tried);
    r := LoopResult(exit, tried, reloads, waits, lastErr);
  }

  /** Helper for RunRetry: where the loop stops determines Consumed. */
  lemma StoppedAt(p: Policy, os: seq<Attempt>, n: nat)
    requires n <= p.maxAttempts <= |os|
    requires forall j :: 0 <= j < n - 1 ==> os[j] != Success
    requires n < p.maxAttempts ==> n >= 1 && os[n - 1] == Success
    requires n == p.maxAttempts && n >= 1 ==> os[n - 1] == Success || forall j :: 0 <= j < n ==> os[j] != Success
    ensures Consumed(p, os) == n
    ensures n >= 1 && os[n - 1] == Success ==> ExitOf(p, os) == Passed
    ensures n >= 1 && os[n - 1] != Success ==>
              ExitOf(p, os) == if os[n - 1].FailNoBanner? && p.throwOnLast then Threw(os[n - 1].err) else FellThrough
    ensures n == 0 ==> ExitOf(p, os) == FellThrough
  {
    var s := os[..p.maxAttempts];
    var k := FirstSuccess(s);
    if n >= 1 && os[n - 1] == Success {
      assert s[n - 1] == Success;
    }
  }

  // ---------------------------------------------------------------------
  // The three call sites.

  /** The transfer step: a single attempt. */
  method TransferWithRetry(os: seq<Attempt>) returns (r: LoopResult)
    requires |os| >= 1
    ensures r.attempts == 1 && r.waits == []
    ensures os[0] == Success ==> r.exit == Passed && r.reloads == 0
    ensures os[0].FailWithBanner? ==> r.exit == FellThrough && r.reloads == 1
    ensures os[0].FailNoBanner? ==> r.exit == Threw(os[0].err) && r.reloads == 0
  {
    r := RunRetry(TransferPolicy, os);
    assert os[..1][..0] == [];
  }

  /** The bill-pay step: up to three attempts, waiting 1500 ms times the
      attempt number after a failure without the banner. */
  method BillPayWithRetry(os: seq<Attempt>) returns (r: LoopResult)
    requires |os| >= 3
    ensures 1 <= r.attempts <= 3
    ensures r.exit == Passed <==> Success in os[..3]
    ensures r.exit.Threw? <==> Success !in os[..3] && os[2].FailNoBanner?
    ensures r.exit.Threw? ==> r.exit.err == os[2].err
    ensures r.exit == FellThrough <==> Success !in os[..3] && os[2].FailWithBanner?
    ensures r.attempts == Consumed(BillPayPolicy, os)
    ensures r.exit == Passed ==> os[r.attempts - 1] == Success && Success !in os[..r.attempts - 1]
    ensures r.reloads == Banners(os[..r.attempts])
    ensures r.waits == Backoffs(BillPayPolicy, os[..r.attempts])
    ensures forall i :: 0 <= i < |r.waits| ==> r.waits[i] == 1500 || r.waits[i] == 3000
  {
    r := RunRetry(BillPayPolicy, os);
    SuccessInPrefix(BillPayPolicy, os);
    BackoffsScaled(BillPayPolicy, os[..r.attempts]);
  }

  /** The transaction-date check: up to three attempts, waiting 1000 ms
      times the attempt number; a last failure without the banner breaks,
      so this loop never throws. */
  method FindTransactionsWithRetry(os: seq<Attempt>) returns (r: LoopResult)
    requires |os| >= 3
    ensures 1 <= r.attempts <= 3
    ensures !r.exit.Threw?
    ensures r.exit == Passed <==> Success in os[..3]
    ensures r.attempts == Consumed(FindTransactionsPolicy, os)
    ensures r.exit == Passed ==> os[r.attempts - 1] == Success && Success !in os[..r.attempts - 1]
    ensures r.reloads == Banners(os[..r.attempts])
    ensures r.waits == Backoffs(FindTransactionsPolicy, os[..r.attempts])
  {
    r := RunRetry(FindTransactionsPolicy, os);
    SuccessInPrefix(FindTransactionsPolicy, os);
  }

  // ---------------------------------------------------------------------
  // Properties of the loop.

  /** The loop passes exactly when some allowed attempt succeeds, and then
      it stops at the first success. */
  lemma SuccessInPrefix(p: Policy, os: seq<Attempt>)
    requires p.maxAttempts <= |os|
    ensures ExitOf(p, os) == Passed <==> Success in os[..p.maxAttempts]
    ensures ExitOf(p, os) == Passed ==> os[Consumed(p, os) - 1] == Success
    ensures forall j :: 0 <= j < Consumed(p, os) - 1 ==> os[j] != Success
    ensures Consumed(p, os) <= p.maxAttempts
    ensures p.maxAttempts > 0 ==> Consumed(p, os) >= 1
  {
    var s := os[..p.maxAttempts];
    var k := FirstSuccess(s);
    if Success in s {
      var i :| 0 <= i < |s| && s[i] == Success;
      assert k <= i;
    }
    forall j | 0 <= j < Consumed(p, os) - 1 ensures os[j] != Success {
      assert s[j] == os[j];
    }
  }

  /** The quirk of the source: a banner failure on the last allowed attempt
      reloads and continues past the bound, so the loop ends without
      throwing although no attempt succeeded. */
  lemma BannerOnLastAttemptFallsThrough(p: Policy, os: seq<Attempt>)
    requires 1 <= p.maxAttempts <= |os|
    requires Success !in os[..p.maxAttempts]
    requires os[p.maxAttempts - 1].FailWithBanner?
    ensures ExitOf(p, os) == FellThrough
    ensures Consumed(p, os) == p.maxAttempts
  {
    SuccessInPrefix(p, os);
  }

  /** A failure without the banner on the last allowed attempt rethrows the
      error caught on that attempt (when the policy throws). */
  lemma NoBannerOnLastAttemptThrows(p: Policy, os: seq<Attempt>)
    requires 1 <= p.maxAttempts <= |os| && p.throwOnLast
    requires Success !in os[..p.maxAttempts]
    requires os[p.maxAttempts - 1].FailNoBanner?
    ensures ExitOf(p, os) == Threw(os[p.maxAttempts - 1].err)
  {
    SuccessInPrefix(p, os);
  }

  /** All attempts in `s` show the banner: one reload each and no waits. */
  lemma {:induction false} AllBanners(p: Policy, s: seq<Attempt>)
    requires forall j :: 0 <= j < |s| ==> s[j].FailWithBanner?
    ensures Banners(s) == |s|
    ensures Backoffs(p, s) == []
    decreases |s|
  {
    if s != [] {
      AllBanners(p, s[..|s| - 1]);
    }
  }

  /** A step that shows the banner n - 1 times and then succeeds passes
      after exactly n attempts with n - 1 reloads and no waits. */
  lemma TransientThenSuccess(p: Policy, os: seq<Attempt>, n: nat)
    requires 1 <= n <= p.maxAttempts <= |os|
    requires forall j :: 0 <= j < n - 1 ==> os[j].FailWithBanner?
    requires os[n - 1] == Success
    ensures ExitOf(p, os) == Passed
    ensures Consumed(p, os) == n
    ensures Banners(os[..n]) == n - 1
    ensures Backoffs(p, os[..n]) == []
  {
    StoppedAt(p, os, n);
    var s := os[..n];
    AllBanners(p, s[..n - 1]);
    assert s[..n - 1] == os[..n - 1];
    assert s[..|s| - 1] == os[..n - 1];
  }

  /** A step that always shows the banner uses every allowed attempt,
      reloads after each, and ends without an error. */
  lemma AlwaysBanner(p: Policy, os: seq<Attempt>)
    requires p.maxAttempts <= |os|
    requires forall j :: 0 <= j < p.maxAttempts ==> os[j].FailWithBanner?
    ensures ExitOf(p, os) == FellThrough
    ensures Consumed(p, os) == p.maxAttempts
    ensures Banners(os[..p.maxAttempts]) == p.maxAttempts
    ensures Backoffs(p, os[..p.maxAttempts]) == []
  {
    SuccessInPrefix(p, os);
    AllBanners(p, os[..p.maxAttempts]);
  }

  /** Every attempt either reloads, waits, or is the one the loop stops on:
      reloads and waits together never exceed the attempts made. */
  lemma {:induction false} ReloadsAndWaitsBounded(p: Policy, s: seq<Attempt>)
    ensures Banners(s) + |Backoffs(p, s)| <= |s|
    decreases |s|
  {
    if s != [] {
      ReloadsAndWaitsBounded(p, s[..|s| - 1]);
    }
  }

  /** `d` is the backoff unit times an attempt number that is below the
      loop bound and at most `bound`. */
  ghost predicate ScaledDelay(p: Policy, d: nat, bound: nat) {
    exists a :: 1 <= a < p.maxAttempts && a <= bound && d == p.backoffUnit * a
  }

  /** The waits are linear in the attempt number: each is the unit times
      an attempt number below the bound, and they increase strictly. */
  lemma {:induction false} BackoffsScaled(p: Policy, s: seq<Attempt>)
    ensures forall i :: 0 <= i < |Backoffs(p, s)| ==> ScaledDelay(p, Backoffs(p, s)[i], |s|)
    ensures p.backoffUnit > 0 ==>
              forall i, j :: 0 <= i < j < |Backoffs(p, s)| ==> Backoffs(p, s)[i] < Backoffs(p, s)[j]
    ensures p.backoffUnit > 0 ==>
              forall i :: 0 <= i < |Backoffs(p, s)| ==> Backoffs(p, s)[i] <= p.backoffUnit * |s|
    decreases |s|
  {
    if s != [] {
      var t := s[..|s| - 1];
      BackoffsScaled(p, t);
      var b := Backoffs(p, s);
      var bt := Backoffs(p, t);
      assert bt <= b;
      forall i | 0 <= i < |b|
        ensures ScaledDelay(p, b[i], |s|)
      {
        if i < |bt| {
          assert ScaledDelay(p, bt[i], |t|);
          var a :| 1 <= a < p.maxAttempts && a <= |t| && bt[i] == p.backoffUnit * a;
          assert b[i] == p.backoffUnit * a;
        } else {
          assert b[i] == p.backoffUnit * |s|;
        }
      }
      assert p.backoffUnit * |t| <= p.backoffUnit * |s|;
      if p.backoffUnit > 0 {
        assert p.backoffUnit * |t| < p.backoffUnit * |s|;
      }
    }
  }
}
