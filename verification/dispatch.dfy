/**
  The sequential send loop `sendOneByOne` (server.js:37-53) and the two
  per-sender counter tables it updates.

  The transport is not modelled: `results[k]` is the outcome of the k-th
  call to `sendMail` within one loop (`true` when it resolved), and an
  attempt past the end of `results` counts as a rejected send. The random
  pause between sends has no effect on the counters and is left out.
*/
module Dispatch {

  /** One outgoing message: a single recipient, never several. */
  datatype Mail = Mail(from: string, to: string, subject: string, text: string, replyTo: string)

  /** The process-wide tables `sentCount` and `failCount`, keyed by sender
      identity. */
  datatype Counters = Counters(sent: map<string, nat>, failures: map<string, nat>)

  /** `m[k] || 0`: an absent entry reads as zero. */
  function Lookup(m: map<string, nat>, k: string): nat {
    if k in m then m[k] else 0
  }

  /** Consecutive failures at which the loop gives up. */
  const FailureLimit: nat := 3

  /** Outcome of the k-th send attempt. */
  function Delivered(results: seq<bool>, k: nat): bool {
    k < |results| && results[k]
  }

  /** The outcomes left once the first attempt has been made. */
  function Later(results: seq<bool>): seq<bool> {
    if |results| == 0 then [] else results[1..]
  }

  /** What one loop did: the number of confirmed sends, the mails handed to
      the transport (in order), and the counter tables afterwards. */
  datatype Dispatched = Dispatched(sent: nat, attempted: seq<Mail>, counters: Counters)

  /** `sendOneByOne(transporter, mails, gmail)`. A success bumps the
      sender's sent count and clears its failure count; a failure bumps the
      failure count, and the loop stops as soon as that count reaches
      `FailureLimit`, counting failures left over from earlier requests. */
  function SendOneByOne(mails: seq<Mail>, gmail: string, c: Counters, results: seq<bool>): (d: Dispatched)
    ensures d.sent <= |d.attempted| <= |mails|
    ensures d.attempted == mails[..|d.attempted|]
    ensures Lookup(d.counters.sent, gmail) == Lookup(c.sent, gmail) + d.sent
    ensures d.sent == 0 ==> d.counters.sent == c.sent
    ensures d.counters.sent - {gmail} == c.sent - {gmail}
    ensures d.counters.failures - {gmail} == c.failures - {gmail}
    ensures |d.attempted| < |mails| ==>
      && 0 < |d.attempted|
      && !Delivered(results, |d.attempted| - 1)
      && Lookup(d.counters.failures, gmail) >= FailureLimit
    decreases |mails|
  {
    if |mails| == 0 then Dispatched(0, [], c)
    else if Delivered(results, 0) then
      var c' := Counters(c.sent[gmail := Lookup(c.sent, gmail) + 1], c.failures[gmail := 0]);
      assert c'.sent - {gmail} == c.sent - {gmail} && c'.failures - {gmail} == c.failures - {gmail};
      var rest := SendOneByOne(mails[1..], gmail, c', Later(results));
      assert 0 < |rest.attempted| ==>
        Delivered(results, |rest.attempted|) == Delivered(Later(results), |rest.attempted| - 1);
      Dispatched(rest.sent + 1, [mails[0]] + rest.attempted, rest.counters)
    else
      var failures := Lookup(c.failures, gmail) + 1;
      var c' := c.(failures := c.failures[gmail := failures]);
      assert c'.failures - {gmail} == c.failures - {gmail};
      if failures >= FailureLimit then
        Dispatched(0, [mails[0]], c')
      else
        var rest := SendOneByOne(mails[1..], gmail, c', Later(results));
        assert 0 < |rest.attempted| ==>
          Delivered(results, |rest.attempted|) == Delivered(Later(results), |rest.attempted| - 1);
        Dispatched(rest.sent, [mails[0]] + rest.attempted, rest.counters)
  }

  /** Reference: the sender's failure count after `k` attempts that started
      from `f0`. A success resets it, a failure adds one. */
  function FailsAfter(f0: nat, results: seq<bool>, k: nat): nat {
    if k == 0 then f0
    else if Delivered(results, k - 1) then 0
    else FailsAfter(f0, results, k - 1) + 1
  }

  /** Reference: the number of successes among the first `k` attempts. */
  function Successes(results: seq<bool>, k: nat): nat {
    if k == 0 then 0
    else Successes(results, k - 1) + (if Delivered(results, k - 1) then 1 else 0)
  }

  /** Reference: attempt `k` failed and brought the failure count to the
      limit, so the loop breaks right after it. */
  predicate Trips(f0: nat, results: seq<bool>, k: nat) {
    k > 0 && !Delivered(results, k - 1) && FailsAfter(f0, results, k) >= FailureLimit
  }

  lemma {:induction false} FailsAfterShift(f0: nat, results: seq<bool>, k: nat)
    ensures FailsAfter(f0, results, k + 1) == FailsAfter(FailsAfter(f0, results, 1), Later(results), k)
  {
    if k > 0 {
      FailsAfterShift(f0, results, k - 1);
      assert Delivered(results, k) == Delivered(Later(results), k - 1);
    }
  }

  lemma {:induction false} SuccessesShift(results: seq<bool>, k: nat)
    ensures Successes(results, k + 1) == Successes(results, 1) + Successes(Later(results), k)
  {
    if k > 0 {
      SuccessesShift(results, k - 1);
      assert Delivered(results, k) == Delivered(Later(results), k - 1);
    }
  }

  lemma TripsShift(f0: nat, results: seq<bool>, k: nat)
    requires k > 0
    ensures Trips(f0, results, k + 1) == Trips(FailsAfter(f0, results, 1), Later(results), k)
  {
    FailsAfterShift(f0, results, k);
    assert Delivered(results, k) == Delivered(Later(results), k - 1);
  }

  /** `n` attempts out of `total` mails, `sent` successes and a final
      failure count `fails` are what the reference predicts from `f0`: the
      successes are counted right, the failure count is right, no earlier
      attempt tripped the breaker, and stopping short of `total` means the
      last attempt tripped it. */
  ghost predicate Agrees(f0: nat, results: seq<bool>, n: nat, total: nat, sent: nat, fails: nat) {
    && sent == Successes(results, n)
    && fails == FailsAfter(f0, results, n)
    && (forall k :: 0 < k < n ==> !Trips(f0, results, k))
    && (n < total ==> Trips(f0, results, n))
  }

  /** One attempt that does not trip the breaker, followed by a run that
      agrees with the reference from the updated failure count, agrees with
      the reference as a whole. */
  lemma AgreesStep(f0: nat, results: seq<bool>, m: nat, total: nat, sent: nat, fails: nat)
    requires total >= 1 && !Trips(f0, results, 1)
    requires Agrees(FailsAfter(f0, results, 1), Later(results), m, total - 1, sent, fails)
    ensures Agrees(f0, results, m + 1, total, Successes(results, 1) + sent, fails)
  {
    SuccessesShift(results, m);
    FailsAfterShift(f0, results, m);
    forall k | 0 < k < m + 1 ensures !Trips(f0, results, k) {
      if k > 1 {
        TripsShift(f0, results, k - 1);
      }
    }
    if m + 1 < total {
      TripsShift(f0, results, m);
    }
  }

  /** The loop agrees with the reference counters: it attempts mails until
      the first attempt that trips the breaker (or until the list ends),
      reports exactly the successes among those attempts, and leaves the
      failure count the reference predicts. */
  lemma {:induction false} SendOneByOneMatchesReference(mails: seq<Mail>, gmail: string, c: Counters, results: seq<bool>)
    ensures var d := SendOneByOne(mails, gmail, c, results);
      Agrees(Lookup(c.failures, gmail), results, |d.attempted|, |mails|, d.sent, Lookup(d.counters.failures, gmail))
    decreases |mails|, 2
  {
    var f0 := Lookup(c.failures, gmail);
    assert FailsAfter(f0, results, 0) == f0;
    if |mails| > 0 {
      var f1 := FailsAfter(f0, results, 1);
      assert f1 == (if Delivered(results, 0) then 0 else f0 + 1);
      assert Successes(results, 1) == (if Delivered(results, 0) then 1 else 0);
      if Delivered(results, 0) {
        ReferenceAfterSuccess(mails, gmail, c, results);
      } else if f1 < FailureLimit {
        ReferenceAfterFailure(mails, gmail, c, results);
      }
    }
  }

  lemma {:induction false} ReferenceAfterSuccess(mails: seq<Mail>, gmail: string, c: Counters, results: seq<bool>)
    requires |mails| > 0 && Delivered(results, 0)
    ensures var d := SendOneByOne(mails, gmail, c, results);
      Agrees(Lookup(c.failures, gmail), results, |d.attempted|, |mails|, d.sent, Lookup(d.counters.failures, gmail))
    decreases |mails|, 1
  {
    var c' := Counters(c.sent[gmail := Lookup(c.sent, gmail) + 1], c.failures[gmail := 0]);
    ReferenceAfterFirst(mails, gmail, c, results, c');
  }

  lemma {:induction false} ReferenceAfterFailure(mails: seq<Mail>, gmail: string, c: Counters, results: seq<bool>)
    requires |mails| > 0 && !Delivered(results, 0)
    requires Lookup(c.failures, gmail) + 1 < FailureLimit
    ensures var d := SendOneByOne(mails, gmail, c, results);
      Agrees(Lookup(c.failures, gmail), results, |d.attempted|, |mails|, d.sent, Lookup(d.counters.failures, gmail))
    decreases |mails|, 1
  {
    var c' := c.(failures := c.failures[gmail := Lookup(c.failures, gmail) + 1]);
    assert FailsAfter(Lookup(c.failures, gmail), results, 0) == Lookup(c.failures, gmail);
    ReferenceAfterFirst(mails, gmail, c, results, c');
  }

  /** The inductive step of `SendOneByOneMatchesReference`, for a first
      attempt that leaves the counters at `c'` and does not stop the loop. */
  lemma {:induction false} ReferenceAfterFirst(mails: seq<Mail>, gmail: string, c: Counters, results: seq<bool>, c': Counters)
    requires |mails| > 0 && !Trips(Lookup(c.failures, gmail), results, 1)
    requires Lookup(c'.failures, gmail) == FailsAfter(Lookup(c.failures, gmail), results, 1)
    requires var rest := SendOneByOne(mails[1..], gmail, c', Later(results));
      SendOneByOne(mails, gmail, c, results)
        == Dispatched(Successes(results, 1) + rest.sent, [mails[0]] + rest.attempted, rest.counters)
    ensures var d := SendOneByOne(mails, gmail, c, results);
      Agrees(Lookup(c.failures, gmail), results, |d.attempted|, |mails|, d.sent, Lookup(d.counters.failures, gmail))
    decreases |mails|, 0
  {
    var rest := SendOneByOne(mails[1..], gmail, c', Later(results));
    SendOneByOneMatchesReference(mails[1..], gmail, c', Later(results));
    AgreesStep(Lookup(c.failures, gmail), results, |rest.attempted|, |mails|, rest.sent, Lookup(rest.counters.failures, gmail));
  }

  /** Failures carried over from an earlier request count: a sender that
      already has `FailureLimit - 1` failures on record makes exactly one
      attempt if that attempt fails. */
  lemma CarriedFailuresTrip(mails: seq<Mail>, gmail: string, c: Counters, results: seq<bool>)
    requires |mails| > 0 && !Delivered(results, 0)
    requires Lookup(c.failures, gmail) >= FailureLimit - 1
    ensures |SendOneByOne(mails, gmail, c, results).attempted| == 1
    ensures SendOneByOne(mails, gmail, c, results).sent == 0
  {
  }
}
