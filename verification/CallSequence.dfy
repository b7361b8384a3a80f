/** One caller making calls one after another over one inbound stream: whatever of an earlier call
    still arrives has no part in a later one. */
module CallSequence {
  import opened Bytes
  import opened ModuleProtocol
  import opened Rpc
  import opened ModuleCaller
  import Wire

  /** What is left of the stream when a wait has ended. */
  function Rest(polls: seq<Polled>, kind: u32, corr: u64, acc: seq<byte>): seq<Polled> {
    if polls == [] then [] else
      match polls[0]
      case PollFailed(_) => polls[1..]
      case Nothing(contextDone, expired) => if contextDone || expired then polls[1..] else Rest(polls[1..], kind, corr, acc)
      case Delivered(p) =>
        var o := Consider(p, kind, corr, acc);
        if o.Pending? then Rest(polls[1..], kind, corr, o.acc) else polls[1..]
  }

  /** What a wait leaves is what stands behind the polls it used. */
  lemma {:induction false} RestIs(polls: seq<Polled>, used: nat, kind: u32, corr: u64, acc: seq<byte>)
    requires EndsAfter(polls, used, kind, corr, acc)
    ensures Rest(polls, kind, corr, acc) == polls[used..]
    decreases |polls|
  {
    hide Consider;
    if polls != [] {
      var o := Await([polls[0]], kind, corr, acc);
      assert polls[..0] == [] && used > 0;
      FirstDecides(polls, 1, kind, corr, acc);
      if o.Pending? {
        forall n | 0 < n <= used ensures Await(polls[..n], kind, corr, acc) == Await(polls[1..][..n - 1], kind, corr, o.acc) {
          FirstDecides(polls, n, kind, corr, acc);
        }
        forall n | 0 <= n < used - 1 ensures Await(polls[1..][..n], kind, corr, o.acc).Pending? {
          assert Await(polls[..n + 1], kind, corr, acc).Pending?;
        }
        RestIs(polls[1..], used - 1, kind, corr, o.acc);
      }
    }
  }

  lemma FirstDecides(polls: seq<Polled>, n: nat, kind: u32, corr: u64, acc: seq<byte>)
    requires 0 < n <= |polls|
    ensures var o := Await([polls[0]], kind, corr, acc);
      Await(polls[..n], kind, corr, acc) == if o.Pending? then Await(polls[1..][..n - 1], kind, corr, o.acc) else o
  {
    assert polls[..n] == [polls[0]] + polls[1..][..n - 1];
    AwaitConcat([polls[0]], polls[1..][..n - 1], kind, corr, acc);
  }

  /** A call of one kind that got to wait for its reply, or failed to send. */
  datatype Attempt = Attempt(kind: u32, waited: bool)

  datatype Ending = Unsent | Ended(outcome: Outcome)

  function Next(corr: u64): u64 { (corr + 1) % TWO_64 }

  /** How calls end that share a stream, the last correlation used before them being corr. */
  function Endings(polls: seq<Polled>, attempts: seq<Attempt>, corr: u64): (ends: seq<Ending>)
    ensures |ends| == |attempts|
    decreases |attempts|
  {
    if attempts == [] then [] else
      var c := Next(corr);
      [if attempts[0].waited then Ended(Await(polls, attempts[0].kind, c, [])) else Unsent] +
      Endings(After(polls, attempts[0], c), attempts[1..], c)
  }

  /** The stream a call leaves to the next one. */
  function After(polls: seq<Polled>, attempt: Attempt, corr: u64): seq<Polled> {
    if attempt.waited then Rest(polls, attempt.kind, corr, []) else polls
  }

  /** The stream n calls leave. */
  function AfterAll(polls: seq<Polled>, attempts: seq<Attempt>, corr: u64, n: nat): seq<Polled>
    requires n <= |attempts|
    decreases n
  {
    if n == 0 then polls else AfterAll(After(polls, attempts[0], Next(corr)), attempts[1..], Next(corr), n - 1)
  }

  /** The stream with every event of one correlation deleted. */
  function Without(polls: seq<Polled>, c: u64): seq<Polled> {
    if polls == [] then []
    else if polls[0].Delivered? && polls[0].packet.corr == c then Without(polls[1..], c)
    else [polls[0]] + Without(polls[1..], c)
  }

  /** Events of another correlation change neither how a wait ends nor, but for themselves, what it leaves. */
  lemma {:induction false} AwaitWithout(polls: seq<Polled>, kind: u32, corr: u64, acc: seq<byte>, c: u64)
    requires c != corr
    ensures Await(Without(polls, c), kind, corr, acc) == Await(polls, kind, corr, acc)
    ensures Rest(Without(polls, c), kind, corr, acc) == Without(Rest(polls, kind, corr, acc), c)
    decreases |polls|
  {
    if polls != [] {
      var p := polls[0];
      if p.Delivered? {
        OtherPending(p.packet, kind, corr, acc, c);
        var o := Consider(p.packet, kind, corr, acc);
        hide Consider;
        AwaitWithout(polls[1..], kind, corr, if o.Pending? then o.acc else acc, c);
        if p.packet.corr != c {
          assert Without(polls, c)[1..] == Without(polls[1..], c);
        }
      } else {
        AwaitWithout(polls[1..], kind, corr, acc, c);
        assert Without(polls, c)[1..] == Without(polls[1..], c);
      }
    }
  }

  lemma OtherPending(p: Packet, kind: u32, corr: u64, acc: seq<byte>, c: u64)
    requires c != corr
    ensures p.corr == c ==> Consider(p, kind, corr, acc) == Pending(acc)
  {
    hide ModuleProtocol.Decode;
  }

  /** The correlation of the n-th call after corr. */
  function Corr(corr: u64, n: nat): u64 { (corr + n) % TWO_64 }

  lemma CorrNext(corr: u64, n: nat)
    ensures Corr(Next(corr), n) == Corr(corr, n + 1)
  {
    assert corr + 1 < TWO_64 || corr + 1 == TWO_64;
    assert corr + 1 == TWO_64 ==> (corr + (n + 1)) % TWO_64 == n % TWO_64;
  }

  ghost predicate Uses(corr: u64, n: nat, c: u64) {
    exists k :: 1 <= k <= n && Corr(corr, k) == c
  }

  lemma UsesNext(corr: u64, n: nat, c: u64)
    requires n > 0 && !Uses(corr, n, c)
    ensures Next(corr) != c && !Uses(Next(corr), n - 1, c)
  {
    assert Corr(corr, 1) == Next(corr);
    forall k | 1 <= k <= n - 1 ensures Corr(Next(corr), k) != c { CorrNext(corr, k); }
  }

  /** Events of a correlation that none of the calls uses change none of their endings. */
  lemma {:induction false} EndingsWithout(polls: seq<Polled>, attempts: seq<Attempt>, corr: u64, c: u64)
    requires !Uses(corr, |attempts|, c)
    ensures Endings(Without(polls, c), attempts, corr) == Endings(polls, attempts, corr)
    decreases |attempts|
  {
    if attempts != [] {
      hide Await, Rest, Without, Uses, Next;
      UsesNext(corr, |attempts|, c);
      AwaitWithout(polls, attempts[0].kind, Next(corr), [], c);
      EndingsWithout(After(polls, attempts[0], Next(corr)), attempts[1..], Next(corr), c);
    }
  }

  lemma NotUsedAgain(corr: u64, n: nat)
    requires n < TWO_64
    ensures !Uses(corr, n, corr)
  {
    forall k | 1 <= k <= n ensures Corr(corr, k) != corr {
      CorrelationsFresh(corr, 0, k);
      assert Corr(corr, 0) == corr;
    }
  }

  lemma {:induction false} EndingsSplit(polls: seq<Polled>, attempts: seq<Attempt>, corr: u64, n: nat)
    requires n <= |attempts|
    ensures Endings(polls, attempts, corr)[n..] == Endings(AfterAll(polls, attempts, corr, n), attempts[n..], Corr(corr, n))
    decreases n
  {
    if n == 0 {
      assert attempts[0..] == attempts && Corr(corr, 0) == corr;
    } else {
      hide Await, Rest, Next, Corr;
      EndingsSplit(After(polls, attempts[0], Next(corr)), attempts[1..], Next(corr), n - 1);
      CorrNext(corr, n - 1);
      assert attempts[1..][n - 1..] == attempts[n..];
      assert Endings(polls, attempts, corr)[1..] == Endings(After(polls, attempts[0], Next(corr)), attempts[1..], Next(corr));
      assert Endings(polls, attempts, corr)[n..] == Endings(polls, attempts, corr)[1..][n - 1..];
    }
  }

  /** Once the n-th call has ended, whatever still arrives for it may as well not: no later call of
      the same caller, over the same stream, ends otherwise. */
  lemma LateEventsIgnored(polls: seq<Polled>, attempts: seq<Attempt>, corr: u64, n: nat)
    requires 0 < n <= |attempts| < TWO_64
    ensures var left := AfterAll(polls, attempts, corr, n);
      && Endings(polls, attempts, corr)[n..] == Endings(left, attempts[n..], Corr(corr, n))
      && Endings(left, attempts[n..], Corr(corr, n)) == Endings(Without(left, Corr(corr, n)), attempts[n..], Corr(corr, n))
  {
    EndingsSplit(polls, attempts, corr, n);
    NotUsedAgain(Corr(corr, n), |attempts| - n);
    EndingsWithout(AfterAll(polls, attempts, corr, n), attempts[n..], Corr(corr, n), Corr(corr, n));
  }

  /** Each call ends as the events of its own correlation, among those the calls before it left,
      make it end. */
  lemma OwnEventsDecide(polls: seq<Polled>, attempts: seq<Attempt>, corr: u64, n: nat)
    requires n < |attempts| && attempts[n].waited
    ensures Endings(polls, attempts, corr)[n] ==
      Ended(Await(OnlyOwn(AfterAll(polls, attempts, corr, n), Corr(corr, n + 1)), attempts[n].kind, Corr(corr, n + 1), []))
  {
    EndingsSplit(polls, attempts, corr, n);
    var left, c := AfterAll(polls, attempts, corr, n), Corr(corr, n + 1);
    AwaitIgnoresOthers(left, attempts[n].kind, c, []);
    assert Next(Corr(corr, n)) == c by { CorrAfter(corr, n); }
    assert Endings(polls, attempts, corr)[n] == Endings(polls, attempts, corr)[n..][0];
  }

  lemma CorrAfter(corr: u64, n: nat)
    ensures Next(Corr(corr, n)) == Corr(corr, n + 1)
  {}

  datatype Request = Request(kind: u32, stageId: u32, traceId: u64, deadlineNs: u64, body: seq<byte>)

  function AttemptsOf(requests: seq<Request>, results: seq<CallResult>): (attempts: seq<Attempt>)
    requires |requests| == |results|
    ensures |attempts| == |requests|
  {
    if requests == [] then []
    else [Attempt(requests[0].kind, results[0].Returned?)] + AttemptsOf(requests[1..], results[1..])
  }

  function EndingsOf(results: seq<CallResult>): seq<Ending> {
    if results == [] then []
    else [if results[0].Returned? then Ended(results[0].outcome) else Unsent] + EndingsOf(results[1..])
  }

  /** Calls in sequence end as their shared stream says. */
  method InSequence(caller: ModuleCaller, requests: seq<Request>, polls: seq<Polled>) returns (results: seq<CallResult>)
    requires caller.port.budget <= Wire.MAX_PAYLOAD && forall k :: 0 <= k < |requests| ==> |requests[k].body| <= MAX_BODY
    modifies caller`correlation, caller.port
    ensures |results| == |requests|
    ensures EndingsOf(results) == Endings(polls, AttemptsOf(requests, results), old(caller.correlation))
    decreases |requests|
  {
    hide Await, Rest, WillSend, SendEnds, Packets, EndsAfter;
    if requests == [] {
      return [];
    }
    var q := requests[0];
    var r, used := caller.Call(q.kind, q.stageId, q.traceId, q.deadlineNs, q.body, polls);
    if r.Returned? { RestIs(polls, used, q.kind, caller.correlation, []); }
    assert polls[used..] == After(polls, Attempt(q.kind, r.Returned?), caller.correlation);
    var later := InSequence(caller, requests[1..], polls[used..]);
    results := [r] + later;
    assert results[1..] == later;
    assert AttemptsOf(requests, results)[1..] == AttemptsOf(requests[1..], later);
  }
}
