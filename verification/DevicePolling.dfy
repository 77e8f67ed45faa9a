/** Polling the token endpoint in the device flow
    (`handle_device_token_poll_until_complete` in packages/oidc-client/src/client.rs;
    section 3.5 of RFC 8628). */
module DevicePolling {
  import opened Wrappers

  /** Durations in nanoseconds; Rust's `Duration` ends at 2^64 seconds less one
      nanosecond. */
  const SECOND: nat := 1_000_000_000
  const MAX: nat := 0x1_0000_0000_0000_0000 * SECOND - 1

  function Min(a: nat, b: nat): nat { if a < b then a else b }

  function Max(a: nat, b: nat): nat { if a < b then b else a }

  function SaturatingAdd(a: nat, b: nat): nat { Min(a + b, MAX) }

  function SaturatingSub(a: nat, b: nat): nat { if a < b then 0 else a - b }

  datatype Reply = Pending | SlowDown | Complete(token: string) | Denied | Expired | Failed

  /** One turn of the loop as the environment gives it: the time elapsed at the timeout
      check, when the request is sent, the reply, and the time elapsed after it. */
  datatype Turn = Turn(check: nat, sent: nat, reply: Reply, after: nat)

  datatype Outcome = Token(token: string) | TimedOut | Refused | Broken | Unfinished

  /** The interval in force after a reply. */
  function NextInterval(interval: nat, reply: Reply): nat {
    Max(if reply.SlowDown? then SaturatingAdd(interval, 5 * SECOND) else interval, SECOND)
  }

  function Sleep(interval: nat, timeout: Option<nat>, elapsed: nat): nat {
    if timeout.None? then interval else Min(interval, SaturatingSub(timeout.value, elapsed))
  }

  predicate Continues(reply: Reply) { reply.Pending? || reply.SlowDown? }

  function OutcomeOf(reply: Reply): Outcome
    requires !Continues(reply)
  {
    match reply
    case Complete(token) => Token(token)
    case Failed => Broken
    case _ => Refused
  }

  /** A poll that was made, and the interval in force after its reply. */
  datatype Poll = Poll(turn: Turn, interval: nat)

  predicate Over(timeout: Option<nat>, elapsed: nat) { timeout.Some? && elapsed >= timeout.value }

  /** The polls made while the turns last, and how it ends. */
  function Polls(turns: seq<Turn>, interval: nat, timeout: Option<nat>): (seq<Poll>, Outcome) {
    if turns == [] then ([], Unfinished)
    else if Over(timeout, turns[0].check) then ([], TimedOut)
    else
      var next := NextInterval(interval, turns[0].reply);
      var p := Poll(turns[0], next);
      if !Continues(turns[0].reply) then ([p], OutcomeOf(turns[0].reply))
      else
        var more := Polls(turns[1..], next, timeout);
        ([p] + more.0, more.1)
  }

  method PollUntilComplete(turns: seq<Turn>, initial: nat, timeout: Option<nat>)
    returns (polls: seq<Poll>, outcome: Outcome)
    ensures polls == Polls(turns, initial, timeout).0 && outcome == Polls(turns, initial, timeout).1
  {
    var interval := initial;
    polls := [];
    assert turns[0..] == turns;
    for k := 0 to |turns|
      invariant var rest := Polls(turns[k..], interval, timeout);
                Polls(turns, initial, timeout).0 == polls + rest.0 && Polls(turns, initial, timeout).1 == rest.1
    {
      assert turns[k..][1..] == turns[k + 1..];
      if Over(timeout, turns[k].check) { return polls, TimedOut; }
      var reply := turns[k].reply;
      interval := NextInterval(interval, reply);
      polls := polls + [Poll(turns[k], interval)];
      if !Continues(reply) { return polls, OutcomeOf(reply); }
    }
    assert turns[|turns|..] == [];
    return polls, Unfinished;
  }

  /** Time does not run backwards, and a sleep lasts at least as long as it was asked to. */
  ghost predicate Timely(turns: seq<Turn>, interval: nat, timeout: Option<nat>) {
    turns != [] ==>
      var t, next := turns[0], NextInterval(interval, turns[0].reply);
      && t.check <= t.sent <= t.after
      && (|turns| > 1 ==> turns[1].check >= t.after + Sleep(next, timeout, t.after))
      && Timely(turns[1..], next, timeout)
  }

  /** Consecutive polls are at least the interval in force apart. */
  lemma {:induction false} PollsSpaced(turns: seq<Turn>, interval: nat, timeout: Option<nat>, i: nat)
    requires Timely(turns, interval, timeout) && i + 1 < |Polls(turns, interval, timeout).0|
    ensures var p := Polls(turns, interval, timeout).0;
            p[i + 1].turn.sent >= p[i].turn.sent + p[i].interval && p[i].interval >= SECOND
    decreases |turns|
  {
    var next := NextInterval(interval, turns[0].reply);
    var more := Polls(turns[1..], next, timeout).0;
    if i > 0 {
      PollsSpaced(turns[1..], next, timeout, i - 1);
    } else {
      assert more[0].turn == turns[1];
    }
  }

  /** A poll is only sent before the timeout, and each takes up a second of it. */
  lemma {:induction false} PollsWithinTime(turns: seq<Turn>, interval: nat, timeout: nat)
    requires Timely(turns, interval, Some(timeout)) && Polls(turns, interval, Some(timeout)).0 != []
    ensures var p := Polls(turns, interval, Some(timeout)).0;
            turns != [] && turns[0].check + (|p| - 1) * SECOND < timeout
    decreases |turns|
  {
    var next := NextInterval(interval, turns[0].reply);
    if Continues(turns[0].reply) && Polls(turns[1..], next, Some(timeout)).0 != [] {
      PollsWithinTime(turns[1..], next, timeout);
    }
  }

  /** With a timeout there are at most as many polls as seconds, rounded up. */
  lemma PollsBounded(turns: seq<Turn>, interval: nat, timeout: nat)
    requires Timely(turns, interval, Some(timeout))
    ensures |Polls(turns, interval, Some(timeout)).0| <= (timeout + SECOND - 1) / SECOND
  {
    if Polls(turns, interval, Some(timeout)).0 != [] { PollsWithinTime(turns, interval, timeout); }
  }

  function SlowDowns(polls: seq<Poll>): nat {
    if polls == [] then 0 else (if polls[0].turn.reply.SlowDown? then 1 else 0) + SlowDowns(polls[1..])
  }

  /** The interval that the increments are added to: the initial one, raised to a second
      if the first reply does not ask to slow down. */
  function BaseInterval(interval: nat, first: Reply): nat {
    if first.SlowDown? then interval else Max(interval, SECOND)
  }

  /** What a reply adds to the interval it finds. */
  lemma IntervalAdds(interval: nat, reply: Reply, next: nat, k: nat)
    requires interval <= MAX && next == NextInterval(interval, reply)
    ensures SECOND <= next <= MAX
    ensures Min(next + 5 * SECOND * k, MAX)
         == Min(BaseInterval(interval, reply) + 5 * SECOND * ((if reply.SlowDown? then 1 else 0) + k), MAX)
  {
  }

  /** After k requests to slow down the interval is the initial one and 5k seconds, up to
      saturation. */
  lemma {:induction false} SlowDownsAddUp(turns: seq<Turn>, interval: nat, timeout: Option<nat>, i: nat)
    requires interval <= MAX && i < |Polls(turns, interval, timeout).0|
    ensures var p := Polls(turns, interval, timeout).0;
            p[i].interval == Min(BaseInterval(interval, p[0].turn.reply) + 5 * SECOND * SlowDowns(p[..i + 1]), MAX)
    decreases |turns|
  {
    var next := NextInterval(interval, turns[0].reply);
    var p := Polls(turns, interval, timeout).0;
    var k := SlowDowns(p[1..][..i]);
    assert p[0] == Poll(turns[0], next);
    assert p[..i + 1][1..] == p[1..][..i];
    IntervalAdds(interval, turns[0].reply, next, k);
    if i > 0 {
      assert p[1..] == Polls(turns[1..], next, timeout).0;
      SlowDownsAddUp(turns[1..], next, timeout, i - 1);
    }
  }

  /** The interval never shrinks, and it is never less than a second. */
  lemma {:induction false} IntervalNeverShrinks(turns: seq<Turn>, interval: nat, timeout: Option<nat>, i: nat)
    requires interval <= MAX && i < |Polls(turns, interval, timeout).0|
    ensures var p := Polls(turns, interval, timeout).0;
            p[i].interval >= Max(SECOND, if i > 0 then p[i - 1].interval else interval)
    decreases |turns|
  {
    var next := NextInterval(interval, turns[0].reply);
    IntervalAdds(interval, turns[0].reply, next, 0);
    if i > 0 { IntervalNeverShrinks(turns[1..], next, timeout, i - 1); }
  }

  /** Turn `k` brings the token: it and all before it are in time, all before it wait. */
  ghost predicate CompletesAt(turns: seq<Turn>, timeout: Option<nat>, token: string, k: nat) {
    && k < |turns| && turns[k].reply == Complete(token)
    && (forall j :: 0 <= j <= k ==> !Over(timeout, turns[j].check))
    && (forall j :: 0 <= j < k ==> Continues(turns[j].reply))
  }

  lemma CompletesLater(turns: seq<Turn>, timeout: Option<nat>, token: string, k: nat)
    requires turns != [] && !Over(timeout, turns[0].check) && Continues(turns[0].reply)
    ensures CompletesAt(turns, timeout, token, k + 1) <==> CompletesAt(turns[1..], timeout, token, k)
    ensures !CompletesAt(turns, timeout, token, 0)
  {
    var rest := turns[1..];
    assert forall j :: 0 <= j < |rest| ==> rest[j] == turns[j + 1];
    if CompletesAt(rest, timeout, token, k) {
      forall j | 1 <= j <= k + 1 ensures !Over(timeout, turns[j].check) { assert turns[j] == rest[j - 1]; }
      forall j | 1 <= j < k + 1 ensures Continues(turns[j].reply) { assert turns[j] == rest[j - 1]; }
    }
  }

  /** Polling ends with a token exactly when some reply carried it, in time and after
      replies that all asked to wait. */
  lemma {:induction false} TokenIsTheReply(turns: seq<Turn>, interval: nat, timeout: Option<nat>, token: string)
    ensures Polls(turns, interval, timeout).1 == Token(token) <==> exists k :: CompletesAt(turns, timeout, token, k)
    decreases |turns|
  {
    if turns != [] && !Over(timeout, turns[0].check) {
      if Continues(turns[0].reply) {
        var next, rest := NextInterval(interval, turns[0].reply), turns[1..];
        TokenIsTheReply(rest, next, timeout, token);
        forall k: nat ensures CompletesAt(turns, timeout, token, k + 1) <==> CompletesAt(rest, timeout, token, k) {
          CompletesLater(turns, timeout, token, k);
        }
        CompletesLater(turns, timeout, token, 0);
        if k: nat :| CompletesAt(turns, timeout, token, k) { assert CompletesAt(rest, timeout, token, k - 1); }
        if k: nat :| CompletesAt(rest, timeout, token, k) { assert CompletesAt(turns, timeout, token, k + 1); }
      } else if turns[0].reply == Complete(token) {
        assert CompletesAt(turns, timeout, token, 0);
      }
    }
  }

  /** Turn `k` decides: all before it are in time and ask to wait, and it is too late, or
      its reply ends the polling, or there is no such turn. */
  ghost predicate Decides(turns: seq<Turn>, timeout: Option<nat>, k: nat, o: Outcome) {
    && k <= |turns|
    && (forall j :: 0 <= j < k ==> timeout.Some? ==> turns[j].check < timeout.value)
    && (forall j :: 0 <= j < k ==> turns[j].reply.Pending? || turns[j].reply.SlowDown?)
    && if k == |turns| then o == Unfinished
       else if timeout.Some? && turns[k].check >= timeout.value then o == TimedOut
       else
         match turns[k].reply
         case Complete(token) => o == Token(token)
         case Denied => o == Refused
         case Expired => o == Refused
         case Failed => o == Broken
         case _ => false
  }

  /** Polling ends the way the deciding turn says, and has polled once for every turn
      before it, and for it too unless time was up or turns had run out. */
  lemma {:induction false} OutcomeDecided(turns: seq<Turn>, interval: nat, timeout: Option<nat>) returns (k: nat)
    ensures var (polls, o) := Polls(turns, interval, timeout);
      && Decides(turns, timeout, k, o)
      && |polls| == (if o.TimedOut? || o.Unfinished? then k else k + 1)
      && forall j :: 0 <= j < |polls| ==> polls[j].turn == turns[j]
    decreases |turns|
  {
    k := 0;
    if turns != [] && !Over(timeout, turns[0].check) && Continues(turns[0].reply) {
      var rest := turns[1..];
      var n := OutcomeDecided(rest, NextInterval(interval, turns[0].reply), timeout);
      assert forall j :: 0 <= j < |rest| ==> rest[j] == turns[j + 1];
      assert forall j :: 0 < j <= |rest| ==> turns[j] == rest[j - 1];
      k := n + 1;
    }
  }

  /** There is one deciding turn, so the outcome is determined by the turns and the timeout. */
  lemma DecidedOnce(turns: seq<Turn>, timeout: Option<nat>, k: nat, o: Outcome, j: nat, p: Outcome)
    requires Decides(turns, timeout, k, o) && Decides(turns, timeout, j, p)
    ensures k == j && o == p
  {
  }

  /** A sleep is the interval, cut short only to end exactly with the timeout. */
  lemma SleepFits(interval: nat, timeout: Option<nat>, elapsed: nat)
    ensures var sleep := Sleep(interval, timeout, elapsed);
      && sleep <= interval
      && (sleep < interval ==> timeout.Some? && elapsed + sleep == Max(elapsed, timeout.value))
      && (timeout.Some? && elapsed <= timeout.value ==> elapsed + sleep <= timeout.value)
  {
  }
}
