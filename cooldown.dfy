/**
  The per-user rate limit of internal/cooldown.go.

  A map from user id to the instant of that user's last accepted attempt, and one
  cooldown duration shared by all users.  Instants and durations are integers in one
  unit; the clock is read by the caller and passed in as `now`.
*/
module Cooldown {
  import opened Wrappers

  /** auth.UserId: an unsigned integer used only as a map key. */
  type UserId = nat

  datatype Verdict = Accepted | Denied(remaining: int)

  /** One attempt by `id` at instant `now`: the verdict and the map afterwards. */
  function Decide(cooldowns: map<UserId, int>, cooldown: int, id: UserId, now: int): (res: (Verdict, map<UserId, int>))
    ensures res.0.Accepted? <==> (id !in cooldowns || now - cooldowns[id] > cooldown)
    ensures res.0.Accepted? ==> res.1 == cooldowns[id := now]
    ensures res.0.Denied? ==>
              && res.1 == cooldowns
              && id in cooldowns
              && now - cooldowns[id] <= cooldown
              && res.0.remaining == cooldown - (now - cooldowns[id])
    ensures res.0.Denied? && cooldowns[id] <= now ==> 0 <= res.0.remaining <= cooldown
    ensures forall other :: other != id ==>
              (other in res.1 <==> other in cooldowns) &&
              (other in cooldowns ==> res.1[other] == cooldowns[other])
  {
    if id !in cooldowns || now - cooldowns[id] > cooldown then (Accepted, cooldowns[id := now])
    else (Denied(cooldown - (now - cooldowns[id])), cooldowns)
  }

  /** The comparison is strict: exactly `cooldown` after the last accepted attempt,
      the attempt is still denied, with nothing left to wait. */
  lemma BoundaryIsDenied(cooldowns: map<UserId, int>, cooldown: int, id: UserId, now: int)
    requires id in cooldowns && now - cooldowns[id] == cooldown
    ensures Decide(cooldowns, cooldown, id, now) == (Denied(0), cooldowns)
  {
  }

  predicate Nondecreasing(times: seq<int>) {
    forall i, j :: 0 <= i < j < |times| ==> times[i] <= times[j]
  }

  /** A series of attempts by one user at the instants `times`: the instants that
      were accepted, in order, and the map afterwards. */
  function AttemptAll(cooldowns: map<UserId, int>, cooldown: int, id: UserId, times: seq<int>): (res: (seq<int>, map<UserId, int>))
    ensures |res.0| <= |times|
  {
    if times == [] then ([], cooldowns)
    else
      var init := AttemptAll(cooldowns, cooldown, id, times[..|times| - 1]);
      var now := times[|times| - 1];
      var (v, m) := Decide(init.1, cooldown, id, now);
      (init.0 + (if v.Accepted? then [now] else []), m)
  }

  /** One more attempt: the series so far, then `Decide` on its map. */
  lemma AttemptAllSnoc(cooldowns: map<UserId, int>, cooldown: int, id: UserId, times: seq<int>, now: int)
    ensures var (acc, m) := AttemptAll(cooldowns, cooldown, id, times);
            var (v, m') := Decide(m, cooldown, id, now);
            AttemptAll(cooldowns, cooldown, id, times + [now]) == (acc + (if v.Accepted? then [now] else []), m')
  {
    assert (times + [now])[..|times|] == times;
  }

  /** `acc` are instants accepted one after another, each more than `cooldown`
      after the one before (the first after the entry `before` held, if any), and
      `after` holds the last of them, or `before`'s entry when there is none. */
  ghost predicate Spaced(before: map<UserId, int>, cooldown: int, id: UserId, acc: seq<int>, after: map<UserId, int>) {
    && (|acc| > 0 && id in before ==> acc[0] - before[id] > cooldown)
    && (forall k :: 0 < k < |acc| ==> acc[k] - acc[k - 1] > cooldown)
    && (|acc| == 0 ==> (id in after <==> id in before))
    && (|acc| == 0 && id in before ==> after[id] == before[id])
    && (|acc| > 0 ==> id in after && after[id] == acc[|acc| - 1])
  }

  /** The rate limit: along a series of attempts in time order, every accepted
      attempt lies more than `cooldown` after the previous accepted one, or after the
      one recorded before the series began.  Denied attempts never move the window:
      the map keeps the last accepted instant. */
  lemma {:induction false} AcceptedSpacing(cooldowns: map<UserId, int>, cooldown: int, id: UserId, times: seq<int>)
    requires Nondecreasing(times)
    requires id in cooldowns && |times| > 0 ==> cooldowns[id] <= times[0]
    ensures var (acc, m) := AttemptAll(cooldowns, cooldown, id, times);
            Spaced(cooldowns, cooldown, id, acc, m) &&
            (|acc| > 0 ==> acc[|acc| - 1] <= times[|times| - 1])
  {
    if times != [] {
      var init := times[..|times| - 1];
      var now := times[|times| - 1];
      assert Nondecreasing(init);
      AcceptedSpacing(cooldowns, cooldown, id, init);
      var (acc0, m0) := AttemptAll(cooldowns, cooldown, id, init);
      assert id in m0 ==> m0[id] <= now by {
        if |acc0| > 0 {
          assert init[|init| - 1] <= now;
        } else if id in cooldowns {
          assert times[0] <= now;
        }
      }
      SpacingStep(cooldowns, cooldown, id, acc0, m0, now);
    }
  }

  /** One more attempt keeps the accepted instants spaced. */
  lemma SpacingStep(cooldowns: map<UserId, int>, cooldown: int, id: UserId, acc: seq<int>, m: map<UserId, int>, now: int)
    requires Spaced(cooldowns, cooldown, id, acc, m)
    requires id in m ==> m[id] <= now
    ensures var (v, m') := Decide(m, cooldown, id, now);
            Spaced(cooldowns, cooldown, id, acc + (if v.Accepted? then [now] else []), m')
  {
  }

  /** The timing example: with a cooldown of 10, attempts at 0, 5 and 11 are
      accepted, denied with 5 left, and accepted. */
  lemma CooldownExample(id: UserId)
    ensures var (v0, m0) := Decide(map[], 10, id, 0);
            var (v1, m1) := Decide(m0, 10, id, 5);
            var (v2, m2) := Decide(m1, 10, id, 11);
            v0 == Accepted && v1 == Denied(5) && v2 == Accepted && m2 == map[id := 11]
  {
  }

  /** CooldownManager (lines 9-13). */
  class CooldownManager {
    var cooldowns: map<UserId, int>
    const cooldown: int

    /** NewCooldownManager (lines 15-20). */
    constructor (cooldown: int)
      ensures cooldowns == map[] && this.cooldown == cooldown
    {
      cooldowns := map[];
      this.cooldown := cooldown;
    }

    /** Attempt (lines 22-36): accepted with no remaining time, or denied with the
        time still to wait. */
    method Attempt(id: UserId, now: int) returns (ok: bool, remains: Option<int>)
      modifies this
      ensures var (v, m) := Decide(old(cooldowns), cooldown, id, now);
              && ok == v.Accepted?
              && (ok ==> remains == None)
              && (!ok ==> remains == Some(v.remaining))
              && cooldowns == m
    {
      if id !in cooldowns || now - cooldowns[id] > cooldown {
        cooldowns := cooldowns[id := now];
        return true, None;
      }
      var remaining := cooldown - (now - cooldowns[id]);
      return false, Some(remaining);
    }
  }
}
