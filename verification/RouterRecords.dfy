/** What the router's pending records and timers hold: targets, times and delays, said by their values. */
module RouterRecords {
  import opened Bytes
  import opened MessageKey
  import opened RouterReliability
  import opened RouterTheorems
  import opened Wrappers

  /** The time after which a message is sent again: that of a node, or that of a message centre. */
  function ResendTime(cfg: Config, service: Service): int {
    match service
    case Node => cfg.messageTimeout
    case Center => cfg.persistTimeout
  }

  /**
   An accepted send files the message under its own ID, with the target, service and time it was sent with and no retries,
   and sets its timer to the resend time of the service. A refused one leaves neither a record nor a timer.
   */
  lemma SendDecides(cfg: Config, s: State, id: bytes, service: Service, target: nat, now: int, accepted: bool)
    ensures var (key, r) := (Hex(id), Send(cfg, s, id, service, target, now, accepted));
            && (accepted ==>
                  && key in r.pending
                  && r.pending[key] == Pending(s.sends, id, service, target, now, 0, Some(s.nextTimer))
                  && r.armed == s.armed[s.nextTimer := Armed(key, Resend, ResendTime(cfg, service))])
            && (!accepted ==> key !in r.pending && r.armed == s.armed)
            && (forall k :: k != key ==> (k in r.pending <==> k in s.pending) && (k in s.pending ==> r.pending[k] == s.pending[k]))
            && r.retries == s.retries && r.fetches == s.fetches && r.confirmed == s.confirmed && r.failed == s.failed
  {
    hide Hex;
  }

  /**
   A message timeout keeps the message's ID, service and time of sending and counts one retry. A message sent again has its
   timer set to the resend time of its service and goes to the target it had, or to the first candidate that is tried and
   accepts; one that is asked for has its timer set to the fetch time, and if
   candidates were gone through before, the last of them is its target, though it refused.
   */
  lemma TimeoutRecords(cfg: Config, s: State, key: Key, w: World)
    requires key in s.pending
    ensures var (p, r) := (s.pending[key], MessageTimeout(cfg, s, key, w));
            key in r.pending ==>
              && r.pending[key] == p.(retries := p.retries + 1, timer := Some(s.nextTimer), target := r.pending[key].target)
              && s.nextTimer in r.armed && r.armed[s.nextTimer].key == key
              && (r.armed[s.nextTimer].action.Resend? ==>
                    && r.armed[s.nextTimer].delay == ResendTime(cfg, p.service)
                    && if w.resent then r.pending[key].target == p.target
                       else exists i: nat :: Tried(p.target, w.candidates, i) && w.candidates[i].accepts
                              && r.pending[key].target == w.candidates[i].target
                              && forall j: nat :: j < i && Tried(p.target, w.candidates, j) ==> !w.candidates[j].accepts)
              && (r.armed[s.nextTimer].action.GiveUpFetch? ==>
                    && r.armed[s.nextTimer].delay == cfg.fetchTimeout
                    && r.pending[key].target ==
                       if p.retries >= cfg.maxRetries || w.candidates == [] then p.target
                       else w.candidates[|w.candidates| - 1].target)
  {
    hide Switch;
    SwitchSucceedsIff(s.pending[key].target, w.candidates);
  }

  // ----- Cleaning up -----

  lemma {:induction false} LeaveAllLeaves(s: State, keys: seq<Key>)
    ensures var r := LeaveAll(s, keys);
            && (forall k :: k in r.pending <==> k in s.pending && k !in keys)
            && (forall k :: k in r.pending ==> r.pending[k] == s.pending[k])
            && r.armed.Keys <= s.armed.Keys
            && (forall k :: k in keys && k in s.pending && s.pending[k].timer.Some? ==> s.pending[k].timer.value !in r.armed)
            && r.confirmed == s.confirmed && r.failed == s.failed
    decreases |keys|
  {
    if keys != [] {
      var s1 := Leave(s, keys[0], Uncounted);
      assert s1.armed.Keys <= s.armed.Keys;
      assert forall k :: k in s1.pending <==> k in s.pending && k != keys[0];
      assert keys == [keys[0]] + keys[1..];
      hide Leave;
      LeaveAllLeaves(s1, keys[1..]);
    }
  }

  /**
   After a cleanup, in whatever order the expired messages are found, no message is pending that was sent longer ago than
   the limit, every other one is, as it was, and neither counter has changed.
   */
  lemma CleanupLeavesRecent(cfg: Config, s: State, now: int, keys: seq<Key>)
    requires forall k :: k in keys <==> Expired(cfg, s, now, k)
    ensures var r := LeaveAll(s, keys);
            && (forall k :: k in r.pending <==> k in s.pending && now - s.pending[k].sentTime <= cfg.ttl)
            && (forall k :: k in r.pending ==> r.pending[k] == s.pending[k])
            && (forall k :: k in s.pending && k !in r.pending && s.pending[k].timer.Some? ==>
                  s.pending[k].timer.value !in r.armed)
            && r.confirmed == s.confirmed && r.failed == s.failed
  {
    LeaveAllLeaves(s, keys);
  }
}
