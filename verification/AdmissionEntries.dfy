/** Which addresses the guard keeps an entry for, in every reachable state of the admission protocol. */
module AdmissionEntries {
  import opened Admission
  import opened Common

  // ----- With a limit of at least one -----

  predicate Positive(s: State, steps: seq<Step>) {
    s.maxPerIp >= 1 && forall step | step in steps && step.SetMaxPerIp? :: step.limit >= 1
  }

  ghost predicate NoEmpty(s: State) {
    forall ip | ip in s.conns :: s.conns[ip].active >= 1
  }

  lemma {:induction false} NoEmptyStep(cfg: Config, s: State, step: Step)
    requires NoEmpty(s) && s.maxPerIp >= 1
    ensures NoEmpty(Next(cfg, s, step))
  {
  }

  lemma {:induction false} NoEmptyRun(cfg: Config, s: State, steps: seq<Step>)
    requires NoEmpty(s) && Positive(s, steps)
    ensures NoEmpty(Run(cfg, s, steps))
    decreases |steps|
  {
    hide NoEmpty;
    if steps != [] {
      assert steps[0] in steps && forall step | step in steps[1..] :: step in steps;
      NoEmptyStep(cfg, s, steps[0]);
      NoEmptyRun(cfg, Next(cfg, s, steps[0]), steps[1..]);
    }
  }

  /**
   * While the per-address limit is at least one, the addresses with an entry are exactly those with an unreleased
   * connection, so cleanup finds nothing to erase.
   */
  lemma {:induction false} TrackedIsOpen(cfg: Config, maxPerIp: int, steps: seq<Step>, now: int)
    requires Possible(cfg, Initial(maxPerIp), steps) && Positive(Initial(maxPerIp), steps)
    ensures var s := Run(cfg, Initial(maxPerIp), steps);
            && (forall ip :: ip in s.conns <==> ip in s.open)
            && Next(cfg, s, Cleanup(now)) == s
  {
    hide Run, Possible;
    InitialInv(cfg, maxPerIp);
    RunKeeps(cfg, Initial(maxPerIp), steps);
    NoEmptyRun(cfg, Initial(maxPerIp), steps);
    var s := Run(cfg, Initial(maxPerIp), steps);
    assert AfterCleanup(s.conns, now) == s.conns;
  }

  // ----- With any limit -----

  /** When the address last asked with the lock held. */
  function LastTry(steps: seq<Step>, ip: Ip): Option<int> {
    if steps == [] then None
    else
      var later := LastTry(steps[1..], ip);
      if later.Some? then later
      else if steps[0].Admit? && steps[0].ip == ip then Some(steps[0].now)
      else None
  }

  ghost predicate SeenAt(s: State, ip: Ip, t: int) {
    ip in s.conns && s.conns[ip].lastSeen == t
  }

  lemma {:induction false} RunSeen(cfg: Config, s: State, steps: seq<Step>, ip: Ip)
    requires ip in Run(cfg, s, steps).conns
    ensures var last := LastTry(steps, ip);
            SeenAt(Run(cfg, s, steps), ip, if last.Some? then last.value else EntryFor(s.conns, ip).lastSeen)
    ensures LastTry(steps, ip).Some? || ip in s.conns
    decreases |steps|
  {
    if steps != [] {
      RunSeen(cfg, Next(cfg, s, steps[0]), steps[1..], ip);
    }
  }

  /** Cleanup leaves the addresses that have an unreleased connection or asked in the last 300 seconds. */
  lemma {:induction false} CleanupKeepsIff(cfg: Config, maxPerIp: int, steps: seq<Step>, now: int, ip: Ip)
    requires Possible(cfg, Initial(maxPerIp), steps)
    ensures var s := Run(cfg, Initial(maxPerIp), steps);
            var s' := Next(cfg, s, Cleanup(now));
            && (ip in s.conns ==> LastTry(steps, ip).Some?)
            && (ip in s'.conns <==> ip in s.conns && (ip in s.open || now - LastTry(steps, ip).value <= 300))
            && (ip in s'.conns ==> s'.conns[ip] == s.conns[ip])
            && s' == s.(conns := s'.conns)
  {
    hide Run, Possible;
    InitialInv(cfg, maxPerIp);
    RunKeeps(cfg, Initial(maxPerIp), steps);
    if ip in Run(cfg, Initial(maxPerIp), steps).conns {
      RunSeen(cfg, Initial(maxPerIp), steps, ip);
    }
  }

  /** A release erases the entry with the last connection of the address, and touches no other address. */
  lemma {:induction false} ReleaseErasesIff(cfg: Config, maxPerIp: int, steps: seq<Step>, ip: Ip, other: Ip)
    requires Possible(cfg, Initial(maxPerIp), steps) && ip in Run(cfg, Initial(maxPerIp), steps).open
    ensures var s := Run(cfg, Initial(maxPerIp), steps);
            var s' := Next(cfg, s, Release(ip));
            && (ip in s'.conns <==> s.open[ip] >= 2) && (ip in s'.conns ==> s'.conns[ip].active == s.open[ip] - 1)
            && (other != ip ==> (other in s'.conns <==> other in s.conns) && EntryFor(s'.conns, other) == EntryFor(s.conns, other))
  {
    hide Run, Possible;
    InitialInv(cfg, maxPerIp);
    RunKeeps(cfg, Initial(maxPerIp), steps);
    var s := Run(cfg, Initial(maxPerIp), steps);
    assert s.conns[ip].active == s.open[ip];
  }
}
