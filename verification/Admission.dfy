/**
 * Connection admission (src/ddos_guard.cpp) as a protocol of interleaved steps. An accepting thread first reads
 * the connection total without the lock and then, with the lock held, decides about one address; workers
 * release connections with the lock held. The unlocked read is relaxed, so it may return any value the counter
 * has held since its last increment. With one accepting thread that increment is the thread's own, which is
 * what coherence of a single atomic variable guarantees.
 */
module Admission {

  type Ip = string

  const STALE_SECONDS := 300

  datatype Entry = Entry(active: int, lastSeen: int)

  type Connections = map<Ip, Entry>

  datatype Config = Config(maxTotal: int, acceptors: nat)

  /** `recent`, `passed` and `open` describe the threads: what a read may return, who passed it, what is unreleased. */
  datatype State = State(conns: Connections, total: int, maxPerIp: int,
                         recent: set<int>, passed: set<nat>, open: multiset<Ip>)

  datatype Step =
    | Check(thread: nat, value: int)
    | Admit(thread: nat, ip: Ip, now: int)
    | Release(ip: Ip)
    | Cleanup(now: int)
    | SetMaxPerIp(limit: int)

  // ----- The locked sections, on the connection map -----

  function EntryFor(conns: Connections, ip: Ip): Entry {
    if ip in conns then conns[ip] else Entry(0, 0)
  }

  predicate Refused(conns: Connections, maxPerIp: int, ip: Ip) {
    EntryFor(conns, ip).active >= maxPerIp
  }

  function AfterAdmit(conns: Connections, maxPerIp: int, ip: Ip, now: int): Connections {
    var n := EntryFor(conns, ip).active;
    conns[ip := Entry(if Refused(conns, maxPerIp, ip) then n else n + 1, now)]
  }

  function AfterRelease(conns: Connections, ip: Ip): Connections {
    if ip !in conns then conns
    else if conns[ip].active - 1 <= 0 then conns - {ip}
    else conns[ip := conns[ip].(active := conns[ip].active - 1)]
  }

  predicate Stale(e: Entry, now: int) {
    e.active <= 0 && now - e.lastSeen > STALE_SECONDS
  }

  function AfterCleanup(conns: Connections, now: int): Connections {
    map ip | ip in conns && !Stale(conns[ip], now) :: conns[ip]
  }

  // ----- The protocol -----

  function Initial(maxPerIp: int): State {
    State(map[], 0, maxPerIp, {0}, {}, multiset{})
  }

  predicate Enabled(cfg: Config, s: State, step: Step) {
    match step
    case Check(t, v) => t < cfg.acceptors && t !in s.passed && v in s.recent
    case Admit(t, _, _) => t in s.passed
    case Release(ip) => ip in s.open
    case Cleanup(_) => true
    case SetMaxPerIp(_) => true
  }

  function Next(cfg: Config, s: State, step: Step): State {
    match step
    case Check(t, v) =>
      if v >= cfg.maxTotal then s else s.(passed := s.passed + {t})
    case Admit(t, ip, now) =>
      var r := s.(conns := AfterAdmit(s.conns, s.maxPerIp, ip, now), passed := s.passed - {t});
      if Refused(s.conns, s.maxPerIp, ip) then r
      else r.(total := s.total + 1, recent := {s.total + 1}, open := s.open + multiset{ip})
    case Release(ip) =>
      var r := s.(conns := AfterRelease(s.conns, ip), open := s.open - multiset{ip});
      if ip !in s.conns then r
      else r.(total := s.total - 1, recent := s.recent + {s.total - 1})
    case Cleanup(now) => s.(conns := AfterCleanup(s.conns, now))
    case SetMaxPerIp(limit) => s.(maxPerIp := limit)
  }

  function Run(cfg: Config, s: State, steps: seq<Step>): State
    decreases |steps|
  {
    if steps == [] then s else Run(cfg, Next(cfg, s, steps[0]), steps[1..])
  }

  predicate Possible(cfg: Config, s: State, steps: seq<Step>)
    decreases |steps|
  {
    steps == [] || (Enabled(cfg, s, steps[0]) && Possible(cfg, Next(cfg, s, steps[0]), steps[1..]))
  }

  // ----- The counters agree in every reachable state -----

  /** The per-address counters count the unreleased connections of that address. */
  ghost predicate Agree(conns: Connections, open: multiset<Ip>) {
    && (forall ip | ip in conns :: conns[ip].active == open[ip])
    && (forall ip | ip in open :: ip in conns)
  }

  ghost predicate Inv(cfg: Config, s: State) {
    && Agree(s.conns, s.open)
    && s.total == |s.open|
    && s.total in s.recent && (forall v | v in s.recent :: s.total <= v)
    && (forall t | t in s.passed :: t < cfg.acceptors)
    && ((s.passed == {} && s.total == 0) || s.total + |s.passed| <= cfg.maxTotal + cfg.acceptors - 1)
  }

  ghost function SumActive(conns: Connections): int
    decreases |conns|
  {
    if conns == map[] then 0
    else
      var ip :| ip in conns;
      conns[ip].active + SumActive(conns - {ip})
  }

  lemma {:induction false} SumIsOpen(conns: Connections, open: multiset<Ip>)
    requires Agree(conns, open)
    ensures SumActive(conns) == |open|
    decreases |conns|
  {
    if conns == map[] {
      assert open == multiset{};
    } else {
      var ip :| ip in conns && SumActive(conns) == conns[ip].active + SumActive(conns - {ip});
      assert conns.Keys == (conns - {ip}).Keys + {ip};
      SumIsOpen(conns - {ip}, open[ip := 0]);
    }
  }

  /** The threads numbered below n. */
  function Upto(n: nat): (r: set<nat>)
    ensures |r| == n && forall t: nat :: t in r <==> t < n
  {
    if n == 0 then {} else Upto(n - 1) + {n - 1}
  }

  lemma UptoStep(n: nat)
    ensures Upto(n) + {n} == Upto(n + 1) && Upto(n + 1) - {n} == Upto(n) && n in Upto(n + 1) && n !in Upto(n)
  {
  }

  lemma {:induction false} FewPass(passed: set<nat>, n: nat)
    requires forall t | t in passed :: t < n
    ensures |passed| <= n
  {
    Subset(passed, Upto(n));
  }

  lemma {:induction false} Subset(a: set<nat>, b: set<nat>)
    requires a <= b
    ensures |a| <= |b|
  {
    assert b == a + (b - a);
  }

  lemma {:induction false} InitialInv(cfg: Config, maxPerIp: int)
    ensures Inv(cfg, Initial(maxPerIp))
  {
  }

  lemma {:induction false} CheckKeeps(cfg: Config, s: State, t: nat, v: int)
    requires Inv(cfg, s) && Enabled(cfg, s, Check(t, v))
    ensures Inv(cfg, Next(cfg, s, Check(t, v)))
  {
    hide Agree;
    FewPass(s.passed + {t}, cfg.acceptors);
  }

  lemma {:induction false} AdmitKeeps(cfg: Config, s: State, t: nat, ip: Ip, now: int)
    requires Inv(cfg, s) && Enabled(cfg, s, Admit(t, ip, now))
    ensures Inv(cfg, Next(cfg, s, Admit(t, ip, now)))
  {
    hide Agree, AfterAdmit, Refused;
    AgreeAdmit(s.conns, s.open, s.maxPerIp, ip, now);
    assert |s.passed - {t}| == |s.passed| - 1;
  }

  lemma {:induction false} AgreeAdmit(conns: Connections, open: multiset<Ip>, maxPerIp: int, ip: Ip, now: int)
    requires Agree(conns, open)
    ensures Agree(AfterAdmit(conns, maxPerIp, ip, now),
                  if Refused(conns, maxPerIp, ip) then open else open + multiset{ip})
  {
    assert EntryFor(conns, ip).active == open[ip];
  }

  lemma {:induction false} ReleaseKeeps(cfg: Config, s: State, ip: Ip)
    requires Inv(cfg, s) && Enabled(cfg, s, Release(ip))
    ensures Inv(cfg, Next(cfg, s, Release(ip)))
  {
    assert |s.open - multiset{ip}| == |s.open| - 1;
    assert s.conns[ip].active == s.open[ip];
  }

  lemma {:induction false} StepKeeps(cfg: Config, s: State, step: Step)
    requires Inv(cfg, s) && Enabled(cfg, s, step)
    ensures Inv(cfg, Next(cfg, s, step))
  {
    match step {
      case Check(t, v) => CheckKeeps(cfg, s, t, v);
      case Admit(t, ip, now) => AdmitKeeps(cfg, s, t, ip, now);
      case Release(ip) => ReleaseKeeps(cfg, s, ip);
      case Cleanup(now) =>
      case SetMaxPerIp(limit) =>
    }
  }

  lemma {:induction false} RunKeeps(cfg: Config, s: State, steps: seq<Step>)
    requires Inv(cfg, s) && Possible(cfg, s, steps)
    ensures Inv(cfg, Run(cfg, s, steps))
    decreases |steps|
  {
    hide Inv, Next, Enabled;
    if steps != [] {
      StepKeeps(cfg, s, steps[0]);
      RunKeeps(cfg, Next(cfg, s, steps[0]), steps[1..]);
    }
  }

  /**
   * In every interleaving the total is the number of unreleased connections and the sum of the per-address
   * counts, and it never exceeds the limit by more than the accepting threads beyond the first.
   */
  lemma {:induction false} AdmissionSafe(cfg: Config, maxPerIp: int, steps: seq<Step>)
    requires Possible(cfg, Initial(maxPerIp), steps)
    ensures var s := Run(cfg, Initial(maxPerIp), steps);
            && s.total == |s.open| == SumActive(s.conns)
            && (s.total == 0 || s.total <= cfg.maxTotal + cfg.acceptors - 1)
            && (cfg.acceptors == 1 ==> s.total == 0 || s.total <= cfg.maxTotal)
            && forall ip | ip in s.conns :: 0 <= s.conns[ip].active
  {
    hide Run, Possible, Initial;
    InitialInv(cfg, maxPerIp);
    RunKeeps(cfg, Initial(maxPerIp), steps);
    var s := Run(cfg, Initial(maxPerIp), steps);
    SumIsOpen(s.conns, s.open);
  }

  // ----- The per-address limit -----

  ghost predicate PerIpWithin(s: State) {
    forall ip | ip in s.conns :: s.conns[ip].active <= 0 || s.conns[ip].active <= s.maxPerIp
  }

  /** While the per-address limit is not lowered, no address exceeds it. */
  lemma {:induction false} PerIpLimit(cfg: Config, s: State, steps: seq<Step>)
    requires PerIpWithin(s)
    requires forall step | step in steps && step.SetMaxPerIp? :: step.limit >= s.maxPerIp
    requires forall i, j | 0 <= i < j < |steps| && steps[i].SetMaxPerIp? && steps[j].SetMaxPerIp? :: steps[i].limit <= steps[j].limit
    ensures PerIpWithin(Run(cfg, s, steps))
    decreases |steps|
  {
    hide PerIpWithin, Next;
    if steps != [] {
      PerIpStep(cfg, s, steps[0]);
      var tail := steps[1..];
      forall step | step in tail && step.SetMaxPerIp?
        ensures step.limit >= Next(cfg, s, steps[0]).maxPerIp
      {
        var j :| 0 <= j < |tail| && tail[j] == step;
        assert steps[j + 1] == step;
      }
      PerIpLimit(cfg, Next(cfg, s, steps[0]), tail);
    }
  }

  lemma {:induction false} PerIpStep(cfg: Config, s: State, step: Step)
    requires PerIpWithin(s) && (step.SetMaxPerIp? ==> step.limit >= s.maxPerIp)
    ensures PerIpWithin(Next(cfg, s, step))
    ensures Next(cfg, s, step).maxPerIp == if step.SetMaxPerIp? then step.limit else s.maxPerIp
  {
  }

  // ----- The bound is attained -----

  lemma {:induction false} RunAppend(cfg: Config, s: State, a: seq<Step>, b: seq<Step>)
    requires Possible(cfg, s, a) && Possible(cfg, Run(cfg, s, a), b)
    ensures Possible(cfg, s, a + b) && Run(cfg, s, a + b) == Run(cfg, Run(cfg, s, a), b)
    decreases |a|
  {
    hide Next, Enabled;
    if a == [] {
      assert a + b == b;
    } else {
      RunAppend(cfg, Next(cfg, s, a[0]), a[1..], b);
      assert (a + b)[1..] == a[1..] + b && (a + b)[0] == a[0];
    }
  }

  /** An address of its own for each connection. */
  function Name(n: nat): (ip: Ip)
    ensures |ip| == n
  {
    seq(n, _ => '1')
  }

  /** All names used so far are shorter than n. */
  ghost predicate FreshFrom(s: State, n: nat) {
    forall ip | ip in s.conns :: |ip| < n
  }

  ghost predicate Reached(s: State, maxPerIp: int, total: nat, passed: set<nat>) {
    s.total == total && s.total in s.recent && s.passed == passed && s.maxPerIp == maxPerIp && FreshFrom(s, total)
  }

  lemma {:induction false} OneStep(cfg: Config, s: State, step: Step)
    requires Enabled(cfg, s, step)
    ensures Possible(cfg, s, [step]) && Run(cfg, s, [step]) == Next(cfg, s, step)
  {
    assert [step][1..] == [];
    assert Possible(cfg, Next(cfg, s, step), []) && Run(cfg, Next(cfg, s, step), []) == Next(cfg, s, step);
  }

  lemma {:induction false} AdmitReached(cfg: Config, s: State, maxPerIp: int, total: nat, passed: set<nat>, t: nat)
    requires maxPerIp >= 1 && Reached(s, maxPerIp, total, passed) && t in passed
    ensures Enabled(cfg, s, Admit(t, Name(total), 0))
    ensures Reached(Next(cfg, s, Admit(t, Name(total), 0)), maxPerIp, total + 1, passed - {t})
  {
    assert Name(total) !in s.conns;
  }

  lemma {:induction false} CheckReached(cfg: Config, s: State, maxPerIp: int, total: nat, passed: set<nat>, t: nat)
    requires Reached(s, maxPerIp, total, passed) && t !in passed && t < cfg.acceptors && total < cfg.maxTotal
    ensures Enabled(cfg, s, Check(t, total))
    ensures Reached(Next(cfg, s, Check(t, total)), maxPerIp, total, passed + {t})
  {
  }

  /** One thread admits n connections, one after the other. */
  lemma {:induction false} Fill(cfg: Config, maxPerIp: int, n: nat) returns (steps: seq<Step>)
    requires maxPerIp >= 1 && cfg.acceptors >= 1 && n <= cfg.maxTotal
    ensures Possible(cfg, Initial(maxPerIp), steps)
    ensures Reached(Run(cfg, Initial(maxPerIp), steps), maxPerIp, n, {})
  {
    hide Reached, Enabled, Next, Run, Possible;
    steps := [];
    if n == 0 {
      assert Reached(Initial(maxPerIp), maxPerIp, 0, {}) by { StartReached(maxPerIp); }
      Nothing(cfg, Initial(maxPerIp));
    } else {
      steps := Fill(cfg, maxPerIp, n - 1);
      var s := Run(cfg, Initial(maxPerIp), steps);
      CheckReached(cfg, s, maxPerIp, n - 1, {}, 0);
      steps := Extend(cfg, Initial(maxPerIp), steps, Check(0, n - 1));
      s := Next(cfg, s, Check(0, n - 1));
      assert {} + {0} == {0};
      AdmitReached(cfg, s, maxPerIp, n - 1, {0}, 0);
      steps := Extend(cfg, Initial(maxPerIp), steps, Admit(0, Name(n - 1), 0));
      assert {0} - {0} == {};
    }
  }

  lemma StartReached(maxPerIp: int)
    ensures Reached(Initial(maxPerIp), maxPerIp, 0, {})
  {
  }

  lemma Nothing(cfg: Config, s: State)
    ensures Possible(cfg, s, []) && Run(cfg, s, []) == s
  {
  }

  lemma {:induction false} Extend(cfg: Config, s: State, steps: seq<Step>, step: Step) returns (longer: seq<Step>)
    requires Possible(cfg, s, steps) && Enabled(cfg, Run(cfg, s, steps), step)
    ensures Possible(cfg, s, longer) && Run(cfg, s, longer) == Next(cfg, Run(cfg, s, steps), step)
  {
    longer := steps + [step];
    OneStep(cfg, Run(cfg, s, steps), step);
    RunAppend(cfg, s, steps, [step]);
  }

  /** The first k threads all pass the check at the same total. */
  lemma {:induction false} AllPass(cfg: Config, maxPerIp: int, n: nat, k: nat) returns (steps: seq<Step>)
    requires maxPerIp >= 1 && 1 <= cfg.acceptors && k <= cfg.acceptors && n < cfg.maxTotal
    ensures Possible(cfg, Initial(maxPerIp), steps)
    ensures Reached(Run(cfg, Initial(maxPerIp), steps), maxPerIp, n, Upto(k))
    decreases k
  {
    hide Reached, Enabled, Next, Run, Possible;
    if k == 0 {
      steps := Fill(cfg, maxPerIp, n);
      assert Upto(0) == {};
    } else {
      steps := AllPass(cfg, maxPerIp, n, k - 1);
      UptoStep(k - 1);
      CheckReached(cfg, Run(cfg, Initial(maxPerIp), steps), maxPerIp, n, Upto(k - 1), k - 1);
      steps := Extend(cfg, Initial(maxPerIp), steps, Check(k - 1, n));
    }
  }

  /** Then j of them admit, which no check stops any more. */
  lemma {:induction false} AllAdmit(cfg: Config, maxPerIp: int, n: nat, k: nat, j: nat) returns (steps: seq<Step>)
    requires maxPerIp >= 1 && 1 <= cfg.acceptors && j <= k <= cfg.acceptors && n < cfg.maxTotal
    ensures Possible(cfg, Initial(maxPerIp), steps)
    ensures Reached(Run(cfg, Initial(maxPerIp), steps), maxPerIp, n + j, Upto(k - j))
    decreases j
  {
    hide Reached, Enabled, Next, Run, Possible, Upto;
    if j == 0 {
      steps := AllPass(cfg, maxPerIp, n, k);
    } else {
      steps := AllAdmit(cfg, maxPerIp, n, k, j - 1);
      var t := k - j;
      UptoStep(t);
      AdmitReached(cfg, Run(cfg, Initial(maxPerIp), steps), maxPerIp, n + j - 1, Upto(t + 1), t);
      steps := Extend(cfg, Initial(maxPerIp), steps, Admit(t, Name(n + j - 1), 0));
    }
  }

  /** With more accepting threads the limit is exceeded by exactly the extra threads in some interleaving. */
  lemma {:induction false} BoundAttained(cfg: Config, maxPerIp: int) returns (steps: seq<Step>)
    requires maxPerIp >= 1 && cfg.acceptors >= 1 && cfg.maxTotal >= 1
    ensures Possible(cfg, Initial(maxPerIp), steps)
    ensures Run(cfg, Initial(maxPerIp), steps).total == cfg.maxTotal + cfg.acceptors - 1
  {
    hide Run, Possible;
    steps := AllAdmit(cfg, maxPerIp, cfg.maxTotal - 1, cfg.acceptors, cfg.acceptors);
  }
}
