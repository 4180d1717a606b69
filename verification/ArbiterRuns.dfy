/** Properties of the arbiter over whole runs: every sequence of requests from any
    peers, with processes born and dying between them. */
module ArbiterRuns {
  import opened Arith
  import opened Selinux
  import opened ArbiterModel
  import Arbiter

  /** The state after a run. */
  function Run(s: State, evs: seq<Event>): State {
    if |evs| == 0 then s else Serve(Run(s, evs[..|evs| - 1]), evs[|evs| - 1]).0
  }

  /** All replies of a run, in order. */
  function Replies(s: State, evs: seq<Event>): seq<Response> {
    if |evs| == 0 then []
    else Replies(s, evs[..|evs| - 1]) + [Serve(Run(s, evs[..|evs| - 1]), evs[|evs| - 1]).1]
  }

  /** The main loop: booting the arbiter and serving every request answers as the
      model does, so that what follows about runs holds of the table code. */
  method MainLoop(self: int, env: Env, evs: seq<Event>) returns (replies: seq<Response>)
    ensures replies == Replies(Boot(self, env), evs)
  {
    hide Serve, Boot;
    var arbiter := new Arbiter.Arbiter(self, env);
    replies := [];
    for i := 0 to |evs|
      invariant fresh(arbiter) && fresh(arbiter.table) && arbiter.Valid()
      invariant arbiter.View() == Run(Boot(self, env), evs[..i])
      invariant replies == Replies(Boot(self, env), evs[..i])
    {
      var reply := arbiter.ServeOne(evs[i]);
      replies := replies + [reply];
      assert evs[..i + 1][..i] == evs[..i];
    }
    assert evs[..|evs|] == evs;
  }

  // ----- One step -----

  predicate Granted(s: State, ev: Event, pid: int) {
    ev.req.kind == Authorize && ev.req.pid == pid && Serve(s, ev).1.status == 0
  }

  /** The cap of an entry changes only by a grant of the manager; without one a
      surviving entry keeps it and a new entry starts at 0. */
  lemma StepCap(s: State, ev: Event, pid: int)
    requires pid in Serve(s, ev).0.creds
    ensures Serve(s, ev).0.creds[pid].cap ==
            if Granted(s, ev, pid) then ToLevel(ev.req.target)
            else if pid in s.creds && Survives(pid, ev.env) then s.creds[pid].cap
            else READONLY
    ensures Granted(s, ev, pid) ==> ev.peer == s.manager && ToLevel(ev.req.target) <= BOOTLOADER
  {
    hide Decision;
  }

  /** An entry goes up only into its cap, for levels 4 to 7 only if signed, and only
      with a domain that may signal; a new entry starts at USER or below. */
  lemma StepLevel(s: State, ev: Event, pid: int)
    requires pid in Serve(s, ev).0.creds
    ensures var c := Serve(s, ev).0.creds[pid];
      if pid in s.creds && Survives(pid, ev.env) then
        var b := s.creds[pid];
        && c.context == b.context && c.isSigned == b.isSigned
        && (c.level > b.level ==>
              c.level <= b.cap && Decision(b.context, SIGNAL) == 0 && (DEBUG < c.level < SELINUX ==> b.isSigned))
        && (c.level != b.level ==> c.level <= BOOTLOADER)
      else c.level <= USER && c.context == ContextOf(pid, ev.env) && !c.isSigned
  {
    hide Decision;
  }

  predicate LevelSet(s: State, ev: Event, pid: int) {
    ev.req.kind == SetLevel && ev.req.pid == pid && Serve(s, ev).1.status == 0
  }

  /** The level of an entry changes only when its own process sets it, and then to the
      target; a grant to a pid without an entry makes one at USER. */
  lemma StepLevelExact(s: State, ev: Event, pid: int)
    requires pid in Serve(s, ev).0.creds
    ensures Serve(s, ev).0.creds[pid].level ==
            if LevelSet(s, ev, pid) then ToLevel(ev.req.target)
            else if pid in s.creds && Survives(pid, ev.env) then s.creds[pid].level
            else 2
    ensures LevelSet(s, ev, pid) ==> ev.peer == pid && 0 <= ev.req.target <= 11
  {
    hide Decision;
  }

  /** Which pids have an entry afterwards, and what an entry says besides its levels. */
  lemma StepEntry(s: State, ev: Event, pid: int)
    ensures pid in Serve(s, ev).0.creds <==>
            (pid in s.creds && pid > 0 && pid in ev.env.alive) || LevelSet(s, ev, pid) || Granted(s, ev, pid)
    ensures pid in Serve(s, ev).0.creds ==>
              var c := Serve(s, ev).0.creds[pid];
              if pid in s.creds && Survives(pid, ev.env) then
                var b := s.creds[pid];
                c.pid == b.pid && c.context == b.context && c.isSigned == b.isSigned && c.isSelfSigned == b.isSelfSigned
              else c.pid == pid && c.context == ContextOf(pid, ev.env) && !c.isSigned && !c.isSelfSigned
  {
    hide Decision;
  }

  lemma StepKeeps(s: State, ev: Event, pid: int)
    requires pid in s.creds && Survives(pid, ev.env)
    ensures pid in Serve(s, ev).0.creds
  {
    hide Decision;
  }

  // ----- What replies mean to the callers -----

  /** A refused request changes nothing beyond the reaping. */
  lemma RefusalChangesNothing(s: State, ev: Event)
    requires Serve(s, ev).1.status == -1
    ensures Serve(s, ev).0 == s.(creds := Reap(s.creds, ev.env))
  {
    hide Decision;
  }

  function Shown(creds: map<int, Cred>, pid: int): nat {
    if pid in creds then creds[pid].level else 1
  }

  /** A permission check is granted exactly to the process itself or the manager, for
      levels from 0 to the pid's, which is 1 without an entry. */
  lemma CheckAnswer(self: int, boot: Env, evs: seq<Event>, ev: Event)
    requires ev.req.kind == CheckPerm
    ensures var s := Run(Boot(self, boot), evs);
      var level := Shown(Reap(s.creds, ev.env), ev.req.pid);
      var granted := (ev.peer == ev.req.pid || ev.peer == s.manager) && 0 <= ev.req.target <= level;
      Serve(s, ev).1 == Response(if granted then 0 else -1, 0, ev.req.id)
  {
    hide Run, Boot;
    EntriesInRange(self, boot, evs, ev.req.pid);
  }

  /** A level is reported exactly to the process itself or the manager. */
  lemma QueryAnswer(s: State, ev: Event)
    requires ev.req.kind == GetLevel
    ensures Serve(s, ev).1 ==
            if ev.peer == ev.req.pid || ev.peer == s.manager
            then Response(0, Shown(Reap(s.creds, ev.env), ev.req.pid), ev.req.id)
            else Response(-1, 0, ev.req.id)
  {
  }

  /** Exactly when a level is set: on a process's own request, on the ladder, and either
      not upwards or into the cap, outside 4 to 7 and with a signalling domain; a
      process without an entry counts as level 1 and needs room in the table. */
  lemma SetAnswer(self: int, boot: Env, evs: seq<Event>, ev: Event)
    requires ev.req.kind == SetLevel
    ensures var s := Run(Boot(self, boot), evs);
      var creds, pid, target := Reap(s.creds, ev.env), ev.req.pid, ev.req.target;
      var rises := pid in creds && target <= creds[pid].cap && (target < 4 || target > 7)
                   && (IsDomain(creds[pid].context, 64, "sys_dom_t") || IsDomain(creds[pid].context, 64, "uid_dom_t"));
      var granted := ev.peer == pid && 0 <= target <= 11 && (target <= Shown(creds, pid) || rises)
                     && (pid in creds || |creds| < 1024);
      Serve(s, ev).1 == if granted then Response(0, target, ev.req.id) else Response(-1, 0, ev.req.id)
  {
    hide Run, Boot, Decision, IsDomain;
    EntriesInRange(self, boot, evs, ev.req.pid);
    var creds := Reap(Run(Boot(self, boot), evs).creds, ev.env);
    if ev.req.pid in creds {
      SignalDomains(creds[ev.req.pid].context);
    }
  }

  /** Exactly when a grant is made: by the manager, on the ladder, with an entry or room
      for one. */
  lemma AuthorizeAnswer(s: State, ev: Event)
    requires ev.req.kind == Authorize
    ensures var creds := Reap(s.creds, ev.env);
      var granted := ev.peer == s.manager && 0 <= ev.req.target <= 11 && (ev.req.pid in creds || |creds| < 1024);
      Serve(s, ev).1 == Response(if granted then 0 else -1, 0, ev.req.id)
  {
  }

  /** Registration tells everyone the level of the pid they name; requests of other
      kinds are refused. */
  lemma OtherAnswers(s: State, ev: Event)
    ensures ev.req.kind == RegisterManager ==>
              Serve(s, ev).1 == Response(if s.manager < 0 || s.manager !in ev.env.alive then 0 else -1,
                                         Shown(Reap(s.creds, ev.env), ev.req.pid), ev.req.id)
    ensures ev.req.kind == QueryCap || ev.req.kind == Unknown ==> Serve(s, ev).1 == Response(-1, 0, ev.req.id)
  {
  }

  /** check-permission says yes exactly when get-level would report enough; a
      negative level is never reached. */
  lemma CheckAgreesWithGet(self: int, boot: Env, evs: seq<Event>, p: int, target: int32, id: int, peer: int, env: Env)
    requires var s := Run(Boot(self, boot), evs);
      peer == p || peer == s.manager
    ensures var s := Run(Boot(self, boot), evs);
      var check := Serve(s, Event(Request(CheckPerm, p, target, id), peer, env)).1;
      var query := Serve(s, Event(Request(GetLevel, p, target, id), peer, env)).1;
      query.status == 0 && (check.status == 0 <==> 0 <= target <= query.currentLevel)
  {
    hide Run, Boot;
    EntriesInRange(self, boot, evs, p);
  }

  /** A level that was set is the level reported next. */
  lemma SetThenGet(s: State, change: Event, query: Event)
    requires change.req.kind == SetLevel && Serve(s, change).1.status == 0
    requires query.req.kind == GetLevel && query.req.pid == change.req.pid == query.peer && Survives(query.peer, query.env)
    ensures Serve(Serve(s, change).0, query).1 == Response(0, change.req.target, query.req.id)
  {
    hide Decision;
  }

  /** Going down, or staying, is never refused to a live known process. */
  lemma LoweringGranted(s: State, ev: Event)
    requires ev.req.kind == SetLevel && ev.peer == ev.req.pid && Survives(ev.peer, ev.env)
    requires ev.peer in s.creds && 0 <= ev.req.target <= BOOTLOADER && ev.req.target <= s.creds[ev.peer].level
    ensures Serve(s, ev).1.status == 0
  {
    hide Decision;
  }

  /** A grant takes effect: the process may then climb to any level up to its cap
      outside 4 to 7, given a signalling domain. */
  lemma GrantEnablesClimb(s: State, grant: Event, climb: Event)
    requires Granted(s, grant, climb.peer)
    requires climb.req.kind == SetLevel && climb.req.pid == climb.peer && Survives(climb.peer, climb.env)
    requires 0 <= climb.req.target <= ToLevel(grant.req.target)
    requires climb.req.target <= DEBUG || climb.req.target >= SELINUX
    requires var ctx := Serve(s, grant).0.creds[climb.peer].context;
      IsDomain(ctx, 64, SYS_DOMAIN) || IsDomain(ctx, 64, UID_DOMAIN)
    ensures Serve(Serve(s, grant).0, climb).1 == Response(0, climb.req.target, climb.req.id)
  {
    hide Decision, IsDomain;
    SignalDomains(Serve(s, grant).0.creds[climb.peer].context);
    StepCap(s, grant, climb.peer);
  }

  // ----- Manager authority -----

  /** The manager changes only by a registration, from unset or from a dead pid. */
  lemma ManagerChanges(s: State, ev: Event)
    ensures var s' := Serve(s, ev).0;
      s'.manager != s.manager ==>
        ev.req.kind == RegisterManager && s'.manager == ev.peer && (s.manager < 0 || s.manager !in ev.env.alive)
    ensures ev.req.kind == RegisterManager ==>
              (Serve(s, ev).1.status == 0 <==> s.manager < 0 || s.manager !in ev.env.alive)
    ensures ev.req.kind == RegisterManager && Serve(s, ev).1.status == 0 ==> Serve(s, ev).0.manager == ev.peer
  {
    hide Decision;
  }

  ghost predicate RegisteredAt(s: State, evs: seq<Event>, m: int, i: nat) {
    && i < |evs|
    && evs[i].req.kind == RegisterManager && evs[i].peer == m
    && Serve(Run(s, evs[..i]), evs[i]).1.status == 0
  }

  /** A manager that is set got there by a registration that succeeded. */
  lemma {:induction false} ManagerRegistered(self: int, env: Env, evs: seq<Event>)
    ensures var s := Boot(self, env);
      Run(s, evs).manager == NO_MANAGER || exists i: nat :: RegisteredAt(s, evs, Run(s, evs).manager, i)
  {
    hide Serve;
    var s := Boot(self, env);
    if |evs| > 0 {
      var n := |evs| - 1;
      var before, ev := Run(s, evs[..n]), evs[n];
      ManagerRegistered(self, env, evs[..n]);
      ManagerChanges(before, ev);
      if Run(s, evs).manager != before.manager {
        assert RegisteredAt(s, evs, ev.peer, n);
      } else if before.manager != NO_MANAGER {
        var i: nat :| RegisteredAt(s, evs[..n], before.manager, i);
        assert evs[..n][..i] == evs[..i];
        assert RegisteredAt(s, evs, before.manager, i);
      }
    }
  }

  /** Every grant was made by a process that had registered as manager earlier in
      the run, or by an unidentified sender. */
  lemma GrantNeedsRegistration(self: int, env: Env, evs: seq<Event>, ev: Event, pid: int)
    requires Granted(Run(Boot(self, env), evs), ev, pid)
    ensures ev.peer == -1 || exists i: nat :: RegisteredAt(Boot(self, env), evs, ev.peer, i)
  {
    hide Run, Boot, Decision;
    ManagerRegistered(self, env, evs);
  }

  /** The exception is real: as long as the manager is unset, a sender that could not
      be identified grants whatever the manager could, to whom the table has room. */
  lemma UnidentifiedGrants(self: int, env: Env, evs: seq<Event>, ev: Event)
    requires Run(Boot(self, env), evs).manager == NO_MANAGER
    requires ev.peer == -1 && ev.req.kind == Authorize
    ensures var creds := Reap(Run(Boot(self, env), evs).creds, ev.env);
      Granted(Run(Boot(self, env), evs), ev, ev.req.pid) <==>
      0 <= ev.req.target <= BOOTLOADER && (ev.req.pid in creds || |creds| < MAX_REQUESTS)
  {
    hide Run, Boot;
  }

  /** So it can raise the arbiter's own cap right after boot. */
  lemma UnidentifiedGrantAtBoot(self: int, env: Env, target: int32, id: int, now: Env)
    requires Survives(self, now) && 0 <= target <= BOOTLOADER
    ensures Granted(Boot(self, env), Event(Request(Authorize, self, target, id), -1, now), self)
  {
    UnidentifiedGrants(self, env, [], Event(Request(Authorize, self, target, id), -1, now));
  }

  /** The level of the last successful grant to pid since its entry was created,
      or 0, read off the replies alone. */
  function LastGrant(s: State, evs: seq<Event>, pid: int): nat {
    if |evs| == 0 then READONLY
    else
      var before, ev := Run(s, evs[..|evs| - 1]), evs[|evs| - 1];
      if Granted(before, ev, pid) then ToLevel(ev.req.target)
      else if Survives(pid, ev.env) then LastGrant(s, evs[..|evs| - 1], pid)
      else READONLY
  }

  function MaxGrant(s: State, evs: seq<Event>, pid: int): nat {
    if |evs| == 0 then READONLY
    else
      var before, ev := Run(s, evs[..|evs| - 1]), evs[|evs| - 1];
      var earlier := if Survives(pid, ev.env) then MaxGrant(s, evs[..|evs| - 1], pid) else READONLY;
      if Granted(before, ev, pid) && ToLevel(ev.req.target) > earlier then ToLevel(ev.req.target) else earlier
  }

  /** Every entry's cap is the last grant the manager made to it. */
  lemma {:induction false} CapIsLastGrant(self: int, env: Env, evs: seq<Event>, pid: int)
    ensures var s := Boot(self, env);
      (pid in Run(s, evs).creds ==> Run(s, evs).creds[pid].cap == LastGrant(s, evs, pid))
      && (pid !in Run(s, evs).creds ==> LastGrant(s, evs, pid) == READONLY)
  {
    hide Decision;
    var s := Boot(self, env);
    if |evs| > 0 {
      var n := |evs| - 1;
      var before, ev := Run(s, evs[..n]), evs[n];
      CapIsLastGrant(self, env, evs[..n], pid);
      if pid in Serve(before, ev).0.creds {
        StepCap(before, ev, pid);
      }
    }
  }

  /** The target of the last successful set-level of pid since its entry was created;
      without one the level at creation, 2, or 8 for the arbiter at boot. */
  function LastLevel(self: int, s: State, evs: seq<Event>, pid: int): nat {
    if |evs| == 0 then if pid == self then 8 else 2
    else
      var before, ev := Run(s, evs[..|evs| - 1]), evs[|evs| - 1];
      if LevelSet(before, ev, pid) then ToLevel(ev.req.target)
      else if Survives(pid, ev.env) then LastLevel(self, s, evs[..|evs| - 1], pid)
      else 2
  }

  /** Whether pid has an entry: it was given one, by its own set-level or by a grant,
      and has survived every request since. */
  predicate Known(self: int, s: State, evs: seq<Event>, pid: int) {
    if |evs| == 0 then pid == self
    else
      var before, ev := Run(s, evs[..|evs| - 1]), evs[|evs| - 1];
      (Known(self, s, evs[..|evs| - 1], pid) && Survives(pid, ev.env)) || LevelSet(before, ev, pid) || Granted(before, ev, pid)
  }

  /** The context pid had when its entry was created. */
  function FirstContext(self: int, boot: Env, s: State, evs: seq<Event>, pid: int): CString {
    if |evs| == 0 then ContextOf(pid, boot)
    else
      var ev := evs[|evs| - 1];
      if Known(self, s, evs[..|evs| - 1], pid) && Survives(pid, ev.env)
      then FirstContext(self, boot, s, evs[..|evs| - 1], pid)
      else ContextOf(pid, ev.env)
  }

  /** Every entry's level is the last one its process set. */
  lemma {:induction false} LevelIsLastSet(self: int, env: Env, evs: seq<Event>, pid: int)
    ensures var s := Boot(self, env);
      (pid in Run(s, evs).creds ==> Run(s, evs).creds[pid].level == LastLevel(self, s, evs, pid))
      && (pid !in Run(s, evs).creds ==> LastLevel(self, s, evs, pid) == 2)
  {
    hide Serve, LevelSet, Granted;
    var s := Boot(self, env);
    if |evs| > 0 {
      var n := |evs| - 1;
      var before, ev := Run(s, evs[..n]), evs[n];
      LevelIsLastSet(self, env, evs[..n], pid);
      StepEntry(before, ev, pid);
      if pid in Serve(before, ev).0.creds {
        StepLevelExact(before, ev, pid);
      }
    }
  }

  /** The whole table is a function of the replies given so far: which pids have an
      entry, and every field of it. */
  lemma {:induction false} TableIsHistory(self: int, env: Env, evs: seq<Event>, pid: int)
    ensures var s := Boot(self, env);
      && (pid in Run(s, evs).creds <==> Known(self, s, evs, pid))
      && (pid in Run(s, evs).creds ==>
            Run(s, evs).creds[pid] ==
            Cred(pid, LastLevel(self, s, evs, pid), FirstContext(self, env, s, evs, pid), false, false, LastGrant(s, evs, pid)))
  {
    hide Serve, LevelSet, Granted, LastLevel, LastGrant;
    var s := Boot(self, env);
    LevelIsLastSet(self, env, evs, pid);
    CapIsLastGrant(self, env, evs, pid);
    if |evs| > 0 {
      var n := |evs| - 1;
      TableIsHistory(self, env, evs[..n], pid);
      StepEntry(Run(s, evs[..n]), evs[n], pid);
    }
  }

  // ----- The ladder -----

  lemma {:induction false} LastGrantBelowMax(s: State, evs: seq<Event>, pid: int)
    ensures LastGrant(s, evs, pid) <= MaxGrant(s, evs, pid)
  {
    hide Serve, Granted;
    if |evs| > 0 {
      LastGrantBelowMax(s, evs[..|evs| - 1], pid);
    }
  }

  function Max(x: nat, y: nat): nat { if x >= y then x else y }

  /** No entry but the arbiter's own is ever above both USER and the largest cap the
      manager has granted it since it was created. */
  lemma {:induction false} LadderSafety(self: int, env: Env, evs: seq<Event>, pid: int)
    ensures var s := Boot(self, env);
      pid in Run(s, evs).creds ==>
        Run(s, evs).creds[pid].level <= Max(if pid == self then SELINUX else USER, MaxGrant(s, evs, pid))
  {
    hide Decision, Serve, Granted, LastGrant;
    var s := Boot(self, env);
    if |evs| > 0 {
      var n := |evs| - 1;
      var before, ev := Run(s, evs[..n]), evs[n];
      LadderSafety(self, env, evs[..n], pid);
      if pid in Serve(before, ev).0.creds {
        StepLevel(before, ev, pid);
        CapIsLastGrant(self, env, evs[..n], pid);
        LastGrantBelowMax(s, evs[..n], pid);
      }
    }
  }

  /** No entry is ever marked as signed, and levels stay on the ladder. */
  lemma {:induction false} EntriesInRange(self: int, env: Env, evs: seq<Event>, pid: int)
    ensures var s := Boot(self, env);
      pid in Run(s, evs).creds ==> !Run(s, evs).creds[pid].isSigned && Run(s, evs).creds[pid].level <= BOOTLOADER
  {
    hide Decision, Serve;
    var s := Boot(self, env);
    if |evs| > 0 {
      var n := |evs| - 1;
      var before, ev := Run(s, evs[..n]), evs[n];
      EntriesInRange(self, env, evs[..n], pid);
      if pid in Serve(before, ev).0.creds {
        StepLevel(before, ev, pid);
      }
    }
  }

  /** The highest level an entry has held since it was created. */
  function Peak(s: State, evs: seq<Event>, pid: int): nat {
    if pid !in Run(s, evs).creds then READONLY
    else if |evs| == 0 then s.creds[pid].level
    else
      var earlier := if Survives(pid, evs[|evs| - 1].env) then Peak(s, evs[..|evs| - 1], pid) else READONLY;
      Max(earlier, Run(s, evs).creds[pid].level)
  }

  /** Since nothing sets the signing flag, levels 4 to 7 cannot be climbed to: an
      entry at one of them has come down from level 8 or above. */
  lemma {:induction false} MiddleLevelsOnlyFromAbove(self: int, env: Env, evs: seq<Event>, pid: int)
    ensures var s := Boot(self, env);
      && (Peak(s, evs, pid) <= DEBUG || Peak(s, evs, pid) >= SELINUX)
      && (pid in Run(s, evs).creds ==> Run(s, evs).creds[pid].level <= Peak(s, evs, pid))
      && (pid in Run(s, evs).creds && DEBUG < Run(s, evs).creds[pid].level < SELINUX ==> Peak(s, evs, pid) >= SELINUX)
  {
    hide Decision, Serve;
    var s := Boot(self, env);
    if |evs| > 0 {
      var n := |evs| - 1;
      var before, ev := Run(s, evs[..n]), evs[n];
      MiddleLevelsOnlyFromAbove(self, env, evs[..n], pid);
      EntriesInRange(self, env, evs[..n], pid);
      if pid in Serve(before, ev).0.creds {
        StepLevel(before, ev, pid);
      }
    }
  }

  // ----- Domain confinement -----

  ghost predicate Confined(ctx: CString) {
    !IsDomain(ctx, 64, SYS_DOMAIN) && !IsDomain(ctx, 64, UID_DOMAIN)
  }

  /** An entry whose context is of no signalling domain, or does not parse, keeps
      that context and only goes down for its whole life, from any state. */
  lemma {:induction false} ConfinedOnlyDescends(s: State, evs: seq<Event>, pid: int, k: nat)
    requires k <= |evs| && pid in Run(s, evs[..k]).creds
    requires forall i :: k <= i < |evs| ==> Survives(pid, evs[i].env)
    requires Confined(Run(s, evs[..k]).creds[pid].context)
    ensures pid in Run(s, evs).creds
    ensures Run(s, evs).creds[pid].context == Run(s, evs[..k]).creds[pid].context
    ensures Run(s, evs).creds[pid].level <= Run(s, evs[..k]).creds[pid].level
  {
    hide Decision, Serve, IsDomain;
    if k == |evs| {
      assert evs[..k] == evs;
    } else {
      var n := |evs| - 1;
      var before, ev := Run(s, evs[..n]), evs[n];
      assert evs[..n][..k] == evs[..k];
      ConfinedOnlyDescends(s, evs[..n], pid, k);
      StepKeeps(before, ev, pid);
      StepLevel(before, ev, pid);
      SignalDomains(before.creds[pid].context);
    }
  }

  /** A process whose context cannot be read is put into the application sandbox,
      so its entry is one of these. */
  lemma UnreadableIsConfined(pid: int, env: Env)
    requires pid !in env.contexts
    ensures IsDomain(ContextOf(pid, env), 64, "app_sandbox_t") && Confined(ContextOf(pid, env))
  {
    hide IsDomain;
    var ctx := ContextOf(pid, env);
    assert ctx == "u:r:" + "app_sandbox_t" + ":" + "s0";
    ContextParses("app_sandbox_t", "s0", 64);
    DomainMeaning(ctx, 64, "app_sandbox_t");
    DomainMeaning(ctx, 64, SYS_DOMAIN);
    DomainMeaning(ctx, 64, UID_DOMAIN);
  }

  // ----- Isolation -----

  /** A registration attempt reports the level of a pid of the sender's choice. */
  predicate AsksAboutOther(req: Request, p: int) {
    req.kind == RegisterManager && req.pid != p
  }

  /** The replies p gets, registration attempts that name another pid left out. */
  function RepliesTo(s: State, evs: seq<Event>, p: int): seq<Response>
    decreases evs
  {
    if |evs| == 0 then []
    else
      var (s', reply) := Serve(s, evs[0]);
      (if evs[0].peer == p && !AsksAboutOther(evs[0].req, p) then [reply] else []) + RepliesTo(s', evs[1..], p)
  }

  /** The run without the requests of everybody but p and the manager m. */
  function Only(evs: seq<Event>, p: int, m: int): seq<Event> {
    if |evs| == 0 then []
    else (if evs[0].peer == p || evs[0].peer == m then [evs[0]] else []) + Only(evs[1..], p, m)
  }

  /** Whether p has an entry or can still be given one. */
  predicate HasSlot(s: State, p: int) {
    p in s.creds || |s.creds| < MAX_REQUESTS
  }

  function Reaped(s: State, env: Env): State {
    s.(creds := Reap(s.creds, env))
  }

  predicate Kept(s: State, ev: Event, p: int) {
    ev.peer == p || ev.peer == s.manager
  }

  /** No registration succeeds, and no request of p or the manager finds the table
      full while p has no entry. */
  ghost predicate Calm(s: State, evs: seq<Event>, p: int)
    decreases evs
  {
    |evs| > 0 ==>
      && (evs[0].req.kind == RegisterManager ==> !ManagerFree(s, evs[0].env))
      && (Kept(s, evs[0], p) ==> HasSlot(Reaped(s, evs[0].env), p))
      && Calm(Serve(s, evs[0]).0, evs[1..], p)
  }

  /** A death of p that only a deleted request noticed is over before the next kept
      one: p is then still dead. `stale` says that such a death is pending. */
  ghost predicate NoReuseUnseen(s: State, evs: seq<Event>, p: int, stale: bool)
    decreases evs
  {
    |evs| > 0 ==>
      var ev, s' := evs[0], Serve(s, evs[0]).0;
      if Kept(s, ev, p) then (stale ==> !Survives(p, ev.env)) && NoReuseUnseen(s', evs[1..], p, false)
      else NoReuseUnseen(s', evs[1..], p, stale || (p in s.creds && !Survives(p, ev.env)))
  }

  /** Same manager, same entry for p: all that p's replies depend on. */
  ghost predicate AgreeOn(s: State, t: State, p: int) {
    && s.manager == t.manager
    && (p in s.creds <==> p in t.creds)
    && (p in s.creds ==> s.creds[p] == t.creds[p])
  }

  /** Every kept request finds the same manager and the same entry for p in the full
      run, from s, and in the shortened run, from t. */
  ghost predicate SameViews(s: State, t: State, evs: seq<Event>, p: int)
    decreases evs
  {
    |evs| > 0 ==>
      var ev := evs[0];
      if Kept(s, ev, p) then
        AgreeOn(Reaped(s, ev.env), Reaped(t, ev.env), p) && SameViews(Serve(s, ev).0, Serve(t, ev).0, evs[1..], p)
      else SameViews(Serve(s, ev).0, t, evs[1..], p)
  }

  lemma SameSetLevel(s: State, t: State, req: Request, peer: int, env: Env, p: int)
    requires AgreeOn(s, t, p) && HasSlot(s, p) && HasSlot(t, p) && req.kind == SetLevel
    ensures AgreeOn(Handle(s, req, peer, env).0, Handle(t, req, peer, env).0, p)
    ensures peer == p ==> Handle(s, req, peer, env).1 == Handle(t, req, peer, env).1
  {
  }

  lemma SameAuthorize(s: State, t: State, req: Request, peer: int, env: Env, p: int)
    requires AgreeOn(s, t, p) && HasSlot(s, p) && HasSlot(t, p) && req.kind == Authorize
    requires p != s.manager
    ensures AgreeOn(Handle(s, req, peer, env).0, Handle(t, req, peer, env).0, p)
    ensures peer == p ==> Handle(s, req, peer, env).1 == Handle(t, req, peer, env).1
  {
  }

  /** Serving the same request in states that agree on p after reaping. */
  lemma SameRequest(s: State, t: State, ev: Event, p: int)
    requires AgreeOn(Reaped(s, ev.env), Reaped(t, ev.env), p) && p != s.manager
    requires ev.req.kind == RegisterManager ==> !ManagerFree(s, ev.env)
    requires HasSlot(Reaped(s, ev.env), p) && HasSlot(Reaped(t, ev.env), p)
    ensures AgreeOn(Serve(s, ev).0, Serve(t, ev).0, p) && Serve(s, ev).0.manager == s.manager
    ensures ev.peer == p && !AsksAboutOther(ev.req, p) ==> Serve(s, ev).1 == Serve(t, ev).1
  {
    hide TrySetLevel, TryAuthorize, Reap;
    var s', t' := Reaped(s, ev.env), Reaped(t, ev.env);
    match ev.req.kind
    case SetLevel => SameSetLevel(s', t', ev.req, ev.peer, ev.env, p);
    case Authorize => SameAuthorize(s', t', ev.req, ev.peer, ev.env, p);
    case _ =>
  }

  /** A request of anybody else leaves the manager alone and does to p's entry only
      what its reaping does. */
  lemma OtherRequest(s: State, ev: Event, p: int)
    requires ev.req.kind == RegisterManager ==> !ManagerFree(s, ev.env)
    requires !Kept(s, ev, p)
    ensures AgreeOn(Serve(s, ev).0, Reaped(s, ev.env), p)
  {
    hide Decision;
  }

  /** How the two runs stand: a pending death leaves p's entry in the shortened run
      only, otherwise they agree on p. */
  ghost predicate InStep(s: State, t: State, p: int, stale: bool) {
    if stale then s.manager == t.manager && p !in s.creds && p in t.creds else AgreeOn(s, t, p)
  }

  /** Exactly when every kept request finds the same in both runs: when no reuse of
      p's pid goes unseen. */
  lemma {:induction false} SameViewsIff(s: State, t: State, evs: seq<Event>, p: int, stale: bool)
    requires InStep(s, t, p, stale) && p != s.manager
    requires Calm(s, evs, p) && Calm(t, Only(evs, p, s.manager), p)
    ensures SameViews(s, t, evs, p) <==> NoReuseUnseen(s, evs, p, stale)
    decreases evs
  {
    hide Serve, HasSlot, ManagerFree;
    if |evs| > 0 {
      var ev, rest, m := evs[0], evs[1..], s.manager;
      if Kept(s, ev, p) {
        var kept := Only(evs, p, m);
        assert kept[0] == ev && kept[1..] == Only(rest, p, m);
        if !stale || !Survives(p, ev.env) {
          SameRequest(s, t, ev, p);
          SameViewsIff(Serve(s, ev).0, Serve(t, ev).0, rest, p, false);
        }
      } else {
        assert Only(evs, p, m) == Only(rest, p, m);
        OtherRequest(s, ev, p);
        SameViewsIff(Serve(s, ev).0, t, rest, p, stale || (p in s.creds && !Survives(p, ev.env)));
      }
    }
  }

  /** What p is told depends on nothing but these views. */
  lemma {:induction false} SameViewsSameReplies(s: State, t: State, evs: seq<Event>, p: int)
    requires SameViews(s, t, evs, p) && p != s.manager
    requires Calm(s, evs, p) && Calm(t, Only(evs, p, s.manager), p)
    ensures RepliesTo(s, evs, p) == RepliesTo(t, Only(evs, p, s.manager), p)
    decreases evs
  {
    hide Serve, HasSlot, ManagerFree;
    if |evs| > 0 {
      var ev, rest, m := evs[0], evs[1..], s.manager;
      if Kept(s, ev, p) {
        var kept := Only(evs, p, m);
        assert kept[0] == ev && kept[1..] == Only(rest, p, m);
        SameRequest(s, t, ev, p);
        SameViewsSameReplies(Serve(s, ev).0, Serve(t, ev).0, rest, p);
      } else {
        assert Only(evs, p, m) == Only(rest, p, m);
        OtherRequest(s, ev, p);
        SameViewsSameReplies(Serve(s, ev).0, t, rest, p);
      }
    }
  }

  /** Other callers cannot influence what p is told: deleting all their requests
      from a run leaves every reply to p unchanged. */
  lemma Isolation(s: State, t: State, evs: seq<Event>, p: int)
    requires AgreeOn(s, t, p) && p != s.manager
    requires Calm(s, evs, p) && Calm(t, Only(evs, p, s.manager), p)
    requires NoReuseUnseen(s, evs, p, false)
    ensures RepliesTo(s, evs, p) == RepliesTo(t, Only(evs, p, s.manager), p)
  {
    SameViewsIff(s, t, evs, p, false);
    SameViewsSameReplies(s, t, evs, p);
  }

  /** A reuse that goes unseen shows: if a deleted request reaps p and the pid is then
      reused, the new process is told SANDBOX, but its predecessor's level without
      the deleted request. */
  lemma UnseenReuseShows(s: State, noticed: Event, reused: Event, p: int)
    requires p in s.creds && p != s.manager
    requires !Kept(s, noticed, p) && noticed.req.kind != RegisterManager && !Survives(p, noticed.env)
    requires reused.req.kind == GetLevel && reused.req.pid == reused.peer == p && Survives(p, reused.env)
    ensures !NoReuseUnseen(s, [noticed, reused], p, false)
    ensures RepliesTo(s, [noticed, reused], p) == [Response(0, SANDBOX, reused.req.id)]
    ensures RepliesTo(s, Only([noticed, reused], p, s.manager), p) == [Response(0, s.creds[p].level, reused.req.id)]
  {
    hide Serve;
    var s' := Serve(s, noticed).0;
    OtherRequest(s, noticed, p);
    LevelTold(s, reused);
    LevelTold(s', reused);
    assert RepliesTo(s', [reused], p) == [Serve(s', reused).1] + [];
    assert [noticed, reused][1..] == [reused] && [reused][1..] == [];
    assert Only([reused], p, s.manager) == [reused] + [];
    assert Only([noticed, reused], p, s.manager) == [] + Only([reused], p, s.manager);
  }

  lemma LevelTold(s: State, ev: Event)
    requires ev.req.kind == GetLevel && ev.req.pid == ev.peer && Survives(ev.peer, ev.env)
    ensures Serve(s, ev).1 == Response(0, LevelOf(s.creds, ev.peer), ev.req.id)
  {
  }

  /** It happens: 5 becomes manager and authorizes 7, a request of 8 is served while
      7 is dead, and the pid is reused. Nothing else of `Isolation` fails here. */
  lemma UnseenReuseIsReachable()
    ensures var all, without7 := Env({1, 5, 7, 8}, map[]), Env({1, 5, 8}, map[]);
      var s := Run(Boot(1, all), [
        Event(Request(RegisterManager, 5, 0, 1), 5, all),
        Event(Request(Authorize, 7, 3, 2), 5, all)]);
      var evs := [
        Event(Request(GetLevel, 8, 0, 3), 8, without7),
        Event(Request(GetLevel, 7, 0, 4), 7, all)];
      && s.manager == 5 && Calm(s, evs, 7) && Calm(s, Only(evs, 7, 5), 7)
      && RepliesTo(s, evs, 7) == [Response(0, SANDBOX, 4)]
      && RepliesTo(s, Only(evs, 7, 5), 7) == [Response(0, USER, 4)]
  {
    hide Run, RepliesTo, NoReuseUnseen, Only, Calm;
    var all, without7 := Env({1, 5, 7, 8}, map[]), Env({1, 5, 8}, map[]);
    var registers, grants := Event(Request(RegisterManager, 5, 0, 1), 5, all), Event(Request(Authorize, 7, 3, 2), 5, all);
    var noticed, reused := Event(Request(GetLevel, 8, 0, 3), 8, without7), Event(Request(GetLevel, 7, 0, 4), 7, all);
    var s := Run(Boot(1, all), [registers, grants]);
    AfterGrant(all, registers, grants);
    UnseenReuseShows(s, noticed, reused, 7);
    CalmQueries(s, noticed, reused, 7);
  }

  lemma CalmQueries(s: State, q: Event, r: Event, p: int)
    requires q.req.kind == r.req.kind == GetLevel && |s.creds| < MAX_REQUESTS && !Kept(s, q, p) && Kept(s, r, p)
    ensures Calm(s, [q, r], p) && Calm(s, Only([q, r], p, s.manager), p)
  {
    var s' := Serve(s, q).0;
    ReapShrinks(s.creds, q.env);
    ReapShrinks(s.creds, r.env);
    ReapShrinks(s'.creds, r.env);
    assert [q, r][1..] == [r] && [r][1..] == [];
    assert Calm(s', [r], p) && Calm(s, [r], p);
    assert Only([r], p, s.manager) == [r] + [];
    assert Only([q, r], p, s.manager) == [] + Only([r], p, s.manager);
  }

  lemma ReapShrinks(creds: map<int, Cred>, env: Env)
    ensures |Reap(creds, env)| <= |creds|
  {
    var kept, all := Reap(creds, env).Keys, creds.Keys;
    assert all == kept + (all - kept);
  }

  lemma AfterGrant(all: Env, registers: Event, grants: Event)
    requires all == Env({1, 5, 7, 8}, map[])
    requires registers == Event(Request(RegisterManager, 5, 0, 1), 5, all)
    requires grants == Event(Request(Authorize, 7, 3, 2), 5, all)
    ensures var s := Run(Boot(1, all), [registers, grants]);
      s.manager == 5 && s.creds.Keys == {1, 7} && s.creds[7].level == USER
  {
    var s0 := Boot(1, all);
    var s1 := Serve(s0, registers).0;
    assert s1 == State(map[1 := NewCred(1, SELINUX, all)], 5);
    assert [registers, grants][..1] == [registers] && [registers][..0] == [];
    assert Run(s0, [registers]) == s1;
    assert Reap(s1.creds, all).Keys == {1};
  }
}
