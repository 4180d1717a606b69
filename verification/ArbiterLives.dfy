/** What reaping is for: a process must not inherit the entry of an earlier process
    with the same pid. A run is watched together with the identity of every live
    process, and the entries' owners are followed through it. */
module ArbiterLives {
  import opened Arith
  import opened Selinux
  import opened ArbiterModel
  import opened ArbiterRuns

  /** Which process each live pid belongs to, at one moment. */
  type Census = map<int, nat>

  /** One census at boot and one for every request, with the pids it finds alive. */
  ghost predicate Matches(lives: seq<Census>, boot: Env, evs: seq<Event>) {
    && |lives| == |evs| + 1
    && lives[0].Keys == boot.alive
    && forall i :: 0 <= i < |evs| ==> lives[i + 1].Keys == evs[i].env.alive
  }

  function ProcessOf(now: Census, pid: int): Option<nat> {
    if pid in now then Some(now[pid]) else None
  }

  /** The process that had the pid when the pid's entry was made, if any had it. */
  function Owner(s: State, evs: seq<Event>, lives: seq<Census>, pid: int): Option<nat>
    requires |lives| == |evs| + 1
  {
    var n := |evs|;
    if n > 0 && pid in Run(s, evs[..n - 1]).creds && Survives(pid, evs[n - 1].env)
    then Owner(s, evs[..n - 1], lives[..n], pid)
    else ProcessOf(lives[n], pid)
  }

  /** Request i finds an entry for pid that its reaping keeps. */
  ghost predicate Found(s: State, evs: seq<Event>, i: nat, pid: int) {
    i < |evs| && pid in Run(s, evs[..i]).creds && Survives(pid, evs[i].env)
  }

  /** Every entry a request finds was made for the process that has the pid then. */
  ghost predicate EntriesCurrent(s: State, evs: seq<Event>, lives: seq<Census>)
    requires |lives| == |evs| + 1
  {
    forall i: nat, pid :: Found(s, evs, i, pid) ==>
      Owner(s, evs[..i], lives[..i + 1], pid) == ProcessOf(lives[i + 1], pid)
  }

  /** No pid with an entry changes hands between two successive requests. */
  ghost predicate NoUnseenChange(s: State, evs: seq<Event>, lives: seq<Census>)
    requires |lives| == |evs| + 1
  {
    forall i: nat, pid :: Found(s, evs, i, pid) ==> ProcessOf(lives[i], pid) == ProcessOf(lives[i + 1], pid)
  }

  lemma {:induction false} OwnerIsCurrent(s: State, evs: seq<Event>, lives: seq<Census>, i: nat, pid: int)
    requires |lives| == |evs| + 1 && i <= |evs|
    requires NoUnseenChange(s, evs, lives)
    requires pid in Run(s, evs[..i]).creds
    ensures Owner(s, evs[..i], lives[..i + 1], pid) == ProcessOf(lives[i], pid)
  {
    hide Run, Survives;
    if i > 0 {
      assert evs[..i][..i - 1] == evs[..i - 1] && lives[..i + 1][..i] == lives[..i];
      if Found(s, evs, i - 1, pid) {
        OwnerIsCurrent(s, evs, lives, i - 1, pid);
      }
    }
  }

  /** Exactly when does every entry belong to the process that has its pid: when no
      pid with an entry changes hands unseen between two requests. */
  lemma EntriesCurrentIff(s: State, evs: seq<Event>, lives: seq<Census>)
    requires |lives| == |evs| + 1
    ensures EntriesCurrent(s, evs, lives) <==> NoUnseenChange(s, evs, lives)
  {
    hide Run, Survives;
    if NoUnseenChange(s, evs, lives) {
      forall i: nat, pid | Found(s, evs, i, pid)
        ensures Owner(s, evs[..i], lives[..i + 1], pid) == ProcessOf(lives[i + 1], pid)
      {
        OwnerIsCurrent(s, evs, lives, i, pid);
      }
    }
    if EntriesCurrent(s, evs, lives) {
      forall i: nat, pid | Found(s, evs, i, pid)
        ensures ProcessOf(lives[i], pid) == ProcessOf(lives[i + 1], pid)
      {
        if i > 0 {
          assert evs[..i][..i - 1] == evs[..i - 1] && lives[..i + 1][..i] == lives[..i];
          if Survives(pid, evs[i - 1].env) && pid in Run(s, evs[..i - 1]).creds {
            assert Found(s, evs, i - 1, pid);
          }
        }
      }
    }
  }

  lemma {:induction false} NoEntryNoGrant(s: State, evs: seq<Event>, pid: int)
    requires pid !in Run(s, evs).creds
    ensures MaxGrant(s, evs, pid) == READONLY
  {
    hide Decision;
    if |evs| > 0 {
      var n := |evs| - 1;
      var before, ev := Run(s, evs[..n]), evs[n];
      if pid !in before.creds {
        NoEntryNoGrant(s, evs[..n], pid);
      } else if Survives(pid, ev.env) {
        StepKeeps(before, ev, pid);
      }
    }
  }

  /** Request k, before request i, granted pid at least `level`, when the given
      process had the pid. */
  ghost predicate GrantedTo(s: State, evs: seq<Event>, lives: seq<Census>, i: nat, k: nat, pid: int, level: nat,
      process: Option<nat>) {
    && k < i <= |evs| < |lives|
    && Granted(Run(s, evs[..k]), evs[k], pid) && ToLevel(evs[k].req.target) >= level
    && ProcessOf(lives[k + 1], pid) == process
  }

  lemma {:induction false} LargestGrantIsOwn(s: State, evs: seq<Event>, lives: seq<Census>, i: nat, pid: int, level: nat)
    requires |lives| == |evs| + 1 && i <= |evs| && NoUnseenChange(s, evs, lives)
    requires pid in Run(s, evs[..i]).creds && READONLY < level <= MaxGrant(s, evs[..i], pid)
    ensures exists k: nat :: GrantedTo(s, evs, lives, i, k, pid, level, ProcessOf(lives[i], pid))
  {
    hide Run, Survives, Granted, ToLevel;
    var n := i - 1;
    assert evs[..i][..n] == evs[..n];
    if !GrantedTo(s, evs, lives, i, n, pid, level, ProcessOf(lives[i], pid)) {
      if pid !in Run(s, evs[..n]).creds {
        NoEntryNoGrant(s, evs[..n], pid);
      }
      assert Found(s, evs, n, pid);
      LargestGrantIsOwn(s, evs, lives, n, pid, level);
      var k: nat :| GrantedTo(s, evs, lives, n, k, pid, level, ProcessOf(lives[n], pid));
      assert GrantedTo(s, evs, lives, i, k, pid, level, ProcessOf(lives[i], pid));
    }
  }

  /** Nobody inherits: if no pid with an entry changes hands unseen, a process that a
      request finds above USER was itself granted that much, under its own identity. */
  lemma HighLevelsAreOwn(self: int, boot: Env, evs: seq<Event>, lives: seq<Census>, i: nat, pid: int)
    requires |lives| == |evs| + 1 && NoUnseenChange(Boot(self, boot), evs, lives)
    requires pid != self && Found(Boot(self, boot), evs, i, pid)
    ensures var s, now := Boot(self, boot), ProcessOf(lives[i + 1], pid);
      var level := Run(s, evs[..i]).creds[pid].level;
      level > USER ==> exists k: nat :: GrantedTo(s, evs, lives, i, k, pid, level, now)
  {
    hide Run, Boot, Survives, Granted, ToLevel;
    var s := Boot(self, boot);
    var level := Run(s, evs[..i]).creds[pid].level;
    if level > USER {
      LadderSafety(self, boot, evs[..i], pid);
      LargestGrantIsOwn(s, evs, lives, i, pid, level);
    }
  }

  // ----- Requests between deaths and reuses -----

  /** Some request is served between the death of a process and the reuse of its pid. */
  ghost predicate Separated(lives: seq<Census>) {
    forall i, j, pid ::
      0 <= i < j == i + 1 < |lives| && pid in lives[i] && pid in lives[j] ==> lives[i][pid] == lives[j][pid]
  }

  predicate Makes(req: Request) {
    req.kind == SetLevel || req.kind == Authorize
  }

  /** No request asks for an entry of a dead pid. */
  ghost predicate MadeForTheLiving(evs: seq<Event>) {
    forall i :: 0 <= i < |evs| && Makes(evs[i].req) ==> evs[i].req.pid in evs[i].env.alive
  }

  /** An entry of a dead pid can only come from a request about that pid. */
  lemma StepMakes(s: State, ev: Event, pid: int)
    requires pid in Serve(s, ev).0.creds
    ensures Survives(pid, ev.env) || (Makes(ev.req) && ev.req.pid == pid)
  {
    hide Decision;
  }

  /** One request between each death and the reuse of the pid is enough, if no entry
      is ever asked for on behalf of a dead pid. */
  lemma SeparationSuffices(self: int, boot: Env, evs: seq<Event>, lives: seq<Census>)
    requires Matches(lives, boot, evs) && self in boot.alive
    requires Separated(lives) && MadeForTheLiving(evs)
    ensures EntriesCurrent(Boot(self, boot), evs, lives)
  {
    hide Serve;
    var s := Boot(self, boot);
    forall i: nat, pid | Found(s, evs, i, pid)
      ensures ProcessOf(lives[i], pid) == ProcessOf(lives[i + 1], pid)
    {
      if i > 0 {
        assert evs[..i][..i - 1] == evs[..i - 1];
        StepMakes(Run(s, evs[..i - 1]), evs[i - 1], pid);
      }
    }
    EntriesCurrentIff(s, evs, lives);
  }

  /** Without that second condition it is not: a grant to a pid that has just died
      makes an entry, which the next process with that pid finds. */
  lemma GrantToTheDeadIsInherited(s: State, grant: Event, query: Event, pid: int)
    requires pid !in s.creds && Granted(s, grant, pid) && pid !in grant.env.alive
    requires query.req.kind == GetLevel && query.req.pid == query.peer == pid && Survives(pid, query.env)
    ensures Serve(Serve(s, grant).0, query).1 == Response(0, USER, query.req.id)
    ensures Serve(s, query).1 == Response(0, SANDBOX, query.req.id)
    ensures forall lives: seq<Census> ::
              |lives| == 3 && lives[1].Keys == grant.env.alive && lives[2].Keys == query.env.alive ==>
              !EntriesCurrent(s, [grant, query], lives)
  {
    hide Decision;
    var evs := [grant, query];
    assert evs[..1] == [grant] && [grant][..0] == [];
    assert Run(s, evs[..1]) == Serve(s, grant).0;
    assert Found(s, evs, 1, pid);
    forall lives: seq<Census> |
      |lives| == 3 && lives[1].Keys == grant.env.alive && lives[2].Keys == query.env.alive
      ensures !EntriesCurrent(s, evs, lives)
    {
      EntriesCurrentIff(s, evs, lives);
      assert ProcessOf(lives[1], pid) != ProcessOf(lives[2], pid);
    }
  }

  /** Such a grant is possible as soon as there is a manager. */
  lemma GrantToTheDeadIsReachable()
    ensures var env := Env({1, 5}, map[]);
      var s := Run(Boot(1, env), [Event(Request(RegisterManager, 5, 0, 1), 5, env)]);
      7 !in s.creds && Granted(s, Event(Request(Authorize, 7, 3, 2), 5, env), 7)
  {
    hide Decision;
    var env := Env({1, 5}, map[]);
    var s0, registers := Boot(1, env), Event(Request(RegisterManager, 5, 0, 1), 5, env);
    assert [registers][..0] == [];
    assert Run(s0, [registers]) == Serve(s0, registers).0 == State(map[1 := NewCred(1, SELINUX, env)], 5);
    assert Reap(s0.creds, env).Keys == {1};
  }
}
