/** The permission arbiter's state and code: a fixed process table compacted in
    place, a count and a manager pid, refining the map of ArbiterModel. */
module Arbiter {
  import opened Selinux
  import opened ArbiterModel

  // The dead entries dropped, the order kept.
  function Survivors(t: seq<Cred>, env: Env): seq<Cred> {
    if |t| == 0 then []
    else
      var rest := Survivors(t[..|t| - 1], env);
      if Survives(t[|t| - 1].pid, env) then rest + [t[|t| - 1]] else rest
  }

  predicate Distinct(t: seq<Cred>) {
    forall i, j :: 0 <= i < j < |t| ==> t[i].pid != t[j].pid
  }

  /** The map a table with distinct pids stands for. */
  function AsMap(t: seq<Cred>): map<int, Cred> {
    if |t| == 0 then map[] else AsMap(t[..|t| - 1])[t[|t| - 1].pid := t[|t| - 1]]
  }

  lemma {:induction false} AsMapKeys(t: seq<Cred>)
    ensures forall i :: 0 <= i < |t| ==> t[i].pid in AsMap(t)
    ensures forall p :: p in AsMap(t) ==> exists i :: 0 <= i < |t| && t[i].pid == p
  {
    if |t| > 0 {
      var n := |t| - 1;
      AsMapKeys(t[..n]);
      forall p | p in AsMap(t)
        ensures exists i :: 0 <= i < |t| && t[i].pid == p
      {
        if p != t[n].pid {
          var i :| 0 <= i < n && t[..n][i].pid == p;
          assert t[i].pid == p;
        } else {
          assert t[n].pid == p;
        }
      }
    }
  }

  lemma {:induction false} AsMapMembers(t: seq<Cred>)
    requires Distinct(t)
    ensures forall i :: 0 <= i < |t| ==> t[i].pid in AsMap(t) && AsMap(t)[t[i].pid] == t[i]
    ensures forall p :: p in AsMap(t) ==> exists i :: 0 <= i < |t| && t[i].pid == p
    ensures |AsMap(t)| == |t|
  {
    AsMapKeys(t);
    if |t| > 0 {
      var n := |t| - 1;
      AsMapMembers(t[..n]);
      assert t[n].pid !in AsMap(t[..n]);
      forall i | 0 <= i < |t|
        ensures AsMap(t)[t[i].pid] == t[i]
      {
        assert i < n ==> t[..n][i] == t[i];
      }
    }
  }

  /** Updating the entry at i is updating its pid. */
  lemma AsMapUpdate(t: seq<Cred>, i: nat, c: Cred)
    requires Distinct(t) && i < |t| && c.pid == t[i].pid
    ensures Distinct(t[i := c]) && AsMap(t[i := c]) == AsMap(t)[c.pid := c]
  {
    hide AsMap;
    var t' := t[i := c];
    AsMapMembers(t);
    AsMapMembers(t');
    forall p
      ensures p in AsMap(t') <==> p in AsMap(t)[c.pid := c]
      ensures p in AsMap(t') ==> AsMap(t')[p] == AsMap(t)[c.pid := c][p]
    {
      if p in AsMap(t') {
        var k :| 0 <= k < |t'| && t'[k].pid == p;
        assert t[k].pid == p;
      }
      if p in AsMap(t) {
        var k :| 0 <= k < |t| && t[k].pid == p;
        assert t'[k].pid == p;
      }
    }
  }

  lemma AsMapAppend(t: seq<Cred>, c: Cred)
    requires Distinct(t) && c.pid !in AsMap(t)
    ensures Distinct(t + [c]) && AsMap(t + [c]) == AsMap(t)[c.pid := c]
  {
    AsMapMembers(t);
    assert (t + [c])[..|t|] == t;
  }

  function Without(t: seq<Cred>, i: nat): seq<Cred>
    requires i < |t|
  {
    t[..i] + t[i + 1..]
  }

  /** After k entries: the survivors among them, then the rest; i is where the next
      one stands. */
  ghost predicate Compacting(t: seq<Cred>, env: Env, k: nat, i: nat, now: seq<Cred>) {
    k <= |t| && i == |Survivors(t[..k], env)| && now == Survivors(t[..k], env) + t[k..]
  }

  lemma CompactStart(t: seq<Cred>, env: Env)
    ensures Compacting(t, env, 0, 0, t)
  {
  }

  lemma CompactStep(t: seq<Cred>, env: Env, k: nat, i: nat, now: seq<Cred>)
    requires Compacting(t, env, k, i, now) && i < |now|
    ensures if Survives(now[i].pid, env) then Compacting(t, env, k + 1, i + 1, now)
            else Compacting(t, env, k + 1, i, Without(now, i))
  {
    assert t[..k + 1][..k] == t[..k];
    assert t[k..] == [t[k]] + t[k + 1..];
  }

  lemma CompactDone(t: seq<Cred>, env: Env, k: nat, i: nat, now: seq<Cred>)
    requires Compacting(t, env, k, i, now) && i >= |now|
    ensures now == Survivors(t, env)
  {
    assert t[..k] == t;
  }

  lemma {:induction false} SurvivorsAsMap(t: seq<Cred>, env: Env)
    requires Distinct(t)
    ensures Distinct(Survivors(t, env)) && AsMap(Survivors(t, env)) == Reap(AsMap(t), env)
    ensures |Survivors(t, env)| <= |t|
  {
    if |t| > 0 {
      var n := |t| - 1;
      SurvivorsAsMap(t[..n], env);
      AsMapMembers(t[..n]);
      assert t[n].pid !in AsMap(t[..n]);
      if Survives(t[n].pid, env) {
        AsMapAppend(Survivors(t[..n], env), t[n]);
      }
    }
  }

  class Arbiter {
    const table: array<Cred>
    const monitor: Monitor
    var count: nat
    var managerPid: int

    ghost predicate Valid()
      reads this, table
    {
      table.Length == MAX_REQUESTS && count <= MAX_REQUESTS && Distinct(table[..count])
    }

    ghost function View(): State
      reads this, table
      requires Valid()
    {
      State(AsMap(table[..count]), managerPid)
    }

    /** An empty table with the arbiter's own entry at level SELINUX. */
    constructor (self: int, env: Env)
      ensures Valid() && fresh(table)
      ensures View() == Boot(self, env)
    {
      table := new Cred[MAX_REQUESTS](_ => Cred(0, 0, DEFAULT_CONTEXT, false, false, 0));
      monitor := new Monitor();
      count := 0;
      managerPid := NO_MANAGER;
      new;
      var i := RegisterProcess(self, SELINUX, env);
    }

    /** The index of a pid, or -1. */
    method FindProcess(pid: int) returns (idx: int)
      requires Valid()
      ensures idx == -1 <==> pid !in View().creds
      ensures idx != -1 ==> 0 <= idx < count && table[idx].pid == pid && View().creds[pid] == table[idx]
    {
      AsMapMembers(table[..count]);
      for i := 0 to count
        invariant forall j :: 0 <= j < i ==> table[j].pid != pid
      {
        if table[i].pid == pid {
          assert table[..count][i] == table[i];
          return i;
        }
      }
      return -1;
    }

    /** Replaces the entry at idx by one for the same pid. */
    method Overwrite(idx: nat, c: Cred)
      requires Valid() && idx < count && c.pid == table[idx].pid
      modifies table
      ensures Valid() && table[idx] == c
      ensures View() == old(View()).(creds := old(View().creds)[c.pid := c])
    {
      ghost var t := table[..count];
      AsMapUpdate(t, idx, c);
      table[idx] := c;
      assert table[..count] == t[idx := c];
    }

    method RegisterProcess(pid: int, level: nat, env: Env) returns (idx: int)
      requires Valid()
      modifies this`count, table
      ensures Valid()
      ensures match Register(old(View().creds), pid, level, env)
              case None => idx == -1 && View() == old(View())
              case Some(creds) => 0 <= idx < count && table[idx].pid == pid && creds[pid] == table[idx] && View() == old(View()).(creds := creds)
    {
      ghost var t := table[..count];
      idx := FindProcess(pid);
      if idx != -1 {
        Overwrite(idx, table[idx].(level := level));
        return;
      }
      AsMapMembers(t);
      if count >= MAX_REQUESTS {
        return -1;
      }
      AsMapAppend(t, NewCred(pid, level, env));
      table[count] := Cred(pid, level, ContextOf(pid, env), false, false, READONLY);
      count := count + 1;
      assert table[..count] == t + [NewCred(pid, level, env)];
      return count - 1;
    }

    /** Drops the entries of dead processes. */
    method ReapDeadProcesses(env: Env)
      requires Valid()
      modifies this`count, table
      ensures Valid()
      ensures table[..count] == Survivors(old(table[..count]), env)
      ensures View() == old(View()).(creds := Reap(old(View().creds), env))
    {
      hide Survivors, AsMap, Reap;
      ghost var t := table[..count];
      SurvivorsAsMap(t, env);
      Compact(env);
    }

    /** Compacts the table in place: exactly the live entries stay, in order. */
    method Compact(env: Env)
      requires table.Length == MAX_REQUESTS && count <= MAX_REQUESTS
      modifies this`count, table
      ensures count <= old(count) && table[..count] == Survivors(old(table[..count]), env)
    {
      hide Survivors, Compacting, Without, Distinct, AsMap;
      ghost var t, k := table[..count], 0;
      CompactStart(t, env);
      var i := 0;
      while i < count
        invariant count <= |t|
        invariant Compacting(t, env, k, i, table[..count])
        decreases count - i
      {
        CompactStep(t, env, k, i, table[..count]);
        var pid := table[i].pid;
        assert table[..count][i].pid == pid;
        if pid > 0 && pid in env.alive {
          i := i + 1;
        } else {
          RemoveAt(i);
        }
        k := k + 1;
      }
      CompactDone(t, env, k, i, table[..count]);
    }

    /** The memmove over entry i. */
    method RemoveAt(i: nat)
      requires table.Length == MAX_REQUESTS && i < count <= MAX_REQUESTS
      modifies this`count, table
      ensures count == old(count) - 1
      ensures table[..count] == Without(old(table[..count]), i)
    {
      forall j | i <= j < count - 1 {
        table[j] := table[j + 1];
      }
      count := count - 1;
    }

    method GetProcessLevel(pid: int) returns (level: nat)
      requires Valid()
      ensures level == LevelOf(View().creds, pid)
    {
      var i := FindProcess(pid);
      level := if i != -1 then table[i].level else SANDBOX;
    }

    method IsSignedByOfficial(pid: int) returns (signed: bool)
      requires Valid()
      ensures signed <==> pid in View().creds && View().creds[pid].isSigned && !View().creds[pid].isSelfSigned
    {
      var i := FindProcess(pid);
      signed := i != -1 && table[i].isSigned && !table[i].isSelfSigned;
    }

    method SetProcessLevel(pid: int, level: nat, peer: int, env: Env) returns (status: int)
      requires Valid()
      modifies this`count, table
      ensures Valid()
      ensures match TrySetLevel(old(View().creds), pid, level, peer, env)
              case None => status == -1 && View() == old(View())
              case Some(creds) => status == 0 && View() == old(View()).(creds := creds)
    {
      if level > BOOTLOADER {
        return -1;
      }
      if peer != pid {
        return -1;
      }
      var current := GetProcessLevel(pid);
      if level > current {
        var idx := FindProcess(pid);
        if idx < 0 || level > table[idx].cap {
          return -1;
        }
        if level > DEBUG && level < SELINUX {
          var signed := IsSignedByOfficial(pid);
          if !signed {
            return -1;
          }
        }
        var verdict := monitor.Check(table[idx].context, SIGNAL);
        if verdict != 0 {
          return -1;
        }
      }
      var idx2 := RegisterProcess(pid, level, env);
      return if idx2 >= 0 then 0 else -1;
    }

    method BecomeManager(peer: int, env: Env) returns (status: int)
      requires Valid()
      modifies this`managerPid
      ensures Valid()
      ensures if ManagerFree(old(View()), env) then status == 0 && View() == old(View()).(manager := peer)
              else status == -1 && View() == old(View())
    {
      if managerPid >= 0 && managerPid in env.alive {
        return -1;
      }
      managerPid := peer;
      return 0;
    }

    method AuthorizeProcess(target: int, cap: nat, peer: int, env: Env) returns (status: int)
      requires Valid()
      modifies this`count, table
      ensures Valid()
      ensures match TryAuthorize(old(View()), target, cap, peer, env)
              case None => status == -1 && View() == old(View())
              case Some(creds) => status == 0 && View() == old(View()).(creds := creds)
    {
      if peer != managerPid || cap > BOOTLOADER {
        return -1;
      }
      var idx := FindProcess(target);
      if idx < 0 {
        idx := RegisterProcess(target, USER, env);
        if idx < 0 {
          return -1;
        }
      }
      Overwrite(idx, table[idx].(cap := cap));
      return 0;
    }

    method HandleRequest(req: Request, peer: int, env: Env) returns (resp: Response)
      requires Valid()
      modifies this, table
      ensures Valid()
      ensures (View(), resp) == Handle(old(View()), req, peer, env)
    {
      match req.kind
      case CheckPerm =>
        if peer != req.pid && peer != managerPid {
          return Response(-1, 0, req.id);
        }
        var level := GetProcessLevel(req.pid);
        return Response(if level >= ToLevel(req.target) then 0 else -1, 0, req.id);
      case GetLevel =>
        if peer != req.pid && peer != managerPid {
          return Response(-1, 0, req.id);
        }
        var level := GetProcessLevel(req.pid);
        return Response(0, level, req.id);
      case SetLevel =>
        var status := SetProcessLevel(req.pid, ToLevel(req.target), peer, env);
        return if status == 0 then Response(0, req.target, req.id) else Response(-1, 0, req.id);
      case RegisterManager =>
        var status := BecomeManager(peer, env);
        var level := GetProcessLevel(req.pid);
        return Response(status, level, req.id);
      case Authorize =>
        var status := AuthorizeProcess(req.pid, ToLevel(req.target), peer, env);
        return Response(status, 0, req.id);
      case QueryCap =>
        return Response(-1, 0, req.id);
      case Unknown =>
        return Response(-1, 0, req.id);
    }

    /** One turn of the main loop: reap, then handle. */
    method ServeOne(ev: Event) returns (resp: Response)
      requires Valid()
      modifies this, table
      ensures Valid()
      ensures (View(), resp) == Serve(old(View()), ev)
    {
      ReapDeadProcesses(ev.env);
      resp := HandleRequest(ev.req, ev.peer, ev.env);
    }
  }
}
