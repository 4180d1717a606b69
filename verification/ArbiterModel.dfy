/** What the permission arbiter promises, over a finite map from pid to
    credentials: the specification its process table refines. */
module ArbiterModel {
  import opened Arith
  import opened Selinux

  const READONLY: nat := 0
  const SANDBOX: nat := 1
  const USER: nat := 2
  const DEBUG: nat := 3
  const SELINUX: nat := 8
  const BOOTLOADER: nat := 11
  const MAX_REQUESTS: nat := 1024
  const NO_MANAGER: int := -1
  const DEFAULT_CONTEXT: CString := "u:r:app_sandbox_t:s0"

  datatype Cred = Cred(pid: int, level: nat, context: CString, isSigned: bool, isSelfSigned: bool, cap: nat)

  datatype Kind = CheckPerm | GetLevel | SetLevel | QueryCap | RegisterManager | Authorize | Unknown

  datatype Request = Request(kind: Kind, pid: int, target: int32, id: int)

  datatype Response = Response(status: int, currentLevel: int, id: int)

  /** What the kernel answers while one request is served: which pids a null
      signal finds, and the security context of a pid, if it can be read. */
  datatype Env = Env(alive: set<int>, contexts: map<int, CString>)

  datatype State = State(creds: map<int, Cred>, manager: int)

  // A level as the unsigned enumeration stores it.
  function ToLevel(t: int32): nat {
    if t < 0 then t + 0x1_0000_0000 else t
  }

  predicate Survives(pid: int, env: Env) {
    pid > 0 && pid in env.alive
  }

  function Reap(creds: map<int, Cred>, env: Env): map<int, Cred> {
    map pid | pid in creds && Survives(pid, env) :: creds[pid]
  }

  function LevelOf(creds: map<int, Cred>, pid: int): nat {
    if pid in creds then creds[pid].level else SANDBOX
  }

  function ContextOf(pid: int, env: Env): CString {
    if pid in env.contexts then env.contexts[pid] else DEFAULT_CONTEXT
  }

  function NewCred(pid: int, level: nat, env: Env): Cred {
    Cred(pid, level, ContextOf(pid, env), false, false, READONLY)
  }

  /** Re-levels a known pid or adds it; a full table refuses. */
  function Register(creds: map<int, Cred>, pid: int, level: nat, env: Env): Option<map<int, Cred>> {
    if pid in creds then Some(creds[pid := creds[pid].(level := level)])
    else if |creds| >= MAX_REQUESTS then None
    else Some(creds[pid := NewCred(pid, level, env)])
  }

  /** The four conditions for going up: a cap, official signing for levels 4 to 7,
      and a domain that may signal. */
  predicate MayRise(creds: map<int, Cred>, pid: int, level: nat) {
    && pid in creds
    && level <= creds[pid].cap
    && (DEBUG < level < SELINUX ==> creds[pid].isSigned && !creds[pid].isSelfSigned)
    && Decision(creds[pid].context, SIGNAL) == 0
  }

  function TrySetLevel(creds: map<int, Cred>, pid: int, level: nat, peer: int, env: Env): Option<map<int, Cred>> {
    if level > BOOTLOADER || peer != pid then None
    else if level > LevelOf(creds, pid) && !MayRise(creds, pid, level) then None
    else Register(creds, pid, level, env)
  }

  function TryAuthorize(s: State, pid: int, cap: nat, peer: int, env: Env): Option<map<int, Cred>> {
    if peer != s.manager || cap > BOOTLOADER then None
    else if pid in s.creds then Some(s.creds[pid := s.creds[pid].(cap := cap)])
    else if |s.creds| >= MAX_REQUESTS then None
    else Some(s.creds[pid := NewCred(pid, USER, env).(cap := cap)])
  }

  predicate ManagerFree(s: State, env: Env) {
    s.manager < 0 || s.manager !in env.alive
  }

  /** One request from a peer, against an already reaped state. */
  function Handle(s: State, req: Request, peer: int, env: Env): (State, Response) {
    match req.kind
    case CheckPerm =>
      if peer != req.pid && peer != s.manager then (s, Response(-1, 0, req.id))
      else if LevelOf(s.creds, req.pid) >= ToLevel(req.target) then (s, Response(0, 0, req.id))
      else (s, Response(-1, 0, req.id))
    case GetLevel =>
      if peer != req.pid && peer != s.manager then (s, Response(-1, 0, req.id))
      else (s, Response(0, LevelOf(s.creds, req.pid), req.id))
    case SetLevel =>
      (match TrySetLevel(s.creds, req.pid, ToLevel(req.target), peer, env)
       case None => (s, Response(-1, 0, req.id))
       case Some(creds) => (s.(creds := creds), Response(0, req.target, req.id)))
    case RegisterManager =>
      if ManagerFree(s, env) then (s.(manager := peer), Response(0, LevelOf(s.creds, req.pid), req.id))
      else (s, Response(-1, LevelOf(s.creds, req.pid), req.id))
    case Authorize =>
      (match TryAuthorize(s, req.pid, ToLevel(req.target), peer, env)
       case None => (s, Response(-1, 0, req.id))
       case Some(creds) => (s.(creds := creds), Response(0, 0, req.id)))
    case QueryCap => (s, Response(-1, 0, req.id))
    case Unknown => (s, Response(-1, 0, req.id))
  }

  /** One turn of the main loop: the kernel's view, the request and its sender. */
  datatype Event = Event(req: Request, peer: int, env: Env)

  function Serve(s: State, ev: Event): (State, Response) {
    Handle(s.(creds := Reap(s.creds, ev.env)), ev.req, ev.peer, ev.env)
  }

  function Boot(self: int, env: Env): State {
    State(map[self := NewCred(self, SELINUX, env)], NO_MANAGER)
  }
}
