/**
 * One control connection as a state machine: what each command does to the session and replies,
 * for every answer the system may give, and what holds over every run.
 */
module SessionSpec {
  import opened Apr
  import opened Paths
  import HostPort

  // ---- memory pools --------------------------------------------------------------------------------------

  /** The session pool lives as long as the session; the loop pool is cleared before every command. */
  datatype Pool = SessPool | LoopPool(generation: nat)

  datatype Ref<T> = Null | Ref(value: T, pool: Pool)

  predicate Alive(pool: Pool, generation: nat) {
    pool == SessPool || pool == LoopPool(generation)
  }

  /** Following a pointer demands that its pool has not been cleared since. */
  function Deref<T>(r: Ref<T>, generation: nat): T
    requires r.Ref? && Alive(r.pool, generation)
  {
    r.value
  }

  predicate Survives<T>(r: Ref<T>) { r.Null? || r.pool == SessPool }

  // ---- the session ---------------------------------------------------------------------------------------

  datatype Target = Target(address: string, port: nat)

  datatype Session = Session(
    cwd: Ref<string>,
    port: Ref<Target>,
    pasv: Ref<HostPort.PortNumber>,
    dataSock: Ref<()>,
    arg: Ref<string>,
    tempName: Ref<string>,
    rnfrto: bool,
    generation: nat)

  function Initial(): Session {
    Session(Ref("/", SessPool), Null, Null, Null, Null, Null, false, 0)
  }

  predicate Exclusive(s: Session) { s.port.Null? || s.pasv.Null? }

  predicate Active(s: Session) { s.port.Ref? || s.pasv.Ref? }

  /** No pointer that outlives a command is into the pool that is cleared between commands. */
  predicate RegionSafe(s: Session) {
    && Survives(s.cwd) && Survives(s.port) && Survives(s.pasv) && Survives(s.arg) && Survives(s.tempName)
    && s.dataSock.Null?
  }

  predicate Inv(s: Session) {
    && RegionSafe(s) && Exclusive(s)
    && s.cwd.Ref? && DirPath(s.cwd.value)
    && (s.rnfrto ==> s.tempName.Ref?)
  }

  // ---- commands and answers ------------------------------------------------------------------------------

  datatype Verb =
    | PASV | SYST | USER | PASS | QUIT | ABOR | PORT | RMD | MKD | PWD | CWD | CDUP | RNFR | RNTO | TYPE
    | RETR | STOR | DELE | STOU | LIST | FEAT | APPE | SITE | ALLO | REIN | ACCT | SMNT | OTHER

  datatype FileKind = Missing | Regular | Directory | Special

  datatype SiteCommand = SiteSilent | SiteHelp | SiteUnknown

  /**
   * What the system answers during one command; every combination is possible. `open` and `change`
   * answer for the path they are given, `list` for a directory and whether hidden names are
   * wanted, and `unique` finds a name not in use.
   */
  datatype Env = Env(
    control: nat -> bool,
    stat: string -> FileKind,
    bind: nat -> Option<HostPort.PortNumber>,
    listenOk: bool,
    address: Option<string>,
    lookupOk: bool,
    lookupFailure: Ref<Target>,
    connectOk: bool,
    open: string -> bool,
    unique: string -> string,
    list: (string, bool) -> bool,
    transfer: int,
    listSent: bool,
    change: string -> bool,
    renameOk: bool,
    site: SiteCommand)

  datatype Turn = Turn(verb: Verb, arg: Ref<string>, env: Env)

  /** An argument, if there is one, lies in the session's input buffer, is not empty and is a C string. */
  predicate Parsed(t: Turn) {
    t.arg.Ref? ==> t.arg.pool == SessPool && t.arg.value != "" && '\0' !in t.arg.value
  }

  /** How a command ends: the loop goes on, ends on an error, ends on QUIT, or the process is gone. */
  datatype Flow = Next | Failed | Quit | Died | Crashed

  datatype Rename = NoRename | Rename(source: string, target: Ref<string>)

  /** `tuple` is the text between the parentheses of a PASV reply. */
  datatype Outcome = Outcome(session: Session, replies: seq<int>, flow: Flow, rename: Rename, tuple: Option<string>)

  function Said(s: Session, replies: seq<int>, flow: Flow): Outcome {
    Outcome(s, replies, flow, NoRename, None)
  }

  /** One reply, whose delivery decides whether the loop goes on. */
  function Answer(s: Session, code: int, env: Env): Outcome {
    Said(s, [code], Sent(env, 0))
  }

  function Sent(env: Env, i: nat): Flow { if env.control(i) then Next else Failed }

  // ---- data connection set-up ------------------------------------------------------------------------------

  function Cleanup(s: Session): Session { s.(port := Null, pasv := Null) }

  const BIND_ATTEMPTS: nat := 9

  /** The first of `n` attempts, from `i` on, that binds. */
  function FirstBound(bind: nat -> Option<HostPort.PortNumber>, i: nat, n: nat): (r: Ref<HostPort.PortNumber>)
    ensures Survives(r)
    decreases n - i
  {
    if i >= n then Null else if bind(i).Some? then Ref(bind(i).value, SessPool) else FirstBound(bind, i + 1, n)
  }

  function Pasv(s: Session, env: Env): Outcome {
    var listener := FirstBound(env.bind, 0, BIND_ATTEMPTS);
    var s' := Cleanup(s).(pasv := listener);
    if listener.Null? || !env.listenOk || env.address.None? then Said(s', [], Failed)
    else Answer(s', 227, env).(tuple := HostPort.PasvTuple(env.address.value, listener.value))
  }

  function Port(s: Session, env: Env): Outcome
    requires Inv(s)
  {
    if s.arg.Null? then Said(Cleanup(s), [], Crashed)
    else
      match HostPort.PortTarget(Deref(s.arg, s.generation))
      case None => Said(Cleanup(s), [500], Failed)
      case Some((address, port)) =>
        if env.lookupOk then Said(Cleanup(s).(port := Ref(Target(address, port), SessPool)), [200], Next)
        else Said(Cleanup(s).(port := env.lookupFailure), [500], Failed)
  }

  // ---- transfers -------------------------------------------------------------------------------------------

  function TransferReply(transfer: int): int {
    if transfer == -1 then 451 else if transfer == -2 then 426 else 226
  }

  /** From the data connection on, behind the replies `said`. */
  function Carry(s: Session, said: seq<int>, env: Env): Outcome {
    if !env.connectOk then Said(s, said + [425], Failed)
    else Said(Cleanup(s), said + [150, TransferReply(env.transfer)], Next)
  }

  function Retr(s: Session, env: Env): Outcome
    requires Inv(s)
  {
    if s.arg.Null? then Answer(s, 501, env)
    else if !Active(s) then Said(s, [425], Failed)
    else RetrPath(s, AbsPath(Deref(s.arg, s.generation), Deref(s.cwd, s.generation)), env)
  }

  function RetrPath(s: Session, path: Option<string>, env: Env): Outcome {
    if path.None? || !env.open(path.value) then Said(s, [550], Failed)
    else if env.stat(path.value) == Missing then Said(s, [550], Failed)
    else if env.stat(path.value) != Regular then Said(s, [550], Next)
    else Carry(s, [], env).(session := Cleanup(s))
  }

  /** STOR, APPE and, with `unique`, STOU. */
  function Upload(s: Session, env: Env, unique: bool): Outcome
    requires Inv(s)
  {
    if s.arg.Null? then Answer(s, 501, env)
    else if !Active(s) then Said(s, [425], Failed)
    else
      var path := AbsPath(Deref(s.arg, s.generation), Deref(s.cwd, s.generation));
      if path.None? || !env.open(if unique then env.unique(path.value) else path.value) then Said(s, [553], Failed)
      else if unique && !env.control(0) then Said(s, [150], Failed)
      else Carry(s, if unique then [150] else [], env)
  }

  /** An argument of LIST that starts with a dash is flags, of which 'a' is looked at; else it is a path. */
  predicate IsFlags(arg: string) { arg != "" && arg[0] == '-' }

  function List(s: Session, env: Env): Outcome
    requires Inv(s)
  {
    var cwd := Deref(s.cwd, s.generation);
    if s.arg.Null? then ListPath(s, Some(cwd), false, env)
    else
      var arg := Deref(s.arg, s.generation);
      if IsFlags(arg) then ListPath(s, Some(cwd), 'a' in arg[1..], env)
      else ListPath(s, AbsPath(arg, cwd), false, env)
  }

  function ListPath(s: Session, path: Option<string>, all: bool, env: Env): Outcome {
    if path.None? then Said(s, [501], Failed)
    else if !env.list(path.value, all) then Answer(s, 501, env)
    else if !Active(s) then Said(s, [], Died)
    else if !env.connectOk then Said(s, [425], Failed)
    else Said(s, [150, if env.listSent then 226 else 426], Sent(env, 1))
  }

  // ---- directories and names -----------------------------------------------------------------------------

  function Cwd(s: Session, env: Env): Outcome
    requires Inv(s)
  {
    if s.arg.Null? then Answer(s, 550, env)
    else
      var arg, cwd := Deref(s.arg, s.generation), Deref(s.cwd, s.generation);
      if arg == "." then Answer(s, 250, env)
      else if arg == ".." then Cdup(s, env)
      else
        match AbsPath(arg, cwd)
        case None => Said(s, [550], Failed)
        case Some(path) => Enter(s, WithSlash(path), env)
  }

  /** Making `path` the working directory, if it is one. */
  function Enter(s: Session, path: string, env: Env): Outcome {
    if env.stat(path) == Directory then Answer(s.(cwd := Ref(path, SessPool)), 250, env)
    else Answer(s, 550, env)
  }

  function Cdup(s: Session, env: Env): Outcome
    requires Inv(s)
  {
    Answer(s.(cwd := Ref(Parent(Deref(s.cwd, s.generation)), s.cwd.pool)), 202, env)
  }

  function Rnfr(s: Session, env: Env): Outcome
    requires Inv(s)
  {
    if s.arg.Null? then Answer(s.(tempName := Null), 550, env)
    else
      match AbsPath(Deref(s.arg, s.generation), Deref(s.cwd, s.generation))
      case None => Said(s.(tempName := Null), [550], Failed)
      case Some(path) =>
        if env.stat(path) == Regular || env.stat(path) == Directory
        then Answer(s.(tempName := Ref(path, SessPool), rnfrto := env.control(0)), 350, env)
        else Answer(s.(tempName := Null), 550, env)
  }

  function Rnto(s: Session, env: Env): Outcome
    requires Inv(s) && s.tempName.Ref?
  {
    if s.arg.Null? then Answer(s, 501, env)
    else
      var source := Deref(s.tempName, s.generation);
      var target := match AbsPath(Deref(s.arg, s.generation), Deref(s.cwd, s.generation))
                    case None => Null
                    case Some(path) => Ref(path, LoopPool(s.generation));
      Answer(s, if env.renameOk then 250 else 501, env).(rename := Rename(source, target))
  }

  /** RMD, MKD and DELE: `missing`, `done` and `refused` are their reply codes. */
  function Change(s: Session, env: Env, missing: int, done: int, refused: int, mustBeNew: bool): Outcome
    requires Inv(s)
  {
    if s.arg.Null? then Answer(s, missing, env)
    else
      match AbsPath(Deref(s.arg, s.generation), Deref(s.cwd, s.generation))
      case None => Said(s, [missing], Failed)
      case Some(path) =>
        if mustBeNew && env.stat(path) != Missing then Answer(s, refused, env)
        else Answer(s, if env.change(path) then done else refused, env)
  }

  function Site(s: Session, env: Env): Outcome {
    if s.arg.Null? then Said(s, [], Crashed)
    else
      match env.site
      case SiteSilent => Said(s, [], Next)
      case SiteHelp => Answer(s, 214, env)
      case SiteUnknown => Answer(s, 500, env)
  }

  // ---- the command loop ------------------------------------------------------------------------------------

  function Dispatch(s: Session, verb: Verb, env: Env): Outcome
    requires Inv(s)
  {
    match verb
    case PASV => Pasv(s, env)
    case SYST => Answer(s, 215, env)
    case USER => Answer(s, 230, env)
    case PASS => Answer(s, 230, env)
    case QUIT => Said(s, [221], Quit)
    case ABOR => Said(s, [225], Next)
    case PORT => Port(s, env)
    case RMD => Change(s, env, 550, 250, 550, false)
    case MKD => Change(s, env, 550, 257, 550, true)
    case PWD => Answer(s, 257, env)
    case CWD => Cwd(s, env)
    case CDUP => Cdup(s, env)
    case RNFR => Rnfr(s, env)
    case TYPE => Said(s, [200], Next)
    case RETR => Retr(s, env)
    case STOR => Upload(s, env, false)
    case DELE => Change(s, env, 501, 250, 550, false)
    case STOU => Upload(s, env, true)
    case LIST => List(s, env)
    case FEAT => Said(s, [211, 211], Next)
    case APPE => Upload(s, env, false)
    case SITE => Site(s, env)
    case ALLO => Answer(s, 202, env)
    case REIN => Answer(s, 502, env)
    case ACCT => Answer(s, 502, env)
    case SMNT => Answer(s, 502, env)
    case RNTO => Answer(s, 503, env)
    case OTHER => Said(s, [502], Next)
  }

  /** The session at the start of a turn: the loop pool is cleared and the argument is in. */
  function Begin(s: Session, t: Turn): Session {
    s.(generation := s.generation + 1, arg := t.arg)
  }

  function Step(s: Session, t: Turn): Outcome
    requires Inv(s) && Parsed(t)
  {
    var b := Begin(s, t);
    if t.verb == RNTO && b.rnfrto then Rnto(b.(rnfrto := false), t.env)
    else if b.rnfrto then Answer(b.(rnfrto := false), 503, t.env)
    else Dispatch(b, t.verb, t.env)
  }

  /** PORT and PASV are never both set, and if the loop goes on the invariant holds. */
  predicate Keeps(o: Outcome) {
    Exclusive(o.session) && (o.flow == Next ==> Inv(o.session))
  }

  lemma StepKeepsInv(s: Session, t: Turn)
    requires Inv(s) && Parsed(t)
    ensures Keeps(Step(s, t))
  {
    hide DirPath, AbsPath, WithSlash, Parent, Dispatch;
    if !s.rnfrto { DispatchKeepsInv(Begin(s, t), t.verb, t.env); }
  }

  lemma DispatchKeepsInv(s: Session, verb: Verb, env: Env)
    requires Inv(s) && !s.rnfrto && (s.arg.Ref? ==> s.arg.value != "" && '\0' !in s.arg.value)
    ensures Keeps(Dispatch(s, verb, env))
  {
    hide Cwd, Cdup, Retr, Upload, List, Pasv, Port, Rnfr, Change, Site, Said, Answer, Keeps, Inv;
    RepliesKeepInv(s, env);
    DirectoriesKeepInv(s, env);
    TransfersKeepInv(s, env);
    NamesKeepInv(s, env);
  }

  lemma RepliesKeepInv(s: Session, env: Env)
    requires Inv(s)
    ensures Keeps(Site(s, env)) && forall code :: Keeps(Answer(s, code, env))
    ensures forall replies, flow :: Keeps(Said(s, replies, flow))
  {
    hide DirPath;
  }

  lemma TransfersKeepInv(s: Session, env: Env)
    requires Inv(s)
    ensures Keeps(Pasv(s, env)) && Keeps(Port(s, env)) && Keeps(Retr(s, env)) && Keeps(List(s, env))
    ensures forall unique :: Keeps(Upload(s, env, unique))
  {
    hide DirPath, AbsPath, FirstBound, HostPort.PortTarget, HostPort.PasvTuple;
  }

  lemma NamesKeepInv(s: Session, env: Env)
    requires Inv(s) && !s.rnfrto
    ensures Keeps(Rnfr(s, env))
    ensures forall missing, done, refused, mustBeNew :: Keeps(Change(s, env, missing, done, refused, mustBeNew))
  {
    hide DirPath, AbsPath;
  }

  lemma DirectoriesKeepInv(s: Session, env: Env)
    requires Inv(s) && (s.arg.Ref? ==> s.arg.value != "" && '\0' !in s.arg.value)
    ensures Keeps(Cwd(s, env)) && Keeps(Cdup(s, env))
  {
    hide DirPath, Parent, AbsPath, WithSlash;
    ParentIsDirPath(s.cwd.value);
    if s.arg.Ref? { CwdIsDirPath(s.arg.value, s.cwd.value); }
  }

  lemma ParentIsDirPath(p: string)
    requires DirPath(p)
    ensures DirPath(Parent(p))
  {
    if |p| > 1 { ParentRemovesOneSlash(p); }
  }

  lemma CwdIsDirPath(arg: string, cwd: string)
    requires arg != "" && '\0' !in arg && DirPath(cwd)
    ensures AbsPath(arg, cwd).Some? && DirPath(WithSlash(AbsPath(arg, cwd).value))
    ensures '\0' !in WithSlash(AbsPath(arg, cwd).value)
  {
    var p := AbsPath(arg, cwd).value;
    assert WithSlash(p)[0] == p[0] == '/';
  }

  lemma InitialInv()
    ensures Inv(Initial())
  {
  }

  // ---- the mutual checks -----------------------------------------------------------------------------------

  /** The two checks call each other; `fuel` bounds the depth, Unfinished says it was not enough. */
  datatype Verdict = Unfinished | Finished(active: bool)

  function PortActive(s: Session, fuel: nat): Verdict {
    if fuel == 0 then Unfinished
    else if s.port.Null? then Finished(false)
    else match PasvActive(s, fuel - 1) case Unfinished => Unfinished case Finished(_) => Finished(true)
  }

  function PasvActive(s: Session, fuel: nat): Verdict {
    if fuel == 0 then Unfinished
    else if s.pasv.Null? then Finished(false)
    else match PortActive(s, fuel - 1) case Unfinished => Unfinished case Finished(_) => Finished(true)
  }

  predicate PortComesBack(s: Session, fuel: nat) { PortActive(s, fuel).Finished? }

  predicate PasvComesBack(s: Session, fuel: nat) { PasvActive(s, fuel).Finished? }

  /** The checks come back, with the right answer, exactly when PORT and PASV are not both set. */
  lemma ChecksTerminateIff(s: Session)
    ensures (exists fuel :: PortComesBack(s, fuel)) <==> Exclusive(s)
    ensures (exists fuel :: PasvComesBack(s, fuel)) <==> Exclusive(s)
    ensures Exclusive(s) ==> PortActive(s, 2) == Finished(s.port.Ref?) && PasvActive(s, 2) == Finished(s.pasv.Ref?)
  {
    if Exclusive(s) {
      assert PortActive(s, 1) == if s.port.Null? then Finished(false) else Unfinished;
      assert PasvActive(s, 1) == if s.pasv.Null? then Finished(false) else Unfinished;
      assert PortComesBack(s, 2) && PasvComesBack(s, 2);
    } else {
      forall fuel ensures !PortComesBack(s, fuel) && !PasvComesBack(s, fuel) {
        BothSetNeverFinishes(s, fuel);
      }
    }
  }

  lemma {:induction false} BothSetNeverFinishes(s: Session, fuel: nat)
    requires !Exclusive(s)
    ensures PortActive(s, fuel).Unfinished? && PasvActive(s, fuel).Unfinished?
  {
    if fuel > 0 { BothSetNeverFinishes(s, fuel - 1); }
  }
}
