/** The session record, the handlers that update it, and the command loop. */
module FtpSession {
  import opened Apr
  import opened Paths
  import opened SessionSpec
  import opened SessionRuns
  import opened Bytes
  import HostPort

  class LfdSess {
    var cwd: array<char>
    var cwdPool: Pool
    var port: Ref<Target>
    var pasv: Ref<HostPort.PortNumber>
    var dataSock: Ref<()>
    var arg: Ref<string>
    /** The two locals of the command loop. */
    var tempName: Ref<string>
    var rnfrto: bool
    /** How often the loop pool has been cleared, the replies of the current turn, and a PASV tuple in them. */
    var generation: nat
    var replies: seq<int>
    var tuple: Option<string>

    ghost function View(): Session
      reads this, cwd
    {
      Session(Ref(CStr(cwd[..]), cwdPool), port, pasv, dataSock, arg, tempName, rnfrto, generation)
    }

    ghost predicate Valid()
      reads this, cwd
    {
      '\0' in cwd[..] && Inv(View())
    }

    ghost predicate Ready()
      reads this, cwd
    {
      Valid() && replies == [] && tuple == None && (arg.Ref? ==> arg.value != "" && '\0' !in arg.value)
    }

    /** The command came to `o`, ending as `rc` says. */
    ghost predicate CameTo(o: Outcome, rc: Flow)
      reads this, cwd
    {
      '\0' in cwd[..] && View() == o.session && replies == o.replies && tuple == o.tuple && rc == o.flow
    }

    constructor ()
      ensures Ready() && View() == Initial() && fresh(cwd)
    {
      cwd := new char[2](i => if i == 0 then '/' else '\0');
      cwdPool, port, pasv, dataSock, arg, tempName := SessPool, Null, Null, Null, Null, Null;
      rnfrto, generation, replies, tuple := false, 0, [], None;
      new;
      assert cwd[..][1] == '\0' && cwd[..][..1] == "/";
      CStrIs(cwd[..], 1);
    }

    /** One reply line on the control connection. */
    method CmdioWrite(code: int, env: Env) returns (rc: Flow)
      modifies this`replies
      ensures replies == old(replies) + [code] && rc == Sent(env, |old(replies)|)
    {
      rc := Sent(env, |replies|);
      replies := replies + [code];
    }

    // ---- data connection set-up ----------------------------------------------------------------------

    method CommunicationCleanup()
      modifies this`port, this`pasv
      ensures port == Null && pasv == Null
    {
      port := Null;
      if pasv.Ref? { pasv := Null; }
    }

    /** The two checks call each other; their calls of `bug` are never reached. */
    method PortActive() returns (rc: bool)
      requires port.Null? || pasv.Null?
      ensures rc == port.Ref?
      decreases if port.Ref? then 1 else 0
    {
      rc := false;
      if port.Ref? {
        rc := true;
        var both := PasvActive();
        if both { assert false; }
      }
    }

    method PasvActive() returns (rc: bool)
      requires port.Null? || pasv.Null?
      ensures rc == pasv.Ref?
      decreases if pasv.Ref? then 1 else 0
    {
      rc := false;
      if pasv.Ref? {
        rc := true;
        var both := PortActive();
        if both { assert false; }
      }
    }

    method DataTransferChecksOk(env: Env) returns (ok: bool)
      requires port.Null? || pasv.Null?
      modifies this`replies
      ensures ok == (port.Ref? || pasv.Ref?)
      ensures replies == old(replies) + (if ok then [] else [425])
    {
      var isPasv := PasvActive();
      var isPort := PortActive();
      if !isPasv && !isPort {
        var _ := CmdioWrite(425, env);
        return false;
      }
      ok := true;
    }

    /** Tries to bind up to nine times; each attempt may fail in any of its steps. */
    method BindToRandomPassivePort(env: Env) returns (ok: bool)
      modifies this`pasv
      requires pasv == Null
      ensures pasv == FirstBound(env.bind, 0, BIND_ATTEMPTS) && ok == pasv.Ref?
    {
      var bindRetries, attempt := BIND_ATTEMPTS + 1, 0;
      bindRetries := bindRetries - 1;
      while bindRetries != 0
        invariant attempt <= BIND_ATTEMPTS && attempt + bindRetries == BIND_ATTEMPTS
        invariant FirstBound(env.bind, 0, BIND_ATTEMPTS) == FirstBound(env.bind, attempt, BIND_ATTEMPTS)
        invariant pasv == Null
        decreases bindRetries
      {
        if env.bind(attempt).Some? {
          pasv := Ref(env.bind(attempt).value, SessPool);
          return true;
        }
        attempt := attempt + 1;
        bindRetries := bindRetries - 1;
      }
      ok := false;
    }

    method HandlePasv(env: Env) returns (rc: Flow)
      requires Ready()
      modifies this`port, this`pasv, this`replies, this`tuple
      ensures CameTo(Pasv(old(View()), env), rc)
    {
      hide DirPath, HostPort.Parse, HostPort.Join;
      CommunicationCleanup();
      var bound := BindToRandomPassivePort(env);
      if !bound { return Failed; }
      if !env.listenOk { return Failed; }
      if env.address.None? { return Failed; }
      tuple := PassiveTuple(env.address.value, pasv.value);
      rc := CmdioWrite(227, env);
    }

    /** The numbers of the reply: the dotted address, and the port in two bytes. */
    method PassiveTuple(address: string, port: HostPort.PortNumber) returns (text: Option<string>)
      ensures text == HostPort.PasvTuple(address, port)
    {
      hide HostPort.Parse, HostPort.Join;
      var vals := new byte[6];
      var ok := HostPort.ParseUcharStringSep(address, '.', vals, 4);
      ghost var ip := vals[..4];
      vals[4], vals[5] := HostPort.PortHigh(port), HostPort.PortLow(port);
      assert vals[..] == ip + [HostPort.PortHigh(port), HostPort.PortLow(port)];
      text := if ok then Some(HostPort.Join(vals[..], ',')) else None;
    }

    method HandlePort(env: Env) returns (rc: Flow)
      requires Ready()
      modifies this`port, this`pasv, this`replies
      ensures CameTo(Port(old(View()), env), rc)
    {
      hide DirPath, HostPort.Parse, HostPort.Join;
      CommunicationCleanup();
      if arg.Null? { return Crashed; }
      var vals := new byte[6];
      var ok := HostPort.ParseUcharStringSep(Deref(arg, generation), ',', vals, 6);
      if !ok {
        var _ := CmdioWrite(500, env);
        return Failed;
      }
      assert vals[..6][..4] == vals[..4];
      var thePort := vals[4] as nat * 256 + vals[5] as nat;
      var address := HostPort.Join(vals[..4], '.');
      port := if env.lookupOk then Ref(Target(address, thePort), SessPool) else env.lookupFailure;
      if !env.lookupOk {
        var _ := CmdioWrite(500, env);
        return Failed;
      }
      var _ := CmdioWrite(200, env);
      rc := Next;
    }

    // ---- transfers -------------------------------------------------------------------------------------

    /** No descriptor is ever left over here, so the call of `bug` is never reached. */
    method InitDataSockParams()
      requires dataSock == Null
      modifies this`dataSock
      ensures dataSock == Ref((), LoopPool(generation))
    {
      if dataSock != Null { assert false; }
      dataSock := Ref((), LoopPool(generation));
    }

    method GetRemoteTransferFd(env: Env) returns (got: bool, died: bool)
      requires (port.Null? || pasv.Null?) && dataSock == Null
      modifies this`dataSock, this`replies
      ensures died <==> port.Null? && pasv.Null?
      ensures died ==> !got && replies == old(replies) && dataSock == Null
      ensures !died ==> got == env.connectOk
      ensures !died ==> replies == old(replies) + [if got then 150 else 425]
      ensures !died ==> dataSock == if got then Ref((), LoopPool(generation)) else Null
    {
      got := false;
      var isPasv := PasvActive();
      var isPort := PortActive();
      if !isPasv && !isPort { return false, true; }
      died := false;
      if env.connectOk { InitDataSockParams(); } else { var _ := CmdioWrite(425, env); }
      if dataSock.Null? { return; }
      var _ := CmdioWrite(150, env);
      got := true;
    }

    /** Closing the socket follows its pointer, which must lead into a live pool. */
    method DisposeTransferFd()
      requires dataSock.Ref? && Alive(dataSock.pool, generation)
      modifies this`dataSock
      ensures dataSock == Null
    {
      var _ := Deref(dataSock, generation);
      dataSock := Null;
    }

    method ReplyTransfer(env: Env)
      modifies this`replies
      ensures replies == old(replies) + [TransferReply(env.transfer)]
    {
      if -1 == env.transfer {
        var _ := CmdioWrite(451, env);
      } else if -2 == env.transfer {
        var _ := CmdioWrite(426, env);
      } else {
        var _ := CmdioWrite(226, env);
      }
    }

    /** The data connection made, used and closed; behind a transfer PORT and PASV are cleared. */
    method CarryOver(env: Env) returns (rc: Flow)
      requires Valid() && (port.Ref? || pasv.Ref?) && tuple == None
      modifies this`port, this`pasv, this`dataSock, this`replies
      ensures CameTo(Carry(old(View()), old(replies), env), rc)
    {
      hide DirPath;
      var got, died := GetRemoteTransferFd(env);
      if !got { return Failed; }
      DisposeTransferFd();
      ReplyTransfer(env);
      CommunicationCleanup();
      rc := Next;
    }

    method HandleRetr(env: Env) returns (rc: Flow)
      requires Ready()
      modifies this`port, this`pasv, this`dataSock, this`replies
      ensures CameTo(Retr(old(View()), env), rc)
    {
      hide DirPath, AbsPath, RetrPath;
      if arg.Null? {
        rc := CmdioWrite(501, env);
        return;
      }
      var checks := DataTransferChecksOk(env);
      if !checks { return Failed; }
      var path := GetAbsPath();
      rc := SendPath(path, env);
    }

    /** The file opened, looked at, and sent if it is a regular one. */
    method SendPath(path: Option<string>, env: Env) returns (rc: Flow)
      requires Ready() && (port.Ref? || pasv.Ref?)
      modifies this`port, this`pasv, this`dataSock, this`replies
      ensures CameTo(RetrPath(old(View()), path, env), rc)
    {
      hide DirPath, TransferReply;
      if path.None? || !env.open(path.value) {
        var _ := CmdioWrite(550, env);
        return Failed;
      }
      if env.stat(path.value) != Regular {
        var _ := CmdioWrite(550, env);
        return if env.stat(path.value) == Missing then Failed else Next;
      }
      rc := CarryOver(env);
      if rc != Next { CommunicationCleanup(); }
    }

    method HandleUploadCommon(env: Env, isUnique: bool) returns (rc: Flow)
      requires Ready()
      modifies this`port, this`pasv, this`dataSock, this`replies
      ensures CameTo(Upload(old(View()), env, isUnique), rc)
    {
      hide DirPath, AbsPath, Carry;
      if arg.Null? {
        rc := CmdioWrite(501, env);
        return;
      }
      var checks := DataTransferChecksOk(env);
      if !checks { return Failed; }
      var path := GetAbsPath();
      if path.None? || !env.open(if isUnique then env.unique(path.value) else path.value) {
        var _ := CmdioWrite(553, env);
        return Failed;
      }
      if isUnique {
        rc := CmdioWrite(150, env);
        if rc != Next { return; }
      }
      assert replies == if isUnique then [150] else [];
      rc := CarryOver(env);
    }

    method CopyOfCwd() returns (path: Option<string>)
      requires '\0' in cwd[..]
      ensures path == Some(CStr(cwd[..]))
    {
      var len := Strlen(cwd);
      assert cwd[..len] == cwd[..][..len];
      path := Some(cwd[..len]);
    }

    method HandleList(env: Env) returns (rc: Flow)
      requires Ready()
      modifies this`dataSock, this`replies
      ensures CameTo(List(old(View()), env), rc)
    {
      hide DirPath, AbsPath, ListPath;
      var path, all := None, false;
      if arg.Ref? {
        var text := Deref(arg, generation);
        if |text| > 0 && text[0] == '-' {
          all := 'a' in text[1..];
          path := CopyOfCwd();
        } else {
          path := GetAbsPath();
        }
      } else {
        path := CopyOfCwd();
      }
      rc := SendListing(path, all, env);
    }

    /** The listing of a directory made and sent. */
    method SendListing(path: Option<string>, all: bool, env: Env) returns (rc: Flow)
      requires Ready()
      modifies this`dataSock, this`replies
      ensures CameTo(ListPath(old(View()), path, all, env), rc)
    {
      hide DirPath;
      if path.None? {
        var _ := CmdioWrite(501, env);
        return Failed;
      }
      if !env.list(path.value, all) {
        rc := CmdioWrite(501, env);
        return;
      }
      var got, died := GetRemoteTransferFd(env);
      if died { return Died; }
      if !got { return Failed; }
      rc := CmdioWrite(if env.listSent then 226 else 426, env);
      DisposeTransferFd();
    }

    // ---- directories and names -------------------------------------------------------------------------

    method GetAbsPath() returns (path: Option<string>)
      requires arg.Ref? && Alive(arg.pool, generation) && Alive(cwdPool, generation) && '\0' in cwd[..]
      ensures path == AbsPath(arg.value, CStr(cwd[..]))
    {
      var text := Deref(arg, generation);
      if |text| == 0 { return None; }
      if '/' == text[0] { return Some(text); }
      var len := Strlen(cwd);
      assert cwd[..len] == cwd[..][..len];
      path := Some(cwd[..len] + text);
    }

    method HandleCwd(env: Env) returns (rc: Flow)
      requires Ready()
      modifies this`cwd, this`cwdPool, this`replies, cwd
      ensures CameTo(Cwd(old(View()), env), rc) && (cwd == old(cwd) || fresh(cwd))
    {
      hide AbsPath, Parent, DirPath, Enter;
      if arg.Null? {
        rc := CmdioWrite(550, env);
        return;
      }
      if Deref(arg, generation) == "." {
        rc := CmdioWrite(250, env);
        return;
      }
      if Deref(arg, generation) == ".." {
        rc := HandleCdup(env);
        return;
      }
      var path := GetAbsPath();
      if path.None? {
        var _ := CmdioWrite(550, env);
        return Failed;
      }
      CwdIsDirPath(arg.value, CStr(cwd[..]));
      var full := path.value;
      if full == "" || '/' != full[|full| - 1] { full := full + "/"; }
      rc := EnterDirectory(full, env);
    }

    /** The path, with its slash, becomes the working directory if it is a directory. */
    method EnterDirectory(path: string, env: Env) returns (rc: Flow)
      requires Ready() && '\0' !in path
      modifies this`cwd, this`cwdPool, this`replies
      ensures CameTo(Enter(old(View()), path, env), rc) && (cwd == old(cwd) || fresh(cwd))
    {
      hide DirPath;
      if env.stat(path) != Directory {
        rc := CmdioWrite(550, env);
        return;
      }
      cwd := Strdup(path);
      cwdPool := SessPool;
      rc := CmdioWrite(250, env);
    }

    method HandleCdup(env: Env) returns (rc: Flow)
      requires Ready()
      modifies this`replies, cwd
      ensures CameTo(Cdup(old(View()), env), rc)
    {
      hide Parent;
      var atRoot := CutLast(cwd);
      rc := CmdioWrite(202, env);
    }

    method HandleRnfr(env: Env) returns (rc: Flow)
      requires Ready() && !rnfrto
      modifies this`tempName, this`rnfrto, this`replies
      ensures CameTo(Rnfr(old(View()), env), rc)
    {
      hide AbsPath, DirPath;
      tempName := Null;
      if arg.Null? {
        rc := CmdioWrite(550, env);
        return;
      }
      var path := GetAbsPath();
      if path.None? {
        var _ := CmdioWrite(550, env);
        return Failed;
      }
      if env.stat(path.value) != Regular && env.stat(path.value) != Directory {
        rc := CmdioWrite(550, env);
        return;
      }
      tempName := Ref(path.value, SessPool);
      rc := CmdioWrite(350, env);
      if rc == Next && tempName.Ref? { rnfrto := true; }
    }

    /** `rename` is what is asked of the file system. */
    method HandleRnto(env: Env) returns (rc: Flow, rename: Rename)
      requires Ready() && tempName.Ref?
      modifies this`replies
      ensures CameTo(Rnto(old(View()), env), rc) && rename == Rnto(old(View()), env).rename
    {
      hide AbsPath, DirPath;
      rename := NoRename;
      if arg.Null? {
        rc := CmdioWrite(501, env);
        return;
      }
      var path := GetAbsPath();
      rename := Rename(Deref(tempName, generation),
                       if path.None? then Null else Ref(path.value, LoopPool(generation)));
      rc := CmdioWrite(if env.renameOk then 250 else 501, env);
    }

    /** RMD, MKD and DELE. */
    method HandleChange(env: Env, missing: int, done: int, refused: int, mustBeNew: bool) returns (rc: Flow)
      requires Ready()
      modifies this`replies
      ensures CameTo(Change(old(View()), env, missing, done, refused, mustBeNew), rc)
    {
      hide AbsPath, DirPath;
      if arg.Null? {
        rc := CmdioWrite(missing, env);
        return;
      }
      var path := GetAbsPath();
      if path.None? {
        var _ := CmdioWrite(missing, env);
        return Failed;
      }
      if mustBeNew && env.stat(path.value) != Missing {
        rc := CmdioWrite(refused, env);
        return;
      }
      rc := CmdioWrite(if env.change(path.value) then done else refused, env);
    }

    method HandleSite(env: Env) returns (rc: Flow)
      requires Ready()
      modifies this`replies
      ensures CameTo(Site(old(View()), env), rc)
    {
      hide DirPath;
      if arg.Null? { return Crashed; }
      match env.site
      case SiteSilent => rc := Next;
      case SiteHelp => rc := CmdioWrite(214, env);
      case SiteUnknown => rc := CmdioWrite(500, env);
    }

    // ---- the command loop --------------------------------------------------------------------------------

    /** A command that comes to one reply, whose delivery decides. */
    method AnswerWith(code: int, env: Env) returns (rc: Flow)
      requires Ready()
      modifies this`replies
      ensures CameTo(Answer(old(View()), code, env), rc)
    {
      hide Inv;
      rc := CmdioWrite(code, env);
    }

    /** A command that comes to one reply and goes on as `flow`, whether it is delivered or not. */
    method SayThen(code: int, flow: Flow, env: Env) returns (rc: Flow)
      requires Ready()
      modifies this`replies
      ensures CameTo(Said(old(View()), [code], flow), rc)
    {
      hide Inv;
      var _ := CmdioWrite(code, env);
      rc := flow;
    }

    /** FEAT: a reply for its first line and one for its last. */
    method HandleFeat(env: Env) returns (rc: Flow)
      requires Ready()
      modifies this`replies
      ensures CameTo(Said(old(View()), [211, 211], Next), rc)
    {
      hide Inv;
      var _ := CmdioWrite(211, env);
      var _ := CmdioWrite(211, env);
      rc := Next;
    }

    method Handle(verb: Verb, env: Env) returns (rc: Flow)
      requires Ready() && !rnfrto
      modifies this, cwd
      ensures CameTo(Dispatch(old(View()), verb, env), rc) && (cwd == old(cwd) || fresh(cwd))
    {
      hide Inv, Pasv, Port, Retr, Upload, List, Cwd, Cdup, Rnfr, Change, Site, Said, Answer;
      match verb
      case PASV => rc := HandlePasv(env);
      case SYST => rc := AnswerWith(215, env);
      case USER => rc := AnswerWith(230, env);
      case PASS => rc := AnswerWith(230, env);
      case QUIT => rc := SayThen(221, Quit, env);
      case ABOR => rc := SayThen(225, Next, env);
      case PORT => rc := HandlePort(env);
      case RMD => rc := HandleChange(env, 550, 250, 550, false);
      case MKD => rc := HandleChange(env, 550, 257, 550, true);
      case PWD => rc := AnswerWith(257, env);
      case CWD => rc := HandleCwd(env);
      case CDUP => rc := HandleCdup(env);
      case RNFR => rc := HandleRnfr(env);
      case RNTO => rc := AnswerWith(503, env);
      case TYPE => rc := SayThen(200, Next, env);
      case RETR => rc := HandleRetr(env);
      case STOR => rc := HandleUploadCommon(env, false);
      case DELE => rc := HandleChange(env, 501, 250, 550, false);
      case STOU => rc := HandleUploadCommon(env, true);
      case LIST => rc := HandleList(env);
      case FEAT => rc := HandleFeat(env);
      case APPE => rc := HandleUploadCommon(env, false);
      case SITE => rc := HandleSite(env);
      case ALLO => rc := AnswerWith(202, env);
      case REIN => rc := AnswerWith(502, env);
      case ACCT => rc := AnswerWith(502, env);
      case SMNT => rc := AnswerWith(502, env);
      case OTHER => rc := SayThen(502, Next, env);
    }

    /** One turn of the loop: clear the loop pool, take the command in, and treat RNTO first. */
    method TakeTurn(t: Turn) returns (rc: Flow, rename: Rename)
      requires Valid() && Parsed(t)
      modifies this, cwd
      ensures CameTo(Step(old(View()), t), rc) && rename == Step(old(View()), t).rename
      ensures cwd == old(cwd) || fresh(cwd)
    {
      hide DirPath, Dispatch, Rnto, Sent;
      generation := generation + 1;
      arg := t.arg;
      replies, tuple, rename := [], None, NoRename;
      if t.verb == RNTO {
        if rnfrto {
          rnfrto := false;
          rc, rename := HandleRnto(t.env);
        } else {
          NoRenameInDispatch(View(), t.verb, t.env);
          rc := Handle(t.verb, t.env);
        }
      } else if rnfrto {
        rnfrto := false;
        rc := CmdioWrite(503, t.env);
      } else {
        NoRenameInDispatch(View(), t.verb, t.env);
        rc := Handle(t.verb, t.env);
      }
    }

    /** The loop's run on any list of commands is the run of the state machine. */
    method FtpProtocolLoop(turns: seq<Turn>) returns (rc: Flow, ghost run: seq<Observation>)
      requires Valid() && AllParsed(turns)
      modifies this, cwd
      ensures run == Run(old(View()), turns)
      ensures run != [] ==> rc == run[|run| - 1].out.flow && View() == run[|run| - 1].out.session
      ensures |run| < |turns| ==> rc != Next
    {
      hide Step, Inv, Run, SoFar, AllParsed, Parsed, Keeps, CStr;
      run := [];
      rc := Next;
      var i := 0;
      ghost var s := View();
      NothingYet(s, turns);
      while rc == Next && i < |turns|
        invariant i == |run| <= |turns| && '\0' in cwd[..] && (rc == Next ==> Inv(View()))
        invariant SoFar(s, turns, run, View(), rc)
        invariant cwd == old(cwd) || fresh(cwd)
        decreases |turns| - i, rc == Next
      {
        ghost var before := View();
        SoFarStep(s, turns, run, before);
        var rename;
        rc, rename := TakeTurn(turns[i]);
        run := run + [Observation(before, turns[i], Step(before, turns[i]))];
        i := i + 1;
      }
      SoFarEnd(s, turns, run, View(), rc);
    }
  }

  /** `run` is the part of the whole run that led to `s`. */
  ghost predicate SoFar(s0: Session, turns: seq<Turn>, run: seq<Observation>, s: Session, rc: Flow)
    requires Inv(s0) && AllParsed(turns)
  {
    && |run| <= |turns|
    && (if rc == Next then Inv(s) && Run(s0, turns) == run + Run(s, turns[|run|..]) else Run(s0, turns) == run)
    && (run != [] ==> rc == run[|run| - 1].out.flow && s == run[|run| - 1].out.session)
  }

  lemma NothingYet(s: Session, turns: seq<Turn>)
    requires Inv(s) && AllParsed(turns)
    ensures SoFar(s, turns, [], s, Next)
  {
    assert turns[0..] == turns && [] + Run(s, turns) == Run(s, turns);
  }

  lemma SoFarStep(s0: Session, turns: seq<Turn>, run: seq<Observation>, s: Session)
    requires Inv(s0) && AllParsed(turns) && SoFar(s0, turns, run, s, Next) && |run| < |turns|
    ensures Inv(s) && Parsed(turns[|run|]) && Keeps(Step(s, turns[|run|]))
    ensures Step(s, turns[|run|]).flow == Next ==> Inv(Step(s, turns[|run|]).session)
    ensures var out := Step(s, turns[|run|]);
      SoFar(s0, turns, run + [Observation(s, turns[|run|], out)], out.session, out.flow)
  {
    hide Step, Inv;
    var t, rest := turns[|run|], turns[|run|..];
    StepKeepsInv(s, t);
    RunUnfolds(s, rest);
    var o := Observation(s, t, Step(s, t));
    assert rest[1..] == turns[|run| + 1..];
    assert run + ([o] + Run(s, rest)[1..]) == (run + [o]) + Run(s, rest)[1..];
  }

  lemma SoFarEnd(s0: Session, turns: seq<Turn>, run: seq<Observation>, s: Session, rc: Flow)
    requires Inv(s0) && AllParsed(turns) && SoFar(s0, turns, run, s, rc) && (rc == Next ==> |run| == |turns|)
    ensures run == Run(s0, turns)
    ensures run != [] ==> rc == run[|run| - 1].out.flow && s == run[|run| - 1].out.session
  {
    hide Step, Inv;
    if rc == Next { assert turns[|run|..] == [] && run + [] == run; }
  }

  lemma NoRenameInDispatch(s: Session, verb: Verb, env: Env)
    requires Inv(s)
    ensures Dispatch(s, verb, env).rename == NoRename
  {
    hide DirPath;
  }

  lemma RunUnfolds(s: Session, turns: seq<Turn>)
    requires Inv(s) && AllParsed(turns) && turns != []
    ensures Parsed(turns[0]) && Keeps(Step(s, turns[0]))
    ensures var out := Step(s, turns[0]);
      Run(s, turns) == [Observation(s, turns[0], out)] + (if out.flow == Next then Run(out.session, turns[1..]) else [])
  {
    StepKeepsInv(s, turns[0]);
  }
}
