/**
 * What a client may rely on, command by command: which reply comes exactly when, whether the loop
 * goes on, and what the session is afterwards. Nothing here goes through the functions of the
 * state machine; codes are those of RFC 959, section 4.2.
 */
module SessionLaws {
  import opened Apr
  import opened Paths
  import opened SessionSpec
  import opened SessionRuns
  import Bytes
  import HostPort

  /** One turn of the loop whose command is not swallowed by a pending rename. */
  ghost predicate Turned(o: Observation) {
    Inv(o.before) && Parsed(o.turn) && o.out == Step(o.before, o.turn) && Handled(o)
  }

  /** Nothing of the session changed but the argument read and the pool cleared for the turn. */
  predicate Untouched(o: Observation) {
    o.out.session == o.before.(generation := o.before.generation + 1, arg := o.turn.arg)
  }

  /** The loop goes on exactly if the reply went out. */
  predicate GoesOnIfDelivered(o: Observation) {
    o.out.flow == if o.turn.env.control(0) then Next else Failed
  }

  /** What the argument names exists as one of these. */
  predicate Names(o: Observation, kind: FileKind)
    requires o.before.cwd.Ref? && o.turn.arg.Ref?
  {
    o.turn.env.stat(Meant(o.turn.arg.value, o.before.cwd.value)) == kind
  }

  // ---- changing the directory ------------------------------------------------------------------------------

  /** A name with exactly one slash added where none is at its end. */
  function AsDirectory(name: string): string {
    if name != "" && name[|name| - 1..] == "/" then name else name + "/"
  }

  /**
   * CWD: "." stays and ".." goes up; any other argument is entered, with a slash at its end, exactly
   * if that is a directory.
   */
  lemma CwdLaw(o: Observation)
    requires Turned(o) && o.turn.verb == CWD && o.turn.arg.Ref?
    requires o.turn.arg.value != "." && o.turn.arg.value != ".."
    ensures var target := AsDirectory(Meant(o.turn.arg.value, o.before.cwd.value));
      && GoesOnIfDelivered(o)
      && (o.turn.env.stat(target) == Directory ==>
            && o.out.replies == [250]
            && o.out.session == o.before.(generation := o.before.generation + 1, arg := o.turn.arg,
                                          cwd := Ref(target, SessPool)))
      && (o.turn.env.stat(target) != Directory ==> o.out.replies == [550] && Untouched(o))
  {
    hide AbsPath, Meant, Parent, DirPath;
    AbsPathIsMeant(o.turn.arg.value, o.before.cwd.value);
    SlashAdded(Meant(o.turn.arg.value, o.before.cwd.value));
  }

  lemma SlashAdded(p: string)
    ensures AsDirectory(p) == WithSlash(p)
  {
    if p != "" { assert p[|p| - 1..] == [p[|p| - 1]]; }
  }

  /** A directory named from the root on, with or without the last slash, is entered from anywhere. */
  lemma CwdOfAbsolute(s: Session, name: string, env: Env)
    requires Inv(s) && !s.rnfrto && name != "" && name[0] == '/' && name[|name| - 1] != '/' && '\0' !in name
    requires env.control(0) && env.stat(name + "/") == Directory
    ensures Step(s, Turn(CWD, Ref(name, SessPool), env)).session.cwd == Ref(name + "/", SessPool)
    ensures Step(s, Turn(CWD, Ref(name + "/", SessPool), env)).session.cwd == Ref(name + "/", SessPool)
  {
    hide Step, Inv, DirPath;
    CwdIsSet(s);
    forall arg | arg == name || arg == name + "/"
      ensures Step(s, Turn(CWD, Ref(arg, SessPool), env)).session.cwd == Ref(name + "/", SessPool)
    {
      var t := Turn(CWD, Ref(arg, SessPool), env);
      assert arg[0] == '/' && "/" <= arg && Meant(arg, s.cwd.value) == arg && AsDirectory(arg) == name + "/";
      CwdLaw(Observation(s, t, Step(s, t)));
    }
  }

  /** The other arguments of CWD, and CDUP. */
  lemma UpLaw(o: Observation)
    requires Turned(o) && (o.turn.verb == CWD || o.turn.verb == CDUP)
    ensures o.turn.verb == CWD && o.turn.arg.Null? ==> o.out.replies == [550] && Untouched(o)
    ensures o.turn.verb == CWD && o.turn.arg.Ref? && o.turn.arg.value == "." ==>
      o.out.replies == [250] && Untouched(o)
    ensures o.turn.verb == CDUP || (o.turn.arg.Ref? && o.turn.arg.value == "..") ==>
      && o.out.replies == [202]
      && (forall p, c :: DirPath(p) && Component(c) && o.before.cwd.value == p + c + "/" ==>
            o.out.session == o.before.(generation := o.before.generation + 1, arg := o.turn.arg,
                                       cwd := o.before.cwd.(value := p)))
      && (o.before.cwd.value == "/" ==> Untouched(o))
    ensures o.turn.verb == CDUP || o.turn.arg.Null? || o.turn.arg.value == "." || o.turn.arg.value == ".." ==>
      GoesOnIfDelivered(o)
  {
    hide AbsPath, DirPath, Parent;
    RootIsItsParent();
    forall p, c | DirPath(p) && Component(c) ensures Parent(p + c + "/") == p { ParentOfLast(p, c); }
  }

  lemma RootIsItsParent()
    ensures Parent("/") == "/"
  {
  }

  // ---- names and files -----------------------------------------------------------------------------------

  /** RNFR: 350 exactly for a file or a directory, whose path is then pending; 550 for all else. */
  lemma RnfrLaw(o: Observation)
    requires Turned(o) && o.turn.verb == RNFR
    ensures GoesOnIfDelivered(o) && (o.out.replies == [350] || o.out.replies == [550])
    ensures o.out.replies == [350] <==> o.turn.arg.Ref? && (Names(o, Regular) || Names(o, Directory))
    ensures var begun := o.before.(generation := o.before.generation + 1, arg := o.turn.arg);
      o.out.session ==
        if o.out.replies == [350]
        then begun.(tempName := Ref(Meant(o.turn.arg.value, o.before.cwd.value), SessPool),
                    rnfrto := o.turn.env.control(0))
        else begun.(tempName := Null)
  {
    hide AbsPath, Meant, DirPath;
    if o.turn.arg.Ref? { AbsPathIsMeant(o.turn.arg.value, o.before.cwd.value); }
  }

  /** RNTO behind an accepted RNFR: 250 exactly if the rename asked for succeeds, 501 for all else. */
  lemma RntoLaw(o: Observation)
    requires Inv(o.before) && Parsed(o.turn) && o.out == Step(o.before, o.turn)
    requires o.before.rnfrto && o.turn.verb == RNTO
    ensures GoesOnIfDelivered(o) && (o.out.replies == [250] || o.out.replies == [501])
    ensures o.out.replies == [250] <==> o.out.rename.Rename? && o.turn.env.renameOk
    ensures o.out.session == o.before.(generation := o.before.generation + 1, arg := o.turn.arg, rnfrto := false)
  {
    hide AbsPath, DirPath;
  }

  /** RMD, MKD and DELE: 250, for MKD 257, exactly if the change to what the argument names is made. */
  lemma ChangeLaw(o: Observation)
    requires Turned(o) && (o.turn.verb == RMD || o.turn.verb == MKD || o.turn.verb == DELE)
    ensures GoesOnIfDelivered(o) && Untouched(o)
    ensures o.turn.arg.Ref? ==>
      var changed := o.turn.env.change(Meant(o.turn.arg.value, o.before.cwd.value));
      && (o.turn.verb == RMD ==> o.out.replies == [if changed then 250 else 550])
      && (o.turn.verb == DELE ==> o.out.replies == [if changed then 250 else 550])
      && (o.turn.verb == MKD ==> o.out.replies == [if Names(o, Missing) && changed then 257 else 550])
    ensures o.turn.arg.Null? ==> o.out.replies == [if o.turn.verb == DELE then 501 else 550]
  {
    hide AbsPath, Meant, DirPath;
    if o.turn.arg.Ref? { AbsPathIsMeant(o.turn.arg.value, o.before.cwd.value); }
  }

  // ---- setting up a data connection ----------------------------------------------------------------------

  /** The port found is that of the first attempt that binds, if there is one. */
  lemma {:induction false} FirstBoundLaw(bind: nat -> Option<HostPort.PortNumber>, i: nat, n: nat)
    requires i <= n
    ensures FirstBound(bind, i, n).Null? <==> forall j :: i <= j < n ==> bind(j).None?
    ensures forall j :: i <= j < n && bind(j).Some? && (forall k :: i <= k < j ==> bind(k).None?) ==>
      FirstBound(bind, i, n) == Ref(bind(j).value, SessPool)
    decreases n - i
  {
    if i < n { FirstBoundLaw(bind, i + 1, n); }
  }

  /**
   * PASV: listening on the port of the first of nine attempts that binds, 227 exactly if one does and
   * listening and the own address work out; else the session ends without a reply. An earlier PORT
   * is forgotten in any case.
   */
  lemma PasvLaw(o: Observation, attempt: nat)
    requires Turned(o) && o.turn.verb == PASV
    requires attempt <= 9 && forall k :: 0 <= k < attempt ==> o.turn.env.bind(k).None?
    requires attempt < 9 ==> o.turn.env.bind(attempt).Some?
    ensures var served := attempt < 9 && o.turn.env.listenOk && o.turn.env.address.Some?;
      && o.out.replies == (if served then [227] else [])
      && o.out.flow == (if served && o.turn.env.control(0) then Next else Failed)
    ensures o.out.session ==
      o.before.(generation := o.before.generation + 1, arg := o.turn.arg, port := Null,
                pasv := if attempt < 9 then Ref(o.turn.env.bind(attempt).value, SessPool) else Null)
  {
    hide HostPort.PasvTuple, DirPath;
    FirstBoundLaw(o.turn.env.bind, 0, 9);
  }

  /** PORT: 200 exactly for six byte values whose address is found, which it then sets; an earlier PASV is forgotten. */
  lemma PortLaw(o: Observation, vals: seq<Bytes.byte>)
    requires Turned(o) && o.turn.verb == PORT && o.turn.arg.Ref?
    requires |vals| == 6
    ensures var begun := o.before.(generation := o.before.generation + 1, arg := o.turn.arg, pasv := Null);
      HostPort.Parse(o.turn.arg.value, ',', 6) == Some(vals) ==>
      if o.turn.env.lookupOk
      then
        && o.out.replies == [200] && o.out.flow == Next
        && o.out.session == begun.(port := Ref(Target(HostPort.Join(vals[..4], '.'),
                                                      256 * vals[4] as nat + vals[5] as nat), SessPool))
      else
        o.out.replies == [500] && o.out.flow == Failed && o.out.session == begun.(port := o.turn.env.lookupFailure)
  {
    hide HostPort.Parse, HostPort.Join, DirPath;
  }

  /** Any other argument of PORT ends the session with 500, and none at all crashes. */
  lemma PortRefused(o: Observation)
    requires Turned(o) && o.turn.verb == PORT
    requires o.turn.arg.Null? || HostPort.Parse(o.turn.arg.value, ',', 6).None?
    ensures o.out.replies == (if o.turn.arg.Null? then [] else [500])
    ensures o.out.flow == (if o.turn.arg.Null? then Crashed else Failed)
    ensures o.out.session ==
      o.before.(generation := o.before.generation + 1, arg := o.turn.arg, port := Null, pasv := Null)
  {
    hide HostPort.Parse, DirPath;
  }

  // ---- transfers -------------------------------------------------------------------------------------------

  /** Why a RETR, STOR, APPE or STOU that is not carried is not, and what is left set up. */
  lemma RefusalLaw(o: Observation)
    requires Turned(o) && IsTransfer(o.turn.verb) && !Completed(o)
    ensures o.out.replies == [501] <==> o.turn.arg.Null?
    ensures o.turn.arg.Null? ==> GoesOnIfDelivered(o)
    ensures o.turn.arg.Ref? && !Active(o.before) ==> o.out.replies == [425]
    ensures o.turn.arg.Ref? && Active(o.before) && o.turn.verb == RETR ==>
      var path := Meant(o.turn.arg.value, o.before.cwd.value);
      o.out.replies == [if o.turn.env.open(path) && Names(o, Regular) then 425 else 550]
    ensures o.turn.arg.Ref? && Active(o.before) && (o.turn.verb == STOR || o.turn.verb == APPE) ==>
      o.out.replies == [if o.turn.env.open(Meant(o.turn.arg.value, o.before.cwd.value)) then 425 else 553]
    ensures o.turn.arg.Ref? && Active(o.before) && o.turn.verb == STOU ==>
      var found := o.turn.env.open(o.turn.env.unique(Meant(o.turn.arg.value, o.before.cwd.value)));
      o.out.replies == if !found then [553] else if !o.turn.env.control(0) then [150] else [150, 425]
    // Only a RETR whose connection is not made clears what was set up.
    ensures var begun := o.before.(generation := o.before.generation + 1, arg := o.turn.arg);
      o.out.session ==
        if o.turn.arg.Ref? && Active(o.before) && o.turn.verb == RETR && o.out.replies == [425]
        then begun.(port := Null, pasv := Null) else begun
    // The session goes on behind a refusal only if what is named exists and is no regular file.
    ensures o.turn.arg.Ref? ==>
      (o.out.flow == Next <==>
       && o.turn.verb == RETR && Active(o.before) && o.turn.env.open(Meant(o.turn.arg.value, o.before.cwd.value))
       && (Names(o, Directory) || Names(o, Special)))
  {
    hide AbsPath, Meant, DirPath;
    if o.turn.arg.Ref? { AbsPathIsMeant(o.turn.arg.value, o.before.cwd.value); }
  }

  /** Behind a transfer everything is as before but PORT and PASV. */
  lemma CompletedLaw(o: Observation)
    requires Turned(o) && IsTransfer(o.turn.verb) && Completed(o)
    ensures o.out.flow == Next
    ensures o.out.session ==
      o.before.(generation := o.before.generation + 1, arg := o.turn.arg, port := Null, pasv := Null)
  {
    hide AbsPath, DirPath, TransferReply;
  }

  /**
   * LIST with a connection set up: 501 exactly if the directory does not open, 425 exactly if the
   * connection is not made, else 150 and 226 exactly if everything was sent, 426 if not. What was
   * set up stays set up.
   */
  lemma ListLaw(o: Observation)
    requires Turned(o) && o.turn.verb == LIST
    ensures Untouched(o)
    ensures !Listed(o) ==> o.out.replies == [501] && GoesOnIfDelivered(o)
    ensures Listed(o) && !Active(o.before) ==> o.out.replies == [] && o.out.flow == Died
    ensures Listed(o) && Active(o.before) && !o.turn.env.connectOk ==> o.out.replies == [425] && o.out.flow == Failed
    ensures Listed(o) && Active(o.before) && o.turn.env.connectOk ==>
      && o.out.replies == [150, if o.turn.env.listSent then 226 else 426]
      && o.out.flow == (if o.turn.env.control(1) then Next else Failed)
  {
    hide AbsPath, Meant, DirPath;
    if o.turn.arg.Ref? { AbsPathIsMeant(o.turn.arg.value, o.before.cwd.value); }
  }

  // ---- all the rest ------------------------------------------------------------------------------------------

  /** The one reply of a command that does nothing else. */
  function FixedReply(verb: Verb): Option<int> {
    match verb
    case SYST => Some(215)
    case USER => Some(230)
    case PASS => Some(230)
    case PWD => Some(257)
    case ALLO => Some(202)
    case REIN => Some(502)
    case ACCT => Some(502)
    case SMNT => Some(502)
    case RNTO => Some(503)
    case _ => None
  }

  /** Commands without effect: the reply, and that nothing changes. */
  lemma FixedLaw(o: Observation)
    requires Turned(o)
    ensures FixedReply(o.turn.verb).Some? ==>
      o.out.replies == [FixedReply(o.turn.verb).value] && GoesOnIfDelivered(o) && Untouched(o)
    ensures o.turn.verb == ABOR ==> o.out.replies == [225] && o.out.flow == Next && Untouched(o)
    ensures o.turn.verb == TYPE ==> o.out.replies == [200] && o.out.flow == Next && Untouched(o)
    ensures o.turn.verb == FEAT ==> o.out.replies == [211, 211] && o.out.flow == Next && Untouched(o)
    ensures o.turn.verb == OTHER ==> o.out.replies == [502] && o.out.flow == Next && Untouched(o)
    ensures o.turn.verb == QUIT ==> o.out.replies == [221] && Untouched(o)
    ensures o.turn.verb == SITE && o.turn.arg.Ref? ==>
      && Untouched(o)
      && match o.turn.env.site
         case SiteSilent => o.out.replies == [] && o.out.flow == Next
         case SiteHelp => o.out.replies == [214] && GoesOnIfDelivered(o)
         case SiteUnknown => o.out.replies == [500] && GoesOnIfDelivered(o)
  {
    hide DirPath;
  }

  /**
   * How a session ends: by QUIT exactly where it is handled, and in a crash exactly for a PORT or
   * SITE without an argument.
   */
  lemma EndLaw(o: Observation)
    requires Inv(o.before) && Parsed(o.turn) && o.out == Step(o.before, o.turn)
    ensures o.out.flow == Quit <==> Handled(o) && o.turn.verb == QUIT
    ensures o.out.flow == Crashed <==> Handled(o) && o.turn.arg.Null? && (o.turn.verb == PORT || o.turn.verb == SITE)
  {
    hide AbsPath, WithSlash, Parent, DirPath, HostPort.PortTarget, HostPort.PasvTuple;
  }
}
