/** What holds over whole runs of a control connection, for all commands and all answers of the system. */
module SessionRuns {
  import opened Apr
  import opened Paths
  import opened SessionSpec
  import opened Bytes
  import HostPort

  /** One turn of a run: the session before it, the command with the system's answers, what came of it. */
  datatype Observation = Observation(before: Session, turn: Turn, out: Outcome)

  predicate AllParsed(turns: seq<Turn>) { forall i :: 0 <= i < |turns| ==> Parsed(turns[i]) }

  /** The command loop: it goes on as long as commands end well. */
  function Run(s: Session, turns: seq<Turn>): seq<Observation>
    requires Inv(s) && AllParsed(turns)
    decreases |turns|
  {
    if turns == [] then []
    else
      StepKeepsInv(s, turns[0]);
      var out := Step(s, turns[0]);
      [Observation(s, turns[0], out)] + (if out.flow == Next then Run(out.session, turns[1..]) else [])
  }

  /** A run hands the session from turn to turn, and the invariant holds in front of each. */
  lemma {:induction false} RunIsLinked(s: Session, turns: seq<Turn>)
    requires Inv(s) && AllParsed(turns)
    ensures Linked(s, Run(s, turns)) && |Run(s, turns)| <= |turns|
    ensures forall i :: 0 <= i < |Run(s, turns)| ==> Run(s, turns)[i].turn == turns[i]
    ensures |Run(s, turns)| < |turns| ==> Run(s, turns) != [] && Run(s, turns)[|Run(s, turns)| - 1].out.flow != Next
    decreases |turns|
  {
    hide Step, Inv;
    if turns != [] {
      StepKeepsInv(s, turns[0]);
      var out := Step(s, turns[0]);
      if out.flow == Next {
        RunIsLinked(out.session, turns[1..]);
        var rest := Run(out.session, turns[1..]);
        var run := Run(s, turns);
        forall i | 0 <= i < |run| ensures LinkedAt(run, i) && run[i].turn == turns[i] {
          if 0 < i { assert run[i] == rest[i - 1] && LinkedAt(rest, i - 1) && (1 < i ==> run[i - 1] == rest[i - 2]); }
        }
      }
    }
  }

  ghost predicate Linked(s: Session, run: seq<Observation>) {
    && (run != [] ==> run[0].before == s)
    && forall i :: 0 <= i < |run| ==> LinkedAt(run, i)
  }

  ghost predicate LinkedAt(run: seq<Observation>, i: nat)
    requires i < |run|
  {
    && Inv(run[i].before) && Parsed(run[i].turn) && run[i].out == Step(run[i].before, run[i].turn)
    && (0 < i ==> run[i].before == run[i - 1].out.session && run[i - 1].out.flow == Next)
  }

  /** A run from a fresh session. */
  function Fresh(turns: seq<Turn>): seq<Observation>
    requires AllParsed(turns)
  {
    InitialInv();
    Run(Initial(), turns)
  }

  /**
   * Region safety and exclusivity on every run from a fresh session: whenever the loop pool is
   * cleared no session pointer leads into it, no data socket is open, PORT and PASV are not both
   * set, and the working directory starts and ends with a slash. No turn ever sets both.
   */
  lemma EveryRunIsSafe(turns: seq<Turn>, i: nat)
    requires AllParsed(turns)
    requires i < |Fresh(turns)|
    ensures var o := Fresh(turns)[i];
      && RegionSafe(o.before) && Exclusive(o.before) && Exclusive(o.out.session)
      && o.before.cwd.Ref? && DirPath(o.before.cwd.value)
  {
    InitialInv();
    RunIsLinked(Initial(), turns);
    assert LinkedAt(Fresh(turns), i);
    StepKeepsInv(Fresh(turns)[i].before, Fresh(turns)[i].turn);
  }

  // ---- rename pairing ----------------------------------------------------------------------------------------

  predicate AcceptedRnfr(o: Observation) {
    o.turn.verb == RNFR && o.out.replies == [350] && o.out.flow == Next
  }

  /** What a name stands for: itself from the root on, or the place with that name in the working directory. */
  function Meant(name: string, cwd: string): string {
    if "/" <= name then name else cwd + name
  }

  /** The path resolution of the handlers finds what a name stands for. */
  lemma AbsPathIsMeant(name: string, cwd: string)
    ensures AbsPath(name, cwd) == if name == "" then None else Some(Meant(name, cwd))
  {
  }

  /** The path an argument names in the session of the turn. */
  function Resolved(o: Observation): Option<string> {
    if o.turn.arg.Null? || o.before.cwd.Null? then None else Some(Meant(o.turn.arg.value, o.before.cwd.value))
  }

  lemma StepSetsPending(o: Observation)
    requires Inv(o.before) && Parsed(o.turn) && o.out == Step(o.before, o.turn) && o.out.flow == Next
    ensures o.out.session.rnfrto <==> AcceptedRnfr(o)
    ensures AcceptedRnfr(o) ==> o.out.session.tempName.Ref? && Resolved(o) == Some(o.out.session.tempName.value)
    ensures AcceptedRnfr(o) ==> o.out.session.cwd == o.before.cwd
  {
    hide AbsPath, WithSlash, Parent, DirPath;
    if o.turn.arg.Ref? { AbsPathIsMeant(o.turn.arg.value, o.before.cwd.value); }
  }

  /** An RNFR is accepted exactly when it is handled, names a file or a directory, and its reply goes out. */
  lemma RnfrAcceptedIff(o: Observation)
    requires Inv(o.before) && Parsed(o.turn) && o.out == Step(o.before, o.turn)
    ensures AcceptedRnfr(o) <==>
      && o.turn.verb == RNFR && Handled(o) && Resolved(o).Some? && o.turn.env.control(0)
      && (o.turn.env.stat(Resolved(o).value) == Regular || o.turn.env.stat(Resolved(o).value) == Directory)
  {
    hide AbsPath, WithSlash, Parent, DirPath;
    if o.turn.arg.Ref? { AbsPathIsMeant(o.turn.arg.value, o.before.cwd.value); }
  }

  lemma StepUsesPending(o: Observation)
    requires Inv(o.before) && Parsed(o.turn) && o.out == Step(o.before, o.turn)
    ensures o.out.rename.Rename? <==> o.turn.verb == RNTO && o.before.rnfrto && o.turn.arg.Ref?
    ensures o.out.rename.Rename? ==> o.out.rename.source == o.before.tempName.value
    ensures o.out.rename.Rename? ==> o.out.rename.target.Ref? && Some(o.out.rename.target.value) == Resolved(o)
    ensures o.turn.verb == RNTO && !o.before.rnfrto ==> o.out.replies == [503]
    ensures o.turn.verb != RNTO && o.before.rnfrto ==>
      o.out.replies == [503] && o.out.session == Begin(o.before, o.turn).(rnfrto := false)
  {
    hide AbsPath, WithSlash, Parent, DirPath;
    if o.turn.arg.Ref? { AbsPathIsMeant(o.turn.arg.value, o.before.cwd.value); }
  }

  /**
   * A rename is attempted exactly for an RNTO with an argument right behind an accepted RNFR (see
   * `RnfrAcceptedIff`), from the path that RNFR named to the path the RNTO names. An RNTO anywhere
   * else is answered 503, and so is any other command right behind an accepted RNFR, which then
   * changes nothing in the session.
   */
  lemma RenamePairing(turns: seq<Turn>, i: nat)
    requires AllParsed(turns) && i < |Fresh(turns)|
    ensures var run := Fresh(turns);
      var behind := 0 < i && AcceptedRnfr(run[i - 1]);
      && (run[i].out.rename.Rename? <==> run[i].turn.verb == RNTO && run[i].turn.arg.Ref? && behind)
      && (run[i].out.rename.Rename? ==> Some(run[i].out.rename.source) == Resolved(run[i - 1]))
      && (run[i].out.rename.Rename? ==>
            run[i].out.rename.target.Ref? && Some(run[i].out.rename.target.value) == Resolved(run[i]))
      && (run[i].turn.verb == RNTO && !behind ==> run[i].out.replies == [503])
      && (run[i].turn.verb != RNTO && behind ==>
            run[i].out.replies == [503] && run[i].out.session == Begin(run[i].before, run[i].turn).(rnfrto := false))
  {
    hide Step, Inv;
    InitialInv();
    RunIsLinked(Initial(), turns);
    var run := Fresh(turns);
    assert LinkedAt(run, i);
    StepUsesPending(run[i]);
    if 0 < i {
      assert LinkedAt(run, i - 1);
      StepSetsPending(run[i - 1]);
    }
  }

  // ---- transfers -----------------------------------------------------------------------------------------------

  predicate IsTransfer(v: Verb) { v == RETR || v == STOR || v == APPE || v == STOU }

  /** One refusal. */
  predicate Refused(replies: seq<int>) { |replies| == 1 && 400 <= replies[0] <= 599 }

  /** The connection is announced, and the transfer comes to one of its three ends. */
  predicate Carried(replies: seq<int>) { |replies| == 2 && replies[0] == 150 && IsEnd(replies[1]) }

  predicate CarriedTwiceAnnounced(replies: seq<int>) {
    |replies| == 3 && replies[0] == 150 && replies[1] == 150 && IsEnd(replies[2])
  }

  predicate IsEnd(code: int) { code == 226 || code == 426 || code == 451 }

  /** The data connection was made and used. */
  predicate Completed(o: Observation) {
    IsTransfer(o.turn.verb) && (Carried(o.out.replies) || CarriedTwiceAnnounced(o.out.replies))
  }

  /** A turn whose command reached its handler rather than a pending rename. */
  predicate Handled(o: Observation) { !o.before.rnfrto }

  /**
   * RETR, STOR and APPE are answered by one refusal or by 150 and one of 226, 426 and 451 (RFC 959,
   * section 5.4). STOU says 150 once more in front, and so may follow it with a 425 or stop there:
   * it keeps to the grammar exactly when it is refused before its file is open.
   * Behind a carried transfer neither PORT nor PASV is active; none of the four ever reaches the
   * check that stops the process.
   */
  lemma TransferReplies(o: Observation)
    requires Inv(o.before) && Parsed(o.turn) && o.out == Step(o.before, o.turn) && Handled(o)
    requires IsTransfer(o.turn.verb)
    ensures o.turn.verb != STOU ==> Refused(o.out.replies) || Carried(o.out.replies)
    ensures o.turn.verb == STOU ==>
      || Refused(o.out.replies) || CarriedTwiceAnnounced(o.out.replies)
      || o.out.replies == [150] || o.out.replies == [150, 425]
    ensures o.turn.verb == STOU ==>
      (Refused(o.out.replies) || Carried(o.out.replies) <==>
       o.turn.arg.Null? || !Active(o.before) || !o.turn.env.open(o.turn.env.unique(Resolved(o).value)))
    ensures Completed(o) ==> o.turn.arg.Ref? && EndsAs(o.out.replies, o.turn.env.transfer)
    ensures o.turn.verb == RETR ==>
      (Completed(o) <==>
       && o.turn.arg.Ref? && Active(o.before) && o.turn.env.connectOk && o.turn.env.open(Resolved(o).value)
       && o.turn.env.stat(Resolved(o).value) == Regular)
    ensures o.turn.verb == STOR || o.turn.verb == APPE ==>
      (Completed(o) <==>
       o.turn.arg.Ref? && Active(o.before) && o.turn.env.connectOk && o.turn.env.open(Resolved(o).value))
    ensures Completed(o) ==> Active(o.before) && !Active(o.out.session) && o.out.flow == Next
    ensures o.out.flow != Died && o.out.flow != Crashed
  {
    hide Retr, Upload, Inv, EndsAs;
    var b := Begin(o.before, o.turn);
    BeginKeepsInv(o.before, o.turn);
    CwdIsSet(b);
    if o.turn.verb == RETR {
      RetrReplies(b, o.turn.env);
    } else {
      UploadReplies(b, o.turn.env, o.turn.verb == STOU);
    }
  }

  lemma CwdIsSet(s: Session)
    requires Inv(s)
    ensures s.cwd.Ref?
  {
  }

  lemma BeginKeepsInv(s: Session, t: Turn)
    requires Inv(s) && Parsed(t)
    ensures Inv(Begin(s, t))
  {
  }

  /** The last reply says how the transfer loop ended: 451 for the file, 426 for the connection, else 226. */
  predicate EndsAs(replies: seq<int>, result: int) {
    && replies != []
    && var end := replies[|replies| - 1];
       && (end == 451 <==> result == -1) && (end == 426 <==> result == -2)
       && (end == 226 <==> result != -1 && result != -2)
  }

  lemma RetrReplies(s: Session, env: Env)
    requires Inv(s) && (s.arg.Ref? ==> s.arg.value != "")
    ensures var o := Retr(s, env);
      && (Refused(o.replies) || (Carried(o.replies) && Active(s) && !Active(o.session) && o.flow == Next))
      && (Carried(o.replies) ==> EndsAs(o.replies, env.transfer))
      && (Carried(o.replies) <==>
            && s.arg.Ref? && Active(s) && env.connectOk && env.open(Meant(s.arg.value, s.cwd.value))
            && env.stat(Meant(s.arg.value, s.cwd.value)) == Regular)
      && (o.flow == Next || o.flow == Failed)
  {
    hide AbsPath, DirPath, Meant;
    if s.arg.Ref? { AbsPathIsMeant(s.arg.value, s.cwd.value); }
  }

  lemma UploadReplies(s: Session, env: Env, unique: bool)
    requires Inv(s) && (s.arg.Ref? ==> s.arg.value != "")
    ensures var o := Upload(s, env, unique);
      && (!unique ==> (Carried(o.replies) <==>
                         s.arg.Ref? && Active(s) && env.connectOk && env.open(Meant(s.arg.value, s.cwd.value))))
      && (Carried(o.replies) || CarriedTwiceAnnounced(o.replies) ==> EndsAs(o.replies, env.transfer))
      && (Carried(o.replies) || CarriedTwiceAnnounced(o.replies) ==> Active(s) && !Active(o.session) && o.flow == Next)
      && (!unique ==> Refused(o.replies) || Carried(o.replies))
      && (unique ==> Refused(o.replies) || CarriedTwiceAnnounced(o.replies)
                     || o.replies == [150] || o.replies == [150, 425])
      && (unique ==> (Refused(o.replies) || Carried(o.replies) <==>
                        s.arg.Null? || !Active(s) || !env.open(env.unique(Meant(s.arg.value, s.cwd.value)))))
      && (unique ==> (CarriedTwiceAnnounced(o.replies) <==>
                        && s.arg.Ref? && Active(s) && env.open(env.unique(Meant(s.arg.value, s.cwd.value)))
                        && env.control(0) && env.connectOk))
      && (o.flow == Next || o.flow == Failed)
  {
    hide AbsPath, DirPath, Meant;
    if s.arg.Ref? { AbsPathIsMeant(s.arg.value, s.cwd.value); }
  }

  /** A fresh session in which PASV and then STOU go through: the latter says 150 twice. */
  lemma StouExample(env: Env)
    requires env.control(0) && env.bind(0).Some? && env.listenOk && env.address.Some? && env.connectOk
    requires env.open(env.unique("/f")) && env.transfer == 0
    ensures var turns := [Turn(PASV, Null, env), Turn(STOU, Ref("f", SessPool), env)];
      && AllParsed(turns) && |Fresh(turns)| == 2
      && Fresh(turns)[1].out.replies == [150, 150, 226]
      && !Refused(Fresh(turns)[1].out.replies) && !Carried(Fresh(turns)[1].out.replies)
  {
    hide HostPort.PasvTuple, DirPath;
    var pasv, stou := Turn(PASV, Null, env), Turn(STOU, Ref("f", SessPool), env);
    var turns := [pasv, stou];
    InitialInv();
    StepKeepsInv(Initial(), pasv);
    var out := Step(Initial(), pasv);
    assert out.session.pasv.Ref? && out.flow == Next;
    assert turns[1..] == [stou];
    var last := Step(out.session, stou);
    assert AbsPath("f", "/") == Some("/f") by { assert "/" + "f" == "/f"; }
    assert last.replies == [150, 150, 226];
    StepKeepsInv(out.session, stou);
    assert Run(out.session, [stou])[0] == Observation(out.session, stou, last);
    assert [stou][1..] == [] && |Run(out.session, [stou])| == 1;
  }

  // ---- PASV and PORT -------------------------------------------------------------------------------------------

  /**
   * What a PASV reply prints, given to PORT on this or any other connection, names the address
   * printed and the very port that is listened on.
   */
  lemma PasvReplyServesPort(server: Session, pasv: Turn, ip: seq<byte>, client: Session, port: Turn)
    requires Inv(server) && !server.rnfrto && Parsed(pasv) && pasv.verb == PASV
    requires |ip| == 4 && pasv.env.address == Some(HostPort.Join(ip, '.'))
    requires Inv(client) && !client.rnfrto && Parsed(port) && port.verb == PORT && port.env.lookupOk && port.arg.Ref?
    ensures var listening, connecting := Step(server, pasv), Step(client, port);
      listening.replies == [227] && listening.tuple == Some(port.arg.value) ==>
        && listening.session.pasv.Ref? && connecting.replies == [200] && connecting.flow == Next
        && connecting.session.port == Ref(Target(HostPort.Join(ip, '.'), listening.session.pasv.value), SessPool)
  {
    hide DirPath, HostPort.Parse, HostPort.Join, HostPort.PasvTuple, HostPort.PortTarget;
    var listening := Step(server, pasv);
    if listening.replies == [227] { HostPort.PasvReplyReadAsPort(ip, listening.session.pasv.value); }
  }

  /** A PASV reply has a tuple to print whenever the address is dotted decimal. */
  lemma PasvReplyHasTuple(server: Session, pasv: Turn, ip: seq<byte>)
    requires Inv(server) && !server.rnfrto && Parsed(pasv) && pasv.verb == PASV
    requires |ip| == 4 && pasv.env.address == Some(HostPort.Join(ip, '.'))
    ensures Step(server, pasv).tuple.Some? <==> Step(server, pasv).replies == [227]
  {
    hide DirPath, HostPort.Parse, HostPort.Join;
    HostPort.ParseJoin(ip, '.');
  }

  /** The directory a LIST names opens: the argument's, or the working directory behind flags or nothing. */
  predicate Listed(o: Observation)
    requires o.before.cwd.Ref?
  {
    var env, cwd := o.turn.env, o.before.cwd.value;
    match o.turn.arg
    case Null => env.list(cwd, false)
    case Ref(text, _) => if "-" <= text then env.list(cwd, 'a' in text[1..]) else env.list(Meant(text, cwd), false)
  }

  /** The process is stopped by a `bug` exactly when LIST finds neither PORT nor PASV active. */
  lemma DiesIff(o: Observation)
    requires Inv(o.before) && Parsed(o.turn) && o.out == Step(o.before, o.turn)
    ensures o.out.flow == Died <==>
      o.turn.verb == LIST && Handled(o) && Listed(o) && !Active(o.before)
  {
    hide AbsPath, WithSlash, Parent, DirPath;
    if o.turn.arg.Ref? { AbsPathIsMeant(o.turn.arg.value, o.before.cwd.value); }
  }

  /** The first LIST of a session that has set up no data connection. */
  lemma DiesExample(env: Env)
    requires env.list("/", false)
    ensures Inv(Initial()) && Step(Initial(), Turn(LIST, Null, env)).flow == Died
  {
  }

  /** A command that prepares a data connection. */
  predicate SetsUp(o: Observation) {
    || (o.turn.verb == PASV && o.out.replies == [227])
    || (o.turn.verb == PORT && o.out.replies == [200])
  }

  lemma OnlySetUpActivates(o: Observation)
    requires Inv(o.before) && Parsed(o.turn) && o.out == Step(o.before, o.turn) && o.out.flow == Next
    ensures !Active(o.before) && Active(o.out.session) ==> SetsUp(o)
  {
    hide AbsPath, WithSlash, Parent, DirPath;
  }

  /** Between a turn behind which nothing is set up and one that needs it, something sets it up. */
  lemma {:induction false} SetUpInBetween(s: Session, run: seq<Observation>, i: nat, j: nat)
    requires Linked(s, run) && i < j < |run|
    requires !Active(run[i].out.session) && Active(run[j].before)
    ensures exists k :: i < k < j && SetsUp(run[k])
    decreases j - i
  {
    hide Step, Inv;
    assert LinkedAt(run, i + 1) && (i + 2 < |run| ==> LinkedAt(run, i + 2));
    OnlySetUpActivates(run[i + 1]);
    if !SetsUp(run[i + 1]) { SetUpInBetween(s, run, i + 1, j); }
  }

  /** On every run, two completed transfers have a PASV or PORT of their own between them. */
  lemma EachTransferNeedsSetUp(turns: seq<Turn>, i: nat, j: nat)
    requires AllParsed(turns) && i < j < |Fresh(turns)|
    requires Completed(Fresh(turns)[i]) && Completed(Fresh(turns)[j])
    ensures exists k :: i < k < j && SetsUp(Fresh(turns)[k])
  {
    hide Step, Inv;
    InitialInv();
    RunIsLinked(Initial(), turns);
    var run := Fresh(turns);
    assert LinkedAt(run, i) && LinkedAt(run, j);
    CompletedUses(run[i]);
    CompletedUses(run[j]);
    SetUpInBetween(Initial(), run, i, j);
  }

  /** A transfer uses up what was set up; a pending rename keeps one from completing. */
  lemma CompletedUses(o: Observation)
    requires Inv(o.before) && Parsed(o.turn) && o.out == Step(o.before, o.turn) && Completed(o)
    ensures Active(o.before) && !Active(o.out.session)
  {
    if Handled(o) { TransferReplies(o); } else { StepUsesPending(o); }
  }

  // ---- the working directory -------------------------------------------------------------------------------

  /**
   * An accepted CWD to components of which none is handled specially is undone by as many CDUPs,
   * whatever the system answers meanwhile as long as the control connection works.
   */
  lemma CdupsUndoAcceptedCwd(s: Session, cs: seq<string>, trailing: bool, env: Env, envs: seq<Env>)
    requires Inv(s) && !s.rnfrto && Components(cs) && cs != [] && |envs| == |cs|
    requires Argument(cs, trailing) != "." && Argument(cs, trailing) != ".."
    requires CwdAccepted(s, Argument(cs, trailing), env)
    requires forall i :: 0 <= i < |envs| ==> envs[i].control(0)
    ensures var turns := [Turn(CWD, Ref(Argument(cs, trailing), SessPool), env)] + Cdups(envs);
      && AllParsed(turns) && |Run(s, turns)| == |turns|
      && Run(s, turns)[|cs|].out.session.cwd.Ref? && Run(s, turns)[|cs|].out.session.cwd.value == s.cwd.value
  {
    hide Up, Slashed, Argument, Parent, DirPath;
    var arg := Argument(cs, trailing);
    var first := Turn(CWD, Ref(arg, SessPool), env);
    ArgumentIsText(cs, trailing);
    CdupsUndoCwd(s.cwd.value, cs, trailing);
    StepKeepsInv(s, first);
    var out := Step(s, first);
    assert out.session.cwd.value == WithSlash(AbsPath(arg, s.cwd.value).value);
    CdupRun(out.session, envs);
    var turns := [first] + Cdups(envs);
    assert turns[1..] == Cdups(envs);
    assert Run(s, turns) == [Observation(s, first, out)] + Run(out.session, Cdups(envs));
  }

  predicate CwdAccepted(s: Session, arg: string, env: Env)
    requires Inv(s)
  {
    env.control(0) && arg != "" && env.stat(WithSlash(Meant(arg, s.cwd.value))) == Directory
  }

  function Cdups(envs: seq<Env>): (turns: seq<Turn>)
    ensures |turns| == |envs| && AllParsed(turns)
  {
    if envs == [] then [] else [Turn(CDUP, Null, envs[0])] + Cdups(envs[1..])
  }

  lemma CdupStep(s: Session, env: Env)
    requires Inv(s) && !s.rnfrto && env.control(0)
    ensures var out := Step(s, Turn(CDUP, Null, env));
      out.flow == Next && out.session.cwd == Ref(Parent(s.cwd.value), s.cwd.pool) && !out.session.rnfrto
  {
    hide Parent, DirPath;
  }

  /** A run of CDUPs goes up once per command. */
  lemma {:induction false} CdupRun(s: Session, envs: seq<Env>)
    requires Inv(s) && !s.rnfrto && forall i :: 0 <= i < |envs| ==> envs[i].control(0)
    ensures |Run(s, Cdups(envs))| == |envs|
    ensures envs != [] ==> Run(s, Cdups(envs))[|envs| - 1].out.session.cwd.Ref?
    ensures envs != [] ==> Run(s, Cdups(envs))[|envs| - 1].out.session.cwd.value == Up(s.cwd.value, |envs|)
    decreases |envs|
  {
    hide Parent, DirPath, Step;
    if envs != [] {
      var t := Turn(CDUP, Null, envs[0]);
      StepKeepsInv(s, t);
      CdupStep(s, envs[0]);
      UpStep(s.cwd.value, |envs|);
      var out := Step(s, t);
      assert Cdups(envs)[1..] == Cdups(envs[1..]);
      CdupRun(out.session, envs[1..]);
      assert Run(s, Cdups(envs)) == [Observation(s, t, out)] + Run(out.session, Cdups(envs[1..]));
    }
  }

  lemma ArgumentIsText(cs: seq<string>, trailing: bool)
    requires Components(cs) && cs != []
    ensures Argument(cs, trailing) != "" && '\0' !in Argument(cs, trailing)
  {
    var init := cs[..|cs| - 1];
    SlashedIsDirPath("/", init);
    assert forall c :: c in Slashed(init) ==> c in "/" + Slashed(init);
  }
}
