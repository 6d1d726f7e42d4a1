/**
 The states of one FTP client: authentication, the data connection and the transfer, and how
 commands and socket events move between them.
 */
module FtpSession {
  import opened Wrappers

  datatype Auth = NoUser | NeedPassword | FakePassword | LoggedIn
  datatype Mode = NoData | Reading | Writing
  datatype Conn = Unconnected | Listening | Connecting | Running
  datatype Action = NoAction | ListFiles | ListNames | Retrieve | Store | AppendTo

  /** socket and port are -1 when there is none. */
  datatype Session = Session(auth: Auth, attempts: nat, socket: int, mode: Mode, action: Action, conn: Conn, port: int, marker: int)

  datatype Config = Config(anonymous: bool, username: string, password: string)

  /** How the system calls a command makes turn out; a negative socket is a failure. */
  datatype Answers = Answers(fileOk: bool, named: bool, socket: int, bound: bool, listening: bool, portOk: bool, connected: bool, pending: bool)

  datatype Command =
    | User(name: string) | Pass(password: string) | Quit | Pasv | Port(number: int) | List(namesOnly: bool)
    | Retr | Stor | Appe | Rest(marker: nat) | Rnfr | Other

  /** A transfer step: data moved, the end was reached, or the file or peer failed. */
  datatype Moved = GoesOn | Finished | Broken

  datatype Event = Receive(cmd: Command, a: Answers) | DataReady(noError: bool, accepted: int, moved: Moved) | Lost

  function Fresh(): Session
  {
    Session(NoUser, 0, -1, NoData, NoAction, Unconnected, -1, 0)
  }

  function Cleanup(s: Session): Session
  {
    s.(socket := -1, port := -1, conn := Unconnected, mode := NoData)
  }

  function Fail(s: Session): Session
  {
    Cleanup(s.(action := NoAction))
  }

  function Connected(s: Session): Session
  {
    s.(conn := Running,
       mode := match s.action
               case ListFiles => Writing
               case ListNames => Writing
               case Retrieve => Writing
               case Store => Reading
               case AppendTo => Reading
               case NoAction => NoData)
  }

  function Connect(s: Session, a: Answers): Session
  {
    if a.socket < 0 then Fail(s.(socket := -1))
    else if a.connected then Connected(s.(socket := a.socket))
    else if a.pending then s.(socket := a.socket, conn := Connecting)
    else Fail(s.(socket := a.socket))
  }

  /** Begin the transfer of an action: over an open connection, to the client's port, or when the client comes. */
  function Begin(s: Session, a: Answers): Session
  {
    if s.conn == Running then Connected(s)
    else if s.port != -1 then Connect(s, a)
    else if s.conn != Listening then Fail(s)
    else s
  }

  function Passive(s: Session, a: Answers): Session
  {
    var c := Cleanup(s);
    if a.named && a.socket >= 0 && a.bound && a.listening && a.portOk then c.(socket := a.socket, conn := Listening) else c
  }

  /** A command; None when it ends the session. */
  function OnCommand(cfg: Config, s: Session, cmd: Command, a: Answers): Option<Session>
  {
    if s.auth != LoggedIn then
      match cmd
      case User(name) =>
        Some(s.(auth := if name == "anonymous" && cfg.anonymous then LoggedIn
                        else if name == cfg.username then NeedPassword else FakePassword))
      case Pass(password) =>
        if s.auth == NeedPassword && password == cfg.password then Some(s.(auth := LoggedIn))
        else if s.auth == NoUser then Some(s)
        else if s.attempts + 1 > 3 then None
        else Some(s.(auth := NoUser, attempts := s.attempts + 1))
      case Quit => None
      case _ => Some(s)
    else
      match cmd
      case Quit => None
      case Pasv => Some(Passive(s, a))
      case Port(number) => Some(if number >= 1024 then s.(port := number) else s)
      case List(namesOnly) =>
        var t := s.(action := if namesOnly then ListNames else ListFiles);
        Some(if a.fileOk then Begin(t, a) else t)
      case Retr => Some(if a.fileOk then Begin(s.(marker := 0, action := Retrieve), a) else s.(marker := 0))
      case Stor => Some(if a.fileOk then Begin(s.(marker := 0, action := Store), a) else s.(marker := 0))
      case Appe => Some(if a.fileOk then Begin(s.(action := AppendTo), a) else s)
      case Rest(marker) => Some(s.(marker := marker))
      case Rnfr => Some(s.(marker := 0))
      case _ => Some(s)
  }

  /** The data socket is ready for what it is waiting for. */
  function OnData(s: Session, noError: bool, accepted: int, moved: Moved): Session
  {
    if s.socket == -1 then s
    else if s.conn == Connecting then if noError then Connected(s) else Fail(s)
    else if s.mode == Writing then
      if s.action !in {Retrieve, ListFiles, ListNames} || moved == Broken then Fail(s)
      else if moved == Finished then Cleanup(s) else s
    else if s.conn == Listening then if accepted >= 0 then Connected(s.(socket := accepted)) else s
    else if s.mode == Reading then
      if s.action !in {Store, AppendTo} || moved == Broken then Fail(s)
      else if moved == Finished then Cleanup(s) else s
    else s
  }

  function Step(cfg: Config, s: Session, e: Event): Option<Session>
  {
    match e
    case Receive(cmd, a) => OnCommand(cfg, s, cmd, a)
    case DataReady(noError, accepted, moved) => Some(OnData(s, noError, accepted, moved))
    case Lost => None
  }

  /**
   What holds of every live client: there is a data socket exactly when the connection is not idle,
   data moves only over a running connection, at most three failed logins are forgiven, and before
   login nothing but the login itself has changed.
   */
  predicate Sound(s: Session)
  {
    (s.conn == Unconnected <==> s.socket == -1) && s.socket >= -1 && (s.mode != NoData ==> s.conn == Running) && s.attempts <= 3 &&
    (s.auth != LoggedIn ==> s == Fresh().(auth := s.auth, attempts := s.attempts))
  }

  lemma StepSound(cfg: Config, s: Session, e: Event)
    requires Sound(s)
    ensures Step(cfg, s, e).Some? ==> Sound(Step(cfg, s, e).value)
  {
    match e
    case Receive(cmd, a) => CommandSound(cfg, s, cmd, a);
    case DataReady(noError, accepted, moved) => DataSound(s, noError, accepted, moved);
    case Lost =>
  }

  lemma DataSound(s: Session, noError: bool, accepted: int, moved: Moved)
    requires Sound(s)
    ensures Sound(OnData(s, noError, accepted, moved))
  {
  }

  lemma BeginSound(s: Session, a: Answers)
    requires Sound(s) && s.auth == LoggedIn
    ensures Sound(Begin(s, a))
  {
  }

  lemma CommandSound(cfg: Config, s: Session, cmd: Command, a: Answers)
    requires Sound(s)
    ensures OnCommand(cfg, s, cmd, a).Some? ==> Sound(OnCommand(cfg, s, cmd, a).value)
  {
    if s.auth == LoggedIn {
      match cmd
      case List(namesOnly) => BeginSound(s.(action := if namesOnly then ListNames else ListFiles), a);
      case Retr => BeginSound(s.(marker := 0, action := Retrieve), a);
      case Stor => BeginSound(s.(marker := 0, action := Store), a);
      case Appe => BeginSound(s.(action := AppendTo), a);
      case _ =>
    }
  }

  // ---------------------------------------------------------------- what an event does, case by case

  /**
   A transfer command whose file or directory opens: running at once over an open connection or over one
   made to the client's port; under way if that connection is pending; waiting for the client after PASV;
   and otherwise over before it began.
   */
  lemma TransferStarts(cfg: Config, s: Session, cmd: Command, a: Answers)
    requires Sound(s) && s.auth == LoggedIn && a.fileOk && (cmd == Retr || cmd == Stor || cmd == Appe || cmd.List?)
    ensures var action := if cmd == Retr then Retrieve else if cmd == Stor then Store else if cmd == Appe then AppendTo
                          else if cmd.namesOnly then ListNames else ListFiles;
            var mode := if cmd == Stor || cmd == Appe then Reading else Writing;
            var marker := if cmd == Retr || cmd == Stor then 0 else s.marker;
            Step(cfg, s, Receive(cmd, a)) == Some(
              if s.conn == Running then
                Session(LoggedIn, s.attempts, s.socket, mode, action, Running, s.port, marker)
              else if s.port != -1 && a.socket >= 0 && a.connected then
                Session(LoggedIn, s.attempts, a.socket, mode, action, Running, s.port, marker)
              else if s.port != -1 && a.socket >= 0 && a.pending then
                Session(LoggedIn, s.attempts, a.socket, NoData, action, Connecting, s.port, marker)
              else if s.port == -1 && s.conn == Listening then
                Session(LoggedIn, s.attempts, s.socket, NoData, action, Listening, -1, marker)
              else
                Session(LoggedIn, s.attempts, -1, NoData, NoAction, Unconnected, -1, marker))
  {
  }

  /** If it does not open, only a listing has any effect beyond the restart marker: it has become the action. */
  lemma TransferRefused(cfg: Config, s: Session, cmd: Command, a: Answers)
    requires s.auth == LoggedIn && !a.fileOk && (cmd == Retr || cmd == Stor || cmd == Appe || cmd.List?)
    ensures Step(cfg, s, Receive(cmd, a)) == Some(
              Session(LoggedIn, s.attempts, s.socket, s.mode,
                      if cmd == List(true) then ListNames else if cmd == List(false) then ListFiles else s.action,
                      s.conn, s.port, if cmd == Retr || cmd == Stor then 0 else s.marker))
  {
  }

  /** PASV drops the data connection and the client's port, and listens if every call succeeds. */
  lemma PassiveListens(cfg: Config, s: Session, a: Answers)
    requires s.auth == LoggedIn
    ensures Step(cfg, s, Receive(Pasv, a)) == Some(
              if a.named && a.socket >= 0 && a.bound && a.listening && a.portOk
              then Session(LoggedIn, s.attempts, a.socket, NoData, s.action, Listening, -1, s.marker)
              else Session(LoggedIn, s.attempts, -1, NoData, s.action, Unconnected, -1, s.marker))
  {
  }

  /** The commands that set one thing, and the one that ends the session. */
  lemma PlainCommands(cfg: Config, s: Session, cmd: Command, a: Answers)
    requires s.auth == LoggedIn
    ensures cmd.Port? || cmd.Rest? || cmd == Rnfr ==>
              (Step(cfg, s, Receive(cmd, a)) == Some(
                Session(LoggedIn, s.attempts, s.socket, s.mode, s.action, s.conn, if cmd.Port? && cmd.number >= 1024 then cmd.number else s.port,
                        if cmd.Port? then s.marker else if cmd.Rest? then cmd.marker else 0)))
    ensures cmd.User? || cmd.Pass? || cmd == Other ==> Step(cfg, s, Receive(cmd, a)) == Some(s)
    ensures Step(cfg, s, Receive(Quit, a)) == None
  {
  }

  /** Before login only the login itself counts: the name, and the password with at most three failures. */
  lemma LoginSteps(cfg: Config, s: Session, cmd: Command, a: Answers)
    requires Sound(s) && s.auth != LoggedIn
    ensures cmd.User? ==> Step(cfg, s, Receive(cmd, a)) == Some(Session(
              if cmd.name == "anonymous" && cfg.anonymous then LoggedIn else if cmd.name == cfg.username then NeedPassword else FakePassword,
              s.attempts, -1, NoData, NoAction, Unconnected, -1, 0))
    ensures cmd.Pass? && s.auth == NeedPassword && cmd.password == cfg.password ==>
              (Step(cfg, s, Receive(cmd, a)) == Some(Session(LoggedIn, s.attempts, -1, NoData, NoAction, Unconnected, -1, 0)))
    ensures cmd.Pass? && s.auth != NoUser && !(s.auth == NeedPassword && cmd.password == cfg.password) ==>
              (Step(cfg, s, Receive(cmd, a)) ==
               if s.attempts < 3 then Some(Session(NoUser, s.attempts + 1, -1, NoData, NoAction, Unconnected, -1, 0)) else None)
    ensures cmd.Pass? && s.auth == NoUser ==> Step(cfg, s, Receive(cmd, a)) == Some(s)
    ensures Step(cfg, s, Receive(Quit, a)) == None
    ensures !cmd.User? && !cmd.Pass? && !cmd.Quit? ==> Step(cfg, s, Receive(cmd, a)) == Some(s)
  {
  }

  /** A data connection that comes about: the transfer runs in the direction of its action; without an action nothing moves. */
  lemma ConnectionMade(cfg: Config, s: Session, noError: bool, accepted: int, moved: Moved)
    requires Sound(s) && ((s.conn == Connecting && noError) || (s.conn == Listening && accepted >= 0))
    ensures Step(cfg, s, DataReady(noError, accepted, moved)) == Some(Session(
              s.auth, s.attempts, if s.conn == Connecting then s.socket else accepted,
              if s.action == Store || s.action == AppendTo then Reading
              else if s.action == Retrieve || s.action == ListFiles || s.action == ListNames then Writing else NoData,
              s.action, Running, s.port, s.marker))
  {
  }

  /** One that does not: a failed connect ends the transfer, a failed accept goes on waiting. */
  lemma ConnectionFailed(cfg: Config, s: Session, noError: bool, accepted: int, moved: Moved)
    requires Sound(s) && ((s.conn == Connecting && !noError) || (s.conn == Listening && accepted < 0))
    ensures Step(cfg, s, DataReady(noError, accepted, moved)) ==
            Some(if s.conn == Listening then s else Session(s.auth, s.attempts, -1, NoData, NoAction, Unconnected, -1, s.marker))
  {
  }

  /** A transfer in progress, in the direction of its action: it goes on, ends with its action kept, or fails. */
  lemma DataMoves(cfg: Config, s: Session, noError: bool, accepted: int, moved: Moved)
    requires Sound(s) && s.mode != NoData && (s.mode == Reading <==> s.action == Store || s.action == AppendTo) && s.action != NoAction
    ensures Step(cfg, s, DataReady(noError, accepted, moved)) == Some(match moved
              case GoesOn => s
              case Finished => Session(s.auth, s.attempts, -1, NoData, s.action, Unconnected, -1, s.marker)
              case Broken => Session(s.auth, s.attempts, -1, NoData, NoAction, Unconnected, -1, s.marker))
  {
  }

  /** A new session, an idle one, and one whose control connection is lost. */
  lemma IdleSession(cfg: Config, s: Session, noError: bool, accepted: int, moved: Moved)
    ensures Run(cfg, []) == Some(Session(NoUser, 0, -1, NoData, NoAction, Unconnected, -1, 0))
    ensures Sound(s) && s.conn == Unconnected ==> Step(cfg, s, DataReady(noError, accepted, moved)) == Some(s)
    ensures Sound(s) && s.conn == Running && s.mode == NoData ==> Step(cfg, s, DataReady(noError, accepted, moved)) == Some(s)
    ensures Step(cfg, s, Lost) == None
  {
  }

  function Run(cfg: Config, es: seq<Event>): Option<Session>
    decreases |es|
  {
    if es == [] then Some(Fresh())
    else
      match Run(cfg, es[..|es| - 1])
      case None => None
      case Some(s) => Step(cfg, s, es[|es| - 1])
  }

  /** Over every sequence of commands and socket events a session stays sound until it ends. */
  lemma {:induction false} RunSound(cfg: Config, es: seq<Event>)
    ensures Run(cfg, es).Some? ==> Sound(Run(cfg, es).value)
    decreases |es|
  {
    if es != [] {
      RunSound(cfg, es[..|es| - 1]);
      if Run(cfg, es[..|es| - 1]).Some? {
        StepSound(cfg, Run(cfg, es[..|es| - 1]).value, es[|es| - 1]);
      }
    }
  }

  predicate IsUser(e: Event, name: string) { e.Receive? && e.cmd == User(name) }

  predicate IsPass(e: Event, password: string) { e.Receive? && e.cmd == Pass(password) }

  /** A password is only waited for after the right user name. */
  lemma {:induction false} NameGiven(cfg: Config, es: seq<Event>)
    requires Run(cfg, es).Some? && Run(cfg, es).value.auth == NeedPassword
    ensures exists i :: 0 <= i < |es| && IsUser(es[i], cfg.username)
    decreases |es|
  {
    if es != [] {
      var n := |es| - 1;
      if Run(cfg, es[..n]).value.auth == NeedPassword && !IsUser(es[n], cfg.username) {
        NameGiven(cfg, es[..n]);
        var i :| 0 <= i < n && IsUser(es[..n][i], cfg.username);
        assert es[i] == es[..n][i];
      } else {
        assert IsUser(es[n], cfg.username);
      }
    }
  }

  /** Nobody is logged in who has not given the right name and, after it, the right password - or been let in anonymously. */
  lemma {:induction false} LoginNeeded(cfg: Config, es: seq<Event>)
    requires Run(cfg, es).Some? && Run(cfg, es).value.auth == LoggedIn
    ensures (cfg.anonymous && exists i :: 0 <= i < |es| && IsUser(es[i], "anonymous"))
            || (exists i, j :: 0 <= i < j < |es| && IsUser(es[i], cfg.username) && IsPass(es[j], cfg.password))
    decreases |es|
  {
    if es != [] {
      var n := |es| - 1;
      var before := Run(cfg, es[..n]).value;
      if before.auth == LoggedIn {
        LoginNeeded(cfg, es[..n]);
        assert forall i :: 0 <= i < n ==> es[..n][i] == es[i];
      } else if before.auth == NeedPassword && IsPass(es[n], cfg.password) {
        NameGiven(cfg, es[..n]);
        assert forall i :: 0 <= i < n ==> es[..n][i] == es[i];
      } else {
        assert IsUser(es[n], "anonymous");
      }
    }
  }

  // ---------------------------------------------------------------- does a transfer stay what it is

  /** Data moves in the direction of the action. */
  predicate Agrees(s: Session)
  {
    (s.mode == Reading ==> s.action in {Store, AppendTo}) && (s.mode == Writing ==> s.action in {Retrieve, ListFiles, ListNames})
  }

  /** A listing of a directory that cannot be opened, asked for during an upload. */
  predicate FailedListing(s: Session, e: Event)
  {
    s.auth == LoggedIn && e.Receive? && e.cmd.List? && !e.a.fileOk && s.mode == Reading
  }

  /** The direction fits the action after a step exactly unless the step is such a listing; the next data then breaks the upload off. */
  lemma StepAgrees(cfg: Config, s: Session, e: Event)
    requires Sound(s) && Agrees(s) && Step(cfg, s, e).Some?
    ensures Agrees(Step(cfg, s, e).value) <==> !FailedListing(s, e)
    ensures FailedListing(s, e) ==> forall noError: bool, accepted: int, moved: Moved ::
                                      OnData(Step(cfg, s, e).value, noError, accepted, moved) == Fail(Step(cfg, s, e).value)
  {
  }

  /** An upload over a passive connection, broken off by a listing that fails. */
  lemma UploadBroken(cfg: Config)
    ensures var yes, no := Answers(true, true, 7, true, true, true, true, true), Answers(false, true, 8, true, true, true, true, true);
            var s := Fresh().(auth := LoggedIn);
            var t := OnCommand(cfg, s, Pasv, yes).value;
            var u := OnData(OnCommand(cfg, t, Stor, yes).value, true, 9, GoesOn);
            Sound(u) && Agrees(u) && u.mode == Reading && !Agrees(OnCommand(cfg, u, List(false), no).value)
  {
  }
}
