/**
 The FTP server: client slots, and a circular list through the clients in use.  Each client's
 fields move as its session does; each connect and disconnect relinks the list in place.
 */
module FtpServer {
  import opened Wrappers
  import opened DistinctSeq
  import opened FtpSession

  const MAX_CLIENTS := 4

  class Container {
    var client: Client?
    var prev: Container
    var next: Container

    constructor (client: Client?)
      ensures this.client == client && prev == this && next == this
    {
      this.client, prev, next := client, this, this;
    }
  }

  class Client {
    const container: Container
    /** The server, or none while the slot is free. */
    var server: Server?
    var controlSocket: int
    var authState: Auth
    var authAttempt: nat
    var dataSocket: int
    var dataMode: Mode
    var dataAction: Action
    var connState: Conn
    var remotePort: int
    var restartMarker: int

    constructor ()
      ensures server == null && fresh(container)
    {
      var c := new Container(null);
      container := c;
      server, controlSocket, authState, authAttempt := null, -1, NoUser, 0;
      dataSocket, dataMode, dataAction, connState, remotePort, restartMarker := -1, NoData, NoAction, Unconnected, -1, 0;
    }

    function State(): Session
      reads this
    {
      Session(authState, authAttempt, dataSocket, dataMode, dataAction, connState, remotePort, restartMarker)
    }

    method Create(server: Server, iControlSocket: int)
      modifies this, container
      ensures this.server == server && controlSocket == iControlSocket && State() == Fresh()
      ensures container.client == this && container.prev == container == container.next
    {
      this.server := server;
      controlSocket := iControlSocket;
      authState := NoUser;
      authAttempt := 0;
      dataSocket := -1;
      dataMode := NoData;
      dataAction := NoAction;
      connState := Unconnected;
      remotePort := -1;
      restartMarker := 0;
      container.client := this;
      container.prev := container;
      container.next := container;
    }

    method Destroy()
      modifies this
      ensures server == null && dataSocket == -1
    {
      OnDataCleanup();
      server := null;
    }

    method OnDataCleanup()
      modifies this
      ensures State() == Cleanup(old(State())) && server == old(server)
    {
      if dataSocket != -1 {
        dataSocket := -1;
      }
      remotePort := -1;
      connState := Unconnected;
      dataMode := NoData;
    }

    method OnDataFailed()
      modifies this
      ensures State() == Fail(old(State())) && server == old(server)
    {
      dataAction := NoAction;
      OnDataCleanup();
    }

    method OnDataConnected()
      modifies this
      ensures State() == Connected(old(State())) && server == old(server)
    {
      match dataAction {
        case ListFiles | ListNames | Retrieve => dataMode := Writing;
        case Store | AppendTo => dataMode := Reading;
        case NoAction => dataMode := NoData;
      }
      connState := Running;
    }

    method OnDataConnect(a: Answers)
      modifies this
      ensures State() == Connect(old(State()), a) && server == old(server)
    {
      if dataSocket != -1 {
        dataSocket := -1;
      }
      if a.socket < 0 {
        OnDataFailed();
        return;
      }
      dataSocket := a.socket;
      if !a.connected {
        if !a.pending {
          OnDataFailed();
          return;
        }
        connState := Connecting;
      } else {
        connState := Running;
        OnDataConnected();
      }
    }

    method HandleDataConnect(a: Answers)
      modifies this
      ensures State() == Begin(old(State()), a) && server == old(server)
    {
      if connState == Running {
        OnDataConnected();
      } else if remotePort != -1 {
        OnDataConnect(a);
      } else if connState != Listening {
        OnDataFailed();
      }
    }

    method OnCmdUser(name: string, cfg: Config)
      requires authState != LoggedIn
      modifies this
      ensures Some(State()) == FtpSession.OnCommand(cfg, old(State()), User(name), NoAnswers()) && server == old(server)
    {
      if name == "anonymous" && cfg.anonymous {
        authState := LoggedIn;
      } else {
        authState := if name == cfg.username then NeedPassword else FakePassword;
      }
    }

    method OnCmdPasv(a: Answers)
      modifies this
      ensures State() == Passive(old(State()), a) && server == old(server)
    {
      OnDataCleanup();
      if !a.named || a.socket < 0 || !a.bound || !a.listening || !a.portOk {
        return;
      }
      dataSocket := a.socket;
      connState := Listening;
    }

    method OnCmdPort(port: int)
      modifies this
      ensures State() == (if port >= 1024 then old(State()).(port := port) else old(State())) && server == old(server)
    {
      if port >= 1024 {
        remotePort := port;
      }
    }

    method OnCmdList(namesOnly: bool, a: Answers)
      requires authState == LoggedIn
      modifies this
      ensures Some(State()) == FtpSession.OnCommand(Config(false, "", ""), old(State()), List(namesOnly), a) && server == old(server)
    {
      dataAction := if namesOnly then ListNames else ListFiles;
      if !a.fileOk {
        return;
      }
      HandleDataConnect(a);
    }

    method OnCmdTransfer(action: Action, a: Answers)
      requires authState == LoggedIn && action in {Retrieve, Store, AppendTo}
      modifies this
      ensures var cmd := match action case Retrieve => Retr case Store => Stor case _ => Appe;
              Some(State()) == FtpSession.OnCommand(Config(false, "", ""), old(State()), cmd, a) && server == old(server)
    {
      if action != AppendTo {
        restartMarker := 0;
      }
      if !a.fileOk {
        return;
      }
      dataAction := action;
      HandleDataConnect(a);
    }

    /** The data socket is ready: connect, accept, read or write. */
    method OnDataReady(noError: bool, accepted: int, moved: Moved)
      modifies this
      ensures State() == OnData(old(State()), noError, accepted, moved) && server == old(server)
    {
      if dataSocket != -1 {
        if connState == Connecting || dataMode == Writing {
          if connState == Connecting {
            if noError {
              OnDataConnected();
            } else {
              OnDataFailed();
            }
          } else {
            OnDataWrite(moved);
          }
        } else if connState == Listening || dataMode == Reading {
          if connState == Listening {
            if accepted >= 0 {
              dataSocket := accepted;
              OnDataConnected();
            }
          } else {
            OnDataRead(moved);
          }
        }
      }
    }

    method OnDataRead(moved: Moved)
      modifies this
      ensures server == old(server)
      ensures State() == if old(dataAction) in {Store, AppendTo} && moved == GoesOn then old(State())
                         else if old(dataAction) in {Store, AppendTo} && moved == Finished then Cleanup(old(State()))
                         else Fail(old(State()))
    {
      match dataAction {
        case AppendTo | Store =>
          if moved == Broken {
            OnDataFailed();
          } else if moved == Finished {
            OnDataCleanup();
          }
        case _ => OnDataFailed();
      }
    }

    method OnDataWrite(moved: Moved)
      modifies this
      ensures server == old(server)
      ensures State() == if old(dataAction) in {Retrieve, ListFiles, ListNames} && moved == GoesOn then old(State())
                         else if old(dataAction) in {Retrieve, ListFiles, ListNames} && moved == Finished then Cleanup(old(State()))
                         else Fail(old(State()))
    {
      match dataAction {
        case Retrieve | ListFiles | ListNames =>
          if moved == Broken {
            OnDataFailed();
          } else if moved == Finished {
            OnDataCleanup();
          }
        case _ => OnDataFailed();
      }
    }
  }

  function NoAnswers(): Answers { Answers(false, false, -1, false, false, false, false, false) }

  // ---------------------------------------------------------------- the circular list

  /** The container at an index, counting around. */
  function At(ring: seq<Container>, i: int): Container
    requires ring != []
  {
    if i < 0 then ring[|ring| - 1] else if i >= |ring| then ring[0] else ring[i]
  }

  ghost predicate LinkedAt(ring: seq<Container>, i: nat)
    requires i < |ring|
    reads ring[i]
  {
    ring[i].prev == At(ring, i - 1) && ring[i].next == At(ring, i + 1)
  }

  /** Next and prev are inverse, and go once around. */
  ghost predicate Linked(ring: seq<Container>)
    reads ring
  {
    Distinct(ring) && forall i: nat {:trigger LinkedAt(ring, i)} :: i < |ring| ==> LinkedAt(ring, i)
  }

  /** The k-th container when c has been put in at the end. */
  ghost predicate LinkedBefore(ring: seq<Container>, c: Container, k: nat)
    requires k < |ring|
    reads ring[k]
  {
    ring[k].prev == (if k == 0 then c else ring[k - 1]) && ring[k].next == if k == |ring| - 1 then c else ring[k + 1]
  }

  lemma LinkedAppended(ring: seq<Container>, c: Container)
    requires ring != [] && Distinct(ring) && c !in ring && c.prev == ring[|ring| - 1] && c.next == ring[0]
    requires forall k: nat {:trigger LinkedBefore(ring, c, k)} :: k < |ring| ==> LinkedBefore(ring, c, k)
    ensures Linked(ring + [c])
  {
    forall k: nat | k < |ring| + 1 ensures LinkedAt(ring + [c], k) {
      if k < |ring| { assert LinkedBefore(ring, c, k); }
    }
    DistinctInserted(ring, |ring|, c);
    assert ring[..|ring|] + [c] + ring[|ring|..] == ring + [c];
  }

  /** The k-th container when the i-th has been taken out. */
  ghost predicate LinkedPast(ring: seq<Container>, i: nat, k: nat)
    requires k < |ring| && 1 <= i < |ring|
    reads ring[k]
  {
    ring[k].prev == (if k == (if i + 1 == |ring| then 0 else i + 1) then ring[i - 1] else At(ring, k - 1)) &&
    ring[k].next == (if k == i - 1 then At(ring, i + 1) else At(ring, k + 1))
  }

  lemma LinkedRemoved(ring: seq<Container>, i: nat)
    requires 1 <= i < |ring| && Distinct(ring)
    requires forall k: nat {:trigger LinkedPast(ring, i, k)} :: k < |ring| && k != i ==> LinkedPast(ring, i, k)
    ensures Linked(ring[..i] + ring[i + 1..])
  {
    var after := ring[..i] + ring[i + 1..];
    forall k: nat | k < |after| ensures LinkedAt(after, k) {
      assert LinkedPast(ring, i, if k < i then k else k + 1);
    }
    DistinctRemoved(ring, i);
  }

  // ---------------------------------------------------------------- the server

  /** What select finds for a client: something on the control connection, and on the data connection. */
  datatype Input = Input(readable: bool, gone: bool, cmd: Option<Command>, a: Answers, dataReady: bool, noError: bool, accepted: int, moved: Moved)

  /** A client's session after one round of events; None when it has ended. */
  function AfterInput(cfg: Config, s: Session, x: Input): Option<Session>
  {
    var t := if !x.readable then Some(s) else if x.gone then None else if x.cmd.Some? then FtpSession.OnCommand(cfg, s, x.cmd.value, x.a) else Some(s);
    if t.Some? && x.dataReady then Some(OnData(t.value, x.noError, x.accepted, x.moved)) else t
  }

  /** In steps of the session: first what came on the control connection, then, if the client is still there, the data socket. */
  lemma RoundInSteps(cfg: Config, s: Session, x: Input)
    ensures x.readable && x.gone ==> AfterInput(cfg, s, x) == Step(cfg, s, Lost)
    ensures x.readable && !x.gone && x.cmd.Some? && !x.dataReady ==> AfterInput(cfg, s, x) == Step(cfg, s, Receive(x.cmd.value, x.a))
    ensures x.readable && !x.gone && x.cmd.Some? && x.dataReady ==>
              (AfterInput(cfg, s, x) == match Step(cfg, s, Receive(x.cmd.value, x.a))
                                        case None => None
                                        case Some(t) => Step(cfg, t, DataReady(x.noError, x.accepted, x.moved)))
    ensures !x.readable || (!x.gone && x.cmd.None?) ==>
              (AfterInput(cfg, s, x) == if x.dataReady then Step(cfg, s, DataReady(x.noError, x.accepted, x.moved)) else Some(s))
  {
  }

  method NewSlots() returns (cs: seq<Client>)
    ensures |cs| == MAX_CLIENTS && fresh(cs)
    ensures forall c :: c in cs ==> c.server == null && fresh(c.container)
    ensures forall i, j :: 0 <= i < j < |cs| ==> cs[i] != cs[j] && cs[i].container != cs[j].container
  {
    cs := [];
    for n := 0 to MAX_CLIENTS
      invariant |cs| == n && fresh(cs)
      invariant forall c :: c in cs ==> c.server == null && fresh(c.container)
      invariant forall i, j :: 0 <= i < j < |cs| ==> cs[i] != cs[j] && cs[i].container != cs[j].container
    {
      var c := new Client();
      cs := cs + [c];
    }
  }

  class Server {
    const clients: Container
    const slots: seq<Client>
    const cfg: Config
    var socket: int
    ghost var ring: seq<Container>

    constructor (cfg: Config)
      ensures Valid() && fresh(slots) && fresh(clients) && ring == [clients] && socket == -1 && this.cfg == cfg
      ensures forall c :: c in slots ==> fresh(c.container)
    {
      this.cfg := cfg;
      var head := new Container(null);
      clients := head;
      socket := -1;
      ring := [head];
      var cs := NewSlots();
      slots := cs;
    }

    ghost function Containers(): set<Container>
    {
      set c | c in slots :: c.container
    }

    /** Slot k is linked in. */
    ghost predicate OnRing(c: Client)
      reads this
    {
      c.container in ring
    }

    ghost predicate SlotsDiffer()
    {
      |slots| == MAX_CLIENTS && (forall i, j :: 0 <= i < j < MAX_CLIENTS ==> slots[i] != slots[j] && slots[i].container != slots[j].container) &&
      forall i :: 0 <= i < MAX_CLIENTS ==> slots[i].container != clients
    }

    /** A slot is in use exactly when it is on the list. */
    ghost predicate SlotValid(c: Client)
      reads this, c, c.container
    {
      (c.server == null <==> !OnRing(c)) && (c.server != null ==> c.server == this && c.container.client == c)
    }

    /** The sessions of all live clients are sound, but for one that is being changed. */
    ghost predicate SoundBut(x: Client?)
      reads slots
    {
      forall c :: c in slots && c != x && c.server != null ==> Sound(c.State())
    }

    ghost predicate Valid()
      reads this, clients, slots, Containers()
    {
      Wired() && SoundBut(null)
    }

    ghost predicate Wired()
      reads this, clients, slots, Containers()
    {
      SlotsDiffer() && ring != [] && ring[0] == clients && (forall k :: 0 < k < |ring| ==> ring[k] in Containers()) && Linked(ring) &&
      (forall c {:trigger SlotValid(c)} :: c in slots ==> SlotValid(c))
    }

    /** At most as many clients are linked as there are slots. */
    lemma AtMostFour()
      requires SlotsDiffer() && ring != [] && ring[0] == clients && Distinct(ring) && forall k :: 0 < k < |ring| ==> ring[k] in Containers()
      ensures |ring| - 1 <= 4
    {
      var all := {clients, slots[0].container, slots[1].container, slots[2].container, slots[3].container};
      assert forall c :: c in slots ==> c == slots[0] || c == slots[1] || c == slots[2] || c == slots[3];
      DistinctSize(ring, all);
    }

    /** A live client's place on the list. */
    lemma PlaceOf(c: Client) returns (i: nat)
      requires Wired() && c in slots && c.server != null
      ensures 1 <= i < |ring| && ring[i] == c.container
    {
      assert SlotValid(c);
      i :| 0 <= i < |ring| && ring[i] == c.container;
    }

    /** What stands at a place of the list is a live client. */
    lemma ClientAt(i: nat)
      requires Wired() && 1 <= i < |ring|
      ensures ring[i].client != null && ring[i].client in slots && ring[i].client.server == this && ring[i].client.container == ring[i]
    {
      assert ring[i] in Containers();
      var c :| c in slots && c.container == ring[i];
      assert SlotValid(c);
    }

    /** Put a container in before the head, that is, at the end. */
    method Attach(c: Container)
      requires ring != [] && ring[0] == clients && Linked(ring) && c !in ring
      modifies ring, c, this`ring
      ensures ring == old(ring) + [c] && Linked(ring)
      ensures c.client == old(c.client) && forall d :: d in old(ring) ==> d.client == old(d.client)
    {
      ghost var was := ring;
      assert LinkedAt(was, 0) && LinkedAt(was, |was| - 1);
      c.prev := clients.prev;
      c.next := clients;
      clients.prev.next := c;
      clients.prev := c;
      forall k: nat | k < |was| ensures LinkedBefore(was, c, k) {
        assert old(LinkedAt(was, k));
        if k > 0 { DifferAt(was, 0, k); }
        if k < |was| - 1 { DifferAt(was, |was| - 1, k); }
      }
      LinkedAppended(was, c);
      ring := was + [c];
    }

    /** Take a container out; it is left linked to itself. */
    method Detach(c: Container, ghost i: nat)
      requires Linked(ring) && 1 <= i < |ring| && c == ring[i]
      modifies ring, this`ring
      ensures ring == old(ring[..i] + ring[i + 1..]) && Linked(ring) && c !in ring
      ensures c.prev == c == c.next && forall d :: d in old(ring) ==> d.client == old(d.client)
    {
      ghost var was := ring;
      ghost var after := if i + 1 == |was| then 0 else i + 1;
      assert LinkedAt(was, i);
      DifferAt(was, i - 1, i);
      DifferAt(was, after, i);
      c.prev.next := c.next;
      c.next.prev := c.prev;
      c.prev := c;
      c.next := c;
      forall k: nat | k < |was| && k != i ensures LinkedPast(was, i, k) {
        assert old(LinkedAt(was, k)) && old(LinkedAt(was, i));
        DifferAt(was, k, i);
        if k != i - 1 { DifferAt(was, k, i - 1); }
        if k != after { DifferAt(was, k, after); }
      }
      LinkedRemoved(was, i);
      ring := was[..i] + was[i + 1..];
      forall k: nat | k < |ring| ensures ring[k] != c {
        DifferAt(was, if k < i then k else k + 1, i);
      }
    }

    /** No other slot has changed. */
    twostate predicate OthersUnchanged(c: Client)
      reads slots
    {
      forall d :: d in slots && d != c ==> d.State() == old(d.State()) && d.server == old(d.server)
    }

    lemma ContainersDiffer(c: Client, d: Client)
      requires SlotsDiffer() && c in slots && d in slots && c != d
      ensures c.container != d.container && c.container != clients
    {
      var i :| 0 <= i < MAX_CLIENTS && slots[i] == c;
      var j :| 0 <= j < MAX_CLIENTS && slots[j] == d;
      assert if i < j then slots[i].container != slots[j].container else slots[j].container != slots[i].container;
    }

    /** The first free slot, if there is one. */
    method FindFree() returns (c: Client?)
      requires |slots| == MAX_CLIENTS
      ensures c == null ==> forall d :: d in slots ==> d.server != null
      ensures c != null ==> c in slots && c.server == null
    {
      c := null;
      for i := 0 to MAX_CLIENTS
        invariant forall k :: 0 <= k < i ==> slots[k].server != null
      {
        if slots[i].server == null {
          return slots[i];
        }
      }
    }

    /** A new client gets a free slot and goes to the end of the list; it is refused exactly if no slot is free. */
    method OnClientConnect(iSocket: int) returns (c: Client?)
      requires Valid()
      modifies this`ring, slots, ring, Containers()
      ensures Valid() && (c == null <==> forall d :: d in slots ==> old(d.server) != null)
      ensures c == null ==> ring == old(ring) && forall d :: d in slots ==> d.State() == old(d.State()) && d.server == old(d.server)
      ensures c != null ==> c in slots && old(c.server) == null && c.server == this && c.State() == Fresh() && c.controlSocket == iSocket
      ensures c != null ==> ring == old(ring) + [c.container] && OthersUnchanged(c)
    {
      c := FindFree();
      if c == null {
        return;
      }
      assert SlotValid(c);
      forall k: nat | k < |ring| ensures ring[k] != c.container {
        assert !OnRing(c);
      }
      CreateApart(c, iSocket);
      Attach(c.container);
      forall d | d in slots ensures SlotValid(d) {
        if d != c {
          assert old(SlotValid(d));
          ContainersDiffer(c, d);
        }
      }
    }

    /** Making a client touches nothing of the list or of other clients. */
    method CreateApart(c: Client, iSocket: int)
      requires Wired() && c in slots && c.server == null
      modifies c, c.container
      ensures c.server == this && c.controlSocket == iSocket && c.State() == Fresh() && c.container.client == c
      ensures Linked(ring) && c.container !in ring
    {
      assert SlotValid(c);
      ghost var was := ring;
      c.Create(this, iSocket);
      forall k: nat | k < |was| ensures LinkedAt(was, k) {
        assert old(LinkedAt(was, k));
      }
    }

    /** The client leaves the list and its slot is free again. */
    method OnClientDisconnect(c: Client)
      requires Wired() && SoundBut(c) && c in slots && c.server == this
      modifies this`ring, ring, c
      ensures Valid() && c.server == null && c.dataSocket == -1 && OthersUnchanged(c)
      ensures c.container in old(ring) && exists i :: 0 < i < |old(ring)| && old(ring)[i] == c.container && ring == old(ring)[..i] + old(ring)[i + 1..]
    {
      ghost var i := PlaceOf(c);
      ghost var was := ring;
      Detach(c.container, i);
      c.Destroy();
      assert Linked(ring);
      forall d | d in slots ensures SlotValid(d) {
        assert old(SlotValid(d));
        if d != c {
          ContainersDiffer(c, d);
          assert d.container in was ==> d.container in ring;
        }
      }
    }

    /** FtpServer_Stop ends: every client is disconnected, the list is empty, and the server socket is closed. */
    method Stop()
      requires Valid()
      modifies this, slots, clients, Containers()
      ensures Valid() && ring == [clients] && socket == -1 && forall c :: c in slots ==> c.server == null
    {
      while clients.next != clients
        invariant Valid()
        decreases |ring|
      {
        assert LinkedAt(ring, 0);
        ClientAt(1);
        assert forall k :: 0 <= k < |ring| ==> ring[k] == clients || ring[k] in Containers();
        OnClientDisconnect(clients.next.client);
      }
      assert LinkedAt(ring, 0);
      assert |ring| == 1;
      forall c | c in slots ensures c.server == null {
        assert SlotValid(c);
        ContainerNotHead(c);
      }
      if socket != -1 {
        socket := -1;
      }
    }

    lemma ContainerNotHead(c: Client)
      requires SlotsDiffer() && c in slots
      ensures c.container != clients
    {
      var i :| 0 <= i < MAX_CLIENTS && slots[i] == c;
    }

    /** The client's session is now t, or it has been disconnected. */
    ghost predicate Outcome(c: Client, t: Option<Session>)
      reads c
    {
      if t.Some? then c.server == this && c.State() == t.value else c.server == null && c.dataSocket == -1
    }

    /** The list is as it was, or without c if it has been disconnected. */
    ghost predicate RingAfter(c: Client, was: seq<Container>)
      reads this, c
    {
      if c.server != null then ring == was
      else exists i :: 0 < i < |was| && was[i] == c.container && ring == was[..i] + was[i + 1..]
    }

    /** A fourth failed login disconnects. */
    method OnCmdPass(c: Client, password: string)
      requires Valid() && c in slots && c.server == this && c.authState != LoggedIn
      modifies this`ring, ring, c
      ensures Valid() && OthersUnchanged(c) && RingAfter(c, old(ring))
      ensures Outcome(c, FtpSession.OnCommand(cfg, old(c.State()), Pass(password), NoAnswers()))
    {
      assert Sound(c.State());
      if c.authState == NeedPassword && password == cfg.password {
        SetLogin(c, LoggedIn, c.authAttempt);
      } else if c.authState != NoUser {
        SetLogin(c, c.authState, c.authAttempt + 1);
        if c.authAttempt > 3 {
          OnClientDisconnect(c);
        }
        SetLogin(c, NoUser, c.authAttempt);
      }
    }

    /** The login state of a client is no one else's business. */
    method SetLogin(c: Client, auth: Auth, attempts: nat)
      requires Wired() && SoundBut(c) && c in slots
      modifies c`authState, c`authAttempt
      ensures Wired() && SoundBut(c) && c.authState == auth && c.authAttempt == attempts
    {
      c.authState, c.authAttempt := auth, attempts;
      forall d | d in slots ensures SlotValid(d) { assert old(SlotValid(d)); }
    }

    /** A command that only changes its client's session. */
    method OnSessionCommand(c: Client, cmd: Command, a: Answers)
      requires cmd != Quit && !(c.authState != LoggedIn && cmd.Pass?)
      modifies c
      ensures c.server == old(c.server) && Some(c.State()) == FtpSession.OnCommand(cfg, old(c.State()), cmd, a)
    {
      if c.authState != LoggedIn {
        if cmd.User? {
          c.OnCmdUser(cmd.name, cfg);
        }
      } else {
        match cmd {
          case Pasv => c.OnCmdPasv(a);
          case Port(number) => c.OnCmdPort(number);
          case List(namesOnly) => c.OnCmdList(namesOnly, a);
          case Retr => c.OnCmdTransfer(Retrieve, a);
          case Stor => c.OnCmdTransfer(Store, a);
          case Appe => c.OnCmdTransfer(AppendTo, a);
          case Rest(marker) => c.restartMarker := marker;
          case Rnfr => c.restartMarker := 0;
          case _ =>
        }
      }
    }

    /** A command of a live client; every other client is left alone. */
    method OnCommand(c: Client, cmd: Command, a: Answers)
      requires Valid() && c in slots && c.server == this
      modifies this`ring, ring, c
      ensures Valid() && OthersUnchanged(c) && RingAfter(c, old(ring))
      ensures Outcome(c, FtpSession.OnCommand(cfg, old(c.State()), cmd, a))
    {
      if cmd == Quit {
        OnClientDisconnect(c);
      } else if c.authState != LoggedIn && cmd.Pass? {
        OnCmdPass(c, cmd.password);
      } else {
        StepSound(cfg, c.State(), Receive(cmd, a));
        OnSessionCommand(c, cmd, a);
        forall d | d in slots ensures SlotValid(d) { assert old(SlotValid(d)); }
      }
    }

    /** One client's share of a round of events. */
    method HandleClient(c: Client, x: Input)
      requires Valid() && c in slots && c.server == this
      modifies this`ring, ring, c
      ensures Valid() && OthersUnchanged(c) && RingAfter(c, old(ring)) && Outcome(c, AfterInput(cfg, old(c.State()), x))
    {
      if x.readable {
        if x.gone {
          OnClientDisconnect(c);
        } else if x.cmd.Some? {
          OnCommand(c, x.cmd.value, x.a);
        }
      }
      if c.dataSocket != -1 && x.dataReady {
        label Commanded:
        StepSound(cfg, c.State(), DataReady(x.noError, x.accepted, x.moved));
        c.OnDataReady(x.noError, x.accepted, x.moved);
        forall d | d in slots ensures SlotValid(d) { assert old@Commanded(SlotValid(d)); }
      }
    }

    /** Handle the client at a place of the list; what follows on the list is still what followed it. */
    method HandleAt(c: Client, x: Input, ghost j: nat) returns (ghost j': nat)
      requires Valid() && 1 <= j < |ring| && c.container == ring[j] && c in slots && c.server == this
      modifies this`ring, ring, c
      ensures Valid() && OthersUnchanged(c) && Outcome(c, AfterInput(cfg, old(c.State()), x))
      ensures 1 <= j' <= |ring| && ring[j'..] == old(ring)[j + 1..] && c.container !in ring[j'..]
    {
      ghost var was := ring;
      forall k: nat | j + 1 <= k < |was| ensures was[k] != was[j] { DifferAt(was, k, j); }
      HandleClient(c, x);
      if c.server != null {
        j' := j + 1;
      } else {
        ghost var i :| 0 < i < |was| && was[i] == c.container && ring == was[..i] + was[i + 1..];
        if i != j { DifferAt(was, i, j); }
        j' := j;
      }
    }

    /** Where a client stands in a round: still to come, or handled. */
    twostate predicate InRound(c: Client, todo: seq<Container>, x: Input)
      reads this, c
    {
      if c.container in todo then old(c.server) != null && c.server == this && c.State() == old(c.State())
      else if old(c.server) != null then Outcome(c, AfterInput(cfg, old(c.State()), x))
      else c.server == null && c.State() == old(c.State())
    }

    /** One round of events: every client on the list is handled exactly once, though clients leave the list on the way. */
    method HandleClients(inputs: Client -> Input)
      requires Valid()
      modifies this`ring, slots, clients, Containers()
      ensures Valid() && forall c :: c in slots ==> InRound(c, [], inputs(c))
    {
      ghost var j: nat, todo := 1, ring[1..];
      assert LinkedAt(ring, 0);
      RoundBegins(todo);
      var container := clients.next;
      while container != clients
        invariant Valid() && 1 <= j <= |ring| && container == At(ring, j) && ring[j..] == todo
        invariant forall c :: c in slots ==> InRound(c, todo, inputs(c))
        decreases |todo|
      {
        ClientAt(j);
        var c := container.client;
        var next := container.next;
        assert LinkedAt(ring, j) && next == At(ring, j + 1);
        assert forall k :: 0 <= k < |ring| ==> ring[k] == clients || ring[k] in Containers();
        ghost var was := todo;
        assert InRound(c, todo, inputs(c)) && todo[0] == c.container;
        j := HandleAt(c, inputs(c), j);
        todo := was[1..];
        forall d | d in slots ensures InRound(d, todo, inputs(d)) {
          if d != c {
            ContainersDiffer(c, d);
            assert d.container in was <==> d.container in todo;
          }
        }
        container := next;
      }
      assert todo == [];
    }

    lemma RoundBegins(todo: seq<Container>)
      requires Valid() && todo == ring[1..]
      ensures forall c :: c in slots ==> (c.container in todo <==> c.server != null) && (c.server != null ==> c.server == this)
    {
      forall c | c in slots ensures (c.container in todo <==> c.server != null) && (c.server != null ==> c.server == this) {
        assert SlotValid(c);
        ContainerNotHead(c);
        assert ring == [ring[0]] + todo;
      }
    }

    /** A client that came in this round has had its events handled too. */
    twostate predicate Joined(c: Client, x: Input)
      reads this, c
    {
      old(c.server) == null && Outcome(c, AfterInput(cfg, Fresh(), x))
    }

    /**
     FtpServer_HandleEvents: accept a connection if one is waiting, then handle every client.  The
     one accepted takes a free slot if there is one, and is handled like the others.
     */
    method HandleEvents(incoming: Option<int>, inputs: Client -> Input)
      requires Valid()
      modifies this`ring, slots, clients, Containers()
      ensures Valid()
      ensures incoming.None? || socket == -1 || (forall c :: c in slots ==> old(c.server) != null) ==>
                forall c :: c in slots ==> InRound(c, [], inputs(c))
      ensures incoming.Some? && socket != -1 && (exists c :: c in slots && old(c.server) == null) ==>
                exists c :: c in slots && Joined(c, inputs(c)) && forall d :: d in slots && d != c ==> InRound(d, [], inputs(d))
    {
      var c := null;
      if socket != -1 && incoming.Some? {
        c := OnClientConnect(incoming.value);
      }
      label Accepted:
      HandleClients(inputs);
      forall d | d in slots && d != c ensures InRound(d, [], inputs(d)) {
        assert InRound@Accepted(d, [], inputs(d));
      }
      if c != null {
        assert InRound@Accepted(c, [], inputs(c));
        assert Joined(c, inputs(c));
      }
    }
  }

  /** What each round brings: perhaps a connection, and something for each client. */
  datatype Round = Round(incoming: Option<int>, inputs: Client -> Input)

  /** A server from its creation, over any rounds of events, to its end: it is valid throughout, and stops with an empty list. */
  method Serve(server: Server, rounds: seq<Round>)
    requires server.Valid()
    modifies server, server.slots, server.clients, server.Containers()
    ensures server.Valid() && server.ring == [server.clients] && forall c :: c in server.slots ==> c.server == null
  {
    for i := 0 to |rounds|
      invariant server.Valid()
    {
      server.HandleEvents(rounds[i].incoming, rounds[i].inputs);
    }
    server.Stop();
  }
}
