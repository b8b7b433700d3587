/** Every interleaving of requests to the server: accounting, isolation between
    senders and the termination timer. */
module ServerRuns {
  import opened ServerState

  datatype Request =
    | CreateOf(sender: string, device: string, allowed: bool)
    | ShutdownOf(sender: string, device: string)
    | Vanished(sender: string)

  function Serve(s: Server, request: Request, autoTerminate: bool): Server {
    match request
    case CreateOf(sender, device, allowed) => Create(s, sender, device, allowed).0
    case ShutdownOf(sender, device) => Shutdown(s, sender, device, autoTerminate).0
    case Vanished(sender) => RemoveClients(s, sender)
  }

  /** The server after a run of requests. */
  function ServeAll(s: Server, requests: seq<Request>, autoTerminate: bool): Server
    decreases |requests|
  {
    if requests == [] then s
    else Serve(ServeAll(s, requests[..|requests| - 1], autoTerminate), requests[|requests| - 1], autoTerminate)
  }

  lemma ServeSound(s: Server, request: Request, autoTerminate: bool)
    requires Sound(s)
    ensures Sound(Serve(s, request, autoTerminate))
  {
    match request
    case CreateOf(sender, device, allowed) => CreateSound(s, sender, device, allowed);
    case ShutdownOf(sender, device) => ShutdownSound(s, sender, device, autoTerminate);
    case Vanished(sender) => RemoveSound(s, sender);
  }

  /** Over every run, whatever is requested: each object is referenced exactly as
      often as it occurs in the lists of all senders, and exactly the objects
      that occur are registered. */
  lemma {:induction false} RunSound(s: Server, requests: seq<Request>, autoTerminate: bool)
    requires Sound(s)
    ensures Sound(ServeAll(s, requests, autoTerminate))
    decreases |requests|
  {
    if requests != [] {
      RunSound(s, requests[..|requests| - 1], autoTerminate);
      ServeSound(ServeAll(s, requests[..|requests| - 1], autoTerminate), requests[|requests| - 1], autoTerminate);
    }
  }

  // ------------------------------------------------------------- the counter

  /** A Shutdown that finds a client of which its sender holds no reference. */
  predicate Stray(s: Server, request: Request) {
    && request.ShutdownOf?
    && SoughtPath(request.device) in s.registered
    && s.registered[SoughtPath(request.device)] !in ListOf(s, request.sender)
  }

  function Strays(s: Server, requests: seq<Request>, autoTerminate: bool): nat
    decreases |requests|
  {
    if requests == [] then 0
    else
      var init := requests[..|requests| - 1];
      Strays(s, init, autoTerminate)
      + (if Stray(ServeAll(s, init, autoTerminate), requests[|requests| - 1]) then 1 else 0)
  }

  lemma ShutdownCounts(s: Server, sender: string, device: string, autoTerminate: bool)
    requires Sound(s)
    ensures var s' := Shutdown(s, sender, device, autoTerminate).0;
            s'.clientCount - |s'.refs| ==
            s.clientCount - |s.refs| - (if Stray(s, ShutdownOf(sender, device)) then 1 else 0)
  {
    HeldApart(s, sender);
    var path := SoughtPath(device);
    if path in s.registered && s.registered[path] in ListOf(s, sender) {
      assert s.registered[path] in s.refs;
      assert |s.refs - multiset{s.registered[path]}| == |s.refs| - 1;
    }
  }

  lemma RemoveCounts(s: Server, sender: string)
    requires Sound(s) && sender in s.connections
    ensures |RemoveClients(s, sender).refs| == |s.refs| - |s.connections[sender]|
  {
    HeldBy(s.connections, sender);
    assert s.refs - multiset(s.connections[sender]) == Held(s.connections - {sender});
  }

  lemma ServeCounts(s: Server, request: Request, autoTerminate: bool)
    requires Sound(s)
    ensures var s' := Serve(s, request, autoTerminate);
            s'.clientCount - |s'.refs| == s.clientCount - |s.refs| - (if Stray(s, request) then 1 else 0)
  {
    match request
    case CreateOf(sender, device, allowed) =>
    case ShutdownOf(sender, device) => ShutdownCounts(s, sender, device, autoTerminate);
    case Vanished(sender) => if sender in s.connections { RemoveCounts(s, sender); }
  }

  /** The counter over every run: it is behind the total length of the lists by
      the number of stray Shutdowns, so it is right if and only if there were
      none. */
  lemma {:induction false} CounterLaw(requests: seq<Request>, autoTerminate: bool)
    ensures var s := ServeAll(START, requests, autoTerminate);
            s.clientCount == |Held(s.connections)| - Strays(START, requests, autoTerminate)
    decreases |requests|
  {
    RunSound(START, requests, autoTerminate);
    if requests != [] {
      var init := requests[..|requests| - 1];
      CounterLaw(init, autoTerminate);
      RunSound(START, init, autoTerminate);
      ServeCounts(ServeAll(START, init, autoTerminate), requests[|requests| - 1], autoTerminate);
    }
  }

  // --------------------------------------------------------------- the timer

  ghost predicate Counted(s: Server) {
    Sound(s) && s.clientCount == |s.refs|
  }

  lemma NothingRegistered(s: Server)
    requires Sound(s) && |s.refs| == 0
    ensures s.refs == multiset{} && s.registered == map[]
  {
    assert s.refs == multiset{};
    AllLive(s.registered, s.refs, s.next);
  }

  lemma RunIsCounted(requests: seq<Request>, autoTerminate: bool)
    requires Strays(START, requests, autoTerminate) == 0
    ensures Counted(ServeAll(START, requests, autoTerminate))
  {
    CounterLaw(requests, autoTerminate);
    RunSound(START, requests, autoTerminate);
  }

  /** The counter right after the last Create, refused or not; 0 before any. */
  function AfterLastCreate(requests: seq<Request>, autoTerminate: bool): int
    decreases |requests|
  {
    if requests == [] then 0
    else if requests[|requests| - 1].CreateOf? then ServeAll(START, requests, autoTerminate).clientCount
    else AfterLastCreate(requests[..|requests| - 1], autoTerminate)
  }

  /** Whether a sender that disappeared has lowered the counter last. */
  predicate LoweredByVanishing(requests: seq<Request>, autoTerminate: bool)
    decreases |requests|
  {
    requests != [] &&
    var init := requests[..|requests| - 1];
    if ServeAll(START, requests, autoTerminate).clientCount < ServeAll(START, init, autoTerminate).clientCount
    then requests[|requests| - 1].Vanished?
    else LoweredByVanishing(init, autoTerminate)
  }

  /** What one request other than Create does to the timer. */
  lemma ServeArmsExactly(s: Server, request: Request, autoTerminate: bool)
    requires Counted(s) && (s.armed ==> s.clientCount == 0) && !Stray(s, request) && !request.CreateOf?
    ensures var s' := Serve(s, request, autoTerminate);
            && 0 <= s'.clientCount <= s.clientCount
            && (s'.clientCount == s.clientCount ==> s'.armed == s.armed)
            && (s'.clientCount < s.clientCount ==>
                  !s.armed && (s'.armed <==> s'.clientCount == 0 && (autoTerminate || request.Vanished?)))
  {
    ServeCounts(s, request, autoTerminate);
    if s.clientCount == 0 {
      NothingRegistered(s);
    }
    if request.Vanished? && request.sender in s.connections {
      RemoveCounts(s, request.sender);
    }
  }

  /** The timer of a run, exactly: without stray Shutdowns it is armed if and only
      if the counter is back at 0 since a Create that left it above 0, and either
      the server terminates by itself or it was a sender's disappearance that
      took the counter there. */
  lemma {:induction false} TimerExactly(requests: seq<Request>, autoTerminate: bool)
    requires Strays(START, requests, autoTerminate) == 0
    ensures var s := ServeAll(START, requests, autoTerminate);
            && s.clientCount <= AfterLastCreate(requests, autoTerminate)
            && (s.armed <==>
                  && s.clientCount == 0 && 0 < AfterLastCreate(requests, autoTerminate)
                  && (autoTerminate || LoweredByVanishing(requests, autoTerminate)))
    decreases |requests|
  {
    if requests != [] {
      var init, last := requests[..|requests| - 1], requests[|requests| - 1];
      TimerExactly(init, autoTerminate);
      RunIsCounted(init, autoTerminate);
      if !last.CreateOf? {
        ServeArmsExactly(ServeAll(START, init, autoTerminate), last, autoTerminate);
      }
    }
  }

  /** The timer is safe: in a run without stray Shutdowns it is armed only when
      no sender holds anything, and no client is registered. */
  lemma TimerIsSafe(requests: seq<Request>, autoTerminate: bool)
    requires Strays(START, requests, autoTerminate) == 0
    ensures var s := ServeAll(START, requests, autoTerminate);
            s.armed ==> s.clientCount == 0 && Held(s.connections) == multiset{} && s.registered == map[]
  {
    TimerExactly(requests, autoTerminate);
    RunIsCounted(requests, autoTerminate);
    if ServeAll(START, requests, autoTerminate).armed {
      NothingRegistered(ServeAll(START, requests, autoTerminate));
    }
  }

  /** When a Shutdown arms the timer, after any run, as many references are still
      held as there were stray Shutdowns: none exactly if there were none. */
  lemma ArmingShutdown(requests: seq<Request>, sender: string, device: string, autoTerminate: bool)
    requires !ServeAll(START, requests, autoTerminate).armed
    requires ServeAll(START, requests + [ShutdownOf(sender, device)], autoTerminate).armed
    ensures var all := requests + [ShutdownOf(sender, device)];
            var s := ServeAll(START, all, autoTerminate);
            && s.clientCount == 0 && |Held(s.connections)| == Strays(START, all, autoTerminate)
            && (Held(s.connections) == multiset{} <==> Strays(START, all, autoTerminate) == 0)
  {
    var all := requests + [ShutdownOf(sender, device)];
    assert all[..|requests|] == requests;
    CounterLaw(all, autoTerminate);
  }

  /** A sender that disappears with what it holds arms the timer, after any run and
      whatever autoTerminate says, if and only if the counter has not gone below 1
      and the others hold no more references than there were stray Shutdowns:
      without strays, if and only if they hold none. */
  lemma VanishingArms(requests: seq<Request>, sender: string, autoTerminate: bool)
    requires var s := ServeAll(START, requests, autoTerminate); !s.armed && ListOf(s, sender) != []
    ensures var s, strays := ServeAll(START, requests, autoTerminate), Strays(START, requests, autoTerminate);
            var others := Held(s.connections - {sender});
            && (RemoveClients(s, sender).armed <==> 1 <= s.clientCount && |others| <= strays)
            && (strays == 0 ==> (RemoveClients(s, sender).armed <==> others == multiset{}))
  {
    var s := ServeAll(START, requests, autoTerminate);
    CounterLaw(requests, autoTerminate);
    HeldBy(s.connections, sender);
    assert |Held(s.connections)| == |s.connections[sender]| + |Held(s.connections - {sender})|;
  }

  /** Nothing held, and no timer. */
  ghost predicate Idle(s: Server) {
    Sound(s) && s.refs == multiset{} && !s.armed && s.clientCount == 0
  }

  lemma ServeIdle(s: Server, request: Request, autoTerminate: bool)
    requires Idle(s) && (request.CreateOf? ==> !request.allowed)
    ensures Idle(Serve(s, request, autoTerminate))
  {
    ServeSound(s, request, autoTerminate);
    if request.Vanished? && request.sender in s.connections {
      HeldBy(s.connections, request.sender);
      assert |multiset(s.connections[request.sender])| == 0;
    }
  }

  /** A Create that is refused cancels the timer for good: without another
      allowed Create no request arms it again. */
  lemma {:induction false} RefusalKeepsIdle(s: Server, sender: string, device: string,
                                              requests: seq<Request>, autoTerminate: bool)
    requires Counted(s) && s.clientCount == 0
    requires forall i :: 0 <= i < |requests| && requests[i].CreateOf? ==> !requests[i].allowed
    ensures Idle(ServeAll(Create(s, sender, device, false).0, requests, autoTerminate))
    decreases |requests|
  {
    if requests == [] {
      assert |s.refs| == 0;
    } else {
      RefusalKeepsIdle(s, sender, device, requests[..|requests| - 1], autoTerminate);
      ServeIdle(ServeAll(Create(s, sender, device, false).0, requests[..|requests| - 1], autoTerminate),
                requests[|requests| - 1], autoTerminate);
    }
  }

  /** Why strays matter: one sender's Shutdown of a device that another sender
      holds arms the timer although the client is still in use. */
  lemma StrayArmsTimer(holder: string, stray: string, device: string)
    requires holder != stray && ':' !in Basename(device)
    ensures var s := ServeAll(START, [CreateOf(holder, device, true), ShutdownOf(stray, device)], true);
            s.armed && s.clientCount == 0 && ListOf(s, holder) == [0] && s.refs == multiset{0}
  {
    PathsMeet(device);
    var requests := [CreateOf(holder, device, true), ShutdownOf(stray, device)];
    assert requests[..1] == [requests[0]] && [requests[0]][..0] == [];
    assert ServeAll(START, [requests[0]], true) == Serve(ServeAll(START, [], true), requests[0], true);
    assert ServeAll(START, requests, true) == Serve(ServeAll(START, requests[..1], true), requests[1], true);
  }

  /** A server that is told not to terminate arms the timer only for senders
      that disappear. */
  lemma {:induction false} OnlyVanishingArms(requests: seq<Request>)
    requires forall i :: 0 <= i < |requests| ==> !requests[i].Vanished?
    ensures !ServeAll(START, requests, false).armed
    decreases |requests|
  {
    if requests != [] {
      OnlyVanishingArms(requests[..|requests| - 1]);
    }
  }

  /** For those it does arm it. */
  lemma VanishingArmsAnyway(sender: string, device: string)
    ensures ServeAll(START, [CreateOf(sender, device, true), Vanished(sender)], false).armed
  {
    var requests := [CreateOf(sender, device, true), Vanished(sender)];
    assert requests[..1] == [requests[0]] && [requests[0]][..0] == [];
    assert ServeAll(START, [requests[0]], false) == Serve(ServeAll(START, [], false), requests[0], false);
    assert ServeAll(START, requests, false) == Serve(ServeAll(START, requests[..1], false), requests[1], false);
  }

  // ---------------------------------------------------------------- isolation

  /** What a sender holds stays held and registered where it was. */
  ghost predicate Kept(s: Server, s': Server, sender: string) {
    && ListOf(s', sender) == ListOf(s, sender)
    && (forall c :: c in ListOf(s, sender) ==> c in s'.refs)
    && (forall p :: p in s.registered && s.registered[p] in ListOf(s, sender)
                    ==> p in s'.registered && s'.registered[p] == s.registered[p])
  }

  lemma HolderKeepsRefs(s: Server, sender: string, client: nat)
    requires Sound(s) && client in ListOf(s, sender)
    ensures client in s.refs
  {
    HeldBy(s.connections, sender);
  }

  lemma ServeKeepsList(s: Server, request: Request, autoTerminate: bool, sender: string)
    requires request.sender != sender
    ensures ListOf(Serve(s, request, autoTerminate), sender) == ListOf(s, sender)
  {
  }

  /** A path goes only with its object. */
  lemma ServeKeepsPath(s: Server, request: Request, autoTerminate: bool, path: string)
    requires path in s.registered && s.registered[path] in Serve(s, request, autoTerminate).refs
    ensures var s' := Serve(s, request, autoTerminate);
            path in s'.registered && s'.registered[path] == s.registered[path]
  {
  }

  lemma ServeKeeps(s: Server, request: Request, autoTerminate: bool, sender: string)
    requires Sound(s) && request.sender != sender
    ensures Kept(s, Serve(s, request, autoTerminate), sender)
  {
    var s' := Serve(s, request, autoTerminate);
    ServeSound(s, request, autoTerminate);
    ServeKeepsList(s, request, autoTerminate, sender);
    forall c | c in ListOf(s, sender)
      ensures c in s'.refs
    {
      HolderKeepsRefs(s', sender, c);
    }
    forall p | p in s.registered && s.registered[p] in ListOf(s, sender)
      ensures p in s'.registered && s'.registered[p] == s.registered[p]
    {
      ServeKeepsPath(s, request, autoTerminate, p);
    }
  }

  /** Isolation: whatever other senders request or whether they disappear, a
      sender's list stays as it is, every object in it stays alive, and its
      device paths lead to the same objects. */
  lemma {:induction false} Isolation(s: Server, requests: seq<Request>, autoTerminate: bool, sender: string)
    requires Sound(s)
    requires forall i :: 0 <= i < |requests| ==> requests[i].sender != sender
    ensures Kept(s, ServeAll(s, requests, autoTerminate), sender)
    decreases |requests|
  {
    if requests == [] {
      forall c | c in ListOf(s, sender)
        ensures c in s.refs
      {
        HolderKeepsRefs(s, sender, c);
      }
    } else {
      var init := requests[..|requests| - 1];
      Isolation(s, init, autoTerminate, sender);
      RunSound(s, init, autoTerminate);
      ServeKeeps(ServeAll(s, init, autoTerminate), requests[|requests| - 1], autoTerminate, sender);
    }
  }

  // -------------------------------------------------------- all senders gone

  function Leave(senders: seq<string>): (requests: seq<Request>)
    ensures |requests| == |senders|
    ensures forall i :: 0 <= i < |senders| ==> requests[i] == Vanished(senders[i])
  {
    seq(|senders|, i requires 0 <= i < |senders| => Vanished(senders[i]))
  }

  lemma RemovedOne(connections: map<string, seq<nat>>, gone: set<string>, sender: string)
    ensures connections - gone - {sender} == connections - (gone + {sender})
    ensures sender !in connections - gone ==> connections - gone == connections - (gone + {sender})
  {
  }

  function Names(senders: seq<string>): set<string> {
    set sender | sender in senders
  }

  lemma NamesOfInit(senders: seq<string>)
    requires senders != []
    ensures Names(senders) == Names(senders[..|senders| - 1]) + {senders[|senders| - 1]}
  {
    assert senders == senders[..|senders| - 1] + [senders[|senders| - 1]];
  }

  lemma {:induction false} LeavingEmpties(s: Server, senders: seq<string>, autoTerminate: bool)
    ensures ServeAll(s, Leave(senders), autoTerminate).connections == s.connections - Names(senders)
    decreases |senders|
  {
    if senders != [] {
      var n := |senders| - 1;
      LeavingEmpties(s, senders[..n], autoTerminate);
      assert Leave(senders)[..n] == Leave(senders[..n]);
      NamesOfInit(senders);
      RemovedOne(s.connections, Names(senders[..n]), senders[n]);
    }
  }

  /** Once every sender has left the bus, no reference and no client remain. */
  lemma NoneRemain(s: Server, senders: seq<string>, autoTerminate: bool)
    requires Sound(s) && forall sender :: sender in s.connections ==> sender in senders
    ensures var s' := ServeAll(s, Leave(senders), autoTerminate);
            s'.connections == map[] && s'.refs == multiset{} && s'.registered == map[]
  {
    LeavingEmpties(s, senders, autoTerminate);
    RunSound(s, Leave(senders), autoTerminate);
  }

  /** A device whose name has a colon is registered under another name than the
      one Shutdown looks for: no Shutdown of it ever succeeds. */
  lemma ColonIsNeverFound(requests: seq<Request>, autoTerminate: bool, sender: string, device: string)
    requires ':' in Basename(device)
    ensures var s := ServeAll(START, requests, autoTerminate);
            Shutdown(s, sender, device, autoTerminate) == (s, NoClient(Basename(device)))
  {
    RunSound(START, requests, autoTerminate);
    var path, n := SoughtPath(device), |GPS_PATH|;
    var i :| 0 <= i < |Basename(device)| && Basename(device)[i] == ':';
    assert path[n + i] == ':';
  }
}
