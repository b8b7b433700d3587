/** The accounts of the server (src/gypsy-server.c): which sender holds which
    client objects, how often each object is referenced for them, the counter of
    clients and the termination timer. */
module ServerState {

  // ---------------------------------------------------------------- names

  const GPS_PATH := "/org/freedesktop/Gypsy/"

  function WithoutSlashes(s: string): string
    decreases |s|
  {
    if s != "" && s[|s| - 1] == '/' then WithoutSlashes(s[..|s| - 1]) else s
  }

  function LastPart(s: string): string
    decreases |s|
  {
    if s == "" || s[|s| - 1] == '/' then "" else LastPart(s[..|s| - 1]) + [s[|s| - 1]]
  }

  /** g_path_get_basename */
  function Basename(path: string): string {
    if path == "" then "."
    else if WithoutSlashes(path) == "" then "/"
    else LastPart(WithoutSlashes(path))
  }

  /** g_strdelimit with ":" and '_' */
  function Delimited(s: string): (r: string)
    ensures |r| == |s|
    ensures ':' !in r
    ensures forall i :: 0 <= i < |s| ==> (s[i] == ':' ==> r[i] == '_') && (s[i] != ':' ==> r[i] == s[i])
    ensures r == s <==> ':' !in s
  {
    seq(|s|, i requires 0 <= i < |s| => if s[i] == ':' then '_' else s[i])
  }

  /** The object path under which Create registers a device. */
  function CreatedPath(device: string): string {
    GPS_PATH + Delimited(Basename(device))
  }

  /** The object path under which Shutdown looks for a device. */
  function SoughtPath(device: string): string {
    GPS_PATH + Basename(device)
  }

  /** Shutdown looks where Create has registered exactly when the device name
      has no colon. */
  lemma PathsMeet(device: string)
    ensures CreatedPath(device) == SoughtPath(device) <==> ':' !in Basename(device)
  {
    var n := |GPS_PATH|;
    assert CreatedPath(device)[n..] == Delimited(Basename(device));
    assert SoughtPath(device)[n..] == Basename(device);
  }

  lemma {:induction false} LastPartBehindSlash(dir: string, name: string)
    requires '/' !in name
    ensures LastPart(dir + "/" + name) == name
    decreases |name|
  {
    if name != "" {
      var n := |name| - 1;
      LastPartBehindSlash(dir, name[..n]);
      assert (dir + "/" + name)[..|dir| + 1 + n] == dir + "/" + name[..n];
    }
  }

  lemma {:induction false} SlashesGo(s: string, n: nat)
    ensures WithoutSlashes(s + seq(n, _ => '/')) == WithoutSlashes(s)
    decreases n
  {
    if n > 0 {
      var t := s + seq(n, _ => '/');
      assert t[..|t| - 1] == s + seq(n - 1, _ => '/');
      SlashesGo(s, n - 1);
    } else {
      assert s + seq(n, _ => '/') == s;
    }
  }

  /** Devices of the same name share an object, whatever directory they are in and
      however many slashes follow; slashes alone are the root, and nothing is the
      directory itself. */
  lemma BasenameIgnoresDirectory(dir: string, name: string, n: nat)
    requires '/' !in name && name != ""
    ensures Basename(dir + "/" + name + seq(n, _ => '/')) == name == Basename(name + seq(n, _ => '/'))
    ensures Basename(seq(n + 1, _ => '/')) == "/" && Basename("") == "."
  {
    SlashesGo(dir + "/" + name, n);
    SlashesGo(name, n);
    SlashesGo("", n + 1);
    assert "" + seq(n + 1, _ => '/') == seq(n + 1, _ => '/');
    LastPartBehindSlash(dir, name);
    LastPartAlone(name);
  }

  lemma {:induction false} LastPartAlone(name: string)
    requires '/' !in name
    ensures LastPart(name) == name
    decreases |name|
  {
    if name != "" {
      LastPartAlone(name[..|name| - 1]);
    }
  }

  // ---------------------------------------------------------------- state

  /** refs holds each live object as often as it is referenced; next is an object
      that has not been made yet. */
  datatype Server = Server(
    connections: map<string, seq<nat>>,
    registered: map<string, nat>,
    refs: multiset<nat>,
    next: nat,
    clientCount: int,
    armed: bool)

  datatype Answer = Path(path: string) | BadPath | NoClient(name: string) | Done

  const START := Server(map[], map[], multiset{}, 0, 0, false)

  function ListOf(s: Server, sender: string): seq<nat> {
    if sender in s.connections then s.connections[sender] else []
  }

  /** An object without references is destroyed, and its path is free again. */
  function Live(registered: map<string, nat>, refs: multiset<nat>): map<string, nat> {
    map p | p in registered && registered[p] in refs :: registered[p]
  }

  /** g_list_remove */
  function Without(list: seq<nat>, client: nat): seq<nat>
    decreases |list|
  {
    if list == [] then []
    else if list[0] == client then list[1..]
    else [list[0]] + Without(list[1..], client)
  }

  /** Create is refused for a device that the configuration does not allow; the
      termination timer is cancelled in any case. */
  function Create(s: Server, sender: string, device: string, allowed: bool): (Server, Answer) {
    var path := CreatedPath(device);
    if !allowed then (s.(armed := false), BadPath)
    else
      var known := path in s.registered;
      var client := if known then s.registered[path] else s.next;
      (Server(s.connections[sender := [client] + ListOf(s, sender)],
              s.registered[path := client],
              s.refs + multiset{client},
              if known then s.next else s.next + 1,
              s.clientCount + 1,
              false),
       Path(path))
  }

  /** Shutdown counts down for any client that it finds, but gives back a
      reference only if the sender holds one. */
  function Shutdown(s: Server, sender: string, device: string, autoTerminate: bool): (Server, Answer) {
    if SoughtPath(device) !in s.registered then (s, NoClient(Basename(device)))
    else
      var client := s.registered[SoughtPath(device)];
      var list := ListOf(s, sender);
      var refs := if client in list then s.refs - multiset{client} else s.refs;
      (s.(connections := s.connections[sender := Without(list, client)],
          registered := Live(s.registered, refs),
          refs := refs,
          clientCount := s.clientCount - 1,
          armed := s.armed || (s.clientCount == 1 && autoTerminate)),
       Done)
  }

  /** A sender that leaves the bus gives back all its references.  The timer is
      armed when the counter comes by zero, whatever autoTerminate says. */
  function RemoveClients(s: Server, sender: string): Server {
    if sender !in s.connections then s
    else
      var list := s.connections[sender];
      var refs := s.refs - multiset(list);
      s.(connections := s.connections - {sender},
         registered := Live(s.registered, refs),
         refs := refs,
         clientCount := s.clientCount - |list|,
         armed := s.armed || 1 <= s.clientCount <= |list|)
  }

  // ----------------------------------------------------- what is held in all

  /** Everything that the lists of all senders hold. */
  ghost function Held(connections: map<string, seq<nat>>): multiset<nat>
    decreases |connections|
  {
    if connections == map[] then multiset{}
    else
      var sender :| sender in connections;
      multiset(connections[sender]) + Held(connections - {sender})
  }

  /** Any sender's list can be counted first. */
  lemma {:induction false} HeldBy(connections: map<string, seq<nat>>, sender: string)
    requires sender in connections
    ensures Held(connections) == multiset(connections[sender]) + Held(connections - {sender})
    decreases |connections|
  {
    var first :| first in connections
                 && Held(connections) == multiset(connections[first]) + Held(connections - {first});
    if first != sender {
      HeldBy(connections - {first}, sender);
      HeldBy(connections - {sender}, first);
      assert connections - {first} - {sender} == connections - {sender} - {first};
    }
  }

  lemma HeldWith(connections: map<string, seq<nat>>, sender: string, list: seq<nat>)
    ensures Held(connections[sender := list]) == multiset(list) + Held(connections - {sender})
  {
    HeldBy(connections[sender := list], sender);
    assert connections[sender := list] - {sender} == connections - {sender};
  }

  lemma HeldApart(s: Server, sender: string)
    ensures Held(s.connections) == multiset(ListOf(s, sender)) + Held(s.connections - {sender})
  {
    if sender in s.connections {
      HeldBy(s.connections, sender);
    } else {
      assert s.connections - {sender} == s.connections;
    }
  }

  lemma {:induction false} HeldBySomeone(connections: map<string, seq<nat>>, client: nat)
    requires client in Held(connections)
    ensures exists sender :: sender in connections && client in connections[sender]
    decreases |connections|
  {
    var first :| first in connections
                 && Held(connections) == multiset(connections[first]) + Held(connections - {first});
    if client !in connections[first] {
      HeldBySomeone(connections - {first}, client);
    }
  }

  lemma ConsMultiset(list: seq<nat>)
    requires list != []
    ensures multiset(list) == multiset{list[0]} + multiset(list[1..])
  {
    assert list == [list[0]] + list[1..];
  }

  lemma {:induction false} WithoutTakesOne(list: seq<nat>, client: nat)
    ensures multiset(Without(list, client)) == multiset(list) - multiset{client}
    decreases |list|
  {
    if list != [] {
      ConsMultiset(list);
      if list[0] != client {
        WithoutTakesOne(list[1..], client);
        ConsMultiset(Without(list, client));
      }
    }
  }

  // ------------------------------------------------------------- invariants

  /** References and lists are in step, and exactly the live objects are
      registered, each at one path. */
  ghost predicate Sound(s: Server) {
    s.refs == Held(s.connections) && Registry(s.registered, s.refs, s.next)
  }

  ghost predicate Registry(registered: map<string, nat>, refs: multiset<nat>, next: nat) {
    && (forall c :: c in refs ==> c < next && c in registered.Values)
    && (forall p :: p in registered ==> registered[p] in refs && ':' !in p)
    && Injective(registered)
  }

  ghost predicate Injective(registered: map<string, nat>) {
    forall p, q :: p in registered && q in registered && registered[p] == registered[q] ==> p == q
  }

  /** An object is alive exactly as long as some sender's list holds it. */
  lemma AliveIffHeld(s: Server, client: nat)
    requires Sound(s)
    ensures client in s.refs <==> exists sender :: sender in s.connections && client in s.connections[sender]
  {
    if client in s.refs {
      HeldBySomeone(s.connections, client);
    }
    if sender :| sender in s.connections && client in s.connections[sender] {
      HeldBy(s.connections, sender);
    }
  }

  lemma LiveRegistry(registered: map<string, nat>, refs: multiset<nat>, next: nat, refs': multiset<nat>)
    requires Registry(registered, refs, next) && refs' <= refs
    ensures Registry(Live(registered, refs'), refs', next)
  {
    forall c | c in refs'
      ensures c < next && c in Live(registered, refs').Values
    {
      assert c in refs;
      var p :| p in registered && registered[p] == c;
      assert p in Live(registered, refs') && Live(registered, refs')[p] == c;
    }
  }

  lemma NewRegistry(registered: map<string, nat>, refs: multiset<nat>, next: nat, path: string)
    requires Registry(registered, refs, next) && path !in registered && ':' !in path
    ensures Registry(registered[path := next], refs + multiset{next}, next + 1)
  {
    var registered' := registered[path := next];
    assert registered'[path] == next;
    forall c | c in refs
      ensures c in registered'.Values
    {
      var p :| p in registered && registered[p] == c;
      assert p in registered' && registered'[p] == c;
    }
  }

  lemma KnownRegistry(registered: map<string, nat>, refs: multiset<nat>, next: nat, path: string)
    requires Registry(registered, refs, next) && path in registered
    ensures registered[path := registered[path]] == registered
    ensures Registry(registered, refs + multiset{registered[path]}, next)
  {
  }

  /** Create adds one to what its sender holds. */
  lemma CreateHolds(s: Server, sender: string, device: string)
    requires s.refs == Held(s.connections)
    ensures var s' := Create(s, sender, device, true).0; s'.refs == Held(s'.connections)
  {
    var s' := Create(s, sender, device, true).0;
    var list, list' := ListOf(s, sender), s'.connections[sender];
    HeldApart(s, sender);
    HeldWith(s.connections, sender, list');
    assert multiset(list') == multiset{list'[0]} + multiset(list);
  }

  lemma ShutdownHolds(s: Server, sender: string, device: string, autoTerminate: bool)
    requires s.refs == Held(s.connections) && SoughtPath(device) in s.registered
    ensures var s' := Shutdown(s, sender, device, autoTerminate).0; s'.refs == Held(s'.connections)
  {
    var client, list := s.registered[SoughtPath(device)], ListOf(s, sender);
    HeldApart(s, sender);
    HeldWith(s.connections, sender, Without(list, client));
    WithoutTakesOne(list, client);
  }

  lemma CreateRegistry(s: Server, sender: string, device: string)
    requires Registry(s.registered, s.refs, s.next)
    ensures var s' := Create(s, sender, device, true).0; Registry(s'.registered, s'.refs, s'.next)
  {
    var s', path := Create(s, sender, device, true).0, CreatedPath(device);
    if path in s.registered {
      assert s'.registered == s.registered[path := s.registered[path]] && s'.next == s.next;
      KnownRegistry(s.registered, s.refs, s.next, path);
    } else {
      assert s'.registered == s.registered[path := s.next] && s'.next == s.next + 1;
      NewRegistry(s.registered, s.refs, s.next, path);
    }
  }

  lemma CreateSound(s: Server, sender: string, device: string, allowed: bool)
    requires Sound(s)
    ensures Sound(Create(s, sender, device, allowed).0)
  {
    if allowed {
      CreateHolds(s, sender, device);
      CreateRegistry(s, sender, device);
    }
  }

  lemma ShutdownSound(s: Server, sender: string, device: string, autoTerminate: bool)
    requires Sound(s)
    ensures Sound(Shutdown(s, sender, device, autoTerminate).0)
  {
    if SoughtPath(device) in s.registered {
      ShutdownHolds(s, sender, device, autoTerminate);
      LiveRegistry(s.registered, s.refs, s.next, Shutdown(s, sender, device, autoTerminate).0.refs);
    }
  }

  lemma RemoveSound(s: Server, sender: string)
    requires Sound(s)
    ensures Sound(RemoveClients(s, sender))
  {
    if sender in s.connections {
      HeldBy(s.connections, sender);
      LiveRegistry(s.registered, s.refs, s.next, RemoveClients(s, sender).refs);
    }
  }

  lemma AllLive(registered: map<string, nat>, refs: multiset<nat>, next: nat)
    requires Registry(registered, refs, next)
    ensures Live(registered, refs) == registered
  {
  }

  /** An object made for a path and destroyed again leaves the registry as it was. */
  lemma RegistryUndone(registered: map<string, nat>, refs: multiset<nat>, next: nat, path: string, client: nat)
    requires Registry(registered, refs, next)
    requires client == if path in registered then registered[path] else next
    ensures Live(registered[path := client], refs) == registered
  {
    AllLive(registered, refs, next);
    assert next !in refs;
  }

  /** Shutdown of the device that the sender has created last. */
  lemma ShutdownOfLast(s: Server, sender: string, device: string, autoTerminate: bool, client: nat, list: seq<nat>)
    requires SoughtPath(device) in s.registered && s.registered[SoughtPath(device)] == client
    requires ListOf(s, sender) == [client] + list
    ensures var s' := Shutdown(s, sender, device, autoTerminate).0;
            && s'.connections == s.connections[sender := list]
            && s'.refs == s.refs - multiset{client}
            && s'.registered == Live(s.registered, s.refs - multiset{client})
            && s'.clientCount == s.clientCount - 1
  {
    assert Without([client] + list, client) == list;
  }

  /** What a sender does is undone by its Shutdown of the same device, if the
      device name has no colon: nothing is left but an entry for the sender. */
  lemma CreateShutdownUndone(s: Server, sender: string, device: string, autoTerminate: bool)
    requires Sound(s) && ':' !in Basename(device)
    ensures var s' := Shutdown(Create(s, sender, device, true).0, sender, device, autoTerminate).0;
            && s'.connections == s.connections[sender := ListOf(s, sender)]
            && s'.refs == s.refs && s'.registered == s.registered && s'.clientCount == s.clientCount
  {
    PathsMeet(device);
    var s1, path := Create(s, sender, device, true).0, CreatedPath(device);
    var client := s1.registered[path];
    ShutdownOfLast(s1, sender, device, autoTerminate, client, ListOf(s, sender));
    assert s.refs + multiset{client} - multiset{client} == s.refs;
    RegistryUndone(s.registered, s.refs, s.next, path, client);
  }
}
