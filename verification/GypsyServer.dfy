/** The server object (src/gypsy-server.c), proved to do what ServerState says. */
module GypsyServer {
  import opened ServerState
  import opened ServerHoldings

  class GypsyServer {
    const autoTerminate: bool
    var connections: map<string, seq<nat>>
    // The objects registered on the bus and the references held on objects.
    var registered: map<string, nat>
    var refs: multiset<nat>
    var next: nat
    var clientCount: int
    var armed: bool

    function Value(): Server
      reads this
    {
      Server(connections, registered, refs, next, clientCount, armed)
    }

    ghost predicate Valid()
      reads this
    {
      Sound(Value())
    }

    constructor (autoTerminate: bool)
      ensures Valid() && Value() == START && this.autoTerminate == autoTerminate
    {
      this.autoTerminate := autoTerminate;
      connections, registered, refs, next := map[], map[], multiset{}, 0;
      clientCount, armed := 0, false;
    }

    /** g_object_unref: the last reference destroys the object and frees its path.
        No reference is given back that is not there. */
    method Unref(client: nat)
      requires client in refs
      requires registered == Live(registered, refs)
      modifies this`registered, this`refs
      ensures refs == old(refs) - multiset{client}
      ensures registered == Live(old(registered), refs)
    {
      refs := refs - multiset{client};
      if client !in refs {
        registered := map p | p in registered && registered[p] != client :: registered[p];
      }
    }

    /** The object of a path, with one more reference: a new one if there is none. */
    method Take(path: string) returns (client: nat)
      modifies this`registered, this`refs, this`next
      ensures client == if path in old(registered) then old(registered)[path] else old(next)
      ensures registered == old(registered)[path := client] && refs == old(refs) + multiset{client}
      ensures next == if path in old(registered) then old(next) else old(next) + 1
    {
      if path !in registered {
        client := next;
        registered, refs, next := registered[path := client], refs + multiset{client}, next + 1;
      } else {
        client := registered[path];
        refs := refs + multiset{client};
        assert registered == registered[path := client];
      }
    }

    /** One client less; at zero the timer is armed, if arms says so. */
    method CountDown(arms: bool)
      modifies this`clientCount, this`armed
      ensures clientCount == old(clientCount) - 1
      ensures armed == (old(armed) || (clientCount == 0 && arms))
    {
      clientCount := clientCount - 1;
      if clientCount == 0 {
        if arms && !armed {
          armed := true;
        }
      }
    }

    /** The timer is removed if it is there. */
    method Cancel()
      modifies this`armed
      ensures Value() == old(Value()).(armed := false)
    {
      if armed {
        armed := false;
      }
    }

    /** The part of Create for a device that is allowed. */
    method Open(sender: string, device: string)
      modifies this
      ensures Value() == ServerState.Create(old(Value()), sender, device, true).0.(armed := old(armed))
    {
      var client := Take(CreatedPath(device));
      var list := if sender in connections then connections[sender] else [];
      list := [client] + list;
      connections := connections[sender := list];
      clientCount := clientCount + 1;
    }

    method Create(sender: string, device: string, allowed: bool) returns (answer: Answer)
      requires Valid()
      modifies this
      ensures Valid()
      ensures Value() == ServerState.Create(old(Value()), sender, device, allowed).0
      ensures answer == ServerState.Create(old(Value()), sender, device, allowed).1
      ensures Opens(old(Value()), Value(), answer, sender, device, allowed)
    {
      CreateAnswers(Value(), sender, device, allowed);
      CreateSound(Value(), sender, device, allowed);
      TimerIsCancelled(Value(), sender, device, allowed);
      Cancel();
      if !allowed {
        return BadPath;
      }
      Open(sender, device);
      answer := Path(CreatedPath(device));
    }

    /** The sender's reference on a client is given back, if it has one. */
    method GiveBack(sender: string, client: nat)
      requires client in refs
      requires registered == Live(registered, refs)
      modifies this`registered, this`refs, this`connections
      ensures connections == old(connections)[sender := Without(ListOf(old(Value()), sender), client)]
      ensures refs == if client in ListOf(old(Value()), sender) then old(refs) - multiset{client} else old(refs)
      ensures registered == Live(old(registered), refs)
    {
      var list := if sender in connections then connections[sender] else [];
      if client in list {
        Unref(client);
      }
      list := Without(list, client);
      connections := connections[sender := list];
    }

    /** The part of Shutdown for a client that has been found. */
    method Close(sender: string, device: string)
      requires SoughtPath(device) in registered && registered[SoughtPath(device)] in refs
      requires registered == Live(registered, refs)
      modifies this
      ensures Value() == ServerState.Shutdown(old(Value()), sender, device, autoTerminate).0
    {
      var client := registered[SoughtPath(device)];
      CountDown(autoTerminate);
      GiveBack(sender, client);
    }

    method Shutdown(sender: string, device: string) returns (answer: Answer)
      requires Valid()
      modifies this
      ensures Valid()
      ensures Value() == ServerState.Shutdown(old(Value()), sender, device, autoTerminate).0
      ensures answer == ServerState.Shutdown(old(Value()), sender, device, autoTerminate).1
      ensures Closes(old(Value()), Value(), answer, sender, device)
    {
      ShutdownTakesNamed(Value(), sender, device, autoTerminate);
      ShutdownSound(Value(), sender, device, autoTerminate);
      var name := Basename(device);
      if GPS_PATH + name !in registered {
        return NoClient(name);
      }
      AllLive(registered, refs, next);
      Close(sender, device);
      answer := Done;
    }

    /** What the loop over a sender's list has given back so far. */
    ghost predicate Released(was: Server, list: seq<nat>, i: nat)
      reads this
    {
      && i <= |list|
      && refs == was.refs - multiset(list[..i])
      && registered == Live(was.registered, refs)
      && clientCount == was.clientCount - i
      && (armed <==> was.armed || 1 <= was.clientCount <= i)
      && connections == was.connections && next == was.next
    }

    /** One round of the loop. */
    method ReleaseNext(ghost was: Server, list: seq<nat>, i: nat)
      requires Released(was, list, i) && i < |list| && multiset(list) <= was.refs
      modifies this`registered, this`refs, this`clientCount, this`armed
      ensures Released(was, list, i + 1)
    {
      NextIsReferenced(was.refs, list, i);
      LiveOfLive(was.registered, was.refs - multiset(list[..i]), was.refs - multiset(list[..i + 1]));
      Unref(list[i]);
      CountDown(true);
    }

    /** The loop over a sender's list. */
    method ReleaseAll(list: seq<nat>)
      requires multiset(list) <= refs && registered == Live(registered, refs)
      modifies this`registered, this`refs, this`clientCount, this`armed
      ensures Released(old(Value()), list, |list|)
    {
      ghost var was := Value();
      var i := 0;
      assert refs == refs - multiset(list[..0]);
      while i < |list|
        invariant Released(was, list, i)
      {
        ReleaseNext(was, list, i);
        i := i + 1;
      }
    }

    /** The part of RemoveClients for a sender that is known. */
    method Drop(sender: string)
      requires sender in connections && multiset(connections[sender]) <= refs && registered == Live(registered, refs)
      modifies this
      ensures Value() == ServerState.RemoveClients(old(Value()), sender)
    {
      var list := connections[sender];
      ReleaseAll(list);
      assert list[..|list|] == list;
      connections := connections - {sender};
    }

    method RemoveClients(sender: string)
      requires Valid()
      modifies this
      ensures Valid()
      ensures Value() == ServerState.RemoveClients(old(Value()), sender)
    {
      RemoveSound(Value(), sender);
      if sender in connections {
        HeldBy(connections, sender);
        AllLive(registered, refs, next);
        Drop(sender);
      }
    }
  }

  lemma LiveOfLive(registered: map<string, nat>, refs: multiset<nat>, refs': multiset<nat>)
    requires refs' <= refs
    ensures Live(Live(registered, refs), refs') == Live(registered, refs')
    ensures Live(Live(registered, refs), refs) == Live(registered, refs)
  {
  }

  lemma TimerIsCancelled(s: Server, sender: string, device: string, allowed: bool)
    ensures ServerState.Create(s, sender, device, allowed)
         == ServerState.Create(s.(armed := false), sender, device, allowed)
    ensures !allowed ==> ServerState.Create(s, sender, device, allowed).0 == s.(armed := false)
  {
  }

  /** There is a reference left for each object of the list still to come. */
  lemma NextIsReferenced(refs: multiset<nat>, list: seq<nat>, i: nat)
    requires multiset(list) <= refs && i < |list|
    ensures list[i] in refs - multiset(list[..i])
    ensures refs - multiset(list[..i + 1]) <= refs - multiset(list[..i])
    ensures refs - multiset(list[..i]) - multiset{list[i]} == refs - multiset(list[..i + 1])
  {
    assert list == list[..i + 1] + list[i + 1..];
    assert list[..i + 1] == list[..i] + [list[i]];
  }
}
