/** Which object a request to the server is about, and how many references a sender
    holds of each device after any run of requests. */
module ServerHoldings {
  import opened ServerState
  import opened ServerRuns

  /** How often a sender holds the object that is registered at a path. */
  function Holds(s: Server, sender: string, path: string): nat {
    if path in s.registered then multiset(ListOf(s, sender))[s.registered[path]] else 0
  }

  // ------------------------------------------------------------ one request

  lemma ListIsHeld(s: Server, sender: string)
    requires Sound(s)
    ensures multiset(ListOf(s, sender)) <= s.refs
  {
    HeldApart(s, sender);
  }

  /** The answer to a Create that is allowed is a path that leads to the first object
      of the sender's list, the one that was there or one that nobody has held.  A
      Create that is refused changes nothing but the timer. */
  ghost predicate Opens(s: Server, s': Server, answer: Answer, sender: string, device: string, allowed: bool) {
    if !allowed then answer == BadPath && s' == s.(armed := false)
    else
      var path := "/org/freedesktop/Gypsy/" + Delimited(Basename(device));
      && answer == Path(path) && path in s'.registered
      && ListOf(s', sender) == [s'.registered[path]] + ListOf(s, sender)
      && (if path in s.registered then s'.registered == s.registered
          else s'.registered[path] !in s.refs && s'.registered - {path} == s.registered)
  }

  lemma CreateAnswers(s: Server, sender: string, device: string, allowed: bool)
    requires Sound(s)
    ensures var (s', answer) := Create(s, sender, device, allowed);
            Opens(s, s', answer, sender, device, allowed)
  {
    var path := CreatedPath(device);
    if allowed && path !in s.registered {
      assert s.registered[path := s.next] - {path} == s.registered;
    }
  }

  /** Only the object whose references change can lose its path. */
  lemma OthersStay(s: Server, s': Server, path: string)
    requires Registry(s.registered, s.refs, s.next) && path in s.registered
    requires s'.registered == Live(s.registered, s'.refs)
    requires forall o :: o != s.registered[path] ==> s'.refs[o] == s.refs[o]
    ensures path in s'.registered <==> s.registered[path] in s'.refs
    ensures path in s'.registered ==> s'.registered == s.registered
    ensures s'.registered - {path} == s.registered - {path}
  {
    forall p | p in s.registered && p != path
      ensures p in s'.registered && s'.registered[p] == s.registered[p]
    {
      assert s.registered[p] in s.refs && s.registered[p] != s.registered[path];
    }
  }

  /** Of one object there is a reference less and an entry less, if there was an entry;
      every other one is referenced and listed as before. */
  ghost predicate OneLess(refs: multiset<nat>, refs': multiset<nat>,
                          list: multiset<nat>, list': multiset<nat>, named: nat)
  {
    && (forall o :: o != named ==> refs'[o] == refs[o] && list'[o] == list[o])
    && (named in list ==> refs'[named] + 1 == refs[named] && list'[named] + 1 == list[named])
    && (named !in list ==> refs' == refs && list' == list)
  }

  /** What a sender gives back is one object. */
  ghost predicate GivesBack(s: Server, s': Server, sender: string, named: nat) {
    OneLess(s.refs, s'.refs, multiset(ListOf(s, sender)), multiset(ListOf(s', sender)), named)
  }

  lemma OneIsTaken(refs: multiset<nat>, list: multiset<nat>, named: nat)
    requires list <= refs
    ensures OneLess(refs, if named in list then refs - multiset{named} else refs, list, list - multiset{named}, named)
  {
    if named !in list {
      assert list - multiset{named} == list;
    }
  }

  lemma ShutdownGivesBack(s: Server, sender: string, device: string, autoTerminate: bool)
    requires Sound(s) && SoughtPath(device) in s.registered
    ensures GivesBack(s, Shutdown(s, sender, device, autoTerminate).0, sender, s.registered[SoughtPath(device)])
  {
    var named, list := s.registered[SoughtPath(device)], ListOf(s, sender);
    WithoutTakesOne(list, named);
    ListIsHeld(s, sender);
    OneIsTaken(s.refs, multiset(list), named);
  }

  /** What is given back is the object registered at the device's path and no other:
      of that one the sender has one reference less if it had any, every other
      object is referenced and listed as before, and every other path leads where it
      led.  With nothing at the path the answer says so and nothing changes. */
  ghost predicate Closes(s: Server, s': Server, answer: Answer, sender: string, device: string) {
    var path := SoughtPath(device);
    if path !in s.registered then s' == s && answer == NoClient(Basename(device))
    else
      && answer == Done
      && GivesBack(s, s', sender, s.registered[path])
      && (path in s'.registered <==> s.registered[path] in s'.refs)
      && (path in s'.registered ==> s'.registered == s.registered)
      && s'.registered - {path} == s.registered - {path}
  }

  lemma ShutdownTakesNamed(s: Server, sender: string, device: string, autoTerminate: bool)
    requires Sound(s)
    ensures var (s', answer) := Shutdown(s, sender, device, autoTerminate);
            Closes(s, s', answer, sender, device)
  {
    var path := SoughtPath(device);
    if path in s.registered {
      ShutdownGivesBack(s, sender, device, autoTerminate);
      OthersStay(s, Shutdown(s, sender, device, autoTerminate).0, path);
    }
  }

  // --------------------------------------------------------- runs of requests

  /** What a sender should hold of the device at a path after one more request: one
      more by its own Create that is allowed, one less by its own Shutdown if it has
      any, and nothing when it vanishes. */
  function Due(before: nat, request: Request, sender: string, path: string): nat {
    if request.sender != sender then before
    else
      match request
      case CreateOf(_, device, allowed) => if allowed && CreatedPath(device) == path then before + 1 else before
      case ShutdownOf(_, device) => if SoughtPath(device) == path && before > 0 then before - 1 else before
      case Vanished(_) => 0
  }

  /** The references that a sender should hold after a run, by its own requests
      alone. */
  function Balance(requests: seq<Request>, sender: string, path: string): nat
    decreases |requests|
  {
    if requests == [] then 0
    else Due(Balance(requests[..|requests| - 1], sender, path), requests[|requests| - 1], sender, path)
  }

  /** A path leads to the same object after a request, or to nothing any more; one
      that led to nothing can only lead to a new one. */
  lemma PathLeadsOn(s: Server, request: Request, autoTerminate: bool, path: string)
    ensures var s' := Serve(s, request, autoTerminate);
            path in s'.registered ==>
              s'.registered[path] == if path in s.registered then s.registered[path] else s.next
  {
  }

  lemma OthersKeepPath(s: Server, request: Request, autoTerminate: bool, sender: string, path: string)
    requires Sound(s) && request.sender != sender && Holds(s, sender, path) > 0
    ensures path in Serve(s, request, autoTerminate).registered
  {
    ServeKeeps(s, request, autoTerminate, sender);
    assert s.registered[path] in ListOf(s, sender);
  }

  lemma OthersKeepHoldings(s: Server, request: Request, autoTerminate: bool, sender: string, path: string)
    requires Sound(s) && request.sender != sender
    ensures Holds(Serve(s, request, autoTerminate), sender, path) == Holds(s, sender, path)
  {
    ServeKeepsList(s, request, autoTerminate, sender);
    PathLeadsOn(s, request, autoTerminate, path);
    if Holds(s, sender, path) > 0 {
      OthersKeepPath(s, request, autoTerminate, sender, path);
    } else {
      ListIsHeld(s, sender);
    }
  }

  lemma ConsCounts(client: nat, list: seq<nat>, o: nat)
    ensures multiset([client] + list)[o] == multiset(list)[o] + (if o == client then 1 else 0)
  {
    assert multiset([client] + list) == multiset{client} + multiset(list);
  }

  lemma CreateHoldsOneMore(s: Server, sender: string, device: string, path: string)
    requires Sound(s)
    ensures Holds(Create(s, sender, device, true).0, sender, path)
         == Holds(s, sender, path) + (if CreatedPath(device) == path then 1 else 0)
  {
    var s', list := Create(s, sender, device, true).0, ListOf(s, sender);
    ListIsHeld(s, sender);
    if path in s'.registered {
      ConsCounts(s'.registered[CreatedPath(device)], list, s'.registered[path]);
      if path in s.registered {
        assert s'.registered[path] == s.registered[path] && s.registered[path] in s.refs;
      }
    }
  }

  /** The same path, with the same object or none, and as many references. */
  lemma SameHoldings(s: Server, s': Server, sender: string, path: string)
    requires path in s.registered <==> path in s'.registered
    requires path in s.registered ==>
               && s'.registered[path] == s.registered[path]
               && multiset(ListOf(s', sender))[s.registered[path]] == multiset(ListOf(s, sender))[s.registered[path]]
    ensures Holds(s', sender, path) == Holds(s, sender, path)
  {
  }

  lemma OtherPathsStay(s: Server, s': Server, sender: string, named: string, path: string)
    requires Sound(s) && named in s.registered && path != named
    requires GivesBack(s, s', sender, s.registered[named])
    requires s'.registered - {named} == s.registered - {named}
    ensures Holds(s', sender, path) == Holds(s, sender, path)
  {
    assert path in s.registered <==> path in s.registered - {named};
    assert path in s'.registered <==> path in s'.registered - {named};
    if path in s.registered {
      assert (s.registered - {named})[path] == s.registered[path];
      assert s.registered[path] != s.registered[named];
    }
    SameHoldings(s, s', sender, path);
  }

  lemma NamedHoldsOneLess(s: Server, s': Server, sender: string, path: string)
    requires path in s.registered && GivesBack(s, s', sender, s.registered[path])
    requires multiset(ListOf(s', sender)) <= s'.refs
    requires path in s'.registered <==> s.registered[path] in s'.refs
    requires path in s'.registered ==> s'.registered == s.registered
    ensures var before := Holds(s, sender, path); Holds(s', sender, path) == if before > 0 then before - 1 else before
  {
    var named := s.registered[path];
    assert multiset(ListOf(s', sender))[named] <= s'.refs[named];
  }

  lemma ShutdownHoldsOneLess(s: Server, sender: string, device: string, autoTerminate: bool, path: string)
    requires Sound(s)
    ensures Holds(Shutdown(s, sender, device, autoTerminate).0, sender, path)
         == Due(Holds(s, sender, path), ShutdownOf(sender, device), sender, path)
  {
    var s', named := Shutdown(s, sender, device, autoTerminate).0, SoughtPath(device);
    ShutdownTakesNamed(s, sender, device, autoTerminate);
    if named in s.registered {
      if path == named {
        ShutdownSound(s, sender, device, autoTerminate);
        ListIsHeld(s', sender);
        NamedHoldsOneLess(s, s', sender, path);
      } else {
        OtherPathsStay(s, s', sender, named, path);
      }
    }
  }

  lemma ServeBalances(s: Server, request: Request, autoTerminate: bool, sender: string, path: string)
    requires Sound(s)
    ensures Holds(Serve(s, request, autoTerminate), sender, path)
         == Due(Holds(s, sender, path), request, sender, path)
  {
    if request.sender != sender {
      OthersKeepHoldings(s, request, autoTerminate, sender, path);
    } else {
      match request
      case CreateOf(_, device, allowed) => if allowed { CreateHoldsOneMore(s, sender, device, path); }
      case ShutdownOf(_, device) => ShutdownHoldsOneLess(s, sender, device, autoTerminate, path);
      case Vanished(_) => NothingHeld(RemoveClients(s, sender), sender, path);
    }
  }

  lemma NothingHeld(s: Server, sender: string, path: string)
    requires ListOf(s, sender) == []
    ensures Holds(s, sender, path) == 0
  {
  }

  /** After any run, whatever the others do, a sender holds the object at a path as
      often as its own requests for that device say. */
  lemma {:induction false} HoldingsAreBalanced(requests: seq<Request>, autoTerminate: bool,
                                                 sender: string, path: string)
    ensures Holds(ServeAll(START, requests, autoTerminate), sender, path) == Balance(requests, sender, path)
    decreases |requests|
  {
    if requests != [] {
      var init := requests[..|requests| - 1];
      HoldingsAreBalanced(init, autoTerminate, sender, path);
      RunSound(START, init, autoTerminate);
      ServeBalances(ServeAll(START, init, autoTerminate), requests[|requests| - 1], autoTerminate, sender, path);
    }
  }

  /** So a device is on the bus exactly as long as some sender has asked for it more
      often than it has given it back. */
  lemma RegisteredIffBalance(requests: seq<Request>, autoTerminate: bool, path: string)
    ensures path in ServeAll(START, requests, autoTerminate).registered
            <==> exists sender :: Balance(requests, sender, path) > 0
  {
    var s := ServeAll(START, requests, autoTerminate);
    RunSound(START, requests, autoTerminate);
    if path in s.registered {
      var o := s.registered[path];
      AliveIffHeld(s, o);
      var sender :| sender in s.connections && o in s.connections[sender];
      HoldingsAreBalanced(requests, autoTerminate, sender, path);
      assert Balance(requests, sender, path) > 0;
    }
    if sender :| Balance(requests, sender, path) > 0 {
      HoldingsAreBalanced(requests, autoTerminate, sender, path);
    }
  }

  /** And a Shutdown is stray exactly if its sender has given back all that it asked
      for while another has not. */
  lemma StrayIffNoBalance(requests: seq<Request>, autoTerminate: bool, sender: string, device: string)
    ensures Stray(ServeAll(START, requests, autoTerminate), ShutdownOf(sender, device))
            <==> Balance(requests, sender, SoughtPath(device)) == 0
                 && exists other :: Balance(requests, other, SoughtPath(device)) > 0
  {
    HoldingsAreBalanced(requests, autoTerminate, sender, SoughtPath(device));
    RegisteredIffBalance(requests, autoTerminate, SoughtPath(device));
  }
}
