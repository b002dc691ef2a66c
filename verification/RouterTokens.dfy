/** Which router a setup token speaks for (packages/network/src/router.service.ts): a new setup
    command, a check-in, a removal, and a removed router added again. A stored hash stands for the
    token it came from: distinct tokens hash differently. */
module RouterTokens {
  import opened Optional

  type Hash = nat

  datatype Router = Router(tenant: nat, name: nat, host: Option<nat>, current: Option<Hash>, previous: Option<Hash>,
                           provisioned: bool, createdAt: int, deletedAt: Option<int>, credentials: nat)

  /** The records, every token ever issued, and for each record the token its router last checked in
      with (what the router in the field holds, not something the database knows). */
  datatype World = World(routers: seq<Router>, issued: set<Hash>, last: map<nat, Hash>)

  datatype Event =
    | CreatePending(now: int, tenant: nat, name: nat, hash: Hash, credentials: nat)
    | CreateByAddress(now: int, tenant: nat, name: nat, host: nat, credentials: nat)
    | IssueSetup(id: nat, hash: Hash)
    | CheckIn(hash: Hash, address: nat, tunnel: bool)
    | Remove(now: int, id: nat)

  predicate Holds(r: Router, hash: Hash) {
    r.current == Some(hash) || r.previous == Some(hash)
  }

  predicate Live(r: Router) {
    r.deletedAt.None?
  }

  /** The live record of a token. */
  function FindLive(routers: seq<Router>, hash: Hash): (r: Option<nat>)
    ensures r.Some? ==> r.value < |routers| && Live(routers[r.value]) && Holds(routers[r.value], hash)
    ensures r.None? ==> forall i :: 0 <= i < |routers| && Live(routers[i]) ==> !Holds(routers[i], hash)
  {
    if |routers| == 0 then None
    else
      var n := |routers| - 1;
      var before := FindLive(routers[..n], hash);
      if before.Some? then before else if Live(routers[n]) && Holds(routers[n], hash) then Some(n) else None
  }

  /** The record removed last among those that held a token. */
  function FindRemoved(routers: seq<Router>, hash: Hash): (r: Option<nat>)
    ensures r.Some? ==> r.value < |routers| && !Live(routers[r.value]) && Holds(routers[r.value], hash)
    ensures r.None? ==> forall i :: 0 <= i < |routers| && !Live(routers[i]) ==> !Holds(routers[i], hash)
    ensures r.Some? ==> forall i :: 0 <= i < |routers| && !Live(routers[i]) && Holds(routers[i], hash) ==>
              routers[i].deletedAt.value <= routers[r.value].deletedAt.value
  {
    if |routers| == 0 then None
    else
      var n := |routers| - 1;
      var before := FindRemoved(routers[..n], hash);
      if Live(routers[n]) || !Holds(routers[n], hash) then before
      else if before.Some? && routers[before.value].deletedAt.value >= routers[n].deletedAt.value then before
      else Some(n)
  }

  /** A record the removed router may have been added again as. */
  predicate Candidate(removed: Router, r: Router)
    requires !Live(removed)
  {
    && r.tenant == removed.tenant && Live(r) && !r.provisioned
    && r.createdAt > removed.deletedAt.value
    && (r.name == removed.name || (removed.host.Some? && r.host == removed.host))
  }

  function Candidates(routers: seq<Router>, removed: Router): (r: seq<nat>)
    requires !Live(removed)
    ensures forall i :: i in r <==> 0 <= i < |routers| && Candidate(removed, routers[i])
    ensures forall i, j :: 0 <= i < j < |r| ==> r[i] < r[j]
  {
    if |routers| == 0 then []
    else
      var n := |routers| - 1;
      var before := Candidates(routers[..n], removed);
      assert forall k :: 0 <= k < |before| ==> before[k] in before;
      before + if Candidate(removed, routers[n]) then [n] else []
  }

  /** The removed record gives its tokens up; the presented one moves, with the credentials. */
  function Adopted(routers: seq<Router>, removed: nat, target: nat, hash: Hash): (r: seq<Router>)
    requires removed < |routers| && target < |routers|
    ensures |r| == |routers|
  {
    var t := routers[target];
    var given := t.(current := if t.current.Some? then t.current else Some(hash),
                    previous := if t.current.Some? then Some(hash) else t.previous,
                    credentials := routers[removed].credentials);
    routers[removed := routers[removed].(current := None, previous := None)][target := given]
  }

  datatype Found = Found(routers: seq<Router>, id: Option<nat>)

  function FindByToken(routers: seq<Router>, hash: Hash): (f: Found)
    ensures |f.routers| == |routers|
    ensures f.id.Some? ==> f.id.value < |routers|
  {
    var live := FindLive(routers, hash);
    if live.Some? then Found(routers, live)
    else
      var removed := FindRemoved(routers, hash);
      if removed.None? then Found(routers, None)
      else
        var candidates := Candidates(routers, routers[removed.value]);
        if |candidates| != 1 then Found(routers, None)
        else
          assert candidates[0] in candidates;
          Found(Adopted(routers, removed.value, candidates[0], hash), Some(candidates[0]))
  }

  /** What a check-in writes: the older token has done its job once the newest one is used. */
  function CheckedIn(r: Router, hash: Hash, address: nat, tunnel: bool): Router {
    r.(previous := if r.previous.Some? && r.current == Some(hash) then None else r.previous,
       provisioned := true,
       host := if tunnel || r.host.None? then Some(address) else r.host)
  }

  predicate NameTaken(routers: seq<Router>, tenant: nat, name: nat) {
    exists i :: 0 <= i < |routers| && routers[i].tenant == tenant && routers[i].name == name && Live(routers[i])
  }

  function Reissued(r: Router, hash: Hash): Router {
    r.(current := Some(hash), previous := if r.previous.Some? then r.previous else r.current)
  }

  function Step(w: World, e: Event): World {
    match e
    case CreatePending(now, tenant, name, hash, credentials) =>
      if NameTaken(w.routers, tenant, name) then w
      else World(w.routers + [Router(tenant, name, None, Some(hash), None, false, now, None, credentials)],
                 w.issued + {hash}, w.last)
    case CreateByAddress(now, tenant, name, host, credentials) =>
      if NameTaken(w.routers, tenant, name) then w
      else w.(routers := w.routers + [Router(tenant, name, Some(host), None, None, false, now, None, credentials)])
    case IssueSetup(id, hash) =>
      if id >= |w.routers| || !Live(w.routers[id]) then w
      else World(w.routers[id := Reissued(w.routers[id], hash)], w.issued + {hash}, w.last)
    case CheckIn(hash, address, tunnel) =>
      var f := FindByToken(w.routers, hash);
      if f.id.None? then w.(routers := f.routers)
      else World(f.routers[f.id.value := CheckedIn(f.routers[f.id.value], hash, address, tunnel)], w.issued,
                 w.last[f.id.value := hash])
    case Remove(now, id) =>
      if id >= |w.routers| || !Live(w.routers[id]) then w
      else w.(routers := w.routers[id := w.routers[id].(deletedAt := Some(now))])
  }

  function Run(w: World, events: seq<Event>): World
    decreases |events|
  {
    if |events| == 0 then w else Run(Step(w, events[0]), events[1..])
  }

  /** Tokens are random: a new one was never issued before. */
  ghost predicate FreshTokens(w: World, events: seq<Event>)
    decreases |events|
  {
    |events| == 0
    || ((events[0].CreatePending? || events[0].IssueSetup? ==> events[0].hash !in w.issued)
        && FreshTokens(Step(w, events[0]), events[1..]))
  }

  // ---------------------------------------------------------------------------------------
  // The invariant
  // ---------------------------------------------------------------------------------------

  /** No token is held twice, by two records or by one record in both places. */
  ghost predicate HeldOnce(routers: seq<Router>) {
    && (forall i, j, h :: 0 <= i < |routers| && 0 <= j < |routers| && Holds(routers[i], h) && Holds(routers[j], h) ==> i == j)
    && (forall i :: 0 <= i < |routers| && routers[i].current.Some? ==> routers[i].previous != routers[i].current)
  }

  ghost predicate OnlyIssued(w: World) {
    forall i, h :: 0 <= i < |w.routers| && Holds(w.routers[i], h) ==> h in w.issued
  }

  /** The token a live router works with is one of its record's two, and while it is the newest one
      there is no older one waiting. */
  ghost predicate Working(r: Router, hash: Hash) {
    Holds(r, hash) && (r.current == Some(hash) ==> r.previous.None?)
  }

  ghost predicate LastWorks(w: World) {
    forall i :: i in w.last ==>
      i < |w.routers| && w.routers[i].provisioned && (Live(w.routers[i]) ==> Working(w.routers[i], w.last[i]))
  }

  ghost predicate Inv(w: World) {
    HeldOnce(w.routers) && OnlyIssued(w) && LastWorks(w)
  }

  lemma CreatedInv(w: World, e: Event)
    requires Inv(w) && (e.CreatePending? || e.CreateByAddress?)
    requires e.CreatePending? ==> e.hash !in w.issued
    ensures Inv(Step(w, e))
  {
    hide NameTaken;
    var w' := Step(w, e);
    var n := |w.routers|;
    if |w'.routers| > n {
      forall i, j, h | 0 <= i <= n && 0 <= j <= n && Holds(w'.routers[i], h) && Holds(w'.routers[j], h)
        ensures i == j
      {
        assert i < n ==> Holds(w.routers[i], h);
        assert j < n ==> Holds(w.routers[j], h);
      }
      forall i, h | 0 <= i <= n && Holds(w'.routers[i], h)
        ensures h in w'.issued
      {
        assert i < n ==> Holds(w.routers[i], h);
      }
      assert forall i :: 0 <= i < n ==> w'.routers[i] == w.routers[i];
    }
  }

  /** Replacing one record by one whose tokens are its own or new keeps tokens held once. */
  lemma ReplacedHeldOnce(routers: seq<Router>, id: nat, r: Router, added: set<Hash>)
    requires HeldOnce(routers) && id < |routers|
    requires forall h :: Holds(r, h) ==> Holds(routers[id], h) || h in added
    requires forall i, h :: 0 <= i < |routers| && h in added ==> !Holds(routers[i], h)
    requires r.current.Some? ==> r.previous != r.current
    ensures HeldOnce(routers[id := r])
  {
    var routers' := routers[id := r];
    forall i, j, h | 0 <= i < |routers'| && 0 <= j < |routers'| && Holds(routers'[i], h) && Holds(routers'[j], h)
      ensures i == j
    {
      if h !in added {
        assert Holds(routers[i], h) && Holds(routers[j], h);
      }
    }
  }

  lemma ReissuedInv(w: World, id: nat, hash: Hash)
    requires Inv(w) && hash !in w.issued && id < |w.routers| && Live(w.routers[id])
    ensures Inv(Step(w, IssueSetup(id, hash)))
  {
    var r, r' := w.routers[id], Reissued(w.routers[id], hash);
    var w' := Step(w, IssueSetup(id, hash));
    assert !Holds(r, hash);
    forall h | Holds(r', h)
      ensures Holds(r, h) || h in {hash}
    {
    }
    forall i, h | 0 <= i < |w.routers| && h in {hash}
      ensures !Holds(w.routers[i], h)
    {
    }
    ReplacedHeldOnce(w.routers, id, r', {hash});
    forall i, h | 0 <= i < |w'.routers| && Holds(w'.routers[i], h)
      ensures h in w'.issued
    {
      assert h != hash ==> Holds(w.routers[i], h);
    }
  }

  lemma RemovedInv(w: World, now: int, id: nat)
    requires Inv(w) && id < |w.routers| && Live(w.routers[id])
    ensures Inv(Step(w, Remove(now, id)))
  {
    var w' := Step(w, Remove(now, id));
    forall h | Holds(w'.routers[id], h)
      ensures Holds(w.routers[id], h)
    {
    }
    ReplacedHeldOnce(w.routers, id, w'.routers[id], {});
    forall i, h | 0 <= i < |w'.routers| && Holds(w'.routers[i], h)
      ensures h in w'.issued
    {
      assert Holds(w.routers[i], h);
    }
  }

  /** Finding by token changes nothing but an adoption, and what it finds is live and holds the token. */
  lemma FoundInv(w: World, hash: Hash)
    requires Inv(w)
    ensures var f := FindByToken(w.routers, hash);
      && Inv(w.(routers := f.routers))
      && (f.id.Some? ==> Live(f.routers[f.id.value]) && Holds(f.routers[f.id.value], hash))
      && (f.routers == w.routers || (f.id.Some? && !w.routers[f.id.value].provisioned))
  {
    hide FindRemoved, FindLive;
    var live := FindLive(w.routers, hash);
    var removed := FindRemoved(w.routers, hash);
    if live.None? && removed.Some? {
      var candidates := Candidates(w.routers, w.routers[removed.value]);
      if |candidates| == 1 {
        assert candidates[0] in candidates;
        AdoptedInv(w, removed.value, candidates[0], hash);
      }
    }
  }

  lemma AdoptedInv(w: World, removed: nat, target: nat, hash: Hash)
    requires Inv(w) && removed < |w.routers| && target < |w.routers|
    requires !Live(w.routers[removed]) && Holds(w.routers[removed], hash)
    requires Candidate(w.routers[removed], w.routers[target])
    ensures Inv(w.(routers := Adopted(w.routers, removed, target, hash)))
    ensures Live(Adopted(w.routers, removed, target, hash)[target])
    ensures Holds(Adopted(w.routers, removed, target, hash)[target], hash)
  {
    var bare := w.routers[removed].(current := None, previous := None);
    var cleared := w.routers[removed := bare];
    ReplacedHeldOnce(w.routers, removed, bare, {});
    var routers' := Adopted(w.routers, removed, target, hash);
    forall i | 0 <= i < |cleared|
      ensures !Holds(cleared[i], hash)
    {
      assert i != removed ==> cleared[i] == w.routers[i];
    }
    assert cleared[target] == w.routers[target];
    forall h | Holds(routers'[target], h)
      ensures Holds(cleared[target], h) || h in {hash}
    {
    }
    ReplacedHeldOnce(cleared, target, routers'[target], {hash});
    var w' := w.(routers := routers');
    forall i, h | 0 <= i < |routers'| && Holds(routers'[i], h)
      ensures h in w'.issued
    {
      assert h == hash ==> Holds(w.routers[removed], h);
      assert h != hash ==> Holds(w.routers[i], h);
    }
    assert target !in w.last;
  }

  lemma CheckedInInv(w: World, id: nat, hash: Hash, address: nat, tunnel: bool)
    requires Inv(w) && id < |w.routers| && Live(w.routers[id]) && Holds(w.routers[id], hash)
    ensures Inv(World(w.routers[id := CheckedIn(w.routers[id], hash, address, tunnel)], w.issued, w.last[id := hash]))
  {
    var r := CheckedIn(w.routers[id], hash, address, tunnel);
    forall h | Holds(r, h)
      ensures Holds(w.routers[id], h)
    {
    }
    ReplacedHeldOnce(w.routers, id, r, {});
    var routers' := w.routers[id := r];
    forall i, h | 0 <= i < |routers'| && Holds(routers'[i], h)
      ensures h in w.issued
    {
      assert Holds(w.routers[i], h);
    }
  }

  lemma StepKeepsInv(w: World, e: Event)
    requires Inv(w)
    requires e.CreatePending? || e.IssueSetup? ==> e.hash !in w.issued
    ensures Inv(Step(w, e))
  {
    hide Inv, FindByToken;
    match e
    case CreatePending(_, _, _, _, _) => CreatedInv(w, e);
    case CreateByAddress(_, _, _, _, _) => CreatedInv(w, e);
    case IssueSetup(id, hash) =>
      if id < |w.routers| && Live(w.routers[id]) {
        ReissuedInv(w, id, hash);
      }
    case CheckIn(hash, address, tunnel) =>
      FoundInv(w, hash);
      var f := FindByToken(w.routers, hash);
      if f.id.Some? {
        CheckedInInv(w.(routers := f.routers), f.id.value, hash, address, tunnel);
      }
    case Remove(now, id) =>
      if id < |w.routers| && Live(w.routers[id]) {
        RemovedInv(w, now, id);
      }
  }

  lemma {:induction false} RunKeepsInv(w: World, events: seq<Event>)
    requires Inv(w) && FreshTokens(w, events)
    ensures Inv(Run(w, events))
    decreases |events|
  {
    hide Inv, Step;
    if |events| > 0 {
      StepKeepsInv(w, events[0]);
      RunKeepsInv(Step(w, events[0]), events[1..]);
    }
  }

  // ---------------------------------------------------------------------------------------
  // What it promises
  // ---------------------------------------------------------------------------------------

  lemma LiveHolderFound(routers: seq<Router>, id: nat, hash: Hash)
    requires HeldOnce(routers) && id < |routers| && Live(routers[id]) && Holds(routers[id], hash)
    ensures FindByToken(routers, hash) == Found(routers, Some(id))
  {
    hide FindLive;
    var live := FindLive(routers, hash);
  }

  /** After any interleaving of new commands, check-ins, removals and re-adds: the token a live router
      last checked in with is accepted, by its own record. */
  lemma LastTokenStaysAccepted(w: World, events: seq<Event>, id: nat)
    requires Inv(w) && FreshTokens(w, events)
    requires id in Run(w, events).last
    ensures id < |Run(w, events).routers|
    ensures Live(Run(w, events).routers[id]) ==>
              FindByToken(Run(w, events).routers, Run(w, events).last[id]) == Found(Run(w, events).routers, Some(id))
  {
    hide FindByToken, Run;
    RunKeepsInv(w, events);
    var w' := Run(w, events);
    if Live(w'.routers[id]) {
      LiveHolderFound(w'.routers, id, w'.last[id]);
    }
  }

  ghost predicate HeldByNone(routers: seq<Router>, hash: Hash) {
    forall i :: 0 <= i < |routers| ==> !Holds(routers[i], hash)
  }

  /** The first check-in with the newest token retires the older one. */
  lemma NewestTokenRetiresOlder(w: World, id: nat, e: Event)
    requires Inv(w) && e.CheckIn? && id < |w.routers| && Live(w.routers[id])
    requires w.routers[id].current == Some(e.hash) && w.routers[id].previous.Some?
    ensures HeldByNone(Step(w, e).routers, w.routers[id].previous.value)
    ensures w.routers[id].previous.value in Step(w, e).issued
    ensures Step(w, e).last[id] == e.hash && Step(w, e).routers[id].current == Some(e.hash)
  {
    hide FindByToken;
    LiveHolderFound(w.routers, id, e.hash);
    var older := w.routers[id].previous.value;
    assert Holds(w.routers[id], older);
    forall i | 0 <= i < |w.routers|
      ensures !Holds(Step(w, e).routers[i], older)
    {
      assert i != id ==> !Holds(w.routers[i], older);
    }
  }

  lemma StepKeepsRetired(w: World, e: Event, hash: Hash)
    requires Inv(w) && HeldByNone(w.routers, hash) && hash in w.issued
    requires e.CreatePending? || e.IssueSetup? ==> e.hash !in w.issued
    ensures HeldByNone(Step(w, e).routers, hash) && hash in Step(w, e).issued
  {
    hide FindRemoved, FindLive, NameTaken;
    if e.CheckIn? {
      var f := FindByToken(w.routers, e.hash);
      FoundInv(w, e.hash);
    }
  }

  /** A retired token is never accepted again. */
  lemma {:induction false} RetiredForGood(w: World, events: seq<Event>, hash: Hash)
    requires Inv(w) && FreshTokens(w, events) && HeldByNone(w.routers, hash) && hash in w.issued
    ensures FindByToken(Run(w, events).routers, hash) == Found(Run(w, events).routers, None)
    decreases |events|
  {
    hide Inv, Step, HeldByNone;
    if |events| == 0 {
      NobodyFound(w.routers, hash);
    } else {
      StepKeepsInv(w, events[0]);
      StepKeepsRetired(w, events[0], hash);
      RetiredForGood(Step(w, events[0]), events[1..], hash);
    }
  }

  lemma NobodyFound(routers: seq<Router>, hash: Hash)
    requires HeldByNone(routers, hash)
    ensures FindByToken(routers, hash) == Found(routers, None)
  {
    hide FindLive, FindRemoved;
    var live, removed := FindLive(routers, hash), FindRemoved(routers, hash);
  }

  /** Live, never checked in, of the same operator, added after the removal, under the same name or
      the same address. */
  ghost predicate AddedAgain(routers: seq<Router>, removed: nat, id: nat)
    requires removed < |routers| && routers[removed].deletedAt.Some?
  {
    && id < |routers| && routers[id].deletedAt == None && routers[id].provisioned == false
    && routers[id].tenant == routers[removed].tenant
    && routers[removed].deletedAt.value < routers[id].createdAt
    && (routers[id].name == routers[removed].name
        || exists address: nat :: routers[id].host == Some(address) && routers[removed].host == Some(address))
  }

  ghost predicate OnlyAddedAgain(routers: seq<Router>, removed: nat, id: nat)
    requires removed < |routers| && routers[removed].deletedAt.Some?
  {
    AddedAgain(routers, removed, id) && forall j: nat :: AddedAgain(routers, removed, j) ==> j == id
  }

  /** The token is now the record's: beside its own newest one if it has one, in that place otherwise.
      It has the credentials the box has and counts as checked in; the removed record holds nothing,
      and no other record has changed. */
  ghost predicate TokenMoved(w: World, w': World, removed: nat, id: nat, e: Event)
    requires e.CheckIn? && removed < |w.routers| && id < |w.routers|
  {
    && w'.last == w.last[id := e.hash] && w'.issued == w.issued && |w'.routers| == |w.routers|
    && var was, now := w.routers[id], w'.routers[id];
    && now.current == (if was.current.Some? then was.current else Some(e.hash))
    && now.previous == (if was.current.Some? then Some(e.hash) else None)
    && now.credentials == w.routers[removed].credentials
    && now.host == (if e.tunnel || was.host.None? then Some(e.address) else was.host)
    && now == was.(current := now.current, previous := now.previous, credentials := now.credentials, host := now.host, provisioned := true)
    && w'.routers[removed] == w.routers[removed].(current := None, previous := None)
    && forall j :: 0 <= j < |w.routers| && j != id && j != removed ==> w'.routers[j] == w.routers[j]
  }

  /** A removed record's token reaches another record exactly when that one, and no other, is the
      removed router added again. Otherwise all rows stay as they are. */
  lemma ReaddedRouterIsAdopted(w: World, removed: nat, e: Event)
    requires Inv(w) && e.CheckIn? && removed < |w.routers|
    requires w.routers[removed].deletedAt.Some?
    requires w.routers[removed].current == Some(e.hash) || w.routers[removed].previous == Some(e.hash)
    ensures Step(w, e) == w <==> !exists id: nat :: OnlyAddedAgain(w.routers, removed, id)
    ensures forall id: nat :: OnlyAddedAgain(w.routers, removed, id) ==> id < |w.routers| && TokenMoved(w, Step(w, e), removed, id, e)
  {
    assert Holds(w.routers[removed], e.hash);
    hide AddedAgain, Candidates, Step, Inv, TokenMoved, Holds, OnlyAddedAgain;
    AdoptionWrites(w, removed, e);
    OneOrNot(w.routers, removed);
    var c := Candidates(w.routers, w.routers[removed]);
    assert |c| == 1 ==> OnlyAddedAgain(w.routers, removed, c[0]);
  }

  lemma CandidatesAreAddedAgain(routers: seq<Router>, removed: nat)
    requires removed < |routers| && routers[removed].deletedAt.Some?
    ensures forall id: nat :: id in Candidates(routers, routers[removed]) <==> AddedAgain(routers, removed, id)
  {
    hide AddedAgain, Candidate;
    forall id: nat
      ensures id in Candidates(routers, routers[removed]) <==> AddedAgain(routers, removed, id)
    {
      if id < |routers| {
        AddedAgainIsCandidate(routers, removed, id);
      } else {
        assert !AddedAgain(routers, removed, id) by { NoSuchRecord(routers, removed, id); }
      }
    }
  }

  lemma NoSuchRecord(routers: seq<Router>, removed: nat, id: nat)
    requires removed < |routers| && routers[removed].deletedAt.Some? && id >= |routers|
    ensures !AddedAgain(routers, removed, id)
  {
  }

  lemma OneOrNot(routers: seq<Router>, removed: nat)
    requires removed < |routers| && routers[removed].deletedAt.Some?
    ensures var c := Candidates(routers, routers[removed]);
      if |c| == 1 then forall id: nat :: OnlyAddedAgain(routers, removed, id) <==> id == c[0]
      else forall id: nat :: !OnlyAddedAgain(routers, removed, id)
  {
    hide AddedAgain, OnlyAddedAgain, Candidates;
    CandidatesAreAddedAgain(routers, removed);
    ByCount(routers, removed, Candidates(routers, routers[removed]));
  }

  lemma ByCount(routers: seq<Router>, removed: nat, c: seq<nat>)
    requires removed < |routers| && routers[removed].deletedAt.Some?
    requires forall id: nat :: id in c <==> AddedAgain(routers, removed, id)
    requires forall i, j :: 0 <= i < j < |c| ==> c[i] < c[j]
    ensures if |c| == 1 then forall id: nat :: OnlyAddedAgain(routers, removed, id) <==> id == c[0]
            else forall id: nat :: !OnlyAddedAgain(routers, removed, id)
  {
    hide AddedAgain, OnlyAddedAgain;
    if |c| == 1 {
      assert c == [c[0]];
      OneAddedAgain(routers, removed, c[0]);
    } else if |c| == 0 {
      NoneAddedAgain(routers, removed);
    } else {
      FirstTwoDiffer(c);
      TwoAddedAgain(routers, removed, c[0], c[1]);
    }
  }

  lemma OneAddedAgain(routers: seq<Router>, removed: nat, only: nat)
    requires removed < |routers| && routers[removed].deletedAt.Some?
    requires forall id: nat :: AddedAgain(routers, removed, id) <==> id == only
    ensures forall id: nat :: OnlyAddedAgain(routers, removed, id) <==> id == only
  {
    hide AddedAgain;
  }

  lemma NoneAddedAgain(routers: seq<Router>, removed: nat)
    requires removed < |routers| && routers[removed].deletedAt.Some?
    requires forall id: nat :: !AddedAgain(routers, removed, id)
    ensures forall id: nat :: !OnlyAddedAgain(routers, removed, id)
  {
    hide AddedAgain;
  }

  lemma TwoAddedAgain(routers: seq<Router>, removed: nat, a: nat, b: nat)
    requires removed < |routers| && routers[removed].deletedAt.Some? && a != b
    requires AddedAgain(routers, removed, a) && AddedAgain(routers, removed, b)
    ensures forall id: nat :: !OnlyAddedAgain(routers, removed, id)
  {
    hide AddedAgain;
  }

  lemma AddedAgainIsCandidate(routers: seq<Router>, removed: nat, id: nat)
    requires removed < |routers| && routers[removed].deletedAt.Some? && id < |routers|
    ensures AddedAgain(routers, removed, id) <==> Candidate(routers[removed], routers[id])
  {
    var r := routers[id];
    assert (exists address: nat :: r.host == Some(address) && routers[removed].host == Some(address))
      <==> routers[removed].host.Some? && r.host == routers[removed].host by {
      if routers[removed].host.Some? && r.host == routers[removed].host {
        assert r.host == Some(routers[removed].host.value);
      }
    }
  }

  lemma AdoptionWrites(w: World, removed: nat, e: Event)
    requires Inv(w) && e.CheckIn? && removed < |w.routers|
    requires w.routers[removed].deletedAt.Some? && Holds(w.routers[removed], e.hash)
    ensures var c, w' := Candidates(w.routers, w.routers[removed]), Step(w, e);
      if |c| != 1 then w' == w
      else c[0] < |w.routers| && w' != w && TokenMoved(w, w', removed, c[0], e)
  {
    hide FindRemoved, FindLive;
    var live, found := FindLive(w.routers, e.hash), FindRemoved(w.routers, e.hash);
    assert live.None? && found == Some(removed);
    var c := Candidates(w.routers, w.routers[removed]);
    if |c| == 1 {
      assert c[0] in c;
      assert Candidate(w.routers[removed], w.routers[c[0]]) && c[0] != removed;
      assert Holds(w.routers[removed], e.hash) && !Holds(w.routers[c[0]], e.hash);
    }
  }

  lemma FirstTwoDiffer(c: seq<nat>)
    requires |c| >= 2 && forall i, j :: 0 <= i < j < |c| ==> c[i] < c[j]
    ensures c[0] in c && c[1] in c && c[0] != c[1]
  {
  }

  // ---------------------------------------------------------------------------------------
  // Names, new tokens, removals
  // ---------------------------------------------------------------------------------------

  /** No two live records of a tenant have the same name. */
  ghost predicate NamesOnce(routers: seq<Router>) {
    forall i, j :: 0 <= i < j < |routers| && routers[i].tenant == routers[j].tenant && routers[i].name == routers[j].name ==>
      !(routers[i].deletedAt == None && routers[j].deletedAt == None)
  }

  /** Over every run a tenant's live records have different names. */
  lemma {:induction false} RunKeepsNames(w: World, events: seq<Event>)
    requires NamesOnce(w.routers)
    ensures NamesOnce(Run(w, events).routers)
    decreases |events|
  {
    hide NamesOnce, Step;
    if |events| > 0 {
      StepKeepsNames(w, events[0]);
      RunKeepsNames(Step(w, events[0]), events[1..]);
    }
  }

  lemma StepKeepsNames(w: World, e: Event)
    requires NamesOnce(w.routers)
    ensures NamesOnce(Step(w, e).routers)
  {
    hide FindLive, FindRemoved, Candidates;
    if e.CheckIn? {
      var f := FindByToken(w.routers, e.hash);
      assert forall i :: 0 <= i < |w.routers| ==>
        var r, r' := w.routers[i], Step(w, e).routers[i];
        r'.name == r.name && r'.tenant == r.tenant && r'.deletedAt == r.deletedAt;
    }
  }

  /** A record is created exactly when no live one of the tenant has its name, and a setup command is
      issued exactly for a live record; its token is accepted from then on, by that record. Nothing
      else is written. */
  lemma NewTokenIsAccepted(w: World, e: Event)
    requires Inv(w) && (e.CreatePending? || e.IssueSetup?) && e.hash !in w.issued
    ensures var n, w' := |w.routers|, Step(w, e);
      match e
      case CreatePending(now, tenant, name, hash, credentials) =>
        if exists r :: r in w.routers && r.tenant == tenant && r.name == name && r.deletedAt == None then w' == w
        else
          && w'.routers == w.routers + [Router(tenant, name, None, Some(hash), None, false, now, None, credentials)]
          && FindByToken(w'.routers, hash).id == Some(n)
      case IssueSetup(id, hash) =>
        if id < n && w.routers[id].deletedAt == None
        then w'.routers == w.routers[id := w'.routers[id]] && FindByToken(w'.routers, hash).id == Some(id)
        else w' == w
  {
    hide FindByToken, Inv;
    StepKeepsInv(w, e);
    var w' := Step(w, e);
    InvHeldOnce(w');
    if e.IssueSetup? {
      if e.id < |w.routers| && Live(w.routers[e.id]) {
        LiveHolderFound(w'.routers, e.id, e.hash);
      }
    } else if !NameTaken(w.routers, e.tenant, e.name) {
      LiveHolderFound(w'.routers, |w.routers|, e.hash);
    }
  }

  lemma InvHeldOnce(w: World)
    requires Inv(w)
    ensures HeldOnce(w.routers)
  {
  }

  /** A record added by address holds no token; a removal takes only the record's life. */
  lemma AddedAndRemoved(w: World, e: Event)
    requires e.CreateByAddress? || e.Remove?
    ensures var w' := Step(w, e);
      match e
      case CreateByAddress(now, tenant, name, host, credentials) =>
        if exists r :: r in w.routers && r.tenant == tenant && r.name == name && r.deletedAt == None then w' == w
        else w' == w.(routers := w.routers + [Router(tenant, name, Some(host), None, None, false, now, None, credentials)])
      case Remove(now, id) =>
        if id < |w.routers| && w.routers[id].deletedAt == None
        then w' == w.(routers := w.routers[id := w.routers[id].(deletedAt := Some(now))])
        else w' == w
  {
  }

  // ---------------------------------------------------------------------------------------
  // The table
  // ---------------------------------------------------------------------------------------

  class RouterTable {
    var routers: seq<Router>

    /** The lookup of a check-in: the token's live record, or an adoption. */
    method FindRouterByProvisionToken(hash: Hash) returns (id: Option<nat>)
      modifies this
      ensures Found(routers, id) == FindByToken(old(routers), hash)
    {
      id := FindLive(routers, hash);
      if id.None? {
        id := AdoptReaddedRouter(hash);
      }
    }

    method AdoptReaddedRouter(hash: Hash) returns (id: Option<nat>)
      requires FindLive(routers, hash).None?
      modifies this
      ensures Found(routers, id) == FindByToken(old(routers), hash)
    {
      var found := FindRemoved(routers, hash);
      if found.None? {
        return None;
      }
      var removed := routers[found.value];
      var candidates := Candidates(routers, removed);
      if |candidates| != 1 {
        return None;
      }
      assert candidates[0] in candidates;
      var target := candidates[0];
      routers := routers[found.value := removed.(current := None, previous := None)];
      if routers[target].current.Some? {
        routers := routers[target := routers[target].(previous := Some(hash))];
      } else {
        routers := routers[target := routers[target].(current := Some(hash))];
      }
      routers := routers[target := routers[target].(credentials := removed.credentials)];
      id := Some(target);
    }

    method IssueSetupCommand(id: nat, hash: Hash) returns (ok: bool)
      modifies this
      ensures ok <==> id < |old(routers)| && Live(old(routers)[id])
      ensures routers == if ok then old(routers)[id := Reissued(old(routers)[id], hash)] else old(routers)
    {
      if id >= |routers| || routers[id].deletedAt.Some? {
        return false;
      }
      var router := routers[id];
      var previous := if router.previous.Some? then router.previous else router.current;
      routers := routers[id := router.(current := Some(hash), previous := previous)];
      ok := true;
    }

    method CompleteRouterProvisioning(hash: Hash, address: nat, tunnel: bool) returns (id: Option<nat>)
      modifies this
      ensures id == FindByToken(old(routers), hash).id
      ensures var f := FindByToken(old(routers), hash);
        routers == if id.None? then f.routers
                   else f.routers[id.value := CheckedIn(f.routers[id.value], hash, address, tunnel)]
    {
      id := FindRouterByProvisionToken(hash);
      if id.None? {
        return;
      }
      var router := routers[id.value];
      if router.previous.Some? && router.current == Some(hash) {
        routers := routers[id.value := routers[id.value].(previous := None)];
      }
      var host := if tunnel || router.host.None? then Some(address) else router.host;
      routers := routers[id.value := routers[id.value].(provisioned := true, host := host)];
    }

    method DeleteRouter(now: int, id: nat) returns (ok: bool)
      modifies this
      ensures ok <==> id < |old(routers)| && Live(old(routers)[id])
      ensures routers == if ok then old(routers)[id := old(routers)[id].(deletedAt := Some(now))] else old(routers)
    {
      if id >= |routers| || routers[id].deletedAt.Some? {
        return false;
      }
      routers := routers[id := routers[id].(deletedAt := Some(now))];
      ok := true;
    }
  }
}
