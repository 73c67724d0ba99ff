/**
 * The mesh coordinator: address allocation under a lock, saving to the state
 * file outside it, and crashes in between. Handlers are cut into the steps that
 * other handlers may come between: check, locked section, save, respond.
 */
module Coordinator {
  import opened Decimal
  import opened Wrappers

  type Secret = s: string | s != "" witness "s"

  datatype Node = Node(id: string, domain: string, publicKey: string, endpoint: string, vpnIp: string)

  datatype Request = Request(token: string, publicKey: string, endpoint: string, domain: string)

  datatype Peer = Peer(publicKey: string, allowedIps: string, endpoint: string)

  datatype Reply = Reply(vpnIp: string, peers: seq<Peer>, backupPeers: seq<string>)

  /** What the coordinator holds and the state file stores. */
  datatype Memory = Memory(nodes: seq<Node>, nextIp: nat, token: string, backupSecret: string)

  /** The random values of one handler call. */
  datatype Randoms = Randoms(token: Secret, backupSecret: Secret, nodeId: string)

  const EMPTY := Memory([], 0, "", "")

  function Address(n: nat): string {
    "10.100.0." + ToDecimal(n)
  }

  lemma AddressInjective(m: nat, n: nat)
    requires Address(m) == Address(n)
    ensures m == n
  {
    assert Address(m)[9..] == ToDecimal(m) && Address(n)[9..] == ToDecimal(n);
    DecimalInjective(m, n);
  }

  /** The nodes with another address, as peers, in their order. */
  function PeersBut(nodes: seq<Node>, vpnIp: string): seq<Peer> {
    if nodes == [] then []
    else
      var last := nodes[|nodes| - 1];
      PeersBut(nodes[..|nodes| - 1], vpnIp)
      + (if last.vpnIp != vpnIp then [Peer(last.publicKey, last.vpnIp + "/32", last.endpoint)] else [])
  }

  function IpsBut(nodes: seq<Node>, vpnIp: string): seq<string> {
    if nodes == [] then []
    else
      var last := nodes[|nodes| - 1];
      IpsBut(nodes[..|nodes| - 1], vpnIp) + (if last.vpnIp != vpnIp then [last.vpnIp] else [])
  }

  function ReplyFor(nodes: seq<Node>, vpnIp: string): Reply {
    Reply(vpnIp, PeersBut(nodes, vpnIp), IpsBut(nodes, vpnIp))
  }

  /** The checks a handler makes before it takes the lock. */
  predicate Passes(m: Memory, req: Request) {
    && req.publicKey != "" && req.endpoint != "" && req.domain != ""
    && (m.token == "" || req.token == m.token)
  }

  /** The locked section for a new node. */
  function Register(m: Memory, req: Request, r: Randoms): (Memory, Reply) {
    var m1 := if m.token == "" then m.(token := r.token, backupSecret := r.backupSecret, nextIp := 1) else m;
    var node := Node(r.nodeId, req.domain, req.publicKey, req.endpoint, Address(m1.nextIp));
    var nodes := m1.nodes + [node];
    (m1.(nodes := nodes, nextIp := m1.nextIp + 1), ReplyFor(nodes, node.vpnIp))
  }

  /** The first node with the key, as handleConfig looks it up. */
  function Known(nodes: seq<Node>, publicKey: string): Option<Node> {
    if nodes == [] then None
    else if nodes[0].publicKey == publicKey then Some(nodes[0])
    else Known(nodes[1..], publicKey)
  }

  /** Node `k` has the key and no node before it has. */
  predicate FirstWithKey(nodes: seq<Node>, publicKey: string, k: int) {
    && 0 <= k < |nodes| && nodes[k].publicKey == publicKey
    && forall j | 0 <= j < k :: nodes[j].publicKey != publicKey
  }

  lemma {:induction false} KnownExactly(nodes: seq<Node>, publicKey: string)
    ensures Known(nodes, publicKey).None? <==> forall n | n in nodes :: n.publicKey != publicKey
    ensures Known(nodes, publicKey).Some? ==>
      exists k :: FirstWithKey(nodes, publicKey, k) && nodes[k] == Known(nodes, publicKey).value
  {
    if nodes != [] {
      if nodes[0].publicKey == publicKey {
        assert FirstWithKey(nodes, publicKey, 0);
      } else {
        KnownExactly(nodes[1..], publicKey);
        assert nodes == [nodes[0]] + nodes[1..];
        if Known(nodes[1..], publicKey).Some? {
          var k :| FirstWithKey(nodes[1..], publicKey, k) && nodes[1..][k] == Known(nodes[1..], publicKey).value;
          FirstStaysFirst(nodes, publicKey, k);
        }
      }
    }
  }

  lemma FirstStaysFirst(nodes: seq<Node>, publicKey: string, k: int)
    requires nodes != [] && nodes[0].publicKey != publicKey && FirstWithKey(nodes[1..], publicKey, k)
    ensures FirstWithKey(nodes, publicKey, k + 1) && nodes[k + 1] == nodes[1..][k]
  {
    forall j | 0 <= j < k + 1
      ensures nodes[j].publicKey != publicKey
    {
      if j > 0 {
        assert nodes[1..][j - 1] == nodes[j];
      }
    }
  }

  function IssueToken(m: Memory, r: Randoms): Memory {
    if m.token == "" then m.(token := r.token, backupSecret := r.backupSecret) else m
  }

  function Load(file: Option<Memory>): Memory {
    if file.None? then EMPTY else file.value
  }

  class StateFile {
    var content: Option<Memory>

    constructor ()
      ensures content == None
    {
      content := None;
    }
  }

  class Coordinator {
    var nodes: seq<Node>
    var nextIp: nat
    var token: string
    var backupSecret: string
    const file: StateFile

    function State(): Memory
      reads this
    {
      Memory(nodes, nextIp, token, backupSecret)
    }

    /** The process starts and loads the state file. */
    constructor (file: StateFile)
      ensures this.file == file && State() == Load(file.content)
      ensures State() == if file.content.Some? then file.content.value else Memory([], 0, "", "")
    {
      this.file := file;
      nodes, nextIp, token, backupSecret := [], 0, "", "";
      new;
      if file.content.Some? {
        var state := file.content.value;
        nodes, nextIp := state.nodes, state.nextIp;
        if state.token != "" {
          token := state.token;
        }
        if state.backupSecret != "" {
          backupSecret := state.backupSecret;
        }
      }
    }

    method Save()
      modifies file
      ensures file.content == Some(State())
    {
      file.content := Some(Memory(nodes, nextIp, token, backupSecret));
    }

    /** The checks of /v1/join and /v1/config on the fields and the token. */
    method Admits(req: Request) returns (ok: bool)
      ensures ok == Passes(State(), req)
      ensures ok <==> req.publicKey != "" && req.endpoint != "" && req.domain != "" && (token == "" || req.token == token)
    {
      if req.publicKey == "" || req.endpoint == "" || req.domain == "" {
        return false;
      }
      if token != "" && req.token != token {
        return false;
      }
      return true;
    }

    method JoinLocked(req: Request, r: Randoms) returns (reply: Reply)
      modifies this
      ensures (State(), reply) == Register(old(State()), req, r)
      ensures if old(token) == "" then token == r.token && backupSecret == r.backupSecret
              else token == old(token) && backupSecret == old(backupSecret)
      ensures var number := if old(token) == "" then 1 else old(nextIp);
              && nextIp == number + 1 && reply.vpnIp == Address(number)
              && nodes == old(nodes) + [Node(r.nodeId, req.domain, req.publicKey, req.endpoint, Address(number))]
    {
      if token == "" {
        token := r.token;
        backupSecret := r.backupSecret;
        nextIp := 1;
      }
      var vpnIp := Address(nextIp);
      nextIp := nextIp + 1;
      nodes := nodes + [Node(r.nodeId, req.domain, req.publicKey, req.endpoint, vpnIp)];
      var peers, backupPeers := CollectPeers(nodes, vpnIp);
      reply := Reply(vpnIp, peers, backupPeers);
    }

    /** handleConfig answers a known key from memory and registers any other key. */
    method ConfigLocked(req: Request, r: Randoms) returns (reply: Reply, isNew: bool)
      modifies this
      ensures isNew <==> Known(old(nodes), req.publicKey).None?
      ensures isNew ==> (State(), reply) == Register(old(State()), req, r)
      ensures !isNew ==> State() == old(State()) && reply == ReplyFor(nodes, Known(nodes, req.publicKey).value.vpnIp)
      ensures isNew <==> forall n | n in old(nodes) :: n.publicKey != req.publicKey
      ensures isNew ==>
        |nodes| == |old(nodes)| + 1 && nodes[..|old(nodes)|] == old(nodes)
        && nodes[|old(nodes)|].publicKey == req.publicKey && nodes[|old(nodes)|].vpnIp == reply.vpnIp
      ensures !isNew ==> exists k :: FirstWithKey(nodes, req.publicKey, k) && reply == ReplyFor(nodes, nodes[k].vpnIp)
    {
      assert nodes[0..] == nodes;
      KnownExactly(nodes, req.publicKey);
      for k := 0 to |nodes|
        invariant State() == old(State())
        invariant Known(nodes, req.publicKey) == Known(nodes[k..], req.publicKey)
      {
        assert nodes[k..][1..] == nodes[k + 1..];
        if nodes[k].publicKey == req.publicKey {
          assert Known(nodes, req.publicKey) == Some(nodes[k]);
          var peers, backupPeers := CollectPeers(nodes, nodes[k].vpnIp);
          return Reply(nodes[k].vpnIp, peers, backupPeers), false;
        }
      }
      reply := JoinLocked(req, r);
      isNew := true;
    }

    method TokenLocked(r: Randoms) returns (tok: string)
      modifies this
      ensures State() == IssueToken(old(State()), r) && tok == token
      ensures nodes == old(nodes) && nextIp == old(nextIp)
      ensures if old(token) == "" then token == r.token && backupSecret == r.backupSecret
              else token == old(token) && backupSecret == old(backupSecret)
    {
      if token == "" {
        token := r.token;
        backupSecret := r.backupSecret;
      }
      tok := token;
    }
  }

  method CollectPeers(nodes: seq<Node>, vpnIp: string) returns (peers: seq<Peer>, backupPeers: seq<string>)
    ensures peers == PeersBut(nodes, vpnIp) && backupPeers == IpsBut(nodes, vpnIp)
  {
    peers, backupPeers := [], [];
    for k := 0 to |nodes|
      invariant peers == PeersBut(nodes[..k], vpnIp) && backupPeers == IpsBut(nodes[..k], vpnIp)
    {
      var n := nodes[k];
      assert nodes[..k + 1][..k] == nodes[..k];
      if n.vpnIp != vpnIp {
        peers := peers + [Peer(n.publicKey, n.vpnIp + "/32", n.endpoint)];
        backupPeers := backupPeers + [n.vpnIp];
      }
    }
    assert nodes[..|nodes|] == nodes;
  }

  // --------------------------------------------------------------------- the world

  /** A handler between its steps. */
  datatype InFlight =
    | Checked(req: Request, config: bool)
    | Registered(vpnIp: string, publicKey: string, saved: bool)

  datatype Completion = Completion(publicKey: string, vpnIp: string)

  /** `memory` is None while the process is down; `completed` lists the new registrations answered so far. */
  datatype World = World(memory: Option<Memory>, file: Option<Memory>, inFlight: map<nat, InFlight>,
                         completed: seq<Completion>, repeats: seq<Completion>)

  datatype Action =
    | Arrive(handler: nat, req: Request, config: bool)
    | Lock(handler: nat, r: Randoms)
    | TokenRequest(r: Randoms)
    | SaveFor(handler: nat)
    | SaveToken
    | Respond(handler: nat)
    | Crash
    | Start

  /** An action that is not possible in a world leaves it as it is. */
  function Act(w: World, a: Action): World {
    match a
    case Arrive(h, req, config) =>
      if w.memory.Some? && h !in w.inFlight && Passes(w.memory.value, req)
      then w.(inFlight := w.inFlight[h := Checked(req, config)]) else w
    case Lock(h, r) =>
      if w.memory.Some? && h in w.inFlight && w.inFlight[h].Checked? then Locked(w, h, r) else w
    case TokenRequest(r) =>
      if w.memory.Some? then w.(memory := Some(IssueToken(w.memory.value, r))) else w
    case SaveFor(h) =>
      if w.memory.Some? && h in w.inFlight && w.inFlight[h].Registered?
      then w.(file := w.memory, inFlight := w.inFlight[h := w.inFlight[h].(saved := true)]) else w
    case SaveToken => if w.memory.Some? then w.(file := w.memory) else w
    case Respond(h) =>
      if h in w.inFlight && w.inFlight[h].Registered? && w.inFlight[h].saved then
        w.(inFlight := w.inFlight - {h},
           completed := w.completed + [Completion(w.inFlight[h].publicKey, w.inFlight[h].vpnIp)])
      else w
    case Crash => w.(memory := None, inFlight := map[])
    case Start => if w.memory.None? then w.(memory := Some(Load(w.file))) else w
  }

  /** The locked section; a known key on /v1/config is answered at once from memory, without a save. */
  function Locked(w: World, h: nat, r: Randoms): World
    requires w.memory.Some? && h in w.inFlight && w.inFlight[h].Checked?
  {
    var m, req := w.memory.value, w.inFlight[h].req;
    var known := Known(m.nodes, req.publicKey);
    if w.inFlight[h].config && known.Some? then
      w.(inFlight := w.inFlight - {h}, repeats := w.repeats + [Completion(req.publicKey, known.value.vpnIp)])
    else
      var (m', reply) := Register(m, req, r);
      w.(memory := Some(m'), inFlight := w.inFlight[h := Registered(reply.vpnIp, req.publicKey, false)])
  }

  function Run(w: World, actions: seq<Action>): World
    decreases |actions|
  {
    if actions == [] then w else Run(Act(w, actions[0]), actions[1..])
  }

  const BEGINNING := World(None, None, map[], [], [])

  // -------------------------------------------------------------------- invariants

  ghost predicate Below(vpnIp: string, bound: nat) {
    exists k: nat :: k < bound && vpnIp == Address(k)
  }

  /** Nodes have consecutive addresses up to the next one, and without a token there are none. */
  ghost predicate WellNumbered(m: Memory) {
    && |m.nodes| <= m.nextIp
    && (m.token == "" ==> m.nodes == [])
    && forall i | 0 <= i < |m.nodes| :: m.nodes[i].vpnIp == Address(m.nextIp - |m.nodes| + i)
  }

  /** Everything answered or about to be answered was issued, and what is answered is also in the file. */
  ghost predicate Sound(w: World) {
    && (w.memory.Some? ==> WellNumbered(w.memory.value))
    && (w.file.Some? ==> WellNumbered(w.file.value))
    && (w.memory.None? ==> w.inFlight == map[])
    && (w.memory.Some? && w.file.Some? && w.file.value.token != "" ==>
          w.memory.value.token != "" && w.file.value.nextIp <= w.memory.value.nextIp)
    && (forall c | c in w.completed :: InFile(w, c.vpnIp))
    && (forall h | h in w.inFlight && w.inFlight[h].Registered? ::
          && w.memory.value.token != "" && Below(w.inFlight[h].vpnIp, w.memory.value.nextIp)
          && (w.inFlight[h].saved ==> InFile(w, w.inFlight[h].vpnIp)))
  }

  ghost predicate InFile(w: World, vpnIp: string) {
    w.file.Some? && w.file.value.token != "" && Below(vpnIp, w.file.value.nextIp)
  }

  /** No two new registrations, answered or not, have the same address. */
  ghost predicate Distinct(w: World) {
    && (forall i, j | 0 <= i < j < |w.completed| :: w.completed[i].vpnIp != w.completed[j].vpnIp)
    && (forall h, c | h in w.inFlight && w.inFlight[h].Registered? && c in w.completed :: w.inFlight[h].vpnIp != c.vpnIp)
    && (forall h, k | h in w.inFlight && k in w.inFlight && h != k
                      && w.inFlight[h].Registered? && w.inFlight[k].Registered? ::
          w.inFlight[h].vpnIp != w.inFlight[k].vpnIp)
  }

  lemma NextIsNew(vpnIp: string, bound: nat)
    requires Below(vpnIp, bound)
    ensures vpnIp != Address(bound)
  {
    var k: nat :| k < bound && vpnIp == Address(k);
    if vpnIp == Address(bound) {
      AddressInjective(k, bound);
    }
  }

  lemma BelowGrows(vpnIp: string, bound: nat, more: nat)
    requires Below(vpnIp, bound) && bound <= more
    ensures Below(vpnIp, more)
  {
  }

  lemma RegisterKeepsNumbers(m: Memory, req: Request, r: Randoms)
    requires WellNumbered(m)
    ensures WellNumbered(Register(m, req, r).0)
  {
  }

  ghost predicate Taken(w: World, vpnIp: string) {
    || (exists h :: h in w.inFlight && w.inFlight[h].Registered? && w.inFlight[h].vpnIp == vpnIp)
    || (exists c :: c in w.completed && c.vpnIp == vpnIp)
  }

  /** A new registration takes an address no one has. */
  lemma NewAddressIsFree(w: World, req: Request, r: Randoms)
    requires Sound(w) && w.memory.Some?
    ensures !Taken(w, Register(w.memory.value, req, r).1.vpnIp)
  {
    var m := w.memory.value;
    forall h | h in w.inFlight && w.inFlight[h].Registered?
      ensures w.inFlight[h].vpnIp != Address(m.nextIp) && m.token != ""
    {
      NextIsNew(w.inFlight[h].vpnIp, m.nextIp);
    }
    forall c | c in w.completed
      ensures c.vpnIp != Address(m.nextIp) && m.token != ""
    {
      assert InFile(w, c.vpnIp);
      BelowGrows(c.vpnIp, w.file.value.nextIp, m.nextIp);
      NextIsNew(c.vpnIp, m.nextIp);
    }
  }

  lemma LockKeepsSound(w: World, h: nat, r: Randoms)
    requires Sound(w) && w.memory.Some? && h in w.inFlight && w.inFlight[h].Checked?
    ensures Sound(Locked(w, h, r))
  {
    var m, req := w.memory.value, w.inFlight[h].req;
    var (m', reply) := Register(m, req, r);
    RegisterKeepsNumbers(m, req, r);
    assert m'.nextIp > 0 && reply.vpnIp == Address(m'.nextIp - 1);
    assert Below(reply.vpnIp, m'.nextIp);
    forall k | k in w.inFlight && w.inFlight[k].Registered?
      ensures Below(w.inFlight[k].vpnIp, m'.nextIp)
    {
      BelowGrows(w.inFlight[k].vpnIp, m.nextIp, m'.nextIp);
    }
    assert forall c | c in w.completed :: InFile(Locked(w, h, r), c.vpnIp) <==> InFile(w, c.vpnIp);
  }

  lemma LockKeepsDistinct(w: World, h: nat, r: Randoms)
    requires Sound(w) && Distinct(w) && w.memory.Some? && h in w.inFlight && w.inFlight[h].Checked?
    ensures Distinct(Locked(w, h, r))
  {
    NewAddressIsFree(w, w.inFlight[h].req, r);
  }

  lemma SaveKeeps(w: World, a: Action)
    requires Sound(w) && Distinct(w) && (a.SaveFor? || a.SaveToken?)
    ensures Sound(Act(w, a)) && Distinct(Act(w, a))
  {
  }

  lemma RespondKeeps(w: World, h: nat)
    requires Sound(w) && Distinct(w)
    ensures Sound(Act(w, Respond(h))) && Distinct(Act(w, Respond(h)))
  {
  }

  lemma ActKeeps(w: World, a: Action)
    requires Sound(w) && Distinct(w)
    ensures Sound(Act(w, a)) && Distinct(Act(w, a))
  {
    match a
    case Lock(h, r) =>
      if w.memory.Some? && h in w.inFlight && w.inFlight[h].Checked? {
        LockKeepsSound(w, h, r);
        LockKeepsDistinct(w, h, r);
      }
    case SaveFor(_) => SaveKeeps(w, a);
    case SaveToken => SaveKeeps(w, a);
    case Respond(h) => RespondKeeps(w, h);
    case Arrive(_, _, _) =>
    case TokenRequest(_) =>
    case Crash =>
    case Start =>
  }

  /** Over any run of handlers, saves, crashes and restarts no two new registrations are answered with one address. */
  lemma {:induction false} AddressesAreUnique(w: World, actions: seq<Action>)
    requires Sound(w) && Distinct(w)
    ensures Sound(Run(w, actions)) && Distinct(Run(w, actions))
    decreases |actions|
  {
    if actions != [] {
      ActKeeps(w, actions[0]);
      AddressesAreUnique(Act(w, actions[0]), actions[1..]);
    }
  }

  /** The same from the first start of the coordinator. */
  lemma NewRegistrationsGetOwnAddresses(actions: seq<Action>)
    ensures var w := Run(BEGINNING, actions);
            forall i, j | 0 <= i < j < |w.completed| :: w.completed[i].vpnIp != w.completed[j].vpnIp
  {
    AddressesAreUnique(BEGINNING, actions);
  }

  // ------------------------------------------------------------------------- peers

  function AllPeers(nodes: seq<Node>): seq<Peer> {
    if nodes == [] then []
    else
      var last := nodes[|nodes| - 1];
      AllPeers(nodes[..|nodes| - 1]) + [Peer(last.publicKey, last.vpnIp + "/32", last.endpoint)]
  }

  lemma {:induction false} AllPeersAt(nodes: seq<Node>, i: nat)
    requires i < |nodes|
    ensures |AllPeers(nodes)| == |nodes|
    ensures AllPeers(nodes)[i] == Peer(nodes[i].publicKey, nodes[i].vpnIp + "/32", nodes[i].endpoint)
  {
    var last := |nodes| - 1;
    if last > 0 {
      AllPeersAt(nodes[..last], if i < last then i else 0);
    }
  }

  lemma {:induction false} PeersWhenAbsent(nodes: seq<Node>, vpnIp: string)
    requires forall i | 0 <= i < |nodes| :: nodes[i].vpnIp != vpnIp
    ensures PeersBut(nodes, vpnIp) == AllPeers(nodes)
  {
    if nodes != [] {
      PeersWhenAbsent(nodes[..|nodes| - 1], vpnIp);
    }
  }

  /** When only node `k` has the address, the peers are all other nodes, each once and in order. */
  lemma {:induction false} PeersAreTheOthers(nodes: seq<Node>, k: nat)
    requires k < |nodes| && forall i | 0 <= i < |nodes| && i != k :: nodes[i].vpnIp != nodes[k].vpnIp
    ensures PeersBut(nodes, nodes[k].vpnIp) == AllPeers(nodes[..k] + nodes[k + 1..])
  {
    var n := |nodes| - 1;
    var others := nodes[..k] + nodes[k + 1..];
    if k == n {
      assert others == nodes[..n];
      PeersWhenAbsent(nodes[..n], nodes[k].vpnIp);
    } else {
      PeersAreTheOthers(nodes[..n], k);
      assert others[..|others| - 1] == nodes[..n][..k] + nodes[..n][k + 1..];
      assert others[|others| - 1] == nodes[n];
    }
  }

  lemma AddressesDiffer(m: Memory, i: nat, j: nat)
    requires WellNumbered(m) && i < |m.nodes| && j < |m.nodes| && i != j
    ensures m.nodes[i].vpnIp != m.nodes[j].vpnIp
  {
    if m.nodes[i].vpnIp == m.nodes[j].vpnIp {
      AddressInjective(m.nextIp - |m.nodes| + i, m.nextIp - |m.nodes| + j);
    }
  }

  /** The backup peers are the addresses of the peers, one for one. */
  lemma {:induction false} BackupPeersMatch(nodes: seq<Node>, vpnIp: string, i: nat)
    requires i < |PeersBut(nodes, vpnIp)|
    ensures |IpsBut(nodes, vpnIp)| == |PeersBut(nodes, vpnIp)|
    ensures PeersBut(nodes, vpnIp)[i].allowedIps == IpsBut(nodes, vpnIp)[i] + "/32"
  {
    var front := nodes[..|nodes| - 1];
    SameCount(front, vpnIp);
    if i < |PeersBut(front, vpnIp)| {
      BackupPeersMatch(front, vpnIp, i);
    }
  }

  lemma {:induction false} SameCount(nodes: seq<Node>, vpnIp: string)
    ensures |IpsBut(nodes, vpnIp)| == |PeersBut(nodes, vpnIp)|
  {
    if nodes != [] {
      SameCount(nodes[..|nodes| - 1], vpnIp);
    }
  }

  /**
   * In whatever state a run leaves the coordinator, the reply to node `k`, new
   * or known, lists every other node exactly once and not the node itself.
   */
  lemma RepliesListAllOthers(actions: seq<Action>, k: nat)
    requires var w := Run(BEGINNING, actions); w.memory.Some? && k < |w.memory.value.nodes|
    ensures var nodes := Run(BEGINNING, actions).memory.value.nodes;
            ReplyFor(nodes, nodes[k].vpnIp).peers == AllPeers(nodes[..k] + nodes[k + 1..])
    ensures var nodes := Run(BEGINNING, actions).memory.value.nodes;
            var reply := ReplyFor(nodes, nodes[k].vpnIp);
            && reply.vpnIp == nodes[k].vpnIp && |reply.peers| == |nodes| - 1
            && forall i | 0 <= i < |nodes| - 1 :: IsPeerFor(reply.peers[i], nodes[if i < k then i else i + 1])
  {
    var w := Run(BEGINNING, actions);
    AddressesAreUnique(BEGINNING, actions);
    var m := w.memory.value;
    forall i | 0 <= i < |m.nodes| && i != k
      ensures m.nodes[i].vpnIp != m.nodes[k].vpnIp
    {
      AddressesDiffer(m, i, k);
    }
    PeersAreTheOthers(m.nodes, k);
    OthersAt(m.nodes, k);
  }

  lemma OthersAt(nodes: seq<Node>, k: nat)
    requires k < |nodes|
    ensures var peers := AllPeers(nodes[..k] + nodes[k + 1..]);
            && |peers| == |nodes| - 1
            && forall i | 0 <= i < |nodes| - 1 :: IsPeerFor(peers[i], nodes[if i < k then i else i + 1])
  {
    var others := nodes[..k] + nodes[k + 1..];
    if others != [] {
      AllPeersAt(others, 0);
    }
    forall i: nat | i < |others|
      ensures IsPeerFor(AllPeers(others)[i], nodes[if i < k then i else i + 1])
    {
      AllPeersAt(others, i);
    }
  }

  predicate IsPeerFor(p: Peer, n: Node) {
    p.publicKey == n.publicKey && p.allowedIps == n.vpnIp + "/32" && p.endpoint == n.endpoint
  }

  /**
   * Answering a known key from memory does not wait for the save: after a crash
   * the address it was given may go to another node.
   */
  lemma UnsavedRepeatMayClash(a: Request, b: Request, r: Randoms)
    requires a.publicKey != "" && a.endpoint != "" && a.domain != "" && a.publicKey != b.publicKey
    requires b.publicKey != "" && b.endpoint != "" && b.domain != ""
    ensures exists actions ::
              var w := Run(BEGINNING, actions);
              && w.repeats == [Completion(a.publicKey, Address(1))]
              && w.completed == [Completion(b.publicKey, Address(1))]
  {
    var first := ToldUnsaved(a, r);
    var second := Reissued(b, r, [Completion(a.publicKey, Address(1))]);
    RunInParts(BEGINNING, first, second);
  }

  lemma ToldUnsaved(a: Request, r: Randoms) returns (actions: seq<Action>)
    requires a.publicKey != "" && a.endpoint != "" && a.domain != ""
    ensures Run(BEGINNING, actions) == World(None, None, map[], [], [Completion(a.publicKey, Address(1))])
  {
    var n := Node(r.nodeId, a.domain, a.publicKey, a.endpoint, Address(1));
    var m := Memory([n], 2, r.token, r.backupSecret);
    var told, waiting := [Completion(a.publicKey, Address(1))], Registered(Address(1), a.publicKey, false);
    actions := [Start, Arrive(0, a, true), Arrive(1, a, true), Lock(0, r), Lock(1, r), Crash];
    RunThrough(actions, [
      BEGINNING,
      World(Some(EMPTY), None, map[], [], []),
      World(Some(EMPTY), None, map[0 := Checked(a, true)], [], []),
      World(Some(EMPTY), None, map[0 := Checked(a, true), 1 := Checked(a, true)], [], []),
      World(Some(m), None, map[0 := waiting, 1 := Checked(a, true)], [], []),
      World(Some(m), None, map[0 := waiting], [], told),
      World(None, None, map[], [], told)]);
  }

  lemma Reissued(b: Request, r: Randoms, told: seq<Completion>) returns (actions: seq<Action>)
    requires b.publicKey != "" && b.endpoint != "" && b.domain != ""
    ensures var w := Run(World(None, None, map[], [], told), actions);
            w.completed == [Completion(b.publicKey, Address(1))] && w.repeats == told
  {
    var n := Node(r.nodeId, b.domain, b.publicKey, b.endpoint, Address(1));
    var m := Memory([n], 2, r.token, r.backupSecret);
    actions := [Start, Arrive(0, b, true), Lock(0, r), SaveFor(0), Respond(0)];
    RunThrough(actions, [
      World(None, None, map[], [], told),
      World(Some(EMPTY), None, map[], [], told),
      World(Some(EMPTY), None, map[0 := Checked(b, true)], [], told),
      World(Some(m), None, map[0 := Registered(Address(1), b.publicKey, false)], [], told),
      World(Some(m), Some(m), map[0 := Registered(Address(1), b.publicKey, true)], [], told),
      World(Some(m), Some(m), map[], [Completion(b.publicKey, Address(1))], told)]);
  }

  lemma {:induction false} RunInParts(w: World, first: seq<Action>, second: seq<Action>)
    ensures Run(w, first + second) == Run(Run(w, first), second)
    decreases |first|
  {
    if first == [] {
      assert first + second == second;
    } else {
      RunInParts(Act(w, first[0]), first[1..], second);
      assert (first + second)[1..] == first[1..] + second;
    }
  }

  lemma {:induction false} RunThrough(actions: seq<Action>, worlds: seq<World>)
    requires |worlds| == |actions| + 1
    requires forall i | 0 <= i < |actions| :: Act(worlds[i], actions[i]) == worlds[i + 1]
    ensures Run(worlds[0], actions) == worlds[|actions|]
    decreases |actions|
  {
    if actions != [] {
      RunThrough(actions[1..], worlds[1..]);
    }
  }
}
