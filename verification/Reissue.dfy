/**
 * When an address the coordinator has told a node may later go to another one.
 * A repeated request is answered from memory, so it matters whether the state
 * file already covers the address.
 */
module Reissue {
  import opened Coordinator
  import opened Wrappers

  // ------------------------------------------------------------------- more invariants

  ghost predicate HasNode(nodes: seq<Node>, publicKey: string, vpnIp: string) {
    exists n :: n in nodes && n.publicKey == publicKey && n.vpnIp == vpnIp
  }

  ghost predicate Untouched(m: Memory) {
    m.nodes == [] ==> m.nextIp == 0
  }

  /** Counting starts with the first node, and a registration under way has its node in memory. */
  ghost predicate Linked(w: World) {
    && (w.memory.Some? ==> Untouched(w.memory.value))
    && (w.file.Some? ==> Untouched(w.file.value))
    && forall h | h in w.inFlight && w.inFlight[h].Registered? ::
         w.memory.Some? && HasNode(w.memory.value.nodes, w.inFlight[h].publicKey, w.inFlight[h].vpnIp)
  }

  lemma HasNodeGrows(nodes: seq<Node>, more: Node, publicKey: string, vpnIp: string)
    requires HasNode(nodes, publicKey, vpnIp)
    ensures HasNode(nodes + [more], publicKey, vpnIp)
  {
    var n :| n in nodes && n.publicKey == publicKey && n.vpnIp == vpnIp;
    assert n in nodes + [more];
  }

  lemma LockKeepsLinked(w: World, h: nat, r: Randoms)
    requires Linked(w) && w.memory.Some? && h in w.inFlight && w.inFlight[h].Checked?
    ensures Linked(Locked(w, h, r))
  {
    var m, req := w.memory.value, w.inFlight[h].req;
    var m' := Register(m, req, r).0;
    var node := m'.nodes[|m'.nodes| - 1];
    assert m'.nodes == m.nodes + [node] && node in m'.nodes;
    forall k | k in w.inFlight && w.inFlight[k].Registered?
      ensures HasNode(m'.nodes, w.inFlight[k].publicKey, w.inFlight[k].vpnIp)
    {
      HasNodeGrows(m.nodes, node, w.inFlight[k].publicKey, w.inFlight[k].vpnIp);
    }
  }

  lemma ActKeepsLinked(w: World, a: Action)
    requires Linked(w) && Sound(w)
    ensures Linked(Act(w, a))
  {
    if a.Lock? && w.memory.Some? && a.handler in w.inFlight && w.inFlight[a.handler].Checked? {
      LockKeepsLinked(w, a.handler, a.r);
    }
  }

  lemma {:induction false} RunKeepsLinked(w: World, actions: seq<Action>)
    requires Linked(w) && Sound(w) && Distinct(w)
    ensures Linked(Run(w, actions)) && Sound(Run(w, actions))
    decreases |actions|
  {
    if actions != [] {
      ActKeeps(w, actions[0]);
      ActKeepsLinked(w, actions[0]);
      RunKeepsLinked(Act(w, actions[0]), actions[1..]);
    }
  }

  // ------------------------------------------------------------------------- safe side

  ghost predicate Past(m: Memory, n: nat) {
    m.token != "" && n < m.nextIp
  }

  /** The file and the memory have counted past `n`, and only `publicKey` may still be answered with it. */
  ghost predicate Reserved(w: World, publicKey: string, n: nat) {
    && w.file.Some? && Past(w.file.value, n)
    && (w.memory.Some? ==> Past(w.memory.value, n))
    && forall h | h in w.inFlight && w.inFlight[h].Registered? && w.inFlight[h].vpnIp == Address(n) ::
         w.inFlight[h].publicKey == publicKey
  }

  lemma OtherAddress(m: nat, n: nat)
    requires m != n
    ensures Address(m) != Address(n)
  {
    if Address(m) == Address(n) {
      AddressInjective(m, n);
    }
  }

  lemma ActKeepsReserved(w: World, a: Action, publicKey: string, n: nat)
    requires Reserved(w, publicKey, n)
    ensures var w' := Act(w, a);
            && Reserved(w', publicKey, n)
            && w.completed <= w'.completed
            && forall c | c in w'.completed[|w.completed|..] && c.vpnIp == Address(n) :: c.publicKey == publicKey
  {
    if a.Lock? && w.memory.Some? {
      OtherAddress(w.memory.value.nextIp, n);
    }
  }

  lemma {:induction false} ReservedIsNotReissued(w: World, actions: seq<Action>, publicKey: string, n: nat)
    requires Reserved(w, publicKey, n)
    ensures var w' := Run(w, actions);
            && w.completed <= w'.completed
            && forall c | c in w'.completed[|w.completed|..] && c.vpnIp == Address(n) :: c.publicKey == publicKey
    decreases |actions|
  {
    if actions != [] {
      var next, end := Act(w, actions[0]), Run(w, actions);
      ActKeepsReserved(w, actions[0], publicKey, n);
      ReservedIsNotReissued(next, actions[1..], publicKey, n);
      assert end.completed[|w.completed|..] == next.completed[|w.completed|..] + end.completed[|next.completed|..];
    }
  }

  // ----------------------------------------------------------------------- unsafe side

  predicate Complete(req: Request) {
    req.publicKey != "" && req.endpoint != "" && req.domain != ""
  }

  /** One whole join on an idle coordinator. */
  lemma JoinOnce(w: World, req: Request, r: Randoms) returns (actions: seq<Action>)
    requires w.memory.Some? && w.inFlight == map[] && w.memory.value.token != ""
    requires Complete(req) && req.token == w.memory.value.token
    ensures var m, w' := w.memory.value, Run(w, actions);
            && w'.memory.Some? && w'.inFlight == map[]
            && w'.memory.value.token == m.token && w'.memory.value.nextIp == m.nextIp + 1
            && w'.completed == w.completed + [Completion(req.publicKey, Address(m.nextIp))]
  {
    var m := w.memory.value;
    var (m', reply) := Register(m, req, r);
    var w1 := w.(inFlight := map[0 := Checked(req, false)]);
    var w2 := w.(memory := Some(m'), inFlight := map[0 := Registered(reply.vpnIp, req.publicKey, false)]);
    var w3 := w2.(file := Some(m'), inFlight := map[0 := Registered(reply.vpnIp, req.publicKey, true)]);
    var w4 := w3.(inFlight := map[], completed := w.completed + [Completion(req.publicKey, reply.vpnIp)]);
    assert w2.inFlight - {0} == map[] && w3.inFlight - {0} == map[];
    actions := [Arrive(0, req, false), Lock(0, r), SaveFor(0), Respond(0)];
    RunThrough(actions, [w, w1, w2, w3, w4]);
  }

  /** Joins until the number `n` is given out. */
  lemma {:induction false} JoinUntil(w: World, n: nat, req: Request, r: Randoms) returns (actions: seq<Action>)
    requires w.memory.Some? && w.inFlight == map[] && w.memory.value.token != ""
    requires Complete(req) && req.token == w.memory.value.token && w.memory.value.nextIp <= n
    ensures var w' := Run(w, actions);
            |w'.completed| > |w.completed| && w'.completed[|w'.completed| - 1] == Completion(req.publicKey, Address(n))
    decreases n - w.memory.value.nextIp
  {
    actions := JoinOnce(w, req, r);
    if w.memory.value.nextIp < n {
      var more := JoinUntil(Run(w, actions), n, req, r);
      RunInParts(w, actions, more);
      actions := actions + more;
    }
  }

  /** After a crash the coordinator knows what the file holds; asked for its token it has one. */
  lemma Restart(w: World, r: Randoms) returns (actions: seq<Action>)
    requires w.file.Some? ==> WellNumbered(w.file.value) && Untouched(w.file.value)
    ensures var w' := Run(w, actions);
            && w'.memory == Some(IssueToken(Load(w.file), r)) && w'.inFlight == map[]
            && w'.completed == w.completed && w'.file == w.file
  {
    var down := w.(memory := None, inFlight := map[]);
    var up := down.(memory := Some(Load(w.file)));
    var ready := up.(memory := Some(IssueToken(Load(w.file), r)));
    actions := [Crash, Start, TokenRequest(r)];
    RunThrough(actions, [w, down, up, ready]);
  }

  // ------------------------------------------------------------------------ both sides

  /** Entry `i` of the answers after `actions` is new and gives the address to another key. */
  ghost predicate GoesToAnother(w: World, actions: seq<Action>, i: nat, publicKey: string, vpnIp: string) {
    var completed := Run(w, actions).completed;
    |w.completed| <= i < |completed| && completed[i].vpnIp == vpnIp && completed[i].publicKey != publicKey
  }

  ghost predicate MayGoToAnother(w: World, publicKey: string, vpnIp: string) {
    exists actions, i: nat :: GoesToAnother(w, actions, i, publicKey, vpnIp)
  }

  lemma UncoveredMayGoToAnother(w: World, publicKey: string, n: nat)
    requires Sound(w) && Linked(w) && !InFile(w, Address(n))
    ensures MayGoToAnother(w, publicKey, Address(n))
  {
    var r := Randoms("t", "b", "");
    var first := Restart(w, r);
    var restarted := Run(w, first);
    var m := restarted.memory.value;
    if w.file.Some? && w.file.value.token != "" && n < w.file.value.nextIp {
      assert Below(Address(n), w.file.value.nextIp);
    }
    var req := Request(m.token, publicKey + "x", "e", "d");
    var second := JoinUntil(restarted, n, req, r);
    RunInParts(w, first, second);
    var end := Run(w, first + second);
    assert GoesToAnother(w, first + second, |end.completed| - 1, publicKey, Address(n));
  }

  lemma CoveredNeverGoesToAnother(w: World, publicKey: string, n: nat)
    requires Reserved(w, publicKey, n)
    ensures !MayGoToAnother(w, publicKey, Address(n))
  {
    forall actions, i: nat
      ensures !GoesToAnother(w, actions, i, publicKey, Address(n))
    {
      ReservedIsNotReissued(w, actions, publicKey, n);
      var completed := Run(w, actions).completed;
      if |w.completed| <= i < |completed| {
        assert completed[i] in completed[|w.completed|..];
      }
    }
  }

  /** Only the node itself can be under way with its address. */
  lemma CoveredIsReserved(w: World, k: nat, n: nat)
    requires Sound(w) && Linked(w) && w.memory.Some? && k < |w.memory.value.nodes|
    requires w.memory.value.nodes[k].vpnIp == Address(n) && InFile(w, Address(n))
    ensures Reserved(w, w.memory.value.nodes[k].publicKey, n)
  {
    var m := w.memory.value;
    var j: nat :| j < w.file.value.nextIp && Address(n) == Address(j);
    AddressInjective(n, j);
    forall h | h in w.inFlight && w.inFlight[h].Registered? && w.inFlight[h].vpnIp == Address(n)
      ensures w.inFlight[h].publicKey == m.nodes[k].publicKey
    {
      var i :| 0 <= i < |m.nodes| && m.nodes[i].publicKey == w.inFlight[h].publicKey && m.nodes[i].vpnIp == Address(n);
      if i != k {
        AddressesDiffer(m, i, k);
      }
    }
  }

  /**
   * Whatever has happened, the address of a node in memory, which a repeated
   * request is answered with at once, may later go to another key exactly when
   * the state file has no token yet or has not counted past it.
   */
  lemma RepeatIsSafeExactly(actions: seq<Action>, k: nat)
    requires var w := Run(BEGINNING, actions); w.memory.Some? && k < |w.memory.value.nodes|
    ensures var w := Run(BEGINNING, actions);
            var node := w.memory.value.nodes[k];
            MayGoToAnother(w, node.publicKey, node.vpnIp) <==> !InFile(w, node.vpnIp)
  {
    var w := Run(BEGINNING, actions);
    RunKeepsLinked(BEGINNING, actions);
    var m := w.memory.value;
    var n := m.nextIp - |m.nodes| + k;
    assert m.nodes[k].vpnIp == Address(n);
    if InFile(w, Address(n)) {
      CoveredIsReserved(w, k, n);
      CoveredNeverGoesToAnother(w, m.nodes[k].publicKey, n);
    } else {
      UncoveredMayGoToAnother(w, m.nodes[k].publicKey, n);
    }
  }

  // --------------------------------------------------------------------- number zero

  /** The address of number 0 is given exactly to a first node that comes after the token was asked for. */
  lemma ZeroIsGivenExactly(actions: seq<Action>, req: Request, r: Randoms)
    requires Run(BEGINNING, actions).memory.Some?
    ensures var m := Run(BEGINNING, actions).memory.value;
            Register(m, req, r).1.vpnIp == Address(0) <==> m.nodes == [] && m.token != ""
  {
    RunKeepsLinked(BEGINNING, actions);
    var m := Run(BEGINNING, actions).memory.value;
    var n := if m.token == "" then 1 else m.nextIp;
    if n != 0 {
      OtherAddress(n, 0);
    }
  }
}
