/** What a registration or a repeated request finds in memory and leaves there. */
module ConfigRequests {
  import opened Coordinator
  import opened Decimal
  import opened Reissue
  import opened Wrappers

  ghost predicate KeyInMemory(m: Memory, publicKey: string) {
    exists n :: n in m.nodes && n.publicKey == publicKey
  }

  /** A request reaches the lock only with all fields and, once there is a token, with that token. */
  lemma ArrivesExactly(w: World, h: nat, req: Request, config: bool)
    requires w.memory.Some? && h !in w.inFlight
    ensures var m, w' := w.memory.value, Act(w, Arrive(h, req, config));
            if && req.publicKey != "" && req.endpoint != "" && req.domain != ""
               && (m.token == "" || req.token == m.token)
            then w' == w.(inFlight := w.inFlight[h := Checked(req, config)])
            else w' == w
  {
  }

  /** A join, and a /v1/config request whose key is not in memory, adds a node for its key. */
  lemma NewKeyAddsNode(w: World, h: nat, req: Request, config: bool, r: Randoms)
    requires w.memory.Some? && h in w.inFlight && w.inFlight[h] == Checked(req, config)
    requires config ==> !KeyInMemory(w.memory.value, req.publicKey)
    ensures var m, w' := w.memory.value, Act(w, Lock(h, r));
            var number := if m.token == "" then 1 else m.nextIp;
            && w'.memory.Some? && w'.repeats == w.repeats && w'.completed == w.completed && w'.file == w.file
            && w'.memory.value.nodes
                 == m.nodes + [Node(r.nodeId, req.domain, req.publicKey, req.endpoint, "10.100.0." + ToDecimal(number))]
            && w'.memory.value.nextIp == number + 1
            && w'.inFlight == w.inFlight[h := Registered(Address(number), req.publicKey, false)]
  {
    KnownExactly(w.memory.value.nodes, req.publicKey);
  }

  /** A /v1/config request whose key is in memory is told the first such node's address, and nothing else changes. */
  lemma KnownKeyIsRepeated(w: World, h: nat, req: Request, r: Randoms)
    requires w.memory.Some? && h in w.inFlight && w.inFlight[h] == Checked(req, true)
    requires KeyInMemory(w.memory.value, req.publicKey)
    ensures exists k ::
      && FirstWithKey(w.memory.value.nodes, req.publicKey, k)
      && Act(w, Lock(h, r)) == w.(inFlight := w.inFlight - {h},
           repeats := w.repeats + [Completion(req.publicKey, w.memory.value.nodes[k].vpnIp)])
  {
    KnownExactly(w.memory.value.nodes, req.publicKey);
  }

  /** The first token request makes the token and the secret; later ones, and other fields, change nothing. */
  lemma TokenIsMadeOnce(w: World, r: Randoms)
    ensures var w' := Act(w, TokenRequest(r));
            if w.memory.None? || w.memory.value.token != "" then w' == w
            else w' == w.(memory := Some(w.memory.value.(token := r.token, backupSecret := r.backupSecret)))
  {
  }

  // -------------------------------------------------------------------------- runs

  /** The answer named an address that a node with its key had in memory at that step. */
  ghost predicate NamedFrom(w: World, c: Completion) {
    w.memory.Some? && HasNode(w.memory.value.nodes, c.publicKey, c.vpnIp)
  }

  ghost predicate NamedSometime(w: World, actions: seq<Action>, c: Completion)
    decreases |actions|
  {
    NamedFrom(w, c) || (actions != [] && NamedSometime(Act(w, actions[0]), actions[1..], c))
  }

  lemma ActRepeats(w: World, a: Action)
    ensures var w' := Act(w, a);
            w'.repeats == w.repeats || (exists c :: w'.repeats == w.repeats + [c] && NamedFrom(w, c))
  {
    if a.Lock? && w.memory.Some? && a.handler in w.inFlight && w.inFlight[a.handler].Checked? {
      var nodes, req := w.memory.value.nodes, w.inFlight[a.handler].req;
      KnownExactly(nodes, req.publicKey);
      if Known(nodes, req.publicKey).Some? {
        var k :| FirstWithKey(nodes, req.publicKey, k) && nodes[k] == Known(nodes, req.publicKey).value;
        assert NamedFrom(w, Completion(req.publicKey, nodes[k].vpnIp));
      }
    }
  }

  /** Over any run each repeated answer named an address that a node with that key had in memory. */
  lemma {:induction false} RepeatsNameNodes(w: World, actions: seq<Action>, c: Completion)
    requires c in Run(w, actions).repeats && c !in w.repeats
    ensures NamedSometime(w, actions, c)
    decreases |actions|
  {
    if actions != [] {
      var next := Act(w, actions[0]);
      ActRepeats(w, actions[0]);
      if c !in next.repeats {
        RepeatsNameNodes(next, actions[1..], c);
      }
    }
  }
}
