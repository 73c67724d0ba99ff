/** What each token operation answers, and all that it changes. */
module TokenAnswers {
  import opened Tokens
  import opened Wrappers

  const DAY := 24 * 60 * 60

  /** The token is signed by the server, names it or nothing as issuer and audience, and its own time is not over. */
  ghost predicate ClaimsHold(domain: string, t: Token, now: int) {
    && t.signed
    && (t.expires == None || now < t.expires.value)
    && (t.typ == "" || t.typ == "access")
    && (t.iss == "" || t.iss == domain)
    && (t.aud == "" || t.aud == "api")
  }

  /** Its id has a row that is neither revoked nor past its time. */
  ghost predicate RowStands(s: Store, t: Token) {
    && t.jti.Some? && t.jti.value in s.tokens
    && s.tokens[t.jti.value].revoked == None && s.tokens[t.jti.value].expires > s.now
  }

  /** A token is accepted, for the user and device it names, exactly when its claims hold and its row stands. */
  lemma AcceptedExactly(domain: string, s: Store, t: Token)
    ensures Step(domain, s, Validate(t))
         == (s, if ClaimsHold(domain, t, s.now) && RowStands(s, t) then Accepted(t.user, t.device) else Refused)
  {
  }

  /** A revocation needs an acceptable token, and marks its row if that is its user's. */
  lemma RevocationExactly(domain: string, s: Store, t: Token)
    ensures var (n, answer) := Step(domain, s, RevokeToken(t));
            if !ClaimsHold(domain, t, s.now) || !RowStands(s, t) then n == s && answer == Refused
            else
              var row := s.tokens[t.jti.value];
              && answer == Quiet
              && n == if row.user == t.user
                      then s.(tokens := s.tokens[t.jti.value := row.(revoked := Some(s.now))]) else s
  {
  }

  /** A token for the user and device, good for a day, and its row if the insert succeeds. */
  ghost predicate Hands(domain: string, s: Store, user: UserId, device: DeviceId, recorded: bool, n: Store,
                        answer: Answer)
  {
    && answer == Issued(Token(true, Some(s.now + DAY), Some(s.drawn), "access", domain, "api", user, device))
    && n.drawn == s.drawn + 1 && n.now == s.now && n.devices == s.devices[device := user]
    && n.tokens == if recorded then s.tokens[s.drawn := Row(user, device, s.now + DAY, None)] else s.tokens
  }

  /** A registration is refused exactly when the device id is in use. */
  lemma RegistrationExactly(domain: string, s: Store, user: UserId, device: DeviceId, recorded: bool)
    ensures var (n, answer) := Step(domain, s, Register(user, device, recorded));
            if device in s.devices then n == s && answer == Refused
            else Hands(domain, s, user, device, recorded, n, answer)
  {
  }

  /** A login is refused exactly on another user's device, or on a new one without keys. */
  lemma LoginExactly(domain: string, s: Store, user: UserId, device: DeviceId, keysSent: bool, recorded: bool)
    ensures var (n, answer) := Step(domain, s, Login(user, device, keysSent, recorded));
            if (device in s.devices && s.devices[device] != user) || (device !in s.devices && !keysSent)
            then n == s && answer == Refused
            else Hands(domain, s, user, device, recorded, n, answer)
  {
  }

  /** Revoking one's device removes it with all its rows; another's is left alone but for rows of one's own on it. */
  lemma DeviceRevocationExactly(domain: string, s: Store, user: UserId, device: DeviceId, j: nat)
    requires Sound(s)
    ensures var n := Step(domain, s, RevokeDevice(user, device)).0;
            && n.drawn == s.drawn && n.now == s.now
            && if device in s.devices && s.devices[device] == user then
                 && n.devices == s.devices - {device}
                 && (j in n.tokens <==> j in s.tokens && s.tokens[j].device != device)
                 && (j in n.tokens ==> n.tokens[j] == s.tokens[j])
               else n.devices == s.devices && n.tokens == s.tokens
  {
    var n := Step(domain, s, RevokeDevice(user, device)).0;
    if !(device in s.devices && s.devices[device] == user) {
      assert n.tokens == s.tokens;
    }
  }

  /** A cleanup deletes exactly the rows past their time and those revoked more than seven days ago. */
  lemma CleanupExactly(domain: string, s: Store, j: nat)
    ensures var n := Step(domain, s, Cleanup).0;
            && n.devices == s.devices && n.drawn == s.drawn && n.now == s.now
            && (j in n.tokens <==>
                  && j in s.tokens && s.tokens[j].expires >= s.now
                  && (s.tokens[j].revoked.Some? ==> s.tokens[j].revoked.value >= s.now - 7 * DAY))
            && (j in n.tokens ==> n.tokens[j] == s.tokens[j])
  {
  }
}
