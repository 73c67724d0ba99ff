/**
 * Room membership on the server: two tables and the routed operations on them,
 * each an atomic step. `Step` is an operation as a function on the tables.
 */
module Rooms {
  import opened Wrappers

  type RoomId = string
  type UserId = int

  datatype Role = Creator | Admin | Member

  /** rooms.creator_id by room, and room_members with its key (room_id, user_id). */
  datatype Tables = Tables(creators: map<RoomId, UserId>, members: map<(RoomId, UserId), Role>)

  datatype Op =
    | Create(room: RoomId, user: UserId)
    | Invite(room: RoomId, inviter: UserId, invitee: UserId)
    | Leave(room: RoomId, user: UserId)
    | Remove(room: RoomId, actor: UserId, target: UserId)
    | Transfer(room: RoomId, actor: UserId, target: UserId, commits: bool)

  datatype Outcome = Done | NotMember | Forbidden | CreatorCannotLeave | TransferToSelf | DatabaseError

  function RoleOf(t: Tables, room: RoomId, user: UserId): Option<Role> {
    if (room, user) in t.members then Some(t.members[(room, user)]) else None
  }

  predicate Manages(role: Option<Role>) {
    role == Some(Creator) || role == Some(Admin)
  }

  /** `users` are the ids the foreign keys allow. */
  function Step(users: set<UserId>, t: Tables, op: Op): (Tables, Outcome) {
    match op
    case Create(room, user) =>
      if room in t.creators || user !in users then (t, DatabaseError)
      else (Tables(t.creators[room := user], t.members[(room, user) := Creator]), Done)
    case Invite(room, inviter, invitee) =>
      if !Manages(RoleOf(t, room, inviter)) then (t, Forbidden)
      else if invitee !in users then (t, DatabaseError)
      else if (room, invitee) in t.members then (t, Done)
      else (t.(members := t.members[(room, invitee) := Member]), Done)
    case Leave(room, user) =>
      var role := RoleOf(t, room, user);
      if role.None? then (t, NotMember)
      else if role.value.Creator? then (t, CreatorCannotLeave)
      else (t.(members := t.members - {(room, user)}), Done)
    case Remove(room, actor, target) =>
      var actorRole, targetRole := RoleOf(t, room, actor), RoleOf(t, room, target);
      if !Manages(actorRole) then (t, Forbidden)
      else if targetRole.None? then (t, NotMember)
      else if targetRole.value.Creator? || (targetRole.value.Admin? && !actorRole.value.Creator?) then (t, Forbidden)
      else (t.(members := t.members - {(room, target)}), Done)
    case Transfer(room, actor, target, commits) =>
      if RoleOf(t, room, actor) != Some(Creator) then (t, Forbidden)
      else if RoleOf(t, room, target).None? then (t, NotMember)
      else if target == actor then (t, TransferToSelf)
      else if !commits then (t, Done)
      else (Tables(t.creators[room := target], t.members[(room, target) := Creator][(room, actor) := Member]), Done)
  }

  /** The service, statement by statement. */
  class RoomService {
    const users: set<UserId>
    var creators: map<RoomId, UserId>
    var members: map<(RoomId, UserId), Role>

    constructor (users: set<UserId>)
      ensures this.users == users && creators == map[] && members == map[]
      ensures OneCreator(Tables(creators, members))
    {
      this.users := users;
      creators, members := map[], map[];
    }

    method CreateRoom(room: RoomId, user: UserId) returns (r: Outcome)
      modifies this
      ensures (Tables(creators, members), r) == Step(users, old(Tables(creators, members)), Create(room, user))
      ensures r.Done? && old(OneCreator(Tables(creators, members))) ==>
                MembersOf(Tables(creators, members), room) == {user}
    {
      if room in creators || user !in users {
        return DatabaseError;
      }
      creators := creators[room := user];
      members := members[(room, user) := Creator];
      NewRoomMembers(old(Tables(creators, members)), room, user);
      return Done;
    }

    method InviteMember(room: RoomId, inviter: UserId, invitee: UserId) returns (r: Outcome)
      modifies this
      ensures (Tables(creators, members), r)
           == Step(users, old(Tables(creators, members)), Invite(room, inviter, invitee))
    {
      if (room, inviter) !in members || members[(room, inviter)] == Member {
        return Forbidden;
      }
      if invitee !in users {
        return DatabaseError;
      }
      if (room, invitee) !in members {
        members := members[(room, invitee) := Member];
      }
      return Done;
    }

    method LeaveRoom(room: RoomId, user: UserId) returns (r: Outcome)
      modifies this
      ensures (Tables(creators, members), r) == Step(users, old(Tables(creators, members)), Leave(room, user))
    {
      if (room, user) !in members {
        return NotMember;
      }
      if members[(room, user)] == Creator {
        return CreatorCannotLeave;
      }
      members := members - {(room, user)};
      return Done;
    }

    method RemoveMember(room: RoomId, actor: UserId, target: UserId) returns (r: Outcome)
      modifies this
      ensures (Tables(creators, members), r) == Step(users, old(Tables(creators, members)), Remove(room, actor, target))
    {
      if (room, actor) !in members || members[(room, actor)] == Member {
        return Forbidden;
      }
      if (room, target) !in members {
        return NotMember;
      }
      var actorRole, targetRole := members[(room, actor)], members[(room, target)];
      if targetRole == Creator || (targetRole == Admin && actorRole != Creator) {
        return Forbidden;
      }
      members := members - {(room, target)};
      return Done;
    }

    /** The three updates of the transaction are undone together when it does not commit. */
    method TransferCreator(room: RoomId, actor: UserId, target: UserId, commits: bool) returns (r: Outcome)
      modifies this
      ensures (Tables(creators, members), r)
           == Step(users, old(Tables(creators, members)), Transfer(room, actor, target, commits))
    {
      if (room, actor) !in members || members[(room, actor)] != Creator {
        return Forbidden;
      }
      if (room, target) !in members {
        return NotMember;
      }
      if target == actor {
        return TransferToSelf;
      }
      var creatorsBefore, membersBefore := creators, members;
      members := members[(room, target) := Creator];
      members := members[(room, actor) := Member];
      creators := creators[room := target];
      if !commits {
        creators, members := creatorsBefore, membersBefore;
      }
      return Done;
    }
  }

  /** Every room has exactly one creator member, the one its row names, and only rooms have members. */
  ghost predicate OneCreator(t: Tables) {
    && (forall room | room in t.creators :: RoleOf(t, room, t.creators[room]) == Some(Creator))
    && (forall room, user | (room, user) in t.members ::
          room in t.creators && (t.members[(room, user)] == Creator ==> user == t.creators[room]))
  }

  function MembersOf(t: Tables, room: RoomId): set<UserId> {
    set key | key in t.members && key.0 == room :: key.1
  }

  lemma NewRoomMembers(t: Tables, room: RoomId, user: UserId)
    requires OneCreator(t) ==> room !in t.creators
    ensures OneCreator(t) ==> MembersOf(t.(members := t.members[(room, user) := Creator]), room) == {user}
  {
    var key := (room, user);
    assert key in t.members[key := Creator] && key.0 == room && key.1 == user;
    if OneCreator(t) {
      forall k | k in t.members
        ensures k.0 in t.creators
      {
        var (r, u) := k;
        assert (r, u) in t.members && t.members[(r, u)] == t.members[k];
      }
    }
  }

  /** The tables after a run of operations. */
  function Run(users: set<UserId>, t: Tables, ops: seq<Op>): Tables
    decreases |ops|
  {
    if ops == [] then t else Run(users, Step(users, t, ops[0]).0, ops[1..])
  }

  lemma StepKeepsOneCreator(users: set<UserId>, t: Tables, op: Op)
    requires OneCreator(t)
    ensures OneCreator(Step(users, t, op).0)
  {
  }

  lemma {:induction false} RunKeepsOneCreator(users: set<UserId>, t: Tables, ops: seq<Op>)
    requires OneCreator(t)
    ensures OneCreator(Run(users, t, ops))
    decreases |ops|
  {
    if ops != [] {
      StepKeepsOneCreator(users, t, ops[0]);
      RunKeepsOneCreator(users, Step(users, t, ops[0]).0, ops[1..]);
    }
  }

  /** A transfer keeps every member and makes the target the creator and the actor a plain member. */
  lemma TransferMovesOnlyTheRole(users: set<UserId>, t: Tables, room: RoomId, actor: UserId, target: UserId)
    requires OneCreator(t)
    ensures var (t', r) := Step(users, t, Transfer(room, actor, target, true));
            && MembersOf(t', room) == MembersOf(t, room)
            && (r.Done? ==> t'.creators[room] == target && RoleOf(t', room, actor) == Some(Member))
            && (forall key | key in t.members && key != (room, actor) && key != (room, target) ::
                  key in t'.members && t'.members[key] == t.members[key])
  {
  }

  // ------------------------------------------------------------ who comes in and who goes

  /** The operation lets the user in: as creator of a new room, or invited by a creator or admin. */
  ghost predicate LetsIn(users: set<UserId>, t: Tables, op: Op, room: RoomId, user: UserId) {
    match op
    case Create(r, u) => r == room && u == user && room !in t.creators && user in users
    case Invite(r, inviter, invitee) =>
      && r == room && invitee == user && user in users
      && (room, inviter) in t.members
      && (t.members[(room, inviter)] == Creator || t.members[(room, inviter)] == Admin)
    case _ => false
  }

  /** It lets the member go: by leaving without being the creator, or removed by someone above the member. */
  ghost predicate LetsGo(t: Tables, op: Op, room: RoomId, user: UserId)
    requires (room, user) in t.members
  {
    var role := t.members[(room, user)];
    match op
    case Leave(r, u) => r == room && u == user && role != Creator
    case Remove(r, actor, target) =>
      && r == room && target == user && (room, actor) in t.members
      && ((t.members[(room, actor)] == Creator && role != Creator)
          || (t.members[(room, actor)] == Admin && role == Member))
    case _ => false
  }

  /** One step: who is a member afterwards, and with which role. */
  lemma MembersExactly(users: set<UserId>, t: Tables, op: Op, room: RoomId, user: UserId)
    ensures var n := Step(users, t, op).0;
            && ((room, user) in n.members <==>
                  if (room, user) in t.members then !LetsGo(t, op, room, user) else LetsIn(users, t, op, room, user))
            && ((room, user) in n.members && (room, user) !in t.members ==>
                  n.members[(room, user)] == if op.Create? then Creator else Member)
            && ((room, user) in n.members && (room, user) in t.members && !op.Transfer? && !op.Create? ==>
                  n.members[(room, user)] == t.members[(room, user)])
  {
  }

  /** Which operations are done; all others change nothing. */
  lemma DoneExactly(users: set<UserId>, t: Tables, op: Op)
    ensures var (n, r) := Step(users, t, op);
            && (r != Done ==> n == t)
            && (r == Done <==>
                  match op
                  case Create(room, user) => LetsIn(users, t, op, room, user)
                  case Invite(room, _, invitee) => LetsIn(users, t, op, room, invitee)
                  case Leave(room, user) => (room, user) in t.members && LetsGo(t, op, room, user)
                  case Remove(room, _, target) => (room, target) in t.members && LetsGo(t, op, room, target)
                  case Transfer(room, actor, target, _) =>
                    && (room, actor) in t.members && t.members[(room, actor)] == Creator
                    && (room, target) in t.members && target != actor)
  {
  }

  ghost predicate LetInSometime(users: set<UserId>, t: Tables, ops: seq<Op>, room: RoomId, user: UserId)
    decreases |ops|
  {
    ops != [] &&
    (LetsIn(users, t, ops[0], room, user) || LetInSometime(users, Step(users, t, ops[0]).0, ops[1..], room, user))
  }

  ghost predicate LetGoSometime(users: set<UserId>, t: Tables, ops: seq<Op>, room: RoomId, user: UserId)
    decreases |ops|
  {
    ops != [] &&
    (((room, user) in t.members && LetsGo(t, ops[0], room, user))
     || LetGoSometime(users, Step(users, t, ops[0]).0, ops[1..], room, user))
  }

  /** Over any run nobody becomes a member uninvited, and nobody stops being one but by leaving or a rightful removal. */
  lemma {:induction false} MembershipHasCause(users: set<UserId>, t: Tables, ops: seq<Op>, room: RoomId, user: UserId)
    ensures var n := Run(users, t, ops);
            && ((room, user) in n.members && (room, user) !in t.members ==> LetInSometime(users, t, ops, room, user))
            && ((room, user) !in n.members && (room, user) in t.members ==> LetGoSometime(users, t, ops, room, user))
    decreases |ops|
  {
    if ops != [] {
      MembersExactly(users, t, ops[0], room, user);
      MembershipHasCause(users, Step(users, t, ops[0]).0, ops[1..], room, user);
    }
  }
}
