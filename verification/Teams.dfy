/** Roles, invitations and role changes. */
module Teams {
  import opened Text

  /** The role column; only the four known roles are ever assigned. */
  datatype Role = Owner | Admin | Operator | Viewer | OtherRole(text: string)

  function Level(role: Role): nat {
    match role
    case Owner => 0
    case Admin => 1
    case Operator => 2
    case Viewer => 3
    case OtherRole(_) => 255
  }

  predicate HasGlobalAccess(role: Role) {
    role.Owner? || role.Admin?
  }

  predicate CanManage(actor: Role, target: Role) {
    Level(actor) < Level(target)
  }

  predicate IsKnown(role: Role) {
    !role.OtherRole?
  }

  /** Nobody manages an owner, or makes one; only owners manage and make admins. */
  lemma ManagingNeedsRank(actor: Role, target: Role)
    requires CanManage(actor, target)
    ensures target != Owner
    ensures target == Admin ==> actor == Owner
  {
  }

  datatype User = User(email: string, role: Role)

  datatype Invitation = Invitation(email: string, role: Role, invitedBy: nat, expiresAt: int, used: bool)

  datatype Reply = Done | Forbidden | BadRequest | NotFound | UserExists

  /** What the handlers check before they write. */
  function InviteReply(actor: Role, email: string, role: Role, taken: bool): Reply {
    if !HasGlobalAccess(actor) then Forbidden
    else if email == "" || '@' !in email || !IsKnown(role) || !CanManage(actor, role) then BadRequest
    else if taken then UserExists
    else Done
  }

  function UpdateReply(actorId: nat, actor: Role, target: nat, targetRole: Option<Role>, role: Role): Reply {
    if !HasGlobalAccess(actor) then Forbidden
    else if targetRole.None? then NotFound
    else if !IsKnown(role) || !CanManage(actor, role) || target == actorId || !CanManage(actor, targetRole.value) then BadRequest
    else Done
  }

  function RemoveReply(actorId: nat, actor: Role, target: nat, targetRole: Option<Role>): Reply {
    if !HasGlobalAccess(actor) then Forbidden
    else if targetRole.None? then NotFound
    else if target == actorId || !CanManage(actor, targetRole.value) then BadRequest
    else Done
  }

  type Users = map<nat, User>
  type Invitations = map<nat, Invitation>

  predicate IsTaken(users: Users, email: string) {
    exists id :: id in users && users[id].email == email
  }

  function RoleOf(users: Users, id: nat): Option<Role> {
    if id in users then Some(users[id].role) else None
  }

  /** `ON DELETE CASCADE` on the inviter. */
  function WithoutInviter(invitations: Invitations, user: nat): Invitations {
    map i | i in invitations && invitations[i].invitedBy != user :: invitations[i]
  }

  function Open(invitations: Invitations, id: nat, now: int): bool {
    id in invitations && !invitations[id].used && invitations[id].expiresAt > now
  }

  function RegisterReply(users: Users, invitations: Invitations, id: nat, passwordLength: nat, now: int): Reply {
    if !Open(invitations, id, now) || passwordLength < 8 then BadRequest
    else if IsTaken(users, invitations[id].email) then UserExists
    else Done
  }

  /** An invitation serves once. */
  lemma UsedInvitationIsRefused(users: Users, invitations: Invitations, id: nat, passwordLength: nat, now: int,
                                laterUsers: Users, laterLength: nat, later: int)
    requires RegisterReply(users, invitations, id, passwordLength, now) == Done
    ensures RegisterReply(laterUsers, invitations[id := invitations[id].(used := true)], id, laterLength, later) == BadRequest
  {
  }

  /** An invitation serves for a week, to the second. */
  lemma InvitationLivesAWeek(users: Users, invitations: Invitations, id: nat, email: string, role: Role, actor: nat,
                             made: int, passwordLength: nat, now: int)
    requires invitations == invitations[id := Invitation(email, role, actor, made + WEEK, false)]
    requires passwordLength >= 8 && forall u :: u in users ==> users[u].email != email
    ensures RegisterReply(users, invitations, id, passwordLength, now)
         == if now < made + 604800 then Done else BadRequest
  {
    assert invitations[id] == Invitation(email, role, actor, made + WEEK, false);
  }

  const WEEK := 7 * 24 * 60 * 60

  /** The handlers on the tables, each running alone. Ids are never reused. */
  class Team {
    var users: Users
    var invitations: Invitations
    var nextUser: nat
    var nextInvitation: nat

    ghost predicate Valid()
      reads this
    {
      && (forall id :: id in users ==> id < nextUser)
      && (forall i :: i in invitations ==> i < nextInvitation && invitations[i].invitedBy in users)
    }

    constructor (email: string)
      ensures Valid() && users == map[0 := User(email, Owner)] && invitations == map[]
    {
      users, invitations, nextUser, nextInvitation := map[0 := User(email, Owner)], map[], 1, 0;
    }

    method Invite(actor: nat, email: string, role: Role, now: int) returns (r: Reply)
      requires Valid() && actor in users
      modifies this
      ensures Valid() && users == old(users) && nextUser == old(nextUser)
      ensures r == InviteReply(users[actor].role, email, role, IsTaken(users, email))
      ensures invitations == if r == Done
                             then old(invitations)[old(nextInvitation) := Invitation(email, role, actor, now + 7 * 24 * 60 * 60, false)]
                             else old(invitations)
      ensures r == Done ==> role != Owner && (role == Admin ==> users[actor].role == Owner)
    {
      var own := users[actor].role;
      if !HasGlobalAccess(own) {
        return Forbidden;
      }
      if email == "" || '@' !in email {
        return BadRequest;
      }
      if !IsKnown(role) {
        return BadRequest;
      }
      if !CanManage(own, role) {
        return BadRequest;
      }
      if IsTaken(users, email) {
        return UserExists;
      }
      invitations := invitations[nextInvitation := Invitation(email, role, actor, now + WEEK, false)];
      nextInvitation := nextInvitation + 1;
      r := Done;
    }

    /** The invitation is looked up by its token; a second account for one email is refused by
        the table. */
    method Register(id: nat, passwordLength: nat, now: int) returns (r: Reply)
      requires Valid()
      modifies this
      ensures Valid()
      ensures r == Done <==>
                && id in old(invitations) && !old(invitations)[id].used && now < old(invitations)[id].expiresAt
                && passwordLength >= 8
                && forall u :: u in old(users) ==> old(users)[u].email != old(invitations)[id].email
      ensures r == RegisterReply(old(users), old(invitations), id, passwordLength, now)
      ensures r == Done ==>
                && users == old(users)[old(nextUser) := User(old(invitations)[id].email, old(invitations)[id].role)]
                && invitations == old(invitations)[id := old(invitations)[id].(used := true)]
      ensures r != Done ==> users == old(users) && invitations == old(invitations)
    {
      if !Open(invitations, id, now) || passwordLength < 8 {
        return BadRequest;
      }
      var invitation := invitations[id];
      if IsTaken(users, invitation.email) {
        return UserExists;
      }
      users := users[nextUser := User(invitation.email, invitation.role)];
      nextUser := nextUser + 1;
      invitations := invitations[id := invitation.(used := true)];
      r := Done;
    }

    method UpdateRole(actor: nat, target: nat, role: Role) returns (r: Reply)
      requires Valid() && actor in users
      modifies this
      ensures Valid() && invitations == old(invitations)
      ensures r == UpdateReply(actor, old(users)[actor].role, target, RoleOf(old(users), target), role)
      ensures users == if r == Done then old(users)[target := old(users)[target].(role := role)] else old(users)
      ensures r == Done ==> Level(users[actor].role) < Level(old(users)[target].role) && Level(users[actor].role) < Level(role)
    {
      var own := users[actor].role;
      if !HasGlobalAccess(own) {
        return Forbidden;
      }
      if target !in users {
        return NotFound;
      }
      if !IsKnown(role) {
        return BadRequest;
      }
      if !CanManage(own, role) {
        return BadRequest;
      }
      if target == actor {
        return BadRequest;
      }
      if !CanManage(own, users[target].role) {
        return BadRequest;
      }
      users := users[target := users[target].(role := role)];
      r := Done;
    }

    method Remove(actor: nat, target: nat) returns (r: Reply)
      requires Valid() && actor in users
      modifies this
      ensures Valid() && actor in users
      ensures r == RemoveReply(actor, old(users)[actor].role, target, RoleOf(old(users), target))
      ensures users == if r == Done then old(users) - {target} else old(users)
      ensures forall i :: i in invitations <==> i in old(invitations) && (r != Done || old(invitations)[i].invitedBy != target)
      ensures forall i :: i in invitations ==> invitations[i] == old(invitations)[i]
      ensures r == Done ==> Level(users[actor].role) < Level(old(users)[target].role)
    {
      var own := users[actor].role;
      if !HasGlobalAccess(own) {
        return Forbidden;
      }
      if target !in users {
        return NotFound;
      }
      if target == actor {
        return BadRequest;
      }
      if !CanManage(own, users[target].role) {
        return BadRequest;
      }
      users, invitations := users - {target}, WithoutInviter(invitations, target);
      r := Done;
    }
  }

  // ---------------------------------------------------------------------------------------
  // Runs of overlapping requests
  // ---------------------------------------------------------------------------------------

  /** A request decides on what it read, and the tables may have changed since. `held` are all
      the roles users ever had, `issued` all invitations ever made, `grantedBy` says who gave a
      user the present role. */
  datatype State = State(
    users: Users,
    invitations: Invitations,
    nextUser: nat,
    nextInvitation: nat,
    held: set<(nat, Role)>,
    issued: Invitations,
    grantedBy: map<nat, nat>)

  /** `seen` is the role that the actor had when the request was authenticated, `targetSeen` that
      of the target when it was read. */
  datatype Event =
    | Invite(actor: nat, seen: Role, email: string, role: Role, expiresAt: int)
    | Register(invitation: nat)
    | MarkUsed(invitation: nat)
    | Revoke(invitation: nat)
    | UpdateRole(actor: nat, seen: Role, target: nat, targetSeen: Role, role: Role)
    | Remove(actor: nat, seen: Role, target: nat, targetSeen: Role)

  ghost predicate Possible(s: State, e: Event) {
    match e
    case Invite(actor, seen, email, role, _) =>
      (actor, seen) in s.held && actor in s.users && InviteReply(seen, email, role, false) == Done
    case Register(i) => i in s.issued && !IsTaken(s.users, s.issued[i].email)
    case MarkUsed(_) | Revoke(_) => true
    case UpdateRole(actor, seen, target, targetSeen, role) =>
      (actor, seen) in s.held && (target, targetSeen) in s.held && UpdateReply(actor, seen, target, Some(targetSeen), role) == Done
    case Remove(actor, seen, target, targetSeen) =>
      (actor, seen) in s.held && (target, targetSeen) in s.held && RemoveReply(actor, seen, target, Some(targetSeen)) == Done
  }

  function Step(s: State, e: Event): State
    requires e.Register? ==> e.invitation in s.issued
  {
    match e
    case Invite(actor, _, email, role, expiresAt) =>
      var invitation := Invitation(email, role, actor, expiresAt, false);
      s.(invitations := s.invitations[s.nextInvitation := invitation], issued := s.issued[s.nextInvitation := invitation],
         nextInvitation := s.nextInvitation + 1)
    case Register(i) =>
      var invitation := s.issued[i];
      s.(users := s.users[s.nextUser := User(invitation.email, invitation.role)], nextUser := s.nextUser + 1,
         held := s.held + {(s.nextUser, invitation.role)}, grantedBy := s.grantedBy[s.nextUser := invitation.invitedBy])
    case MarkUsed(i) =>
      if i in s.invitations then s.(invitations := s.invitations[i := s.invitations[i].(used := true)]) else s
    case Revoke(i) => s.(invitations := s.invitations - {i})
    case UpdateRole(actor, _, target, _, role) =>
      if target in s.users
      then s.(users := s.users[target := s.users[target].(role := role)], held := s.held + {(target, role)},
              grantedBy := s.grantedBy[target := actor])
      else s
    case Remove(_, _, target, _) =>
      s.(users := s.users - {target}, invitations := WithoutInviter(s.invitations, target))
  }

  /** The accounts made at the first start. */
  function Initial(owners: seq<string>): State {
    var users := map id: nat | 0 <= id < |owners| :: User(owners[id], Owner);
    State(users, map[], |owners|, 0, set id: nat | 0 <= id < |owners| :: (id, Owner), map[], map[])
  }

  ghost function After(s: State, run: seq<Event>): Option<State> {
    if run == [] then Some(s)
    else
      match After(s, run[..|run| - 1])
      case None => None
      case Some(mid) => if Possible(mid, run[|run| - 1]) then Some(Step(mid, run[|run| - 1])) else None
  }

  /** `n` is the number of bootstrap accounts, whose ids come first. */
  ghost predicate Good(s: State, n: nat) {
    && n <= s.nextUser
    && (forall id :: id in s.users ==> id < s.nextUser && (id, s.users[id].role) in s.held)
    && (forall id: nat, role :: (id, role) in s.held ==> id < s.nextUser && (id < n <==> role == Owner))
    && (forall id: nat :: id < n ==> id in s.users)
    && (forall i :: i in s.issued ==> i < s.nextInvitation && s.issued[i].role != Owner
                                      && (s.issued[i].role == Admin ==> s.issued[i].invitedBy < n))
    && forall id :: id in s.users && s.users[id].role == Admin ==> id in s.grantedBy && s.grantedBy[id] < n
  }

  lemma RegisterKeepsGood(s: State, e: Event, n: nat)
    requires Good(s, n) && Possible(s, e) && e.Register?
    ensures Good(Step(s, e), n)
  {
  }

  lemma UpdateKeepsGood(s: State, e: Event, n: nat)
    requires Good(s, n) && Possible(s, e) && e.UpdateRole?
    ensures Good(Step(s, e), n)
  {
  }

  lemma InviteKeepsGood(s: State, e: Event, n: nat)
    requires Good(s, n) && Possible(s, e) && e.Invite?
    ensures Good(Step(s, e), n)
  {
    ManagingNeedsRank(e.seen, e.role);
  }

  lemma StepKeepsGood(s: State, e: Event, n: nat)
    requires Good(s, n) && Possible(s, e)
    ensures Good(Step(s, e), n)
  {
    match e {
      case Invite(_, _, _, _, _) => InviteKeepsGood(s, e, n);
      case Register(_) => RegisterKeepsGood(s, e, n);
      case UpdateRole(_, _, _, _, _) => UpdateKeepsGood(s, e, n);
      case _ =>
    }
  }

  lemma {:induction false} RunKeepsGood(owners: seq<string>, run: seq<Event>)
    requires After(Initial(owners), run).Some?
    ensures Good(After(Initial(owners), run).value, |owners|)
  {
    if run != [] {
      RunKeepsGood(owners, run[..|run| - 1]);
      StepKeepsGood(After(Initial(owners), run[..|run| - 1]).value, run[|run| - 1], |owners|);
    }
  }

  /** However requests overlap, the owners are always the bootstrap accounts, all of them. */
  lemma OwnersNeverChange(owners: seq<string>, run: seq<Event>, s: State)
    requires After(Initial(owners), run) == Some(s)
    ensures forall id: nat :: id in s.users && s.users[id].role == Owner <==> id < |owners|
  {
    RunKeepsGood(owners, run);
  }

  /** And every admin was invited or promoted by an owner. */
  lemma AdminsComeFromOwners(owners: seq<string>, run: seq<Event>, s: State, id: nat)
    requires After(Initial(owners), run) == Some(s) && id in s.users && s.users[id].role == Admin
    ensures id in s.grantedBy && s.grantedBy[id] in s.users && s.users[s.grantedBy[id]].role == Owner
  {
    RunKeepsGood(owners, run);
    OwnersNeverChange(owners, run, s);
  }

  // ---------------------------------------------------------------------------------------
  // The handlers are steps
  // ---------------------------------------------------------------------------------------

  /** An invitation is issued once, and only ever marked as used. */
  ghost predicate IssuedOk(s: State) {
    && (forall id :: id in s.users ==> (id, s.users[id].role) in s.held)
    && forall i :: i in s.invitations ==>
         i in s.issued && i < s.nextInvitation && s.issued[i].email == s.invitations[i].email && s.issued[i].role == s.invitations[i].role
  }

  lemma InvitationsStayIssued(s: State, e: Event)
    requires IssuedOk(s) && Possible(s, e)
    ensures forall i :: i in Step(s, e).invitations ==>
              && i in Step(s, e).issued && i < Step(s, e).nextInvitation
              && Step(s, e).issued[i].email == Step(s, e).invitations[i].email
              && Step(s, e).issued[i].role == Step(s, e).invitations[i].role
  {
  }

  lemma {:induction false} RunKeepsIssued(owners: seq<string>, run: seq<Event>)
    requires After(Initial(owners), run).Some?
    ensures IssuedOk(After(Initial(owners), run).value)
  {
    RunKeepsGood(owners, run);
    if run != [] {
      RunKeepsIssued(owners, run[..|run| - 1]);
      InvitationsStayIssued(After(Initial(owners), run[..|run| - 1]).value, run[|run| - 1]);
    }
  }

  /** An invitation that nothing overtakes is a possible step with the effect of its handler. */
  lemma InviteIsAStep(owners: seq<string>, run: seq<Event>, s: State, actor: nat, email: string, role: Role, now: int)
    requires After(Initial(owners), run) == Some(s) && actor in s.users
    requires InviteReply(s.users[actor].role, email, role, IsTaken(s.users, email)) == Done
    ensures var e := Invite(actor, s.users[actor].role, email, role, now + WEEK);
            && Possible(s, e) && Step(s, e).users == s.users
            && Step(s, e).invitations == s.invitations[s.nextInvitation := Invitation(email, role, actor, now + WEEK, false)]
            && s.nextInvitation !in s.invitations && Step(s, e).nextInvitation == s.nextInvitation + 1
  {
    RunKeepsIssued(owners, run);
  }

  /** A registration that nothing overtakes is its two statements. */
  lemma RegisterIsTwoSteps(owners: seq<string>, run: seq<Event>, s: State, i: nat, passwordLength: nat, now: int)
    requires After(Initial(owners), run) == Some(s) && RegisterReply(s.users, s.invitations, i, passwordLength, now) == Done
    ensures Possible(s, Register(i)) && Possible(Step(s, Register(i)), MarkUsed(i))
    ensures var t := Step(Step(s, Register(i)), MarkUsed(i));
            && t.users == s.users[s.nextUser := User(s.invitations[i].email, s.invitations[i].role)] && s.nextUser !in s.users
            && t.invitations == s.invitations[i := s.invitations[i].(used := true)]
  {
    RunKeepsIssued(owners, run);
    RunKeepsGood(owners, run);
  }

  /** So is a change of a role that nothing overtakes. */
  lemma UpdateIsAStep(owners: seq<string>, run: seq<Event>, s: State, actor: nat, target: nat, role: Role)
    requires After(Initial(owners), run) == Some(s) && actor in s.users
    requires UpdateReply(actor, s.users[actor].role, target, RoleOf(s.users, target), role) == Done
    ensures var e := UpdateRole(actor, s.users[actor].role, target, s.users[target].role, role);
            && Possible(s, e) && Step(s, e).invitations == s.invitations
            && Step(s, e).users == s.users[target := s.users[target].(role := role)]
  {
    RunKeepsIssued(owners, run);
  }

  /** And a removal. */
  lemma RemoveIsAStep(owners: seq<string>, run: seq<Event>, s: State, actor: nat, target: nat)
    requires After(Initial(owners), run) == Some(s) && actor in s.users
    requires RemoveReply(actor, s.users[actor].role, target, RoleOf(s.users, target)) == Done
    ensures var e := Remove(actor, s.users[actor].role, target, s.users[target].role);
            && Possible(s, e) && Step(s, e).users == s.users - {target}
            && (forall i :: i in Step(s, e).invitations <==> i in s.invitations && s.invitations[i].invitedBy != target)
            && forall i :: i in Step(s, e).invitations ==> Step(s, e).invitations[i] == s.invitations[i]
  {
    RunKeepsIssued(owners, run);
  }

  // ---------------------------------------------------------------------------------------
  // Rank at the moment of the change
  // ---------------------------------------------------------------------------------------

  /** The change is made from strictly above the old and the new role. */
  ghost predicate IsStrict(s: State, e: Event)
    requires e.UpdateRole?
  {
    && e.actor in s.users && e.target in s.users
    && Level(s.users[e.actor].role) < Level(s.users[e.target].role)
    && Level(s.users[e.actor].role) < Level(e.role)
  }

  /** An owner's requests are never overtaken: as long as the target exists, the owner is
      strictly above it and above the role that is given. */
  lemma OwnersChangesAreStrict(owners: seq<string>, run: seq<Event>, s: State, e: Event)
    requires After(Initial(owners), run) == Some(s) && Possible(s, e)
    requires e.UpdateRole? && e.seen == Owner && e.target in s.users
    ensures IsStrict(s, e)
  {
    RunKeepsGood(owners, run);
  }

  /** Only the four roles are ever given. */
  ghost predicate AllKnown(s: State) {
    && (forall id: nat, role :: (id, role) in s.held ==> IsKnown(role))
    && forall i :: i in s.issued ==> IsKnown(s.issued[i].role)
  }

  lemma {:induction false} RunKeepsKnown(owners: seq<string>, run: seq<Event>)
    requires After(Initial(owners), run).Some?
    ensures AllKnown(After(Initial(owners), run).value)
  {
    if run != [] {
      RunKeepsKnown(owners, run[..|run| - 1]);
    }
  }

  /** What an admin whose request is under way may have become. */
  lemma ReachedRoles(owners: seq<string>, run: seq<Event>, s: State, actor: nat, target: nat, targetSeen: Role)
    requires After(Initial(owners), run) == Some(s)
    requires (actor, Admin) in s.held && (target, targetSeen) in s.held && targetSeen != Owner
    ensures actor in s.users ==> s.users[actor].role in {Admin, Operator, Viewer}
    ensures target in s.users ==> s.users[target].role in {Admin, Operator, Viewer}
  {
    RunKeepsGood(owners, run);
    RunKeepsKnown(owners, run);
  }

  /** A role change requested by an admin is strict exactly if the admin is one still and the target
      was not made one; or the admin has become an operator, and a viewer stays a viewer. */
  lemma AdminsChangeIsStrictIff(owners: seq<string>, run: seq<Event>, s: State, e: Event)
    requires After(Initial(owners), run) == Some(s) && Possible(s, e) && e.UpdateRole? && e.seen == Admin
    ensures IsStrict(s, e) <==>
              && e.target in s.users
              && (|| (RoleOf(s.users, e.actor) == Some(Admin) && s.users[e.target].role != Admin)
                  || (RoleOf(s.users, e.actor) == Some(Operator) && s.users[e.target].role == e.role == Viewer))
    ensures e.target in s.users && s.users[e.target].role != e.role ==>
              (IsStrict(s, e) <==> RoleOf(s.users, e.actor) == Some(Admin) && s.users[e.target].role != Admin)
  {
    ManagingNeedsRank(e.seen, e.role);
    ManagingNeedsRank(e.seen, e.targetSeen);
    ReachedRoles(owners, run, s, e.actor, e.target, e.targetSeen);
  }

  /** The removal is made from strictly above. */
  ghost predicate IsStrictRemoval(s: State, e: Event)
    requires e.Remove?
  {
    && e.actor in s.users && e.target in s.users
    && Level(s.users[e.actor].role) < Level(s.users[e.target].role)
  }

  /** A removal of an existing account is strict if an owner requested it. If an admin did, it is
      exactly if the admin is one still and the target was not made one; or the admin has become an
      operator and the target is a viewer. */
  lemma RemovalIsStrictIff(owners: seq<string>, run: seq<Event>, s: State, e: Event)
    requires After(Initial(owners), run) == Some(s) && Possible(s, e) && e.Remove? && e.target in s.users
    ensures e.seen == Owner ==> IsStrictRemoval(s, e)
    ensures e.seen != Owner ==>
              (IsStrictRemoval(s, e) <==>
                 || (RoleOf(s.users, e.actor) == Some(Admin) && s.users[e.target].role != Admin)
                 || (RoleOf(s.users, e.actor) == Some(Operator) && s.users[e.target].role == Viewer))
  {
    ManagingNeedsRank(e.seen, e.targetSeen);
    if e.seen == Owner {
      RunKeepsGood(owners, run);
    } else {
      ReachedRoles(owners, run, s, e.actor, e.target, e.targetSeen);
    }
  }

  lemma AfterMore(s: State, run: seq<Event>, e: Event)
    requires After(s, run).Some? && Possible(After(s, run).value, e)
    ensures After(s, run + [e]) == Some(Step(After(s, run).value, e))
  {
    assert (run + [e])[..|run + [e]| - 1] == run;
  }

  /** The owner makes user 1 an admin and user 2 an operator. */
  lemma TwoInvited(o: string, a: string, b: string) returns (run: seq<Event>, s: State)
    requires a != "" && '@' in a && b != "" && '@' in b && a != b && o != a && o != b
    ensures After(Initial([o]), run) == Some(s)
    ensures s.users == map[0 := User(o, Owner), 1 := User(a, Admin), 2 := User(b, Operator)]
    ensures (0, Owner) in s.held && (1, Admin) in s.held && (2, Operator) in s.held
  {
    var s0 := Initial([o]);
    assert After(s0, []) == Some(s0);
    var r1, s1 := OneInvited(s0, [], o, a, Admin);
    assert s1.users == map[0 := User(o, Owner), 1 := User(a, Admin)];
    run, s := OneInvited(s1, r1, o, b, Operator);
  }

  /** User 0 invites somebody, who registers. */
  lemma OneInvited(s: State, run: seq<Event>, o: string, email: string, role: Role) returns (more: seq<Event>, t: State)
    requires After(Initial([o]), run) == Some(s) && 0 in s.users && (0, Owner) in s.held
    requires email != "" && '@' in email && !IsTaken(s.users, email) && (role == Admin || role == Operator)
    ensures After(Initial([o]), more) == Some(t)
    ensures t.users == s.users[s.nextUser := User(email, role)] && t.nextUser == s.nextUser + 1
    ensures t.held == s.held + {(s.nextUser, role)}
  {
    var invite := Invite(0, Owner, email, role, 1);
    AfterMore(Initial([o]), run, invite);
    var mid := Step(s, invite);
    AfterMore(Initial([o]), run + [invite], Register(s.nextInvitation));
    more, t := run + [invite] + [Register(s.nextInvitation)], Step(mid, Register(s.nextInvitation));
  }

  /** Not so for admins: one who is demoted while the request is under way still changes the
      role of somebody above. */
  lemma OvertakenAdminIsNotStrict(o: string, a: string, b: string)
    requires a != "" && '@' in a && b != "" && '@' in b && a != b && o != a && o != b
    ensures exists run: seq<Event>, s: State, e: Event ::
              After(Initial([o]), run) == Some(s) && Possible(s, e) && e.UpdateRole? && e.seen == Admin
              && e.actor in s.users && e.target in s.users && !IsStrict(s, e)
  {
    var run, s := TwoInvited(o, a, b);
    var demote := UpdateRole(0, Owner, 1, Admin, Viewer);
    AfterMore(Initial([o]), run, demote);
    var t := Step(s, demote);
    var late := UpdateRole(1, Admin, 2, Operator, Viewer);
    assert Possible(t, late) && !IsStrict(t, late);
    assert After(Initial([o]), run + [demote]) == Some(t);
  }

  /** Nor if the target was made an admin meanwhile, whose role or account is then taken. */
  lemma PromotedTargetIsNotBelow(o: string, a: string, b: string)
    requires a != "" && '@' in a && b != "" && '@' in b && a != b && o != a && o != b
    ensures exists run: seq<Event>, s: State, e: Event, d: Event ::
              && After(Initial([o]), run) == Some(s) && Possible(s, e) && Possible(s, d)
              && e.UpdateRole? && e.seen == Admin && RoleOf(s.users, e.actor) == Some(Admin)
              && e.target in s.users && !IsStrict(s, e)
              && d.Remove? && d.seen == Admin && RoleOf(s.users, d.actor) == Some(Admin)
              && d.target in s.users && !IsStrictRemoval(s, d)
  {
    var run, s := TwoInvited(o, a, b);
    var promote := UpdateRole(0, Owner, 2, Operator, Admin);
    AfterMore(Initial([o]), run, promote);
    var t := Step(s, promote);
    var e, d := UpdateRole(1, Admin, 2, Operator, Viewer), Remove(1, Admin, 2, Operator);
    assert Possible(t, e) && !IsStrict(t, e);
    assert Possible(t, d) && !IsStrictRemoval(t, d);
    assert After(Initial([o]), run + [promote]) == Some(t);
  }
}
