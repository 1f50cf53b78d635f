/** The user-account operations of lib.rs: registration, changing the
    credentials or the profile, and deleting a user with everything that
    refers to them. */
module Accounts {
  import opened Outcomes
  import opened Tables
  import opened Schema
  import opened Store
  import opened Rooms
  import opened Wallets

  // ---------------------------------------------------------------------
  // add_new_user
  // ---------------------------------------------------------------------

  /** Inserts the credentials, reads the user back by username and gives
      them the profile.  The read-back fails when the username was already
      taken (two rows then carry it); the new user row stays. */
  method AddNewUser(db: Db, c: Credentials, f: Profile) returns (r: Outcome<User>)
    requires db.Valid()
    modifies db`users, db`profiles, db`nextUserId
    ensures db.Valid()
    ensures db.users == old(db.users) + [User(old(db.nextUserId), c.username, c.email, c.password)]
    ensures r.Ok? || r == Err(NotFound)
    ensures r.Ok? <==> old(Filter(db.users, ByUsername(c.username))) == []
    ensures !r.Ok? ==> db.profiles == old(db.profiles)
    ensures r.Ok? ==>
      && r.value == User(old(db.nextUserId), c.username, c.email, c.password)
      && db.profiles == old(db.profiles) + [Profile(r.value.id, f.bio, f.picture)]
      && db.GetUserWithUsername(c.username) == Ok(r.value)
      && db.GetUserWithUserId(r.value.id) == Ok(r.value)
      && db.GetUserProfileWithUserId(r.value.id) == Ok(Profile(r.value.id, f.bio, f.picture))
  {
    ghost var us0 := db.users;
    ghost var fs0 := db.profiles;
    var u := db.InsertUser(c);
    NewUserRows(us0, fs0, u);
    var found := db.GetUserWithUsername(c.username);
    if !found.Ok? {
      return Err(NotFound);
    }
    db.InsertProfile(Profile(found.value.id, f.bio, f.picture));
    NewProfileRow(fs0, Profile(u.id, f.bio, f.picture));
    r := Ok(found.value);
  }

  /** The appended user row is the only row with its key, and the only row
      with its username when that name was free. */
  lemma NewUserRows(us0: seq<User>, fs0: seq<Profile>, u: User)
    requires UserIdsBelow(us0, u.id) && ProfilesRefer(fs0, us0)
    ensures Filter(us0 + [u], ByUserId(u.id)) == [u]
    ensures |Filter(us0 + [u], ByUsername(u.username))| == |Filter(us0, ByUsername(u.username))| + 1
    ensures Filter(fs0, ProfileOf(u.id)) == []
  {
    FilterConcat(us0, [u], ByUserId(u.id));
    assert Filter([u], ByUserId(u.id)) == [u];
    FilterConcat(us0, [u], ByUsername(u.username));
    assert Filter([u], ByUsername(u.username)) == [u];
  }

  /** A profile appended for a user who had none is that user's one
      profile. */
  lemma NewProfileRow(fs0: seq<Profile>, f: Profile)
    requires Filter(fs0, ProfileOf(f.userId)) == []
    ensures Filter(fs0 + [f], ProfileOf(f.userId)) == [f]
  {
    FilterConcat(fs0, [f], ProfileOf(f.userId));
    assert Filter([f], ProfileOf(f.userId)) == [f];
  }

  // ---------------------------------------------------------------------
  // update_user_credits
  // ---------------------------------------------------------------------

  /** The rows of users after an UPDATE of the credentials of the rows with
      key `uid`. */
  function WithCredentials(us: seq<User>, uid: int, c: Credentials): (r: seq<User>)
    ensures |r| == |us|
    ensures forall k :: 0 <= k < |us| ==> r[k].id == us[k].id
    ensures forall k :: 0 <= k < |us| && us[k].id != uid ==> r[k] == us[k]
    ensures forall k :: 0 <= k < |us| && us[k].id == uid ==> r[k] == User(uid, c.username, c.email, c.password)
  {
    seq(|us|, k requires 0 <= k < |us| => if us[k].id == uid then User(uid, c.username, c.email, c.password) else us[k])
  }

  /** Changing the credentials keeps the keys, hence every reference. */
  lemma WithCredentialsKeys(us: seq<User>, uid: int, c: Credentials)
    ensures UserIds(WithCredentials(us, uid, c)) == UserIds(us)
  {
    var w := WithCredentials(us, uid, c);
    forall id | id in UserIds(us) ensures id in UserIds(w) {
      var k :| 0 <= k < |us| && us[k].id == id;
      assert w[k] in w;
    }
    forall id | id in UserIds(w) ensures id in UserIds(us) {
      var k :| 0 <= k < |w| && w[k].id == id;
      assert us[k] in us;
    }
  }

  /** A row with the changed key and the new username, after the update,
      is the updated row. */
  lemma UpdatedUserFound(us: seq<User>, before: User, c: Credentials, found: User)
    requires before in us
    requires found in WithCredentials(us, before.id, c) && found.username == c.username
    requires forall x :: x in WithCredentials(us, before.id, c) && x.username == c.username ==> x == found
    ensures found == User(before.id, c.username, c.email, c.password)
  {
    var k :| 0 <= k < |us| && us[k] == before;
    assert WithCredentials(us, before.id, c)[k] in WithCredentials(us, before.id, c);
  }

  /** Changes a user's username, email and password.  The result is read
      back by the new username, which panics when another user already
      holds that name. */
  method UpdateUserCredits(db: Db, oldName: string, c: Credentials) returns (r: Outcome<User>)
    requires db.Valid()
    modifies db`users
    ensures db.Valid()
    ensures r.Ok? || r.Panic? || r == Err(NotFound)
    ensures r == Err(NotFound) <==> !old(db.GetUserWithUsername(oldName)).Ok?
    ensures r == Err(NotFound) ==> unchanged(db)
    ensures old(db.GetUserWithUsername(oldName)).Ok? ==>
      var uid := old(db.GetUserWithUsername(oldName)).value.id;
      && db.users == WithCredentials(old(db.users), uid, c)
      && (r.Ok? <==> db.GetUserWithUsername(c.username).Ok?)
      && (r.Ok? ==> r.value == User(uid, c.username, c.email, c.password))
  {
    var found := db.GetUserWithUsername(oldName);
    if !found.Ok? {
      return Err(NotFound);
    }
    WithCredentialsKeys(db.users, found.value.id, c);
    db.SetUsers(WithCredentials(db.users, found.value.id, c));
    var renamed := db.GetUserWithUsername(c.username);
    if !renamed.Ok? {
      return Panic;
    }
    UpdatedUserFound(old(db.users), found.value, c, renamed.value);
    r := Ok(renamed.value);
  }

  // ---------------------------------------------------------------------
  // update_user_profile
  // ---------------------------------------------------------------------

  /** The rows of user_profiles after an UPDATE of bio and picture of the
      rows of user `uid`. */
  function WithProfile(fs: seq<Profile>, uid: int, bio: Option<string>, picture: Option<string>): (r: seq<Profile>)
    ensures |r| == |fs|
    ensures forall k :: 0 <= k < |fs| ==> r[k].userId == fs[k].userId
    ensures forall k :: 0 <= k < |fs| && fs[k].userId != uid ==> r[k] == fs[k]
    ensures forall k :: 0 <= k < |fs| && fs[k].userId == uid ==> r[k] == Profile(uid, bio, picture)
  {
    seq(|fs|, k requires 0 <= k < |fs| => if fs[k].userId == uid then Profile(uid, bio, picture) else fs[k])
  }

  /** The update touches the user's profile rows and no others: as many
      rows as before belong to the user, each now carrying the new values,
      and the references are kept. */
  lemma {:induction false} WithProfileRows(fs: seq<Profile>, uid: int, bio: Option<string>, picture: Option<string>)
    ensures |Filter(WithProfile(fs, uid, bio, picture), ProfileOf(uid))| == |Filter(fs, ProfileOf(uid))|
    ensures forall x :: x in WithProfile(fs, uid, bio, picture) && x.userId == uid ==> x == Profile(uid, bio, picture)
    ensures forall us :: ProfilesRefer(fs, us) ==> ProfilesRefer(WithProfile(fs, uid, bio, picture), us)
  {
    var w := WithProfile(fs, uid, bio, picture);
    if fs != [] {
      assert w[1..] == WithProfile(fs[1..], uid, bio, picture);
      WithProfileRows(fs[1..], uid, bio, picture);
      assert w == [w[0]] + w[1..];
    }
    forall us | ProfilesRefer(fs, us) ensures ProfilesRefer(w, us) {
      forall x | x in w ensures x.userId in UserIds(us) {
        var k :| 0 <= k < |w| && w[k] == x;
        assert fs[k] in fs;
      }
    }
  }

  /** Changes the bio and picture of a user's profile.  A username that
      does not resolve panics; a user without a profile row gets an error;
      the result is read back by user id, which panics unless the user has
      exactly one profile. */
  method UpdateUserProfile(db: Db, oldName: string, f: Profile) returns (r: Outcome<Profile>)
    requires db.Valid()
    modifies db`profiles
    ensures db.Valid()
    ensures r.Ok? || r.Panic? || r == Err(Other)
    ensures !old(db.GetUserWithUsername(oldName)).Ok? ==> r.Panic? && unchanged(db)
    ensures old(db.GetUserWithUsername(oldName)).Ok? ==>
      var uid := old(db.GetUserWithUsername(oldName)).value.id;
      && (r == Err(Other) <==> old(Filter(db.profiles, ProfileOf(uid))) == [])
      && db.profiles == WithProfile(old(db.profiles), uid, f.bio, f.picture)
      && (r.Ok? <==> old(|Filter(db.profiles, ProfileOf(uid))|) == 1)
      && (r.Ok? ==> r.value == Profile(uid, f.bio, f.picture))
      && (r.Ok? ==> db.GetUserProfileWithUsername(oldName) == r)
  {
    var found := db.GetUserWithUsername(oldName);
    if !found.Ok? {
      return Panic;
    }
    var uid := found.value.id;
    WithProfileRows(db.profiles, uid, f.bio, f.picture);
    if Filter(db.profiles, ProfileOf(uid)) == [] {
      assert WithProfile(db.profiles, uid, f.bio, f.picture) == db.profiles;
      return Err(Other);
    }
    db.SetProfiles(WithProfile(db.profiles, uid, f.bio, f.picture));
    var updated := db.GetUserProfileWithUserId(uid);
    if !updated.Ok? {
      return Panic;
    }
    r := updated;
  }

  // ---------------------------------------------------------------------
  // delete_user, first phase: the p2p rooms
  // ---------------------------------------------------------------------

  /** The room the pair lookup finds holds a row of one of the two users. */
  lemma PairRoomHasMember(db: Db, u1: int, u2: int)
    requires db.GetTwoUsersP2PChatRoom(u1, u2).Ok?
    ensures var g := db.GetTwoUsersP2PChatRoom(u1, u2).value.id;
      u1 in UserSet(Filter(db.participants, InRoom(g))) || u2 in UserSet(Filter(db.participants, InRoom(g)))
  {
    var g := db.GetTwoUsersP2PChatRoom(u1, u2).value.id;
    var rows := Filter(Filter(db.participants, Naming(u1, u2)), InRoom(g));
    assert rows[0] in rows;
    assert rows[0] in Filter(db.participants, InRoom(g));
  }

  /** Deleting the rows of a set of users never adds rows to a room, and
      removes at least one from a room holding a row of one of them. */
  lemma RoomShrinks(ps: seq<Participant>, s: set<int>, rid: int, x: Participant)
    ensures |Filter(Filter(ps, NotOfUsers(s)), InRoom(rid))| <= |Filter(ps, InRoom(rid))|
    ensures x in ps && x.roomId == rid && x.userId in s ==>
              |Filter(Filter(ps, NotOfUsers(s)), InRoom(rid))| < |Filter(ps, InRoom(rid))|
  {
    var both := (p: Participant) => p.userId !in s && p.roomId == rid;
    FilterCompose(ps, NotOfUsers(s), InRoom(rid), both);
    FilterMonotone(ps, both, InRoom(rid));
    if x in ps && x.roomId == rid && x.userId in s {
      FilterStrict(ps, both, InRoom(rid), x);
    }
  }

  /** One pass of the p2p loop of delete_user: the first two rows of the
      room name the remover and the contact, and the room the two share is
      deleted with every row of its members.  Every unwrap that fails
      panics.  A pass that gets through removes a row of `room`. */
  method DeleteP2PRoomOf(db: Db, room: Room) returns (r: Outcome<bool>)
    requires db.Valid()
    modifies db`participants, db`rooms
    ensures db.Valid()
    ensures r == Ok(true) || r == Panic
    ensures r.Ok? ==> old(|Filter(db.participants, InRoom(room.id))|) >= 2
    ensures r.Ok? ==> forall rid :: |Filter(db.participants, InRoom(rid))| <= old(|Filter(db.participants, InRoom(rid))|)
    ensures r.Ok? ==> |Filter(db.participants, InRoom(room.id))| < old(|Filter(db.participants, InRoom(room.id))|)
    ensures
      var rows := old(Filter(db.participants, InRoom(room.id)));
      r.Ok? <==>
        && |rows| >= 2
        && old(db.GetUserWithUserId(rows[0].userId)).Ok?
        && old(db.GetUserWithUserId(rows[1].userId)).Ok?
        && old(PairRoomOf(db, db.GetUserWithUserId(rows[0].userId).value.username,
                              db.GetUserWithUserId(rows[1].userId).value.username)).Ok?
    ensures
      var rows := old(Filter(db.participants, InRoom(room.id)));
      r.Ok? ==>
        && |rows| >= 2
        && old(db.GetUserWithUserId(rows[0].userId)).Ok?
        && old(db.GetUserWithUserId(rows[1].userId)).Ok?
        && var g := old(PairRoomOf(db, db.GetUserWithUserId(rows[0].userId).value.username,
                                       db.GetUserWithUserId(rows[1].userId).value.username)).value.id;
           && db.participants == Filter(old(db.participants), NotOfUsers(UserSet(Filter(old(db.participants), InRoom(g)))))
           && db.rooms == Filter(old(db.rooms), OtherRoomId(g))
  {
    var parts := db.GetChatRoomParticipantsById(room.id);
    if !parts.Ok? {
      return Panic;
    }
    var first := db.GetUserWithUserId(parts.value[0].userId);
    if !first.Ok? || |parts.value| < 2 {
      return Panic;
    }
    var second := db.GetUserWithUserId(parts.value[1].userId);
    if !second.Ok? {
      return Panic;
    }
    ghost var ps0 := db.participants;
    ghost var pair := PairRoomOf(db, first.value.username, second.value.username);
    if pair.Ok? {
      assert pair == db.GetTwoUsersP2PChatRoom(first.value.id, second.value.id);
      PairRoomHasMember(db, first.value.id, second.value.id);
    }
    assert parts.value[0] in ps0 && parts.value[1] in ps0;
    var d := DeleteP2PChatRoom(db, first.value.username, second.value.username);
    if !d.Ok? {
      return Panic;
    }
    ghost var s := UserSet(Filter(ps0, InRoom(pair.value.id)));
    assert db.participants == Filter(ps0, NotOfUsers(s));
    forall rid ensures |Filter(db.participants, InRoom(rid))| <= |Filter(ps0, InRoom(rid))| {
      RoomShrinks(ps0, s, rid, parts.value[0]);
    }
    if parts.value[0].userId in s {
      RoomShrinks(ps0, s, room.id, parts.value[0]);
    } else {
      RoomShrinks(ps0, s, room.id, parts.value[1]);
    }
    r := Ok(true);
  }

  /** The occurrences of a room in a suffix of a room list. */
  lemma CountStep(list: seq<Room>, i: int, id: int)
    requires 0 <= i < |list|
    ensures |Filter(list[i..], ByRoomId(id))| == |Filter(list[i + 1..], ByRoomId(id))| + (if list[i].id == id then 1 else 0)
    ensures i + 1 == |list| ==> |Filter(list[i..], ByRoomId(id))| <= 1
  {
    assert list[i..] == [list[i]] + list[i + 1..];
    FilterConcat([list[i]], list[i + 1..], ByRoomId(id));
    if i + 1 == |list| {
      assert list[i + 1..] == [];
    }
  }

  /** The p2p loop of delete_user.  The list holds every p2p room once per
      row in it, whoever that row names, and each pass that gets through
      removes at least one row of its room; at the last occurrence of a
      room fewer than two rows remain, so that pass panics.  Hence the
      phase gets through exactly when there is no p2p room with rows. */
  method PurgeP2PRooms(db: Db, uid: int) returns (r: Outcome<bool>)
    requires db.Valid()
    modifies db`participants, db`rooms
    ensures db.Valid()
    ensures r == Ok(true) || r == Panic
    ensures r.Ok? <==> old(P2PJoin(db.rooms, db.participants)) == []
    ensures r.Ok? ==> unchanged(db)
  {
    var listed := db.GetUserP2PChatRoomsByUserId(uid);
    if !listed.Ok? {
      return Ok(true);
    }
    var list := listed.value;
    forall j | 0 <= j < |list|
      ensures |Filter(db.participants, InRoom(list[j].id))| <= |Filter(list[0..], ByRoomId(list[j].id))|
    {
      assert list[j] in list;
      P2PJoinCovers(db.rooms, db.participants, list[j]);
      assert list[0..] == list;
    }
    var i := 0;
    while i < |list|
      invariant 0 <= i < |list|
      invariant db.Valid()
      invariant forall j :: i <= j < |list| ==>
        |Filter(db.participants, InRoom(list[j].id))| <= |Filter(list[i..], ByRoomId(list[j].id))|
    {
      ghost var ps := db.participants;
      var step := DeleteP2PRoomOf(db, list[i]);
      if !step.Ok? {
        return Panic;
      }
      CountStep(list, i, list[i].id);
      forall j | i + 1 <= j < |list|
        ensures |Filter(db.participants, InRoom(list[j].id))| <= |Filter(list[i + 1..], ByRoomId(list[j].id))|
      {
        CountStep(list, i, list[j].id);
      }
      i := i + 1;
    }
    assert false;
    return Panic;
  }

  // ---------------------------------------------------------------------
  // delete_user, second phase: the groups
  // ---------------------------------------------------------------------

  /** Whether one pass of the group loop of delete_user gets through on the
      tables `rs` and `ps`: the group must have an owner; a group the user
      owns must be found again by its name, as itself; from any other group
      its owner removes the user, which needs exactly one row of the user in
      it. */
  ghost predicate Leavable(rs: seq<Room>, ps: seq<Participant>, gp: Room, uid: int) {
    && OwnerIn(rs, ps, gp.id).Ok?
    && (OwnerIn(rs, ps, gp.id) == Ok(uid) ==> Exactly(Filter(rs, ByRoomName(gp.name))) == Ok(gp))
    && (OwnerIn(rs, ps, gp.id) != Ok(uid) ==> |Filter(ps, MemberOf(gp.id, uid))| == 1)
  }

  /** One pass of the group loop of delete_user: a group the user owns is
      deleted, from any other the user is removed by its owner.  Every
      unwrap that fails panics. */
  method LeaveGroup(db: Db, gp: Room, uid: int, name: string) returns (r: Outcome<bool>)
    requires db.Valid()
    requires db.GetUserWithUsername(name).Ok? && db.GetUserWithUsername(name).value.id == uid
    requires gp in db.rooms || gp.id !in RoomIds(db.rooms)
    modifies db`rooms, db`participants
    ensures db.Valid()
    ensures r == Ok(true) || r == Panic
    ensures r.Ok? <==> old(Leavable(db.rooms, db.participants, gp, uid))
    ensures r.Panic? ==> db.rooms == old(db.rooms) && db.participants == old(db.participants)
    ensures r.Ok? && old(OwnerIn(db.rooms, db.participants, gp.id)) == Ok(uid) ==>
      && db.participants == Filter(old(db.participants), NotInRoom(gp.id))
      && db.rooms == Filter(old(db.rooms), OtherRoomId(gp.id))
    ensures r.Ok? && old(OwnerIn(db.rooms, db.participants, gp.id)) != Ok(uid) ==>
      && db.participants == Filter(old(db.participants), NotOfUser(uid))
      && db.rooms == old(db.rooms)
  {
    var owner := db.GetGroupOwnerById(gp.id);
    if !owner.Ok? {
      return Panic;
    }
    if owner.value == uid {
      r := DeleteOwnGroup(db, gp, name);
    } else {
      var d := DelParticipantFromGroupChatRoom(db, Participant(gp.id, uid, false), owner.value);
      if !d.Ok? {
        return Panic;
      }
      r := Ok(true);
    }
  }

  /** The owner's branch of LeaveGroup: the group, found again by name,
      is deleted; the lookup by name must give back this very group. */
  method DeleteOwnGroup(db: Db, gp: Room, name: string) returns (r: Outcome<bool>)
    requires db.Valid() && gp in db.rooms
    requires db.GetUserWithUsername(name).Ok?
    requires db.GetGroupOwnerById(gp.id) == Ok(db.GetUserWithUsername(name).value.id)
    modifies db`rooms, db`participants
    ensures db.Valid()
    ensures r == Ok(true) || r == Panic
    ensures r.Ok? <==> old(db.GetGroupChatByName(gp.name)) == Ok(gp)
    ensures r.Panic? ==> unchanged(db)
    ensures r.Ok? ==>
      && db.participants == Filter(old(db.participants), NotInRoom(gp.id))
      && db.rooms == Filter(old(db.rooms), OtherRoomId(gp.id))
      && gp.id !in RoomIds(db.rooms)
  {
    ghost var found := db.GetGroupChatByName(gp.name);
    if found.Ok? {
      assert found.value == gp;
    }
    var d := DeleteGroupChatRoom(db, gp.name, name);
    if !d.Ok? {
      return Panic;
    }
    RoomIdsRemove(old(db.rooms), gp.id);
    r := Ok(true);
  }

  /** The keys of the groups of `gps` that the user owns. */
  ghost function OwnedAmong(rs: seq<Room>, ps: seq<Participant>, gps: seq<Room>, uid: int): set<int>
    decreases |gps|
  {
    if gps == [] then {}
    else
      var g := gps[|gps| - 1];
      OwnedAmong(rs, ps, gps[..|gps| - 1], uid) + (if OwnerIn(rs, ps, g.id) == Ok(uid) then {g.id} else {})
  }

  /** A key is among the owned ones exactly when a listed group the user
      owns has it. */
  lemma {:induction false} OwnedAmongHas(rs: seq<Room>, ps: seq<Participant>, gps: seq<Room>, uid: int, id: int)
    ensures id in OwnedAmong(rs, ps, gps, uid) <==>
      exists x :: x in gps && x.id == id && OwnerIn(rs, ps, x.id) == Ok(uid)
    decreases |gps|
  {
    if gps != [] {
      var init := gps[..|gps| - 1];
      var g := gps[|gps| - 1];
      assert gps == init + [g];
      OwnedAmongHas(rs, ps, init, uid, id);
      if id in OwnedAmong(rs, ps, init, uid) {
        var x :| x in init && x.id == id && OwnerIn(rs, ps, x.id) == Ok(uid);
        assert x in gps;
      } else if exists x :: x in gps && x.id == id && OwnerIn(rs, ps, x.id) == Ok(uid) {
        var x :| x in gps && x.id == id && OwnerIn(rs, ps, x.id) == Ok(uid);
        assert x in init || x == g;
      }
    }
  }

  /** The keys of all the groups the user owns. */
  ghost function OwnedBy(rs: seq<Room>, ps: seq<Participant>, uid: int): set<int> {
    set x | x in rs && OwnerIn(rs, ps, x.id) == Ok(uid) :: x.id
  }

  /** Whether the last group of `done` is one the user does not own. */
  ghost predicate LastLeft(rs: seq<Room>, ps: seq<Participant>, done: seq<Room>, uid: int) {
    done != [] && OwnerIn(rs, ps, done[|done| - 1].id) != Ok(uid)
  }

  /** Whether the whole group loop gets through, judged on the tables it
      starts from: it gets through all groups but the last; the last one
      can be left on those tables; no group before it has its key (a second
      pass finds the group deleted or the user gone); and the group before
      it is owned (leaving a group the user does not own deletes every row
      of the user, so any later pass fails). */
  ghost predicate GroupsLeavable(rs: seq<Room>, ps: seq<Participant>, gps: seq<Room>, uid: int)
    decreases |gps|
  {
    gps == [] ||
    var done := gps[..|gps| - 1];
    var g := gps[|gps| - 1];
    && GroupsLeavable(rs, ps, done, uid)
    && Leavable(rs, ps, g, uid)
    && (forall x :: x in done ==> x.id != g.id)
    && !LastLeft(rs, ps, done, uid)
  }

  /** The rooms left once the passes over `done` got through: the owned
      groups among them are gone. */
  ghost function RoomsAfter(rs: seq<Room>, ps: seq<Participant>, done: seq<Room>, uid: int): (r: seq<Room>)
    ensures forall x :: x in r <==> x in rs && x.id !in OwnedAmong(rs, ps, done, uid)
  {
    Filter(rs, OtherRoomIds(OwnedAmong(rs, ps, done, uid)))
  }

  /** The rows left once the passes over `done` got through: those of the
      owned groups are gone, and after a group the user does not own every
      row of the user is gone as well. */
  ghost function RowsAfter(rs: seq<Room>, ps: seq<Participant>, done: seq<Room>, uid: int): (r: seq<Participant>)
    ensures forall p :: p in r <==>
      p in ps && p.roomId !in OwnedAmong(rs, ps, done, uid) && (p.userId != uid || !LastLeft(rs, ps, done, uid))
  {
    var kept := Filter(ps, NotInRooms(OwnedAmong(rs, ps, done, uid)));
    if LastLeft(rs, ps, done, uid) then Filter(kept, NotOfUser(uid)) else kept
  }

  /** The loop gets through one group more exactly when it got through the
      ones before, that group could be left on the first tables, its key is
      new, and the group before it was owned. */
  lemma GroupsLeavableSnoc(rs: seq<Room>, ps: seq<Participant>, s: seq<Room>, g: Room, uid: int)
    ensures GroupsLeavable(rs, ps, s + [g], uid) <==>
      && GroupsLeavable(rs, ps, s, uid) && Leavable(rs, ps, g, uid)
      && (forall x :: x in s ==> x.id != g.id)
      && !LastLeft(rs, ps, s, uid)
    ensures OwnedAmong(rs, ps, s + [g], uid) ==
      OwnedAmong(rs, ps, s, uid) + (if OwnerIn(rs, ps, g.id) == Ok(uid) then {g.id} else {})
    ensures LastLeft(rs, ps, s + [g], uid) <==> OwnerIn(rs, ps, g.id) != Ok(uid)
  {
    assert (s + [g])[..|s|] == s;
    assert (s + [g])[|s|] == g;
  }

  /** A loop that gets through a list gets through each of its prefixes. */
  lemma {:induction false} GroupsLeavablePrefix(rs: seq<Room>, ps: seq<Participant>, gps: seq<Room>, j: int, uid: int)
    requires 0 <= j <= |gps|
    ensures GroupsLeavable(rs, ps, gps, uid) ==> GroupsLeavable(rs, ps, gps[..j], uid)
    decreases |gps|
  {
    if j < |gps| {
      var init := gps[..|gps| - 1];
      assert gps[..j] == init[..j];
      GroupsLeavablePrefix(rs, ps, init, j, uid);
    } else {
      assert gps[..j] == gps;
    }
  }

  /** Every group of a list the loop gets through could be left on the
      first tables; when the last one is owned, all of them are. */
  lemma {:induction false} GroupsLeavableEach(rs: seq<Room>, ps: seq<Participant>, gps: seq<Room>, uid: int, k: int)
    requires GroupsLeavable(rs, ps, gps, uid) && 0 <= k < |gps|
    ensures Leavable(rs, ps, gps[k], uid)
    ensures !LastLeft(rs, ps, gps, uid) ==> OwnerIn(rs, ps, gps[k].id) == Ok(uid)
    decreases |gps|
  {
    if k < |gps| - 1 {
      var init := gps[..|gps| - 1];
      assert init[k] == gps[k];
      GroupsLeavableEach(rs, ps, init, uid, k);
    }
  }

  /** With no row of the user, no group can be left. */
  lemma NoRowsNotLeavable(rs: seq<Room>, ps: seq<Participant>, g: Room, uid: int)
    requires forall p :: p in ps ==> p.userId != uid
    ensures !Leavable(rs, ps, g, uid)
  {
    assert Filter(ps, MemberOf(g.id, uid)) == [];
  }

  /** A room named like a group not yet deleted was not deleted either: a
      deleted group was the only room with its name, and the only room with
      its key. */
  lemma NameNotOwned(rs: seq<Room>, ps: seq<Participant>, done: seq<Room>, g: Room, uid: int, x: Room)
    requires g in rs && x in rs && x.name == g.name
    requires GroupsLeavable(rs, ps, done, uid)
    requires forall y :: y in done ==> y in rs
    requires g.id !in OwnedAmong(rs, ps, done, uid)
    ensures x.id !in OwnedAmong(rs, ps, done, uid)
  {
    forall y | y in done && OwnerIn(rs, ps, y.id) == Ok(uid) ensures y.id != x.id {
      var k :| 0 <= k < |done| && done[k] == y;
      GroupsLeavableEach(rs, ps, done, uid, k);
      OwnedAmongHas(rs, ps, done, uid, y.id);
      NameFound(rs, y.name, y);
      assert g.name != y.name;
      GroupUnique(rs, y.id, x, y);
    }
    OwnedAmongHas(rs, ps, done, uid, x.id);
  }

  /** Deleting the rows and rooms of other groups changes neither the owner
      lookup of a group nor the user's rows in it. */
  lemma OwnerUnaffected(rs: seq<Room>, ps: seq<Participant>, owned: set<int>, rid: int, uid: int)
    requires rid !in owned
    ensures OwnerIn(Filter(rs, OtherRoomIds(owned)), Filter(ps, NotInRooms(owned)), rid) == OwnerIn(rs, ps, rid)
    ensures Filter(Filter(ps, NotInRooms(owned)), MemberOf(rid, uid)) == Filter(ps, MemberOf(rid, uid))
  {
    FilterNarrow(rs, OtherRoomIds(owned), ByRoomId(rid));
    FilterNarrow(ps, NotInRooms(owned), AdminOf(rid));
    FilterNarrow(ps, NotInRooms(owned), MemberOf(rid, uid));
    assert GroupIn(Filter(rs, OtherRoomIds(owned)), rid) == GroupIn(rs, rid);
  }

  /** Whether a group can be left depends only on its owner lookup, its
      name lookup and the user's rows in it. */
  lemma LeavableSame(rs: seq<Room>, ps: seq<Participant>, rs1: seq<Room>, ps1: seq<Participant>, g: Room, uid: int)
    requires OwnerIn(rs1, ps1, g.id) == OwnerIn(rs, ps, g.id)
    requires Filter(rs1, ByRoomName(g.name)) == Filter(rs, ByRoomName(g.name))
    requires Filter(ps1, MemberOf(g.id, uid)) == Filter(ps, MemberOf(g.id, uid))
    ensures Leavable(rs1, ps1, g, uid) == Leavable(rs, ps, g, uid)
  {
  }

  /** Before a pass over a group not yet deleted, with the user still in
      their rows, the lookups of that pass see what they saw on the first
      tables: no deleted group shares its key or its name. */
  lemma PassUnchanged(rs: seq<Room>, ps: seq<Participant>, done: seq<Room>, g: Room, uid: int)
    requires g in rs
    requires GroupsLeavable(rs, ps, done, uid) && !LastLeft(rs, ps, done, uid)
    requires forall x :: x in done ==> x in rs
    requires g.id !in OwnedAmong(rs, ps, done, uid)
    ensures Leavable(RoomsAfter(rs, ps, done, uid), RowsAfter(rs, ps, done, uid), g, uid) == Leavable(rs, ps, g, uid)
    ensures OwnerIn(RoomsAfter(rs, ps, done, uid), RowsAfter(rs, ps, done, uid), g.id) == OwnerIn(rs, ps, g.id)
  {
    var owned := OwnedAmong(rs, ps, done, uid);
    var rs1 := RoomsAfter(rs, ps, done, uid);
    var ps1 := RowsAfter(rs, ps, done, uid);
    assert rs1 == Filter(rs, OtherRoomIds(owned));
    assert ps1 == Filter(ps, NotInRooms(owned));
    OwnerUnaffected(rs, ps, owned, g.id, uid);
    forall x | x in rs && x.name == g.name ensures x.id !in owned {
      NameNotOwned(rs, ps, done, g, uid, x);
    }
    FilterNarrow(rs, OtherRoomIds(owned), ByRoomName(g.name));
    LeavableSame(rs, ps, rs1, ps1, g, uid);
  }

  /** Before the pass over `g`, once the passes over `done` got through:
      the group is there or no room has its key, and the pass gets through
      exactly when the loop gets through `done` and `g`, seeing then the
      owner it had at the start. */
  lemma PassDecides(rs: seq<Room>, ps: seq<Participant>, done: seq<Room>, g: Room, uid: int)
    requires g in rs && forall x :: x in done ==> x in rs
    requires GroupsLeavable(rs, ps, done, uid)
    ensures var rs1 := RoomsAfter(rs, ps, done, uid);
            var ps1 := RowsAfter(rs, ps, done, uid);
      && (g in rs1 || g.id !in RoomIds(rs1))
      && (Leavable(rs1, ps1, g, uid) <==> GroupsLeavable(rs, ps, done + [g], uid))
      && (GroupsLeavable(rs, ps, done + [g], uid) ==> OwnerIn(rs1, ps1, g.id) == OwnerIn(rs, ps, g.id))
  {
    var owned := OwnedAmong(rs, ps, done, uid);
    var rs1 := RoomsAfter(rs, ps, done, uid);
    var ps1 := RowsAfter(rs, ps, done, uid);
    GroupsLeavableSnoc(rs, ps, done, g, uid);
    if LastLeft(rs, ps, done, uid) {
      NoRowsNotLeavable(rs1, ps1, g, uid);
      assert !GroupsLeavable(rs, ps, done + [g], uid);
    } else if g.id in owned {
      OwnedAmongHas(rs, ps, done, uid, g.id);
      assert !GroupsLeavable(rs, ps, done + [g], uid);
      assert !GroupIn(rs1, g.id);
      assert !Leavable(rs1, ps1, g, uid);
    } else {
      forall x | x in done ensures x.id != g.id {
        var k :| 0 <= k < |done| && done[k] == x;
        GroupsLeavableEach(rs, ps, done, uid, k);
        OwnedAmongHas(rs, ps, done, uid, x.id);
      }
      PassUnchanged(rs, ps, done, g, uid);
      assert GroupsLeavable(rs, ps, done + [g], uid) == Leavable(rs, ps, g, uid);
    }
  }

  /** The tables after a pass over `g` that got through, from those
      before it. */
  lemma PassEffect(rs: seq<Room>, ps: seq<Participant>, done: seq<Room>, g: Room, uid: int)
    requires GroupsLeavable(rs, ps, done + [g], uid)
    ensures var rs1 := RoomsAfter(rs, ps, done, uid);
            var ps1 := RowsAfter(rs, ps, done, uid);
      && (OwnerIn(rs, ps, g.id) == Ok(uid) ==>
            && RoomsAfter(rs, ps, done + [g], uid) == Filter(rs1, OtherRoomId(g.id))
            && RowsAfter(rs, ps, done + [g], uid) == Filter(ps1, NotInRoom(g.id)))
      && (OwnerIn(rs, ps, g.id) != Ok(uid) ==>
            && RoomsAfter(rs, ps, done + [g], uid) == rs1
            && RowsAfter(rs, ps, done + [g], uid) == Filter(ps1, NotOfUser(uid)))
  {
    GroupsLeavableSnoc(rs, ps, done, g, uid);
    var owned := OwnedAmong(rs, ps, done, uid);
    var ps1 := Filter(ps, NotInRooms(owned));
    assert RowsAfter(rs, ps, done, uid) == ps1;
    if OwnerIn(rs, ps, g.id) == Ok(uid) {
      assert OwnedAmong(rs, ps, done + [g], uid) == owned + {g.id};
      FilterCompose(rs, OtherRoomIds(owned), OtherRoomId(g.id), OtherRoomIds(owned + {g.id}));
      FilterCompose(ps, NotInRooms(owned), NotInRoom(g.id), NotInRooms(owned + {g.id}));
    } else {
      assert OwnedAmong(rs, ps, done + [g], uid) == owned;
      assert RowsAfter(rs, ps, done + [g], uid) == Filter(ps1, NotOfUser(uid));
    }
  }

  /** Before the pass over `gps[i]`, the group is there or no room has its
      key. */
  lemma PassReady(rs: seq<Room>, ps: seq<Participant>, gps: seq<Room>, i: int, uid: int, rs1: seq<Room>)
    requires 0 <= i < |gps| && forall x :: x in gps ==> x in rs
    requires rs1 == RoomsAfter(rs, ps, gps[..i], uid)
    ensures gps[i] in rs1 || gps[i].id !in RoomIds(rs1)
  {
    assert gps[i] in rs;
  }

  /** One pass of the loop, as LeaveGroup reports it, keeps the loop's
      account of the tables: from `rs1`, `ps1` the pass over `gps[i]` leads
      to `rs2`, `ps2`, and gets through exactly when the loop gets through
      the list up to that group; when it fails, the loop does not get
      through the whole list. */
  lemma PassStep(rs: seq<Room>, ps: seq<Participant>, gps: seq<Room>, i: int, uid: int,
                 rs1: seq<Room>, ps1: seq<Participant>, rs2: seq<Room>, ps2: seq<Participant>, ok: bool)
    requires 0 <= i < |gps| && forall x :: x in gps ==> x in rs
    requires GroupsLeavable(rs, ps, gps[..i], uid)
    requires rs1 == RoomsAfter(rs, ps, gps[..i], uid) && ps1 == RowsAfter(rs, ps, gps[..i], uid)
    requires ok <==> Leavable(rs1, ps1, gps[i], uid)
    requires ok && OwnerIn(rs1, ps1, gps[i].id) == Ok(uid) ==>
      ps2 == Filter(ps1, NotInRoom(gps[i].id)) && rs2 == Filter(rs1, OtherRoomId(gps[i].id))
    requires ok && OwnerIn(rs1, ps1, gps[i].id) != Ok(uid) ==>
      ps2 == Filter(ps1, NotOfUser(uid)) && rs2 == rs1
    ensures ok <==> GroupsLeavable(rs, ps, gps[..i + 1], uid)
    ensures !ok ==> !GroupsLeavable(rs, ps, gps, uid)
    ensures ok ==> rs2 == RoomsAfter(rs, ps, gps[..i + 1], uid) && ps2 == RowsAfter(rs, ps, gps[..i + 1], uid)
  {
    TakeOneMore(gps, i);
    PassDecides(rs, ps, gps[..i], gps[i], uid);
    if ok {
      PassEffect(rs, ps, gps[..i], gps[i], uid);
    }
    GroupsLeavablePrefix(rs, ps, gps, i + 1, uid);
  }

  /** The group phase of delete_user: the user's groups are listed once,
      before any deletion, and left one by one.  It gets through exactly
      when the loop gets through that list; then every group the user owned
      is gone with its rows, and so is every row of the user. */
  method PurgeGroups(db: Db, uid: int, name: string) returns (r: Outcome<bool>)
    requires db.Valid()
    requires db.GetUserWithUsername(name).Ok? && db.GetUserWithUsername(name).value.id == uid
    requires P2PJoin(db.rooms, db.participants) == []
    modifies db`rooms, db`participants
    ensures db.Valid()
    ensures r == Ok(true) || r == Panic
    ensures forall p :: p in db.participants ==> p in old(db.participants)
    ensures r.Ok? <==> old(GroupsLeavable(db.rooms, db.participants, GroupJoin(db.rooms, db.participants, uid), uid))
    ensures r.Ok? ==> db.rooms == Filter(old(db.rooms), OtherRoomIds(old(OwnedBy(db.rooms, db.participants, uid))))
    ensures r.Ok? ==> forall p :: p in db.participants <==>
      p in old(db.participants) && p.userId != uid && p.roomId !in old(OwnedBy(db.rooms, db.participants, uid))
    ensures r.Ok? ==> forall g :: old(db.GetGroupOwnerById(g)) == Ok(uid) ==> g !in RoomIds(db.rooms)
  {
    var listed := db.GetUserGroupChatRoomsByUserId(uid);
    var gps := if listed.Ok? then listed.value else [];
    ghost var ps0 := db.participants;
    ghost var rs0 := db.rooms;
    assert gps == GroupJoin(rs0, ps0, uid);
    r := LeaveGroups(db, gps, uid, name);
    if r.Ok? {
      GroupsDone(rs0, ps0, db.users, uid, gps);
      forall g | old(db.GetGroupOwnerById(g)) == Ok(uid) ensures g !in RoomIds(db.rooms) {
        assert g in OwnedBy(rs0, ps0, uid);
      }
    }
  }

  /** The loop of the group phase, over a list of groups taken from the
      tables it starts from. */
  method LeaveGroups(db: Db, gps: seq<Room>, uid: int, name: string) returns (r: Outcome<bool>)
    requires db.Valid()
    requires db.GetUserWithUsername(name).Ok? && db.GetUserWithUsername(name).value.id == uid
    requires forall x :: x in gps ==> x in db.rooms
    modifies db`rooms, db`participants
    ensures db.Valid()
    ensures r == Ok(true) || r == Panic
    ensures forall p :: p in db.participants ==> p in old(db.participants)
    ensures r.Ok? <==> GroupsLeavable(old(db.rooms), old(db.participants), gps, uid)
    ensures r.Ok? ==> db.rooms == RoomsAfter(old(db.rooms), old(db.participants), gps, uid)
    ensures r.Ok? ==> db.participants == RowsAfter(old(db.rooms), old(db.participants), gps, uid)
  {
    ghost var rs0 := db.rooms;
    ghost var ps0 := db.participants;
    assert gps[..0] == [];
    FilterAll(rs0, OtherRoomIds({}));
    FilterAll(ps0, NotInRooms({}));
    var i := 0;
    while i < |gps|
      invariant 0 <= i <= |gps|
      invariant db.Valid()
      invariant GroupsLeavable(rs0, ps0, gps[..i], uid)
      invariant db.rooms == RoomsAfter(rs0, ps0, gps[..i], uid)
      invariant db.participants == RowsAfter(rs0, ps0, gps[..i], uid)
    {
      PassReady(rs0, ps0, gps, i, uid, db.rooms);
      ghost var rs1 := db.rooms;
      ghost var ps1 := db.participants;
      var step := LeaveGroup(db, gps[i], uid, name);
      PassStep(rs0, ps0, gps, i, uid, rs1, ps1, db.rooms, db.participants, step.Ok?);
      if !step.Ok? {
        return Panic;
      }
      i := i + 1;
    }
    assert gps[..i] == gps;
    r := Ok(true);
  }

  /** With no p2p room holding rows, the group list names every room the
      user has a row in, and every group the user owns; so once the loop
      got through it, the owned groups are gone and no row of the user is
      left. */
  lemma GroupsDone(rs: seq<Room>, ps: seq<Participant>, us: seq<User>, uid: int, gps: seq<Room>)
    requires ParticipantsRefer(ps, rs, us) && P2PJoin(rs, ps) == []
    requires gps == GroupJoin(rs, ps, uid)
    requires GroupsLeavable(rs, ps, gps, uid)
    ensures forall g :: OwnerIn(rs, ps, g) == Ok(uid) ==> g in OwnedBy(rs, ps, uid)
    ensures RoomsAfter(rs, ps, gps, uid) == Filter(rs, OtherRoomIds(OwnedBy(rs, ps, uid)))
    ensures forall p :: p in RowsAfter(rs, ps, gps, uid) <==>
      p in ps && p.userId != uid && p.roomId !in OwnedBy(rs, ps, uid)
  {
    forall g | OwnerIn(rs, ps, g) == Ok(uid) ensures g in OwnedBy(rs, ps, uid) {
      var x :| x in rs && x.id == g;
    }
    OwnedListed(rs, ps, uid);
    if !LastLeft(rs, ps, gps, uid) {
      forall p | p in ps && p.userId == uid ensures p.roomId in OwnedBy(rs, ps, uid) {
        RowListed(rs, ps, us, uid, p);
        var x :| x in gps && x.id == p.roomId;
        ListedOwned(rs, ps, gps, uid, x);
      }
    }
  }

  /** The owned groups of the group list are all the groups the user owns:
      an owner has an admin row in the group. */
  lemma OwnedListed(rs: seq<Room>, ps: seq<Participant>, uid: int)
    ensures OwnedAmong(rs, ps, GroupJoin(rs, ps, uid), uid) == OwnedBy(rs, ps, uid)
  {
    var gps := GroupJoin(rs, ps, uid);
    forall g ensures g in OwnedAmong(rs, ps, gps, uid) <==> g in OwnedBy(rs, ps, uid) {
      OwnedAmongHas(rs, ps, gps, uid, g);
      if g in OwnedBy(rs, ps, uid) {
        var x :| x in rs && x.id == g && OwnerIn(rs, ps, g) == Ok(uid);
        GroupUnique(rs, g, x, x);
        assert Participant(g, uid, true) in ps;
        assert x in gps;
      }
    }
  }

  /** With no p2p room holding rows, a row of the user lies in a listed
      group. */
  lemma RowListed(rs: seq<Room>, ps: seq<Participant>, us: seq<User>, uid: int, p: Participant)
    requires ParticipantsRefer(ps, rs, us) && P2PJoin(rs, ps) == []
    requires p in ps && p.userId == uid
    ensures exists x :: x in GroupJoin(rs, ps, uid) && x.id == p.roomId
  {
    var x :| x in rs && x.id == p.roomId;
    assert x !in P2PJoin(rs, ps);
    assert x in GroupJoin(rs, ps, uid);
  }

  /** When the loop got through the list and its last group was owned,
      every listed group is owned. */
  lemma ListedOwned(rs: seq<Room>, ps: seq<Participant>, gps: seq<Room>, uid: int, x: Room)
    requires GroupsLeavable(rs, ps, gps, uid) && !LastLeft(rs, ps, gps, uid)
    requires x in gps
    ensures x.id in OwnedBy(rs, ps, uid) || x !in rs
  {
    var k :| 0 <= k < |gps| && gps[k] == x;
    GroupsLeavableEach(rs, ps, gps, uid, k);
  }

  /** The outcome of the group phase depends on the order of its list: a
      group the user does not own, listed before one they own, makes the
      second pass fail; the other way round both get through. */
  lemma OrderMatters(rs: seq<Room>, ps: seq<Participant>, own: Room, other: Room, uid: int)
    requires Leavable(rs, ps, own, uid) && Leavable(rs, ps, other, uid)
    requires OwnerIn(rs, ps, own.id) == Ok(uid) && OwnerIn(rs, ps, other.id) != Ok(uid)
    ensures GroupsLeavable(rs, ps, [own, other], uid)
    ensures !GroupsLeavable(rs, ps, [other, own], uid)
  {
    GroupsLeavableSnoc(rs, ps, [own], other, uid);
    GroupsLeavableSnoc(rs, ps, [], own, uid);
    assert [own] + [other] == [own, other];
    assert [other] + [own] == [other, own];
    GroupsLeavableSnoc(rs, ps, [other], own, uid);
  }

  // ---------------------------------------------------------------------
  // delete_user, last phase and the whole operation
  // ---------------------------------------------------------------------

  /** The wallet count as the `u32` cast of the row count sees it. */
  function AsU32(n: nat): (r: nat)
    ensures r < 0x1_0000_0000
    ensures n < 0x1_0000_0000 ==> r == n
  {
    n % 0x1_0000_0000
  }

  /** The profile rows, the wallets when the truncated count is one, then
      the user row.  With no participant row left, the reference check of
      the last delete passes. */
  method DeleteUserRows(db: Db, uid: int, name: string) returns (r: Outcome<bool>)
    requires db.Valid()
    requires db.GetUserWithUsername(name).Ok? && db.GetUserWithUsername(name).value.id == uid
    requires forall p :: p in db.participants ==> p.userId != uid
    modifies db`users, db`profiles, db`solanaWallets, db`tronWallets
    ensures db.Valid()
    ensures r == Ok(true)
    ensures db.users == Filter(old(db.users), OtherUserId(uid))
    ensures db.profiles == Filter(old(db.profiles), NotProfileOf(uid))
    ensures db.tronWallets ==
      if AsU32(old(|Filter(db.tronWallets, WalletOf(uid))|)) == 1
      then Filter(old(db.tronWallets), NotWalletOf(uid)) else old(db.tronWallets)
    ensures db.solanaWallets ==
      if AsU32(old(|Filter(db.solanaWallets, WalletOf(uid))|)) == 1
      then Filter(old(db.solanaWallets), NotWalletOf(uid)) else old(db.solanaWallets)
    ensures !db.IsValidUser(uid) && !db.GetUserWithUsername(name).Ok?
  {
    db.SetProfiles(Filter(db.profiles, NotProfileOf(uid)));
    var tron := Filter(db.tronWallets, WalletOf(uid));
    var solana := Filter(db.solanaWallets, WalletOf(uid));
    if AsU32(|tron|) == 1 {
      var d := DeleteTronWallet(db, name);
      if !d.Ok? {
        assert false;
        return Panic;
      }
    }
    if AsU32(|solana|) == 1 {
      var d := DeleteSolanaWallet(db, name);
      if !d.Ok? {
        assert false;
        return Panic;
      }
    }
    if db.UserReferenced(uid) {
      assert false;
      return Err(Other);
    }
    UserIdsRemove(db.users, uid);
    db.SetUsers(Filter(db.users, OtherUserId(uid)));
    r := Ok(true);
  }

  /** Deletes a user: their p2p rooms, their groups (owned ones entirely,
      others by leaving), their profile, their wallets and their row.  A
      p2p room with rows always makes the p2p phase panic, so the deletion
      gets through only when no p2p room has members; when it does, nothing
      refers to the user any more and the owned groups are gone. */
  method DeleteUser(db: Db, name: string) returns (r: Outcome<bool>)
    requires db.Valid()
    modifies db`users, db`profiles, db`rooms, db`participants, db`solanaWallets, db`tronWallets
    ensures db.Valid()
    ensures r == Ok(true) || r == Err(NotFound) || r == Panic
    ensures r == Err(NotFound) <==> !old(db.GetUserWithUsername(name)).Ok?
    ensures r == Err(NotFound) ==> unchanged(db)
    ensures old(db.GetUserWithUsername(name)).Ok? ==>
      var uid := old(db.GetUserWithUsername(name)).value.id;
      r == Ok(true) <==>
        && old(P2PJoin(db.rooms, db.participants)) == []
        && old(GroupsLeavable(db.rooms, db.participants, GroupJoin(db.rooms, db.participants, uid), uid))
    ensures r.Ok? ==>
      var uid := old(db.GetUserWithUsername(name)).value.id;
      && db.users == Filter(old(db.users), OtherUserId(uid))
      && db.profiles == Filter(old(db.profiles), NotProfileOf(uid))
      && db.rooms == Filter(old(db.rooms), OtherRoomIds(old(OwnedBy(db.rooms, db.participants, uid))))
      && (forall p :: p in db.participants <==>
            p in old(db.participants) && p.userId != uid && p.roomId !in old(OwnedBy(db.rooms, db.participants, uid)))
      && (forall g :: old(db.GetGroupOwnerById(g)) == Ok(uid) ==> g !in RoomIds(db.rooms))
      && !db.IsValidUser(uid) && !db.GetUserWithUsername(name).Ok?
      && db.tronWallets ==
           (if AsU32(old(|Filter(db.tronWallets, WalletOf(uid))|)) == 1
            then Filter(old(db.tronWallets), NotWalletOf(uid)) else old(db.tronWallets))
      && db.solanaWallets ==
           (if AsU32(old(|Filter(db.solanaWallets, WalletOf(uid))|)) == 1
            then Filter(old(db.solanaWallets), NotWalletOf(uid)) else old(db.solanaWallets))
  {
    var found := db.GetUserWithUsername(name);
    if !found.Ok? {
      return Err(NotFound);
    }
    var uid := found.value.id;
    var p2p := PurgeP2PRooms(db, uid);
    if !p2p.Ok? {
      return Panic;
    }
    var groups := PurgeGroups(db, uid, name);
    if !groups.Ok? {
      return Panic;
    }
    r := DeleteUserRows(db, uid, name);
  }
}
