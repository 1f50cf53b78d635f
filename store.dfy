/** The database the library works on, and its read-only queries (the
    getter functions of lib.rs).

    Every getter loads the rows that match a filter and then decides on their
    number; a load that fails is read as "no rows" (`unwrap_or(vec![])`), and
    the in-memory tables never fail, so that case is the empty selection. */
module Store {
  import opened Outcomes
  import opened Tables
  import opened Schema

  // ---------------------------------------------------------------------
  // Filter conditions, one per `.filter(...)` the library writes.
  // ---------------------------------------------------------------------

  function ByUsername(name: string): User -> bool { (u: User) => u.username == name }
  function ByEmail(email: string): User -> bool { (u: User) => u.email == email }
  function ByUserId(id: int): User -> bool { (u: User) => u.id == id }
  function OtherUserId(id: int): User -> bool { (u: User) => u.id != id }

  function ProfileOf(uid: int): Profile -> bool { (f: Profile) => f.userId == uid }
  function NotProfileOf(uid: int): Profile -> bool { (f: Profile) => f.userId != uid }

  function ByRoomId(id: int): Room -> bool { (r: Room) => r.id == id }
  function OtherRoomId(id: int): Room -> bool { (r: Room) => r.id != id }
  function OtherRoomIds(ids: set<int>): Room -> bool { (r: Room) => r.id !in ids }
  function ByRoomName(name: string): Room -> bool { (r: Room) => r.name == name }

  function InRoom(rid: int): Participant -> bool { (p: Participant) => p.roomId == rid }
  function NotInRoom(rid: int): Participant -> bool { (p: Participant) => p.roomId != rid }
  function MemberOf(rid: int, uid: int): Participant -> bool {
    (p: Participant) => p.roomId == rid && p.userId == uid
  }
  function AdminOf(rid: int): Participant -> bool {
    (p: Participant) => p.roomId == rid && p.isAdmin
  }
  function NotInRooms(ids: set<int>): Participant -> bool { (p: Participant) => p.roomId !in ids }
  function NotOfUser(uid: int): Participant -> bool { (p: Participant) => p.userId != uid }
  function NotOfUsers(s: set<int>): Participant -> bool { (p: Participant) => p.userId !in s }
  function Naming(u1: int, u2: int): Participant -> bool {
    (p: Participant) => p.userId == u1 || p.userId == u2
  }

  function WalletOf(uid: int): Wallet -> bool { (w: Wallet) => w.userId == uid }
  function NotWalletOf(uid: int): Wallet -> bool { (w: Wallet) => w.userId != uid }

  /** The users named by a set of participant rows. */
  function UserSet(ps: seq<Participant>): set<int> {
    set p | p in ps :: p.userId
  }

  /** The "exactly one row" decision every getter makes. */
  function Exactly<T>(rows: seq<T>): Outcome<T> {
    if |rows| == 1 then Ok(rows[0]) else Err(NotFound)
  }

  // ---------------------------------------------------------------------
  // The grouped pair query of get_two_users_p2p_chat_room: rows naming
  // either user, grouped by room, keeping the groups of exactly two rows.
  // ---------------------------------------------------------------------

  /** `count(user_id)` of the group of room `g`. */
  function PairCount(ps: seq<Participant>, u1: int, u2: int, g: int): nat {
    |Filter(Filter(ps, Naming(u1, u2)), InRoom(g))|
  }

  function InPairGroup(ps: seq<Participant>, u1: int, u2: int): Participant -> bool {
    (p: Participant) => (p.userId == u1 || p.userId == u2) && PairCount(ps, u1, u2, p.roomId) == 2
  }

  /** The rows of the groups that pass the `having` clause.  Each such group
      contributes exactly two rows, so "exactly one group" is "exactly two
      rows" (lemma PairGroupsOne). */
  function PairGroupRows(ps: seq<Participant>, u1: int, u2: int): seq<Participant> {
    Filter(ps, InPairGroup(ps, u1, u2))
  }

  // ---------------------------------------------------------------------
  // The joins of chat_rooms with chat_room_participants: one room row per
  // matching participant row, in participant-table order.
  // ---------------------------------------------------------------------

  function P2PWithId(id: int): Room -> bool { (r: Room) => r.id == id && IsP2P(r) }
  function GroupWithId(id: int): Room -> bool { (r: Room) => r.id == id && !IsP2P(r) }

  /** The join of get_user_p2p_chat_rooms_by_user_id.  Its user filter
      compares the column with itself, so every participant row of every p2p
      room contributes, whoever it names. */
  function P2PJoin(rs: seq<Room>, ps: seq<Participant>): (r: seq<Room>)
    ensures forall x :: x in r <==> x in rs && IsP2P(x) && exists p :: p in ps && p.roomId == x.id
  {
    if ps == [] then []
    else Filter(rs, P2PWithId(ps[0].roomId)) + P2PJoin(rs, ps[1..])
  }

  /** The join of get_user_group_chat_rooms_by_user_id: a room once per row
      of the user in it. */
  function GroupJoin(rs: seq<Room>, ps: seq<Participant>, uid: int): (r: seq<Room>)
    ensures forall x :: x in r <==>
      x in rs && !IsP2P(x) && exists p :: p in ps && p.roomId == x.id && p.userId == uid
  {
    if ps == [] then []
    else (if ps[0].userId == uid then Filter(rs, GroupWithId(ps[0].roomId)) else [])
         + GroupJoin(rs, ps[1..], uid)
  }

  // ---------------------------------------------------------------------
  // Integrity of the tables, stated on the rows alone.
  // ---------------------------------------------------------------------

  function UserIds(us: seq<User>): set<int> {
    set u | u in us :: u.id
  }

  function RoomIds(rs: seq<Room>): set<int> {
    set r | r in rs :: r.id
  }

  lemma UserIdsAppend(us: seq<User>, u: User)
    ensures UserIds(us + [u]) == UserIds(us) + {u.id}
  {
    assert u in us + [u];
    assert forall x :: x in us ==> x in us + [u];
  }

  lemma RoomIdsAppend(rs: seq<Room>, r: Room)
    ensures RoomIds(rs + [r]) == RoomIds(rs) + {r.id}
  {
    assert r in rs + [r];
    assert forall x :: x in rs ==> x in rs + [r];
  }

  lemma RoomIdsRemove(rs: seq<Room>, g: int)
    ensures RoomIds(Filter(rs, OtherRoomId(g))) == RoomIds(rs) - {g}
  {
    forall id | id in RoomIds(rs) - {g} ensures id in RoomIds(Filter(rs, OtherRoomId(g))) {
      var r :| r in rs && r.id == id;
      assert r in Filter(rs, OtherRoomId(g));
    }
  }

  lemma UserIdsRemove(us: seq<User>, uid: int)
    ensures UserIds(Filter(us, OtherUserId(uid))) == UserIds(us) - {uid}
  {
    forall id | id in UserIds(us) - {uid} ensures id in UserIds(Filter(us, OtherUserId(uid))) {
      var u :| u in us && u.id == id;
      assert u in Filter(us, OtherUserId(uid));
    }
  }

  /** Every participant row names a room below the room counter. */
  lemma ParticipantRoomsBelow(ps: seq<Participant>, rs: seq<Room>, us: seq<User>, next: int)
    requires ParticipantsRefer(ps, rs, us) && RoomIdsBelow(rs, next)
    ensures forall p :: p in ps ==> p.roomId < next
  {
  }

  /** Deleting the rows of one more user, after those of a set of users. */
  lemma RemoveOneMoreUser(ps: seq<Participant>, s: set<int>, u: int)
    ensures Filter(Filter(ps, NotOfUsers(s)), NotOfUser(u)) == Filter(ps, NotOfUsers(s + {u}))
  {
    FilterCompose(ps, NotOfUsers(s), NotOfUser(u), NotOfUsers(s + {u}));
  }

  lemma UserSetAppend(ps: seq<Participant>, p: Participant)
    ensures UserSet(ps + [p]) == UserSet(ps) + {p.userId}
  {
    assert p in ps + [p];
    assert forall x :: x in ps ==> x in ps + [p];
  }

  ghost predicate UserIdsBelow(us: seq<User>, next: int) {
    forall u :: u in us ==> u.id < next
  }

  ghost predicate RoomIdsBelow(rs: seq<Room>, next: int) {
    forall r :: r in rs ==> r.id < next
  }

  ghost predicate WalletIdsBelow(ws: seq<Wallet>, next: int) {
    forall w :: w in ws ==> w.id < next
  }

  /** Every participant row names an existing room and an existing user. */
  ghost predicate ParticipantsRefer(ps: seq<Participant>, rs: seq<Room>, us: seq<User>) {
    forall p :: p in ps ==> p.roomId in RoomIds(rs) && p.userId in UserIds(us)
  }

  /** Every profile row names an existing user. */
  ghost predicate ProfilesRefer(fs: seq<Profile>, us: seq<User>) {
    forall f :: f in fs ==> f.userId in UserIds(us)
  }

  // ---------------------------------------------------------------------
  // The room-type and owner decisions, on given tables.
  // ---------------------------------------------------------------------

  /** is_group_chat: exactly one room has the key, and it is not a p2p room. */
  function GroupIn(rs: seq<Room>, rid: int): (b: bool)
    ensures b ==> rid in RoomIds(rs)
    ensures b ==> forall x, y :: x in rs && y in rs && x.id == rid && y.id == rid ==> x == y && !IsP2P(x)
  {
    var rows := Filter(rs, ByRoomId(rid));
    if |rows| != 1 then false
    else
      assert rows[0] in rows;
      if rows[0].description == PrivateRoom then false
      else true
  }

  /** get_group_owner_by_id: the user of the one admin row of a group. */
  function OwnerIn(rs: seq<Room>, ps: seq<Participant>, rid: int): (r: Outcome<int>)
    ensures r.Ok? ==> GroupIn(rs, rid) && Participant(rid, r.value, true) in ps
    ensures r.Ok? ==> forall p :: p in ps && p.roomId == rid && p.isAdmin ==> p.userId == r.value
    ensures !r.Ok? ==> r == Err(NotFound)
  {
    if !GroupIn(rs, rid) then Err(NotFound)
    else
      var admins := Filter(ps, AdminOf(rid));
      if |admins| != 1 then Err(NotFound)
      else
        assert admins[0] in admins;
        Ok(admins[0].userId)
  }

  /** A group found by key is the only room with that key. */
  lemma GroupUnique(rs: seq<Room>, rid: int, x: Room, y: Room)
    requires GroupIn(rs, rid) && x in rs && y in rs && y.id == rid
    ensures x.id == rid ==> x == y
    ensures !IsP2P(y)
  {
  }

  /** The name lookup, when it succeeds, names the only room with the name. */
  lemma NameFound(rs: seq<Room>, name: string, g: Room)
    requires Exactly(Filter(rs, ByRoomName(name))) == Ok(g)
    ensures g in rs && g.name == name
    ensures forall x :: x in rs && x.name == name ==> x == g
  {
    var rows := Filter(rs, ByRoomName(name));
    assert rows == [g];
  }

  // ---------------------------------------------------------------------
  // The database.
  // ---------------------------------------------------------------------

  /** The six tables, each a sequence of rows in insertion order, and the
      serial counters that assign `user_id`, `chat_room_id` and `wallet_id`. */
  class Db {
    var users: seq<User>
    var profiles: seq<Profile>
    var rooms: seq<Room>
    var participants: seq<Participant>
    var solanaWallets: seq<Wallet>
    var tronWallets: seq<Wallet>
    var nextUserId: int
    var nextRoomId: int
    var nextSolanaWalletId: int
    var nextTronWalletId: int

    /** Serial keys lie below their counters, and the references declared
        in schema.rs (participants to rooms and users, profiles to users)
        point at existing rows. */
    ghost predicate Valid()
      reads this
    {
      && UserIdsBelow(users, nextUserId)
      && RoomIdsBelow(rooms, nextRoomId)
      && WalletIdsBelow(solanaWallets, nextSolanaWalletId)
      && WalletIdsBelow(tronWallets, nextTronWalletId)
      && ParticipantsRefer(participants, rooms, users)
      && ProfilesRefer(profiles, users)
    }

    /** An empty database. */
    constructor ()
      ensures Valid()
      ensures users == [] && profiles == [] && rooms == [] && participants == []
      ensures solanaWallets == [] && tronWallets == []
    {
      users, profiles, rooms, participants := [], [], [], [];
      solanaWallets, tronWallets := [], [];
      nextUserId, nextRoomId, nextSolanaWalletId, nextTronWalletId := 1, 1, 1, 1;
    }

    // -- the writes: one table at a time ----------------------------------
    //
    // Each operation of the library is a sequence of these.  A write whose
    // precondition is a reference constraint is only issued after the
    // caller has checked that constraint, as the database would.

    /** INSERT INTO users: the row gets the next serial key. */
    method InsertUser(c: Credentials) returns (u: User)
      requires Valid()
      modifies this`users, this`nextUserId
      ensures Valid()
      ensures u == User(old(nextUserId), c.username, c.email, c.password)
      ensures users == old(users) + [u] && nextUserId == old(nextUserId) + 1
    {
      u := User(nextUserId, c.username, c.email, c.password);
      UserIdsAppend(users, u);
      users, nextUserId := users + [u], nextUserId + 1;
    }

    /** UPDATE or DELETE on users, given the rows that remain. */
    method SetUsers(us: seq<User>)
      requires Valid()
      requires UserIdsBelow(us, nextUserId)
      requires ParticipantsRefer(participants, rooms, us) && ProfilesRefer(profiles, us)
      modifies this`users
      ensures Valid() && users == us
    {
      users := us;
    }

    /** INSERT INTO user_profiles. */
    method InsertProfile(f: Profile)
      requires Valid() && f.userId in UserIds(users)
      modifies this`profiles
      ensures Valid() && profiles == old(profiles) + [f]
    {
      profiles := profiles + [f];
    }

    /** UPDATE or DELETE on user_profiles. */
    method SetProfiles(fs: seq<Profile>)
      requires Valid() && ProfilesRefer(fs, users)
      modifies this`profiles
      ensures Valid() && profiles == fs
    {
      profiles := fs;
    }

    /** INSERT INTO chat_rooms: the row gets the next serial key. */
    method InsertRoom(info: RoomInfo) returns (room: Room)
      requires Valid()
      modifies this`rooms, this`nextRoomId
      ensures Valid()
      ensures room == Room(old(nextRoomId), info.name, info.description)
      ensures rooms == old(rooms) + [room] && nextRoomId == old(nextRoomId) + 1
    {
      room := Room(nextRoomId, info.name, info.description);
      RoomIdsAppend(rooms, room);
      rooms, nextRoomId := rooms + [room], nextRoomId + 1;
    }

    /** UPDATE or DELETE on chat_rooms, given the rows that remain. */
    method SetRooms(rs: seq<Room>)
      requires Valid()
      requires RoomIdsBelow(rs, nextRoomId) && ParticipantsRefer(participants, rs, users)
      modifies this`rooms
      ensures Valid() && rooms == rs
    {
      rooms := rs;
    }

    /** INSERT INTO chat_room_participants, one row or a batch. */
    method InsertParticipants(ps: seq<Participant>)
      requires Valid() && ParticipantsRefer(ps, rooms, users)
      modifies this`participants
      ensures Valid() && participants == old(participants) + ps
    {
      participants := participants + ps;
    }

    /** DELETE FROM chat_room_participants: the rows `keep` rejects go. */
    method KeepParticipants(keep: Participant -> bool)
      requires Valid()
      modifies this`participants
      ensures Valid() && participants == Filter(old(participants), keep)
    {
      participants := Filter(participants, keep);
    }

    /** INSERT INTO solana_wallets: the row gets the next serial key. */
    method InsertSolanaWallet(info: WalletInfo) returns (w: Wallet)
      requires Valid()
      modifies this`solanaWallets, this`nextSolanaWalletId
      ensures Valid()
      ensures w == Wallet(old(nextSolanaWalletId), info.userId, info.address)
      ensures solanaWallets == old(solanaWallets) + [w]
      ensures nextSolanaWalletId == old(nextSolanaWalletId) + 1
    {
      w := Wallet(nextSolanaWalletId, info.userId, info.address);
      solanaWallets, nextSolanaWalletId := solanaWallets + [w], nextSolanaWalletId + 1;
    }

    /** DELETE on solana_wallets, given the rows that remain. */
    method SetSolanaWallets(ws: seq<Wallet>)
      requires Valid() && WalletIdsBelow(ws, nextSolanaWalletId)
      modifies this`solanaWallets
      ensures Valid() && solanaWallets == ws
    {
      solanaWallets := ws;
    }

    /** DELETE on tron_wallets, given the rows that remain. */
    method SetTronWallets(ws: seq<Wallet>)
      requires Valid() && WalletIdsBelow(ws, nextTronWalletId)
      modifies this`tronWallets
      ensures Valid() && tronWallets == ws
    {
      tronWallets := ws;
    }

    /** Whether a row of chat_room_participants or user_profiles refers to
        the user: the reference constraint that a delete of the user row
        must respect. */
    function UserReferenced(uid: int): (b: bool)
      reads this`participants, this`profiles
      ensures !b <==> (forall p :: p in participants ==> p.userId != uid)
                      && (forall f :: f in profiles ==> f.userId != uid)
    {
      (exists p :: p in participants && p.userId == uid) || (exists f :: f in profiles && f.userId == uid)
    }

    /** Whether a row of chat_room_participants refers to the room. */
    function RoomReferenced(rid: int): (b: bool)
      reads this`participants
      ensures !b <==> forall p :: p in participants ==> p.roomId != rid
    {
      exists p :: p in participants && p.roomId == rid
    }

    // -- user getters ---------------------------------------------------

    function GetUserWithUsername(name: string): (r: Outcome<User>)
      reads this`users
      ensures r.Ok? <==> |Filter(users, ByUsername(name))| == 1
      ensures r.Ok? ==> r.value in users && r.value.username == name
      ensures r.Ok? ==> forall u :: u in users && u.username == name ==> u == r.value
      ensures !r.Ok? ==> r == Err(NotFound)
    {
      Exactly(Filter(users, ByUsername(name)))
    }

    function GetUserWithEmail(email: string): (r: Outcome<User>)
      reads this`users
      ensures r.Ok? <==> |Filter(users, ByEmail(email))| == 1
      ensures r.Ok? ==> r.value in users && r.value.email == email
      ensures r.Ok? ==> forall u :: u in users && u.email == email ==> u == r.value
      ensures !r.Ok? ==> r == Err(NotFound)
    {
      Exactly(Filter(users, ByEmail(email)))
    }

    function GetUserWithUserId(id: int): (r: Outcome<User>)
      reads this`users
      ensures r.Ok? <==> |Filter(users, ByUserId(id))| == 1
      ensures r.Ok? ==> r.value in users && r.value.id == id
      ensures r.Ok? ==> forall u :: u in users && u.id == id ==> u == r.value
      ensures !r.Ok? ==> r == Err(NotFound)
    {
      Exactly(Filter(users, ByUserId(id)))
    }

    function GetUserProfileWithUserId(uid: int): (r: Outcome<Profile>)
      reads this`profiles
      ensures r.Ok? <==> |Filter(profiles, ProfileOf(uid))| == 1
      ensures r.Ok? ==> r.value in profiles && r.value.userId == uid
      ensures !r.Ok? ==> r == Err(NotFound)
    {
      var rows := Filter(profiles, ProfileOf(uid));
      if |rows| == 1 then
        assert rows[0] in rows && rows[0] == Profile(uid, rows[0].bio, rows[0].picture);
        Ok(Profile(uid, rows[0].bio, rows[0].picture))
      else Err(NotFound)
    }

    function GetUserProfileWithUsername(name: string): (r: Outcome<Profile>)
      reads this`users, this`profiles
      ensures r.Ok? ==> GetUserWithUsername(name).Ok?
      ensures r.Ok? ==> r.value in profiles && r.value.userId == GetUserWithUsername(name).value.id
      ensures GetUserWithUsername(name).Ok? ==> r == GetUserProfileWithUserId(GetUserWithUsername(name).value.id)
      ensures !r.Ok? ==> r == Err(NotFound)
    {
      match GetUserWithUsername(name)
      case Ok(u) =>
        var rows := Filter(profiles, ProfileOf(u.id));
        if |rows| == 1 then
          assert rows[0] in rows && rows[0] == Profile(u.id, rows[0].bio, rows[0].picture);
          Ok(Profile(u.id, rows[0].bio, rows[0].picture))
        else Err(NotFound)
      case _ => Err(NotFound)
    }

    function IsValidUser(uid: int): (b: bool)
      reads this`users
      ensures b <==> GetUserWithUserId(uid).Ok?
    {
      |Filter(users, ByUserId(uid))| == 1
    }

    // -- room getters ---------------------------------------------------

    function GetGroupChatByName(name: string): (r: Outcome<Room>)
      reads this`rooms
      ensures r.Ok? <==> |Filter(rooms, ByRoomName(name))| == 1
      ensures r.Ok? ==> r.value in rooms && r.value.name == name
      ensures r.Ok? ==> forall x :: x in rooms && x.name == name ==> x == r.value
      ensures !r.Ok? ==> r == Err(NotFound)
    {
      Exactly(Filter(rooms, ByRoomName(name)))
    }

    function GetGroupChatById(id: int): (r: Outcome<Room>)
      reads this`rooms
      ensures r.Ok? <==> |Filter(rooms, ByRoomId(id))| == 1
      ensures r.Ok? ==> r.value in rooms && r.value.id == id
      ensures r.Ok? ==> forall x :: x in rooms && x.id == id ==> x == r.value
      ensures !r.Ok? ==> r == Err(NotFound)
    {
      Exactly(Filter(rooms, ByRoomId(id)))
    }

    function IsValidChatroom(id: int): (b: bool)
      reads this`rooms
      ensures b <==> GetGroupChatById(id).Ok?
    {
      |Filter(rooms, ByRoomId(id))| == 1
    }

    /** The room type test: exactly one room has the id, and its
        description is not the p2p sentinel. */
    function IsGroupChat(id: int): (b: bool)
      reads this`rooms
      ensures b <==> GetGroupChatById(id).Ok? && !IsP2P(GetGroupChatById(id).value)
      ensures b ==> id in RoomIds(rooms)
    {
      GroupIn(rooms, id)
    }

    function IsUserInChatRoom(rid: int, uid: int): (b: bool)
      reads this`participants
      ensures b <==> |Filter(participants, MemberOf(rid, uid))| == 1
      ensures b ==> exists p :: p in participants && p.roomId == rid && p.userId == uid
    {
      var rows := Filter(participants, MemberOf(rid, uid));
      assert |rows| == 1 ==> rows[0] in rows;
      |rows| == 1
    }

    function GetChatRoomParticipantsById(rid: int): (r: Outcome<seq<Participant>>)
      reads this`participants
      ensures r.Ok? ==> r.value != [] && forall p :: p in r.value <==> p in participants && p.roomId == rid
      ensures r.Ok? ==> r.value == Filter(participants, InRoom(rid))
      ensures !r.Ok? <==> forall p :: p in participants ==> p.roomId != rid
      ensures !r.Ok? ==> r == Err(NotFound)
    {
      var rows := Filter(participants, InRoom(rid));
      if |rows| == 0 then Err(NotFound)
      else
        assert rows[0] in rows;
        Ok(rows)
    }

    function GetChatRoomParticipantsByName(name: string): (r: Outcome<seq<Participant>>)
      reads this`rooms, this`participants
      ensures r.Ok? ==> GetGroupChatByName(name).Ok?
      ensures r.Ok? ==> r == GetChatRoomParticipantsById(GetGroupChatByName(name).value.id)
      ensures GetGroupChatByName(name).Ok? ==> r == GetChatRoomParticipantsById(GetGroupChatByName(name).value.id)
      ensures !r.Ok? ==> r == Err(NotFound)
    {
      var named := Filter(rooms, ByRoomName(name));
      if |named| != 1 then Err(NotFound)
      else
        var rows := Filter(participants, InRoom(named[0].id));
        if |rows| == 0 then Err(NotFound) else Ok(rows)
    }

    /** The owner of a group: the user of its one `is_admin` row.  A room
        that is not a group, or has zero or several admin rows, has none. */
    function GetGroupOwnerById(rid: int): (r: Outcome<int>)
      reads this`rooms, this`participants
      ensures r.Ok? <==> IsGroupChat(rid) && |Filter(participants, AdminOf(rid))| == 1
      ensures r.Ok? ==> Participant(rid, r.value, true) in participants
      ensures r.Ok? ==> forall p :: p in participants && p.roomId == rid && p.isAdmin ==> p.userId == r.value
      ensures !r.Ok? ==> r == Err(NotFound)
    {
      OwnerIn(rooms, participants, rid)
    }

    function GetUserP2PChatRoomsByUserId(uid: int): (r: Outcome<seq<Room>>)
      reads this`rooms, this`participants
      ensures r.Ok? ==> r.value != [] && r.value == P2PJoin(rooms, participants)
      ensures !r.Ok? <==> P2PJoin(rooms, participants) == []
      ensures !r.Ok? ==> r == Err(NotFound)
    {
      var joined := P2PJoin(rooms, participants);
      if |joined| == 0 then Err(NotFound) else Ok(joined)
    }

    function GetUserGroupChatRoomsByUserId(uid: int): (r: Outcome<seq<Room>>)
      reads this`rooms, this`participants
      ensures r.Ok? ==> r.value != [] && r.value == GroupJoin(rooms, participants, uid)
      ensures !r.Ok? <==> GroupJoin(rooms, participants, uid) == []
      ensures !r.Ok? ==> r == Err(NotFound)
    {
      var joined := GroupJoin(rooms, participants, uid);
      if |joined| == 0 then Err(NotFound) else Ok(joined)
    }

    /** The room two users share: both users must exist, and exactly one
        room may hold exactly two rows naming either of them.  The room type
        is not looked at. */
    function GetTwoUsersP2PChatRoom(u1: int, u2: int): (r: Outcome<Room>)
      reads this`users, this`rooms, this`participants
      ensures r.Ok? ==> GetUserWithUserId(u1).Ok? && GetUserWithUserId(u2).Ok?
      ensures r.Ok? ==> r.value in rooms && PairCount(participants, u1, u2, r.value.id) == 2
      ensures r.Ok? ==> forall p :: (p in participants && (p.userId == u1 || p.userId == u2)
                          && PairCount(participants, u1, u2, p.roomId) == 2) ==> p.roomId == r.value.id
      ensures forall p, q :: (p in PairGroupRows(participants, u1, u2) && q in PairGroupRows(participants, u1, u2)
                && p.roomId != q.roomId) ==> !r.Ok?
      ensures (&& GetUserWithUserId(u1).Ok? && GetUserWithUserId(u2).Ok?
               && |PairGroupRows(participants, u1, u2)| == 2
               && GetGroupChatById(PairGroupRows(participants, u1, u2)[0].roomId).Ok?) ==> r.Ok?
      ensures !r.Ok? ==> r == Err(NotFound)
    {
      if !GetUserWithUserId(u1).Ok? then Err(NotFound)
      else if !GetUserWithUserId(u2).Ok? then Err(NotFound)
      else
        var grouped := PairGroupRows(participants, u1, u2);
        if |grouped| != 2 then Err(NotFound)
        else
          PairGroupsOne(participants, u1, u2);
          assert grouped[0] in grouped;
          GetGroupChatById(grouped[0].roomId)
    }
  }

  // ---------------------------------------------------------------------
  // Lemmas about the queries.
  // ---------------------------------------------------------------------

  /** Within the qualifying rows, a qualifying room keeps all of its rows
      that name either user: two of them. */
  lemma PairGroupOfRow(ps: seq<Participant>, u1: int, u2: int, g: int)
    requires PairCount(ps, u1, u2, g) == 2
    ensures Filter(PairGroupRows(ps, u1, u2), InRoom(g)) == Filter(Filter(ps, Naming(u1, u2)), InRoom(g))
    ensures |Filter(PairGroupRows(ps, u1, u2), InRoom(g))| == 2
  {
    var both := (p: Participant) => (p.userId == u1 || p.userId == u2) && p.roomId == g;
    FilterCompose(ps, InPairGroup(ps, u1, u2), InRoom(g), both);
    FilterCompose(ps, Naming(u1, u2), InRoom(g), both);
  }

  /** "Exactly two qualifying rows" is "exactly one qualifying room". */
  lemma PairGroupsOne(ps: seq<Participant>, u1: int, u2: int)
    ensures var rows := PairGroupRows(ps, u1, u2);
      |rows| == 2 <==> rows != [] && forall q :: q in rows ==> q.roomId == rows[0].roomId
  {
    var rows := PairGroupRows(ps, u1, u2);
    if rows != [] {
      var g := rows[0].roomId;
      assert rows[0] in rows;
      PairGroupOfRow(ps, u1, u2, g);
      if |rows| == 2 {
        FilterKeepsAll(rows, InRoom(g));
      }
      if forall q :: q in rows ==> q.roomId == g {
        FilterAll(rows, InRoom(g));
      }
    }
  }

  /** The pair lookup does not depend on the order of the two users. */
  lemma {:induction false} PairLookupSymmetric(db: Db, u1: int, u2: int)
    ensures db.GetTwoUsersP2PChatRoom(u1, u2) == db.GetTwoUsersP2PChatRoom(u2, u1)
  {
    var ps := db.participants;
    FilterExt(ps, Naming(u1, u2), Naming(u2, u1));
    forall g ensures PairCount(ps, u1, u2, g) == PairCount(ps, u2, u1, g) { }
    FilterExt(ps, InPairGroup(ps, u1, u2), InPairGroup(ps, u2, u1));
  }

  /** Every member row of a p2p room puts that room into the p2p join once:
      the room occurs in the join at least as often as it has rows. */
  lemma {:induction false} P2PJoinCovers(rs: seq<Room>, ps: seq<Participant>, room: Room)
    requires room in rs && IsP2P(room)
    ensures |Filter(ps, InRoom(room.id))| <= |Filter(P2PJoin(rs, ps), ByRoomId(room.id))|
  {
    if ps != [] {
      P2PJoinCovers(rs, ps[1..], room);
      var head := Filter(rs, P2PWithId(ps[0].roomId));
      FilterConcat(head, P2PJoin(rs, ps[1..]), ByRoomId(room.id));
      if ps[0].roomId == room.id {
        assert room in Filter(head, ByRoomId(room.id));
      }
    }
  }

  /** The room the pair lookup finds holds rows. */
  lemma PairRoomHasRows(db: Db, u1: int, u2: int)
    requires db.GetTwoUsersP2PChatRoom(u1, u2).Ok?
    ensures db.GetChatRoomParticipantsById(db.GetTwoUsersP2PChatRoom(u1, u2).value.id).Ok?
  {
    var g := db.GetTwoUsersP2PChatRoom(u1, u2).value.id;
    var rows := Filter(Filter(db.participants, Naming(u1, u2)), InRoom(g));
    assert rows[0] in rows;
  }

  /** The p2p join ignores the user it is asked about. */
  lemma P2PRoomsIgnoreUser(db: Db, u: int, v: int, p: Participant, room: Room)
    requires p in db.participants && room in db.rooms && room.id == p.roomId && IsP2P(room)
    requires p.userId != u
    ensures db.GetUserP2PChatRoomsByUserId(u) == db.GetUserP2PChatRoomsByUserId(v)
    ensures db.GetUserP2PChatRoomsByUserId(u).Ok? && room in db.GetUserP2PChatRoomsByUserId(u).value
  {
  }
}
