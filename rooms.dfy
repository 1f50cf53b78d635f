/** The chat-room setters of lib.rs: creating and deleting p2p rooms and
    group rooms, editing a group, and adding or removing group members. */
module Rooms {
  import opened Outcomes
  import opened Tables
  import opened Schema
  import opened Store

  // ---------------------------------------------------------------------
  // P2P rooms
  // ---------------------------------------------------------------------

  /** The two member rows a new p2p room gets. */
  function PairRows(g: int, requestor: int, acceptor: int): seq<Participant> {
    [Participant(g, requestor, false), Participant(g, acceptor, false)]
  }

  /** Appending the two rows of a fresh room leaves the count of every
      other room alone and gives the fresh room a count of two. */
  lemma PairCountAfter(ps: seq<Participant>, g: int, u1: int, u2: int, h: int)
    requires forall p :: p in ps ==> p.roomId != g
    ensures PairCount(ps + PairRows(g, u1, u2), u1, u2, h) ==
              if h == g then 2 else PairCount(ps, u1, u2, h)
  {
    var added := PairRows(g, u1, u2);
    FilterConcat(ps, added, Naming(u1, u2));
    assert Filter(added, Naming(u1, u2)) == added;
    FilterConcat(Filter(ps, Naming(u1, u2)), added, InRoom(h));
    if h == g {
      assert Filter(added, InRoom(h)) == added;
    } else {
      assert Filter(added, InRoom(h)) == [];
    }
  }

  /** When no room held the pair before, the fresh room is the one room
      that holds it afterwards. */
  lemma PairAfterNewRoom(ps: seq<Participant>, g: int, u1: int, u2: int)
    requires forall p :: p in ps ==> p.roomId != g
    requires PairGroupRows(ps, u1, u2) == []
    ensures PairGroupRows(ps + PairRows(g, u1, u2), u1, u2) == PairRows(g, u1, u2)
  {
    var added := PairRows(g, u1, u2);
    var ps' := ps + added;
    forall h ensures PairCount(ps', u1, u2, h) == if h == g then 2 else PairCount(ps, u1, u2, h) {
      PairCountAfter(ps, g, u1, u2, h);
    }
    FilterConcat(ps, added, InPairGroup(ps', u1, u2));
    forall p | p in ps ensures !InPairGroup(ps', u1, u2)(p) {
      assert !InPairGroup(ps, u1, u2)(p);
    }
    assert Filter(added, InPairGroup(ps', u1, u2)) == added;
  }

  /** Fresh keys are above every key in use, so the fresh room is the only
      room with its id. */
  lemma FreshRoomAlone(rs: seq<Room>, room: Room)
    requires forall r :: r in rs ==> r.id < room.id
    ensures Filter(rs + [room], ByRoomId(room.id)) == [room]
  {
    FilterConcat(rs, [room], ByRoomId(room.id));
    assert Filter([room], ByRoomId(room.id)) == [room];
  }

  /** Once the fresh room and its two rows are in place, the pair lookup
      finds the fresh room, provided no room held the pair before. */
  lemma PairLookupAfterCreate(db: Db, ps0: seq<Participant>, rs0: seq<Room>, room: Room, u1: int, u2: int)
    requires db.participants == ps0 + PairRows(room.id, u1, u2) && db.rooms == rs0 + [room]
    requires forall r :: r in rs0 ==> r.id < room.id
    requires forall p :: p in ps0 ==> p.roomId != room.id
    requires PairGroupRows(ps0, u1, u2) == []
    requires db.GetUserWithUserId(u1).Ok? && db.GetUserWithUserId(u2).Ok?
    ensures db.GetTwoUsersP2PChatRoom(u1, u2) == Ok(room)
  {
    PairAfterNewRoom(ps0, room.id, u1, u2);
    FreshRoomAlone(rs0, room);
  }

  /** Creates the p2p room of two users unless the pair lookup already
      finds one.  The room row is written first; then the requestor's row,
      whose failed reference check is reported as Other; then the
      acceptor's, whose failed reference check is reported as NotFound.  A
      failure leaves the rows already written in place. */
  method AddNewP2PChatRoom(db: Db, requestor: int, acceptor: int) returns (r: Outcome<Room>)
    requires db.Valid()
    modifies db`rooms, db`participants, db`nextRoomId
    ensures db.Valid()
    ensures r == Err(AlreadyExists) <==> old(db.GetTwoUsersP2PChatRoom(requestor, acceptor)).Ok?
    ensures r == Err(AlreadyExists) ==> unchanged(db)
    ensures r != Err(AlreadyExists) ==>
      && db.rooms == old(db.rooms) + [Room(old(db.nextRoomId), P2PRoomName, PrivateRoom)]
      && db.nextRoomId == old(db.nextRoomId) + 1
    ensures r != Err(AlreadyExists) && requestor !in old(UserIds(db.users)) ==>
      r == Err(Other) && db.participants == old(db.participants)
    ensures r != Err(AlreadyExists) && requestor in old(UserIds(db.users)) && acceptor !in old(UserIds(db.users)) ==>
      r == Err(NotFound) && db.participants == old(db.participants) + [Participant(old(db.nextRoomId), requestor, false)]
    ensures r.Ok? <==> (!old(db.GetTwoUsersP2PChatRoom(requestor, acceptor)).Ok?
                        && requestor in old(UserIds(db.users)) && acceptor in old(UserIds(db.users)))
    ensures r.Ok? ==> r.value == Room(old(db.nextRoomId), P2PRoomName, PrivateRoom) && IsP2P(r.value)
    ensures r.Ok? ==> db.participants == old(db.participants) + PairRows(r.value.id, requestor, acceptor)
    ensures r.Ok? ==> Filter(db.participants, InRoom(r.value.id)) == PairRows(r.value.id, requestor, acceptor)
    ensures r.Ok? && old(db.GetUserWithUserId(requestor).Ok? && db.GetUserWithUserId(acceptor).Ok?)
                  && old(PairGroupRows(db.participants, requestor, acceptor)) == [] ==>
              db.GetTwoUsersP2PChatRoom(requestor, acceptor) == Ok(r.value)
  {
    if db.GetTwoUsersP2PChatRoom(requestor, acceptor).Ok? {
      return Err(AlreadyExists);
    }
    ParticipantRoomsBelow(db.participants, db.rooms, db.users, db.nextRoomId);
    var room := db.InsertRoom(RoomInfo(P2PRoomName, PrivateRoom));
    RoomIdsAppend(old(db.rooms), room);
    r := AddPairMembers(db, room, requestor, acceptor);
    if r.Ok? && old(db.GetUserWithUserId(requestor).Ok? && db.GetUserWithUserId(acceptor).Ok?)
       && old(PairGroupRows(db.participants, requestor, acceptor)) == [] {
      PairLookupAfterCreate(db, old(db.participants), old(db.rooms), room, requestor, acceptor);
    }
  }

  /** The two participant inserts of AddNewP2PChatRoom. */
  method AddPairMembers(db: Db, room: Room, requestor: int, acceptor: int) returns (r: Outcome<Room>)
    requires db.Valid() && room.id in RoomIds(db.rooms)
    requires forall p :: p in db.participants ==> p.roomId != room.id
    modifies db`participants
    ensures db.Valid()
    ensures requestor !in UserIds(db.users) ==> r == Err(Other) && db.participants == old(db.participants)
    ensures requestor in UserIds(db.users) && acceptor !in UserIds(db.users) ==>
      r == Err(NotFound) && db.participants == old(db.participants) + [Participant(room.id, requestor, false)]
    ensures r.Ok? <==> requestor in UserIds(db.users) && acceptor in UserIds(db.users)
    ensures r.Ok? ==> r.value == room
    ensures r.Ok? ==> db.participants == old(db.participants) + PairRows(room.id, requestor, acceptor)
    ensures r.Ok? ==> Filter(db.participants, InRoom(room.id)) == PairRows(room.id, requestor, acceptor)
  {
    if requestor !in UserIds(db.users) {
      return Err(Other);
    }
    db.InsertParticipants([Participant(room.id, requestor, false)]);
    if acceptor !in UserIds(db.users) {
      return Err(NotFound);
    }
    db.InsertParticipants([Participant(room.id, acceptor, false)]);
    var added := PairRows(room.id, requestor, acceptor);
    assert db.participants == old(db.participants) + added;
    FilterConcat(old(db.participants), added, InRoom(room.id));
    assert Filter(added, InRoom(room.id)) == added;
    r := Ok(room);
  }

  /** The lookups of delete_p2p_chat_room: both usernames, then the room
      the two users share. */
  function PairRoomOf(db: Db, removerName: string, contactName: string): (r: Outcome<Room>)
    reads db`users, db`rooms, db`participants
    ensures r.Ok? <==>
      && db.GetUserWithUsername(removerName).Ok?
      && db.GetUserWithUsername(contactName).Ok?
      && db.GetTwoUsersP2PChatRoom(db.GetUserWithUsername(removerName).value.id,
                                   db.GetUserWithUsername(contactName).value.id).Ok?
    ensures r.Ok? ==>
      r == db.GetTwoUsersP2PChatRoom(db.GetUserWithUsername(removerName).value.id,
                                     db.GetUserWithUsername(contactName).value.id)
    ensures !r.Ok? ==> r == Err(NotFound)
  {
    var remover := db.GetUserWithUsername(removerName);
    var contact := db.GetUserWithUsername(contactName);
    if !remover.Ok? then Err(NotFound)
    else if !contact.Ok? then Err(NotFound)
    else db.GetTwoUsersP2PChatRoom(remover.value.id, contact.value.id)
  }

  /** The room the lookups find holds rows. */
  lemma PairRoomOfHasRows(db: Db, removerName: string, contactName: string)
    requires PairRoomOf(db, removerName, contactName).Ok?
    ensures db.GetChatRoomParticipantsById(PairRoomOf(db, removerName, contactName).value.id).Ok?
  {
    PairRoomHasRows(db, db.GetUserWithUsername(removerName).value.id, db.GetUserWithUsername(contactName).value.id);
  }

  /** Deletes the p2p room two users share: every row of every member of
      that room is deleted, in all rooms, and then the room itself. */
  method DeleteP2PChatRoom(db: Db, removerName: string, contactName: string) returns (r: Outcome<bool>)
    requires db.Valid()
    modifies db`participants, db`rooms
    ensures db.Valid()
    ensures r == Ok(true) || r == Err(NotFound)
    ensures r.Ok? <==> old(PairRoomOf(db, removerName, contactName)).Ok?
    ensures !r.Ok? ==> unchanged(db)
    ensures r.Ok? ==>
      var g := old(PairRoomOf(db, removerName, contactName)).value.id;
      && db.participants == Filter(old(db.participants), NotOfUsers(UserSet(Filter(old(db.participants), InRoom(g)))))
      && db.rooms == Filter(old(db.rooms), OtherRoomId(g))
      && (forall p :: p in db.participants ==> p.roomId != g)
  {
    var pair := PairRoomOf(db, removerName, contactName);
    if !pair.Ok? {
      return Err(NotFound);
    }
    PairRoomOfHasRows(db, removerName, contactName);
    r := DeleteRoomWithMembers(db, pair.value.id);
  }

  /** The participant lookup of delete_p2p_chat_room, which cannot fail for
      the room the pair lookup found, and the writes. */
  method DeleteRoomWithMembers(db: Db, g: int) returns (r: Outcome<bool>)
    requires db.Valid() && db.GetChatRoomParticipantsById(g).Ok?
    modifies db`participants, db`rooms
    ensures db.Valid() && r == Ok(true)
    ensures db.participants == Filter(old(db.participants), NotOfUsers(UserSet(Filter(old(db.participants), InRoom(g)))))
    ensures db.rooms == Filter(old(db.rooms), OtherRoomId(g))
    ensures forall p :: p in db.participants ==> p.roomId != g
  {
    var found := db.GetChatRoomParticipantsById(g);
    if !found.Ok? {
      assert false;
      return Err(NotFound);
    }
    r := RemoveRoomAndMembers(db, g, found.value);
  }

  /** The writes of DeleteP2PChatRoom: the rows of each member, then the
      room, whose reference check cannot fail once its members are gone. */
  method RemoveRoomAndMembers(db: Db, g: int, members: seq<Participant>) returns (r: Outcome<bool>)
    requires db.Valid() && members == Filter(db.participants, InRoom(g))
    modifies db`participants, db`rooms
    ensures db.Valid() && r == Ok(true)
    ensures db.participants == Filter(old(db.participants), NotOfUsers(UserSet(members)))
    ensures db.rooms == Filter(old(db.rooms), OtherRoomId(g))
    ensures forall p :: p in db.participants ==> p.roomId != g
  {
    RemoveUsersOf(db, members);
    if db.RoomReferenced(g) {
      // Every row of the room named one of the members just removed.
      assert false;
      return Err(Other);
    }
    RoomIdsRemove(db.rooms, g);
    db.SetRooms(Filter(db.rooms, OtherRoomId(g)));
    r := Ok(true);
  }

  lemma RemoveNextUser(ps: seq<Participant>, members: seq<Participant>, i: int)
    requires 0 <= i < |members|
    ensures Filter(Filter(ps, NotOfUsers(UserSet(members[..i]))), NotOfUser(members[i].userId))
            == Filter(ps, NotOfUsers(UserSet(members[..i + 1])))
  {
    RemoveOneMoreUser(ps, UserSet(members[..i]), members[i].userId);
    assert members[..i + 1] == members[..i] + [members[i]];
    UserSetAppend(members[..i], members[i]);
  }

  /** The loop of delete_p2p_chat_room: for each row, every row of its
      user is deleted. */
  method RemoveUsersOf(db: Db, members: seq<Participant>)
    requires db.Valid()
    modifies db`participants
    ensures db.Valid()
    ensures db.participants == Filter(old(db.participants), NotOfUsers(UserSet(members)))
  {
    ghost var ps0 := db.participants;
    FilterAll(ps0, NotOfUsers({}));
    assert UserSet(members[..0]) == {};
    var i := 0;
    while i < |members|
      invariant 0 <= i <= |members|
      invariant db.Valid()
      invariant db.participants == Filter(ps0, NotOfUsers(UserSet(members[..i])))
    {
      RemoveNextUser(ps0, members, i);
      db.KeepParticipants(NotOfUser(members[i].userId));
      i := i + 1;
    }
    assert members[..i] == members;
  }

  // ---------------------------------------------------------------------
  // Group rooms
  // ---------------------------------------------------------------------

  /** The member rows add_new_group_chat_room builds from a list of
      usernames: one non-admin row per name, the owner's name skipped;
      None as soon as a name does not resolve to exactly one user. */
  function MemberRows(us: seq<User>, names: seq<string>, owner: int, g: int): (r: Option<seq<Participant>>)
    ensures r.Some? <==> forall n :: n in names ==> |Filter(us, ByUsername(n))| == 1
    ensures r.Some? ==> forall p :: p in r.value ==>
      p.roomId == g && !p.isAdmin && p.userId != owner && p.userId in UserIds(us)
    ensures r.Some? ==> |r.value| <= |names|
  {
    if names == [] then Some([])
    else
      var last := names[|names| - 1];
      assert names == names[..|names| - 1] + [last];
      match MemberRows(us, names[..|names| - 1], owner, g)
      case None => None
      case Some(rows) =>
        var found := Filter(us, ByUsername(last));
        if |found| != 1 then None
        else
          assert found[0] in found;
          if found[0].id == owner then Some(rows)
          else Some(rows + [Participant(g, found[0].id, false)])
  }

  /** The rows built for a list of names extend the rows built for any
      prefix of it. */
  lemma MemberRowsStep(us: seq<User>, names: seq<string>, owner: int, g: int)
    requires names != [] && MemberRows(us, names, owner, g).Some?
    ensures MemberRows(us, names[..|names| - 1], owner, g).Some?
    ensures var rows := MemberRows(us, names[..|names| - 1], owner, g).value;
      var found := Filter(us, ByUsername(names[|names| - 1]));
      |found| == 1 &&
      MemberRows(us, names, owner, g).value ==
        if found[0].id == owner then rows else rows + [Participant(g, found[0].id, false)]
  {
  }

  /** Every named user other than the owner gets a row. */
  lemma {:induction false} MemberRowsCover(us: seq<User>, names: seq<string>, owner: int, g: int, u: User)
    requires MemberRows(us, names, owner, g).Some?
    requires u in us && u.username in names && u.id != owner
    ensures Participant(g, u.id, false) in MemberRows(us, names, owner, g).value
  {
    var last := names[|names| - 1];
    var front := names[..|names| - 1];
    assert names == front + [last];
    MemberRowsStep(us, names, owner, g);
    var rows := MemberRows(us, front, owner, g).value;
    var found := Filter(us, ByUsername(last));
    var all := MemberRows(us, names, owner, g).value;
    assert forall x :: x in rows ==> x in all;
    if u.username in front {
      MemberRowsCover(us, front, owner, g, u);
    } else {
      assert u in found;
      assert found == [found[0]];
      assert all == rows + [Participant(g, u.id, false)];
    }
  }

  /** The loop of add_new_group_chat_room that resolves each member. */
  method ResolveMembers(db: Db, names: seq<string>, owner: int, g: int) returns (r: Option<seq<Participant>>)
    ensures r == MemberRows(db.users, names, owner, g)
  {
    var batch: seq<Participant> := [];
    var i := 0;
    while i < |names|
      invariant 0 <= i <= |names|
      invariant MemberRows(db.users, names[..i], owner, g) == Some(batch)
    {
      assert names[..i + 1][..i] == names[..i];
      assert names[..i + 1][i] == names[i];
      var found := db.GetUserWithUsername(names[i]);
      if !found.Ok? {
        assert names[i] in names;
        return None;
      }
      if found.value.id != owner {
        batch := batch + [Participant(g, found.value.id, false)];
      }
      i := i + 1;
    }
    assert names[..i] == names;
    r := Some(batch);
  }

  /** A fresh room whose only admin row is its creator's is a group owned
      by that creator, unless its description marks it as p2p. */
  lemma NewGroupOwner(db: Db, rs0: seq<Room>, ps0: seq<Participant>, room: Room, owner: int, rows: seq<Participant>)
    requires db.rooms == rs0 + [room] && forall r :: r in rs0 ==> r.id < room.id
    requires forall p :: p in ps0 ==> p.roomId != room.id
    requires db.participants == ps0 + [Participant(room.id, owner, true)] + rows
    requires forall p :: p in rows ==> !p.isAdmin
    requires !IsP2P(room)
    ensures db.GetGroupOwnerById(room.id) == Ok(owner)
  {
    FreshRoomAlone(rs0, room);
    var head := Participant(room.id, owner, true);
    FilterConcat(ps0 + [head], rows, AdminOf(room.id));
    FilterConcat(ps0, [head], AdminOf(room.id));
    assert Filter([head], AdminOf(room.id)) == [head];
  }

  /** Creates a group: the room row, the owner's admin row, then one batch
      of member rows.  A member name that does not resolve aborts with
      NotFound after the room and the owner's row are written.  Whether the
      database accepts an empty batch is left open as `emptyBatchAccepted`. */
  method AddNewGroupChatRoom(db: Db, info: RoomInfo, ownerName: string, members: seq<string>,
                             emptyBatchAccepted: bool) returns (r: Outcome<Room>)
    requires db.Valid()
    modifies db`rooms, db`participants, db`nextRoomId
    ensures db.Valid()
    ensures !old(db.GetUserWithUsername(ownerName)).Ok? ==> r == Err(NotFound) && unchanged(db)
    ensures old(db.GetUserWithUsername(ownerName)).Ok? ==>
      var owner := old(db.GetUserWithUsername(ownerName)).value.id;
      var room := Room(old(db.nextRoomId), info.name, info.description);
      var rows := MemberRows(old(db.users), members, owner, room.id);
      && db.rooms == old(db.rooms) + [room]
      && db.nextRoomId == old(db.nextRoomId) + 1
      && (r.Ok? || r == Err(NotFound) || r == Err(Other))
      && (r == Err(NotFound) <==> |members| > 0 && rows.None?)
      && (r == Err(Other) <==> |members| > 0 && rows == Some([]) && !emptyBatchAccepted)
      && (!r.Ok? ==> db.participants == old(db.participants) + [Participant(room.id, owner, true)])
      && (r.Ok? ==> (r.value == room
            && db.participants == old(db.participants) + [Participant(room.id, owner, true)]
                                  + (if |members| == 0 then [] else rows.value)))
      && (r.Ok? && !IsP2P(room) ==> db.GetGroupOwnerById(room.id) == Ok(owner))
  {
    var found := db.GetUserWithUsername(ownerName);
    if !found.Ok? {
      return Err(NotFound);
    }
    var owner := found.value.id;
    ParticipantRoomsBelow(db.participants, db.rooms, db.users, db.nextRoomId);
    var room := db.InsertRoom(info);
    RoomIdsAppend(old(db.rooms), room);
    db.InsertParticipants([Participant(room.id, owner, true)]);
    var rows: seq<Participant> := [];
    if |members| > 0 {
      var batch := ResolveMembers(db, members, owner, room.id);
      if batch.None? {
        return Err(NotFound);
      }
      if batch.value == [] && !emptyBatchAccepted {
        return Err(Other);
      }
      rows := batch.value;
      db.InsertParticipants(rows);
    }
    if !IsP2P(room) {
      NewGroupOwner(db, old(db.rooms), old(db.participants), room, owner, rows);
    }
    r := Ok(room);
  }

  /** The rows of chat_rooms after an UPDATE of name and description of the
      rows with key `g`. */
  function WithInfo(rs: seq<Room>, g: int, info: RoomInfo): (r: seq<Room>)
    ensures |r| == |rs|
    ensures forall k :: 0 <= k < |rs| ==> r[k].id == rs[k].id
    ensures forall k :: 0 <= k < |rs| && rs[k].id != g ==> r[k] == rs[k]
    ensures forall k :: 0 <= k < |rs| && rs[k].id == g ==> r[k] == Room(g, info.name, info.description)
  {
    seq(|rs|, k requires 0 <= k < |rs| => if rs[k].id == g then Room(g, info.name, info.description) else rs[k])
  }

  /** Renaming keeps the keys. */
  lemma WithInfoKeys(rs: seq<Room>, g: int, info: RoomInfo, next: int)
    ensures RoomIds(WithInfo(rs, g, info)) == RoomIds(rs)
    ensures RoomIdsBelow(rs, next) ==> RoomIdsBelow(WithInfo(rs, g, info), next)
  {
    var w := WithInfo(rs, g, info);
    forall id | id in RoomIds(rs) ensures id in RoomIds(w) {
      var k :| 0 <= k < |rs| && rs[k].id == id;
      assert w[k] in w;
    }
    forall id | id in RoomIds(w) ensures id in RoomIds(rs) {
      var k :| 0 <= k < |w| && w[k].id == id;
      assert rs[k] in rs;
    }
    if RoomIdsBelow(rs, next) {
      forall x | x in w ensures x.id < next {
        var k :| 0 <= k < |w| && w[k] == x;
        assert rs[k] in rs;
      }
    }
  }

  /** After the rename, a unique room with the new name is the renamed
      room. */
  lemma RenamedRoomFound(rs: seq<Room>, room: Room, info: RoomInfo, found: Room)
    requires room in rs
    requires found in WithInfo(rs, room.id, info) && found.name == info.name
    requires forall x :: x in WithInfo(rs, room.id, info) && x.name == info.name ==> x == found
    ensures found == Room(room.id, info.name, info.description)
  {
    var k :| 0 <= k < |rs| && rs[k] == room;
    assert WithInfo(rs, room.id, info)[k] in WithInfo(rs, room.id, info);
  }

  /** Renames a group and changes its description; only its owner may.
      The room is found by name whatever its type.  The result is read back
      by the new name, which panics unless exactly one room carries it. */
  method UpdateGroupChatRoomInfo(db: Db, oldName: string, info: RoomInfo, editorName: string) returns (r: Outcome<Room>)
    requires db.Valid()
    modifies db`rooms
    ensures db.Valid()
    ensures !old(db.GetGroupChatByName(oldName)).Ok? || !old(db.GetUserWithUsername(editorName)).Ok?
              || !old(db.GetGroupOwnerById(db.GetGroupChatByName(oldName).value.id)).Ok? ==>
              r == Err(NotFound) && unchanged(db)
    ensures old(db.GetGroupChatByName(oldName)).Ok? && old(db.GetUserWithUsername(editorName)).Ok? ==>
      var g := old(db.GetGroupChatByName(oldName)).value.id;
      var owner := old(db.GetGroupOwnerById(g));
      && (owner.Ok? && owner.value != old(db.GetUserWithUsername(editorName)).value.id ==>
            r == Err(PermissionDenied) && unchanged(db))
      && (owner == Ok(old(db.GetUserWithUsername(editorName)).value.id) ==>
            && db.rooms == WithInfo(old(db.rooms), g, info)
            && (r.Ok? || r.Panic?)
            && (r.Ok? <==> db.GetGroupChatByName(info.name).Ok?)
            && (r.Ok? ==> r.value == Room(g, info.name, info.description)))
  {
    var room := db.GetGroupChatByName(oldName);
    if !room.Ok? {
      return Err(NotFound);
    }
    var editor := db.GetUserWithUsername(editorName);
    if !editor.Ok? {
      return Err(NotFound);
    }
    var owner := db.GetGroupOwnerById(room.value.id);
    if !owner.Ok? {
      return Err(NotFound);
    }
    if editor.value.id != owner.value {
      return Err(PermissionDenied);
    }
    WithInfoKeys(db.rooms, room.value.id, info, db.nextRoomId);
    db.SetRooms(WithInfo(db.rooms, room.value.id, info));
    var renamed := db.GetGroupChatByName(info.name);
    if !renamed.Ok? {
      return Panic;
    }
    RenamedRoomFound(old(db.rooms), room.value, info, renamed.value);
    r := Ok(renamed.value);
  }

  /** Deletes a group: only its owner may; its member rows go first, then
      the room. */
  method DeleteGroupChatRoom(db: Db, name: string, removerName: string) returns (r: Outcome<bool>)
    requires db.Valid()
    modifies db`rooms, db`participants
    ensures db.Valid()
    ensures r == Ok(true) || r == Err(NotFound) || r == Err(PermissionDenied)
    ensures !r.Ok? ==> unchanged(db)
    ensures r == Err(NotFound) <==>
      !old(db.GetUserWithUsername(removerName)).Ok? || !old(db.GetGroupChatByName(name)).Ok?
      || !old(db.GetGroupOwnerById(db.GetGroupChatByName(name).value.id)).Ok?
    ensures r == Err(PermissionDenied) <==>
      && old(db.GetUserWithUsername(removerName)).Ok? && old(db.GetGroupChatByName(name)).Ok?
      && old(db.GetGroupOwnerById(db.GetGroupChatByName(name).value.id)).Ok?
      && old(db.GetGroupOwnerById(db.GetGroupChatByName(name).value.id)).value
         != old(db.GetUserWithUsername(removerName)).value.id
    ensures r.Ok? ==>
      var g := old(db.GetGroupChatByName(name)).value.id;
      && old(db.GetGroupOwnerById(g)) == Ok(old(db.GetUserWithUsername(removerName)).value.id)
      && db.participants == Filter(old(db.participants), NotInRoom(g))
      && db.rooms == Filter(old(db.rooms), OtherRoomId(g))
      && !db.IsValidChatroom(g) && !db.GetChatRoomParticipantsById(g).Ok?
  {
    var remover := db.GetUserWithUsername(removerName);
    if !remover.Ok? {
      return Err(NotFound);
    }
    var room := db.GetGroupChatByName(name);
    if !room.Ok? {
      return Err(NotFound);
    }
    var g := room.value.id;
    var owner := db.GetGroupOwnerById(g);
    if !owner.Ok? {
      return Err(NotFound);
    }
    if remover.value.id != owner.value {
      return Err(PermissionDenied);
    }
    r := RemoveRoom(db, g);
  }

  /** The writes of DeleteGroupChatRoom. */
  method RemoveRoom(db: Db, g: int) returns (r: Outcome<bool>)
    requires db.Valid()
    modifies db`participants, db`rooms
    ensures db.Valid() && r == Ok(true)
    ensures db.participants == Filter(old(db.participants), NotInRoom(g))
    ensures db.rooms == Filter(old(db.rooms), OtherRoomId(g))
    ensures !db.IsValidChatroom(g) && !db.GetChatRoomParticipantsById(g).Ok?
  {
    db.KeepParticipants(NotInRoom(g));
    if db.RoomReferenced(g) {
      assert false;
      return Err(Other);
    }
    RoomIdsRemove(db.rooms, g);
    db.SetRooms(Filter(db.rooms, OtherRoomId(g)));
    r := Ok(true);
  }

  /** The owner adds one row to a group.  The adding user is resolved by
      username; the row is taken as given, so it may name any user and may
      carry the admin flag. */
  method AddParticipantToGroupChatRoom(db: Db, p: Participant, adderName: string) returns (r: Outcome<Participant>)
    requires db.Valid()
    modifies db`participants
    ensures db.Valid()
    ensures !r.Ok? ==> unchanged(db)
    ensures !old(db.GetUserWithUsername(adderName)).Ok? || !old(db.GetGroupOwnerById(p.roomId)).Ok? ==>
              r == Err(NotFound)
    ensures old(db.GetUserWithUsername(adderName)).Ok? && old(db.GetGroupOwnerById(p.roomId)).Ok? ==>
      var adder := old(db.GetUserWithUsername(adderName)).value.id;
      var owner := old(db.GetGroupOwnerById(p.roomId)).value;
      && (adder != owner ==> r == Err(PermissionDenied))
      && (adder == owner ==>
            && (r == Err(AlreadyExists) <==> old(Filter(db.participants, MemberOf(p.roomId, p.userId))) != [])
            && (old(Filter(db.participants, MemberOf(p.roomId, p.userId))) == [] ==>
                  (r == Err(Other) <==> p.userId !in old(UserIds(db.users))))
            && ((old(Filter(db.participants, MemberOf(p.roomId, p.userId))) == []
                 && p.userId in old(UserIds(db.users))) ==> r == Ok(p))
            && (r.Ok? ==>
                  && r.value == p
                  && db.participants == old(db.participants) + [p]
                  && db.IsUserInChatRoom(p.roomId, p.userId)
                  && (!p.isAdmin ==> db.GetGroupOwnerById(p.roomId) == Ok(owner))
                  && (p.isAdmin ==> !db.GetGroupOwnerById(p.roomId).Ok?)))
    ensures r.Ok? || r.Err?
  {
    var adder := db.GetUserWithUsername(adderName);
    if !adder.Ok? {
      return Err(NotFound);
    }
    var owner := db.GetGroupOwnerById(p.roomId);
    if !owner.Ok? {
      return Err(NotFound);
    }
    if adder.value.id != owner.value {
      return Err(PermissionDenied);
    }
    if !db.IsGroupChat(p.roomId) {
      assert false;
      return Err(NotFound);
    }
    var present := Filter(db.participants, MemberOf(p.roomId, p.userId));
    if |present| != 0 {
      return Err(AlreadyExists);
    }
    if p.userId !in UserIds(db.users) {
      return Err(Other);
    }
    ghost var ps0 := db.participants;
    assert Participant(p.roomId, owner.value, true) in ps0;
    db.InsertParticipants([p]);
    AddedRow(db, ps0, p, owner.value);
    r := Ok(p);
  }

  /** A row appended to a group where its user had none: the user is now a
      member, and the group keeps its owner unless the row is a second
      admin row. */
  lemma AddedRow(db: Db, ps0: seq<Participant>, p: Participant, owner: int)
    requires db.participants == ps0 + [p]
    requires db.IsGroupChat(p.roomId)
    requires Filter(ps0, MemberOf(p.roomId, p.userId)) == []
    requires |Filter(ps0, AdminOf(p.roomId))| == 1 && Participant(p.roomId, owner, true) in ps0
    ensures db.IsUserInChatRoom(p.roomId, p.userId)
    ensures !p.isAdmin ==> db.GetGroupOwnerById(p.roomId) == Ok(owner)
    ensures p.isAdmin ==> !db.GetGroupOwnerById(p.roomId).Ok?
  {
    FilterConcat(ps0, [p], MemberOf(p.roomId, p.userId));
    assert Filter([p], MemberOf(p.roomId, p.userId)) == [p];
    FilterConcat(ps0, [p], AdminOf(p.roomId));
    if p.isAdmin {
      assert Filter([p], AdminOf(p.roomId)) == [p];
    } else {
      assert Filter([p], AdminOf(p.roomId)) == [];
      assert Participant(p.roomId, owner, true) in db.participants;
    }
  }

  /** Removes a user from a group: the owner may remove anyone, a member
      only themself.  The delete is keyed on the user alone, so the user's
      rows in every chat room go. */
  method DelParticipantFromGroupChatRoom(db: Db, p: Participant, removerId: int) returns (r: Outcome<bool>)
    requires db.Valid()
    modifies db`participants
    ensures db.Valid()
    ensures r == Ok(true) || r == Err(NotFound) || r == Err(PermissionDenied)
    ensures !r.Ok? ==> unchanged(db)
    ensures !old(db.GetGroupOwnerById(p.roomId)).Ok? ==> r == Err(NotFound)
    ensures old(db.GetGroupOwnerById(p.roomId)).Ok? ==>
      var owner := old(db.GetGroupOwnerById(p.roomId)).value;
      && (removerId != owner && removerId != p.userId ==> r == Err(PermissionDenied))
      && (removerId == owner || removerId == p.userId ==> r != Err(PermissionDenied))
      && (removerId == owner || removerId == p.userId ==> (r.Ok? <==> old(db.IsUserInChatRoom(p.roomId, p.userId))))
      && (r.Ok? ==>
            && db.participants == Filter(old(db.participants), NotOfUser(p.userId))
            && (forall rid :: !db.IsUserInChatRoom(rid, p.userId))
            && (p.userId != owner ==> db.GetGroupOwnerById(p.roomId) == Ok(owner))
            && (p.userId == owner ==> !db.GetGroupOwnerById(p.roomId).Ok?))
  {
    if !db.IsGroupChat(p.roomId) {
      return Err(NotFound);
    }
    var owner := db.GetGroupOwnerById(p.roomId);
    if !owner.Ok? {
      return Err(NotFound);
    }
    if removerId != owner.value && removerId != p.userId {
      return Err(PermissionDenied);
    }
    var present := Filter(db.participants, MemberOf(p.roomId, p.userId));
    if |present| != 1 {
      return Err(NotFound);
    }
    ghost var ps0 := db.participants;
    assert Participant(p.roomId, owner.value, true) in ps0;
    db.KeepParticipants(NotOfUser(p.userId));
    RemovedUser(db, ps0, p.roomId, owner.value, p.userId);
    r := Ok(true);
  }

  /** After every row of `uid` is deleted, `uid` is in no room, and the
      group keeps its owner exactly when `uid` was not the owner. */
  lemma RemovedUser(db: Db, ps0: seq<Participant>, g: int, owner: int, uid: int)
    requires db.participants == Filter(ps0, NotOfUser(uid))
    requires db.IsGroupChat(g)
    requires |Filter(ps0, AdminOf(g))| == 1 && Participant(g, owner, true) in ps0
    requires forall x :: x in ps0 && x.roomId == g && x.isAdmin ==> x.userId == owner
    ensures forall rid :: !db.IsUserInChatRoom(rid, uid)
    ensures uid != owner ==> db.GetGroupOwnerById(g) == Ok(owner)
    ensures uid == owner ==> !db.GetGroupOwnerById(g).Ok?
  {
    forall rid ensures !db.IsUserInChatRoom(rid, uid) {
      assert Filter(db.participants, MemberOf(rid, uid)) == [];
    }
    if uid != owner {
      var both := (x: Participant) => x.userId != uid && x.roomId == g && x.isAdmin;
      FilterCompose(ps0, NotOfUser(uid), AdminOf(g), both);
      FilterMonotone(ps0, both, AdminOf(g));
      assert Participant(g, owner, true) in Filter(ps0, both);
    }
  }
}
