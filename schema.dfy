/** Record shapes of the six tables (schema.rs, db_models.rs).

    Serial keys that no operation of the core reads (`participant_id`,
    `user_profile_id`) and the key material columns are not part of the
    records. */
module Schema {
  import opened Outcomes

  /** A row of `users` (`QUsers`). */
  datatype User = User(id: int, username: string, email: string, password: string)

  /** The insertable part of a user row (`Users`). */
  datatype Credentials = Credentials(username: string, email: string, password: string)

  /** A row of `user_profiles` (`UserProfiles`). */
  datatype Profile = Profile(userId: int, bio: Option<string>, picture: Option<string>)

  /** A row of `chat_rooms` (`QChatRooms`). */
  datatype Room = Room(id: int, name: string, description: string)

  /** The insertable and updatable part of a room row (`ChatRooms`). */
  datatype RoomInfo = RoomInfo(name: string, description: string)

  /** A row of `chat_room_participants` (`ChatRoomParticipants`). */
  datatype Participant = Participant(roomId: int, userId: int, isAdmin: bool)

  /** The insertable part of a wallet row (`SolanaWallet`, `TronWallet`). */
  datatype WalletInfo = WalletInfo(userId: int, address: string)

  /** A row of `solana_wallets` or `tron_wallets` (`QSolanaWallet`, `QTronWallet`). */
  datatype Wallet = Wallet(id: int, userId: int, address: string)

  /** The description that marks a room as peer-to-peer; every other
      description marks a group room. */
  const PrivateRoom: string := "private room"

  /** The name given to every p2p room.  The source hashes the unit value
      returned by `push_str`, so the name does not depend on the clock; its
      digits are not modelled. */
  const P2PRoomName: string := "hashed p2p room name"

  predicate IsP2P(r: Room) {
    r.description == PrivateRoom
  }
}
