# chatuza membership engine, modelled in Dafny

chatuza is a chat server backed by Postgres through Diesel. This project models two parts of it:

- The membership engine in `src/lib.rs`: user accounts and profiles; p2p and group chat rooms and their participant rows; the owner and room-type lookups; the `delete_user` teardown that cascades through all of them.
- The per-user Solana wallet table in `src/wallet_lib.rs`.

The database is the class `Store.Db`:

- It holds one `seq` of rows per table: `users`, `user_profiles`, `chat_rooms`, `chat_room_participants`, `solana_wallets` and `tron_wallets`.
- It holds one serial counter per generated key.
- `Db.Valid()` says that generated keys lie below their counters, and that the references declared in `src/schema.rs` (participants to rooms and users, profiles to users) point at existing rows. `src/schema.rs` only declares these references with `joinable!`; their ON DELETE behaviour lives in migrations that are not part of this model. The model chooses to enforce them as restricting foreign keys: an insert naming a missing row, or a delete of a row still referenced, fails with the error kind `Other`. Every delete the modelled operations issue comes after the rows referencing it are gone, so this choice does not decide any of their outcomes.

Every library function returns an `Outcome`:

- `Ok(value)`;
- `Err(kind)`, where the kind is `NotFound`, `AlreadyExists`, `PermissionDenied` or `Other`, with the message dropped;
- `Panic`, for an `.unwrap()` on an error and for an index out of bounds.

The getters are functions over the tables. A lookup of one row succeeds only when exactly one row matches; a list query succeeds when its result is non-empty; the boolean checks say whether such a lookup succeeds. The setters are methods that change the tables through one write primitive per SQL statement, so a multi-step operation whose later step fails keeps its earlier writes, as the code does.

Modules, in dependency order:

| file | module | contents |
|---|---|---|
| outcomes.dfy | `Outcomes` | `Outcome`, `ErrorKind`, `Option` |
| tables.dfy | `Tables` | `Filter` (the `WHERE` clause) and its algebra |
| schema.dfy | `Schema` | the row types and the p2p sentinel `"private room"` |
| store.dfy | `Store` | `Db`, the write primitives, every getter of `lib.rs`, lemmas about the queries |
| wallets.dfy | `Wallets` | the three Solana wallet functions and the Tron wallet delete |
| rooms.dfy | `Rooms` | p2p and group room creation, update and deletion; participant add and remove |
| accounts.dfy | `Accounts` | `add_new_user`, `update_user_credits`, `update_user_profile`, `delete_user` |

The model follows what the code does, including where that differs from what the function names suggest:

- A participant delete filters on `user_id` alone, so it removes the user from every room (`src/lib.rs:508`, `src/lib.rs:890`).
- The pair lookup never looks at the room type (`src/lib.rs:1155-1203`).
- `get_user_p2p_chat_rooms_by_user_id` compares a column with itself, so its result does not depend on its argument (`src/lib.rs:1112`). Because of this, `delete_user` visits every p2p room once per member row.
- `add_participant_to_group_chat_room` stores the caller's `is_admin` flag as given.

Two consequences are proved about `Accounts.DeleteUser`:

- It panics whenever any p2p room holds a row. After the first pass over a room deletes it, its later occurrences in the list fail their `unwrap`. The proof works by counting: each pass strictly shrinks the count of rows of the room it visits. This is the `r == Panic` clause of `Accounts.DeleteUser` and the `Ok` iff clause of `Accounts.PurgeP2PRooms`.
- Its success is decided exactly, on the tables it starts from: the name resolves, no p2p room holds a row, and the group loop gets through its list (`Accounts.GroupsLeavable`). On success the owned groups are deleted with all their rows, every row of the user is gone, and no other row is touched.

## Model

| member | source | states |
|---|---|---|
| Store.Db.GetUserWithUsername | src/lib.rs:240-262 | Ok exactly when one user row has the name. The value is that row and is the only row with the name. Otherwise NotFound. |
| Store.Db.GetUserWithEmail | src/lib.rs:264-287 | Ok exactly when one user row has the email, and the value is that row. Otherwise NotFound. |
| Store.Db.GetUserWithUserId | src/lib.rs:289-312 | Ok exactly when one user row has the id, and the value is that row. Otherwise NotFound. |
| Store.Db.GetUserProfileWithUserId | src/lib.rs:314-336 | Ok exactly when one profile row names the user. The value is a profile of that user taken from the table. |
| Store.Db.GetUserProfileWithUsername | src/lib.rs:338-371 | Ok only when the username resolves. It then agrees with the lookup by that user's id. Otherwise NotFound. |
| Store.Db.IsValidUser | src/lib.rs:1071-1083 | True exactly when the lookup by user id succeeds. |
| Store.Db.GetGroupChatByName | src/lib.rs:992-1015 | Ok exactly when one room has the name. The value is that room and is unique. |
| Store.Db.GetGroupChatById | src/lib.rs:1017-1040 | Ok exactly when one room has the id. The value is that room and is unique. |
| Store.Db.IsValidChatroom | src/lib.rs:1057-1069 | True exactly when the lookup by room id succeeds. |
| Store.Db.IsGroupChat | src/lib.rs:1041-1055 | True exactly when one room has the id and its description is not `"private room"`. |
| Store.Db.IsUserInChatRoom | src/lib.rs:1085-1101 | True exactly when one row pairs the room with the user. |
| Store.Db.GetChatRoomParticipantsById | src/lib.rs:904-924 | Ok exactly when the room has a participant row. The value is all of that room's rows, in table order. |
| Store.Db.GetChatRoomParticipantsByName | src/lib.rs:926-958 | Ok only when the name resolves to one room. It then equals the lookup by that room's id. |
| Store.Db.GetGroupOwnerById | src/lib.rs:960-990 | Ok exactly when the room is a group with exactly one admin row. The value is that row's user, and every admin row of the room names it. |
| Store.Db.GetUserP2PChatRoomsByUserId | src/lib.rs:1103-1127 | Ok exactly when the join of p2p rooms with all participant rows is non-empty. The value is that join, and the user id plays no part. |
| Store.Db.GetUserGroupChatRoomsByUserId | src/lib.rs:1129-1153 | Ok exactly when the user has a row in some group room. The value lists each such room once per row of the user. |
| Store.Db.GetTwoUsersP2PChatRoom | src/lib.rs:1155-1203 | Ok only when both users exist and the found room holds exactly two rows naming either user. Every such counted row is in the found room. Two qualifying rooms give NotFound. Conversely, when both users exist, exactly two qualifying rows are left after grouping, and their room resolves by key, the result is Ok. |
| Store.PairGroupsOne | src/lib.rs:1175-1188 | Exactly two qualifying rows is the same as exactly one qualifying room (the `having count = 2` groups). |
| Store.PairLookupSymmetric | src/lib.rs:1155-1203 | The pair lookup gives the same result with the two users swapped. |
| Store.P2PJoinCovers | src/lib.rs:1103-1127 | A p2p room appears in the p2p room list at least as often as it has participant rows. |
| Store.P2PRoomsIgnoreUser | src/lib.rs:1103-1127 | The p2p room list is the same for any two user ids, and it holds every p2p room with a row. |
| Store.PairRoomHasRows | src/lib.rs:494-504 | The room the pair lookup finds has participant rows, so the participants fetch after it cannot fail. |
| Wallets.GetUserSolanaWallet | src/wallet_lib.rs:95-113 | Ok exactly when the user has one Solana row. The value is that row and is the user's only row. Otherwise NotFound. |
| Wallets.InitializeNewSolanaWallet | src/wallet_lib.rs:23-61 | AlreadyExists when the user has exactly one wallet. Then NotFound when the user id is unknown, checked second. Both leave the tables unchanged. Otherwise the wallet with the next key is appended and returned, and becomes the lookup result when it was the user's first. At most one row per user is preserved. |
| Wallets.AppendWallet | src/wallet_lib.rs:43-48 | Appending a wallet adds exactly that row to its user's wallets and keeps keys below the counter. |
| Wallets.DeleteSolanaWallet | src/wallet_lib.rs:63-93 | NotFound for an unknown username, with the table unchanged. Otherwise exactly the user's rows are removed, nothing else changes, and the wallet lookup then fails. |
| Wallets.DeleteTronWallet | src/lib.rs:219-221 | The same contract on the Tron table, resolving the username first. |
| Rooms.AddNewP2PChatRoom | src/lib.rs:375-455 | AlreadyExists exactly when the pair lookup succeeds, with the tables unchanged. Otherwise one `"private room"` room is appended with the next key. Then comes the requestor row (Other if the requestor is unknown), then the acceptor row (NotFound if the acceptor is unknown), keeping the partial writes. Ok exactly when both users exist, and the room's rows are then the two non-admin rows in order. |
| Rooms.AddPairMembers | src/lib.rs:413-445 | The two participant inserts: their error kinds, the partial write after the first, and the room's rows on success. |
| Rooms.PairCountAfter | src/lib.rs:414-436 | Adding the two rows of a fresh room gives it a pair count of two and leaves every other room's count unchanged. |
| Rooms.PairAfterNewRoom | src/lib.rs:1175-1188 | When the users shared no qualifying room, the new room's two rows are exactly the qualifying rows afterwards. |
| Rooms.PairLookupAfterCreate | src/lib.rs:383-445 | After a creation that saw no qualifying room, the pair lookup returns the new room. |
| Rooms.PairRoomOf | src/lib.rs:462-492 | Ok exactly when both usernames resolve and the pair lookup on their ids succeeds, and it is then that lookup. Otherwise NotFound. |
| Rooms.DeleteP2PChatRoom | src/lib.rs:457-531 | NotFound exactly when a username or the pair lookup fails, with the tables unchanged. Otherwise: every row of every user who had a row in the shared room is deleted, in every room; the room row is deleted; and the room is left with no rows. |
| Rooms.DeleteRoomWithMembers | src/lib.rs:494-530 | Given a room with rows, it deletes all rows of the room's users and then the room. |
| Rooms.RemoveUsersOf | src/lib.rs:506-517 | The loop deletes, user by user, all rows of each listed participant's user. |
| Rooms.RemoveNextUser | src/lib.rs:507-509 | Deleting one more user's rows equals deleting the rows of the enlarged user set. |
| Rooms.MemberRows | src/lib.rs:582-602 | Defined exactly when every listed name resolves. Each row it builds is a non-admin row of the new room for an existing user other than the owner. |
| Rooms.MemberRowsCover | src/lib.rs:595-601 | Every existing listed user other than the owner gets a row. |
| Rooms.ResolveMembers | src/lib.rs:584-602 | The member loop yields exactly `MemberRows`. |
| Rooms.NewGroupOwner | src/lib.rs:565-580 | After the owner's admin row and non-admin member rows, the owner lookup of the new group returns the owner. |
| Rooms.AddNewGroupChatRoom | src/lib.rs:533-615 | NotFound for an unknown owner, with the tables unchanged. Otherwise the room and the owner's admin row are written first. Then NotFound when a listed member does not resolve, and Other when the batch is empty and the store refuses it. On success the rows are the owner's admin row followed by the resolved members, and the owner lookup returns the owner. |
| Rooms.WithInfo | src/lib.rs:665-669 | The update sets the name and description of every row with the room's key, and changes no other row and no key. |
| Rooms.WithInfoKeys | src/lib.rs:665-669 | The update keeps the set of room keys and the counter bound. |
| Rooms.RenamedRoomFound | src/lib.rs:673 | The room found by the new name after the update is the updated room. |
| Rooms.UpdateGroupChatRoomInfo | src/lib.rs:616-681 | NotFound, with nothing changed, when the room name, the editor or the owner lookup fails. PermissionDenied, with nothing changed, when the editor is not the owner. Otherwise the room's rows get the new info. The result is Ok exactly when the new name then resolves, and is the updated room. A non-unique new name panics. |
| Rooms.DeleteGroupChatRoom | src/lib.rs:683-753 | NotFound exactly when the remover, room or owner lookup fails. PermissionDenied exactly when all three succeed and the remover is not the owner. Both leave the tables unchanged, so the owner removing the group always succeeds. On success exactly the room's rows and the room are deleted, and the room no longer resolves. |
| Rooms.RemoveRoom | src/lib.rs:730-750 | Deletes exactly the rows of the room and then the room. |
| Rooms.AddParticipantToGroupChatRoom | src/lib.rs:755-833 | NotFound when the adder or the owner lookup fails. PermissionDenied when the adder is not the owner. AlreadyExists exactly when a (room, user) row exists. Other exactly when the user is unknown. Every failure leaves the tables unchanged. When the owner adds a known user with no row in the room, the result is Ok with the row. On success the given row is appended verbatim and the user is in the room. A non-admin row keeps the owner, and an admin row leaves the group without a unique owner. |
| Rooms.AddedRow | src/lib.rs:819-825 | The appended row makes the user a member and decides the owner as above. |
| Rooms.DelParticipantFromGroupChatRoom | src/lib.rs:835-902 | NotFound when the room is not a group with an owner. PermissionDenied exactly when the remover is neither the owner nor the user. For an authorised remover, Ok exactly when the user has exactly one row in the room. On success every row of the user, in every room, is deleted, the user is in no room, and the owner survives exactly when it was not the removed user. |
| Rooms.RemovedUser | src/lib.rs:888-894 | After deleting all rows of a user, that user is in no room and the owner lookup survives exactly when the owner was someone else. |
| Accounts.AddNewUser | src/lib.rs:37-83 | The user row is always appended. Ok exactly when no user had the name before, and otherwise NotFound with the profiles unchanged. On success the name and the id both resolve to the new user, and the new profile is that user's only profile. |
| Accounts.NewUserRows | src/lib.rs:43-66 | The new row is the only one with its key, it adds one row with its name, and no profile names it yet. |
| Accounts.NewProfileRow | src/lib.rs:69-75 | The inserted profile becomes the user's only profile. |
| Accounts.WithCredentials | src/lib.rs:101-106 | The update sets name, email and password on the rows with the user's key, and changes no other row and no key. |
| Accounts.UpdatedUserFound | src/lib.rs:110 | The user found by the new name after the update is the updated user. |
| Accounts.UpdateUserCredits | src/lib.rs:85-118 | NotFound exactly when the old name does not resolve, with the tables unchanged. Otherwise the user's rows take the new credentials. The result is Ok exactly when the new name resolves, and is the updated user. Otherwise it panics. |
| Accounts.WithProfile | src/lib.rs:128-132 | The update sets bio and picture on the user's profile rows and changes no other row. |
| Accounts.WithProfileRows | src/lib.rs:128-136 | The update keeps the number of the user's profile rows, makes each of them the new profile, and keeps the reference constraint. |
| Accounts.UpdateUserProfile | src/lib.rs:120-144 | It panics, with nothing changed, when the name does not resolve. Other exactly when the user has no profile. Otherwise the user's profile rows are updated. The result is Ok exactly when there was one row, and the lookup by name then returns the updated profile. |
| Accounts.RoomShrinks | src/lib.rs:507-509 | Deleting the rows of a set of users never grows a room's row count, and strictly shrinks it when one of its rows names a deleted user. |
| Accounts.DeleteP2PRoomOf | src/lib.rs:162-174 | One pass of the p2p loop succeeds exactly when the room has at least two rows, the users of its first two rows resolve, and those two users share a p2p room; otherwise it panics. On success that shared room is deleted together with every row of every user in it (the tables `delete_p2p_chat_room` leaves), no room's row count grows, and the visited room's count strictly shrinks. |
| Accounts.PurgeP2PRooms | src/lib.rs:160-175 | The p2p phase of `delete_user` succeeds, with nothing changed, exactly when no p2p room has a row, and panics otherwise. |
| Accounts.LeaveGroup | src/lib.rs:177-194 | One pass of the group loop gets through exactly when the group could be left on the tables it sees (`Leavable`): the owner lookup succeeds; an owned group's name lookup gives back that group; otherwise the user has exactly one row in it. It panics with nothing changed otherwise. An owned group is deleted with its rows. From another group the owner removes the user, which deletes every row of the user and no room. |
| Accounts.DeleteOwnGroup | src/lib.rs:179-181 | The owner's branch gets through exactly when the name lookup gives back this very group. It then deletes the group and its rows. Otherwise it panics with nothing changed. |
| Accounts.GroupsLeavableSnoc | src/lib.rs:177-195 | The loop gets through one group more exactly when: it got through the groups before; that group can be left on the first tables; its key is new; and the group before it was owned. |
| Accounts.GroupsLeavablePrefix | src/lib.rs:177-195 | A loop that gets through a list gets through each of its prefixes, so an early failure means the whole list fails. |
| Accounts.GroupsLeavableEach | src/lib.rs:177-195 | Every group of a list the loop gets through can be left on the first tables, and when the last one is owned, all are owned. |
| Accounts.OwnedAmongHas | src/lib.rs:178-180 | A key is among the owned keys of a list exactly when a listed group the user owns has it. |
| Accounts.NameNotOwned | src/lib.rs:179-181 | A room named like a group that is still there was not deleted by an earlier pass. |
| Accounts.OwnerUnaffected | src/lib.rs:178 | Deleting the rooms and rows of other groups changes neither a group's owner lookup nor the user's rows in it. |
| Accounts.PassUnchanged | src/lib.rs:178-193 | Before a pass over a group still present, while the user keeps their rows, the owner, name and membership lookups see what they saw on the first tables. |
| Accounts.PassDecides | src/lib.rs:177-194 | Before a pass, the group is present or its key is gone. The pass gets through exactly when the loop gets through the list up to that group, and it then sees the group's first owner. |
| Accounts.PassEffect | src/lib.rs:177-194 | A pass that gets through over an owned group deletes it and its rows. Over another group it deletes every row of the user. |
| Accounts.PassStep | src/lib.rs:177-195 | One pass keeps the loop's account of the tables. It fails only when the loop cannot get through the whole list. |
| Accounts.LeaveGroups | src/lib.rs:177-195 | The loop gets through exactly when `GroupsLeavable` holds on the tables it starts from. It then leaves the owned listed groups deleted with their rows. When the last listed group was not owned, every row of the user is gone as well. Rows are only ever deleted. |
| Accounts.OwnedListed | src/lib.rs:1129-1153 | The owned groups in the user's group list are all the groups the user owns. |
| Accounts.RowListed | src/lib.rs:1129-1153 | With no p2p room holding rows, every row of the user lies in a room of the user's group list. |
| Accounts.ListedOwned | src/lib.rs:177-195 | When the loop gets through the list and its last group is owned, every listed group is owned. |
| Accounts.GroupsDone | src/lib.rs:176-196 | With no p2p rows, a loop that gets through the user's group list leaves exactly the rooms the user does not own. It also leaves exactly the rows that neither name the user nor lie in an owned group. |
| Accounts.OrderMatters | src/lib.rs:1129-1153 | The loop's outcome depends on list order: an owned group then another gets through, while the reverse order fails. |
| Accounts.PurgeGroups | src/lib.rs:176-196 | The group phase gets through exactly when the loop gets through the user's group list on the starting tables. It then deletes exactly the groups the user owns and, of the rows, exactly those naming the user or lying in those groups. |
| Accounts.AsU32 | src/lib.rs:219-223 | The `as u32` cast gives a value below 2^32 and leaves smaller counts unchanged. |
| Accounts.DeleteUserRows | src/lib.rs:198-235 | It deletes the user's profiles, then the Tron rows and the Solana rows exactly when the count cast to u32 is one, then the user row. The user then no longer resolves by id or by name. |
| Accounts.DeleteUser | src/lib.rs:146-235 | NotFound exactly when the name does not resolve, with nothing changed. For a resolving name, it succeeds exactly when no p2p room has a row and the group loop gets through the user's group list, and panics otherwise. On success: the user's row and profiles are deleted; exactly the groups the user owned are deleted; the participant rows left are exactly the old ones neither naming the user nor in an owned group; and the wallets are deleted exactly when the u32 count is one. |

## Left out

- `establish_connection`, `create_token_account` and `activate_wallet_account_for_transfer` are left out. They are connection plumbing and Solana RPC, key-file and signing calls. `src/bin/main.rs` and `src/api_models.rs` (HTTP routing and forms) are not part of this model.
- Storage and connection failures are left out. The only failures of a write are the reference constraints of `src/schema.rs:64-66`, and a failed load is the empty result, as `unwrap_or(vec![])` reads it.
- No unique constraint is modelled on usernames, emails, room names or wallet owners. `src/schema.rs` does not show one, and the migrations are not part of this model, so the model admits duplicates. Duplicates make the exactly-one lookups fail, and the contracts say what happens then.
- The inserts into `chat_room_participants`, `solana_wallets` and `tron_wallets` do not supply `room_pub_key` or `wallet_backup`. These columns are `Bytea` without `Nullable` (`src/schema.rs:9`, `src/schema.rs:27`, `src/schema.rs:36`). The model assumes those inserts succeed whenever the references hold.
- The `chat_room_pubkey` argument is dropped, because it is not a column of `chat_rooms` in the schema.
- The hashed p2p room name is a fixed constant, because `push_str` returns the unit value and the hash does not depend on the clock.
- The surrogate keys `participant_id` and `user_profile_id` are not represented. Rows are compared by value.
- The 32-bit width of the serial keys is not modelled. Keys are unbounded integers.
- The pair lookup is read as one result row per group of the `GROUP BY chat_room_id ... HAVING count(user_id) = 2` query. Postgres would refuse the ungrouped columns. The model keeps the grouping the query spells out.
- Rooms.AddNewGroupChatRoom: whether an insert of an empty member batch succeeds is a parameter, `emptyBatchAccepted`, because the code leaves it to Diesel.
- Wallets.DeleteTronWallet: `delete_tron_wallet` is imported by `src/lib.rs:22` but not defined in `src/wallet_lib.rs`, so it is modelled on `delete_solana_wallet`.
- Accounts.DeleteUser: after a `Panic` the contract only keeps `Db.Valid()` and, in the group phase, that rows are only deleted. It does not describe how far the partial writes went.
- The group list and the p2p list are joins without `ORDER BY` (`src/lib.rs:1103-1153`). The model returns them in participant-table order, which Postgres does not promise. The outcome of `delete_user` depends on that order (`Accounts.OrderMatters`): only the last listed group may be one the user does not own. Another order of the same rows can turn a success into a panic, or the reverse. The model fixes one order rather than making it a parameter.
- Transactions and concurrency are not modelled: the code uses none, and each write is one step.
