/**
 The nickname registry shared by both server variants: the set of claimed
 nicknames and the user table it guards. A join claims a nickname only when
 it is not claimed yet; a disconnect releases the nickname of the user that
 leaves.
 */
module NicknameRegistry {
  import opened Protocol

  /** No two joined connections share a nickname. */
  ghost predicate UniqueNicknames(users: map<ConnId, User>)
  {
    forall a, b :: a in users && b in users && users[a].nickname == users[b].nickname ==> a == b
  }

  /** The nickname of every joined connection is claimed. */
  ghost predicate NicknamesClaimed(users: map<ConnId, User>, claimed: set<string>)
  {
    forall a :: a in users ==> users[a].nickname in claimed
  }

  ghost predicate Registered(users: map<ConnId, User>, claimed: set<string>)
  {
    UniqueNicknames(users) && NicknamesClaimed(users, claimed)
  }

  /**
   Claiming a nickname nobody holds and recording the user under it keeps
   nicknames unique, also when the connection had joined before: its old
   entry is replaced.
   */
  lemma ClaimKeepsRegistered(users: map<ConnId, User>, claimed: set<string>, id: ConnId, nickname: string, room: string)
    requires Registered(users, claimed)
    requires nickname !in claimed
    ensures Registered(users[id := User(nickname, room)], claimed + {nickname})
  {
  }

  /** Releasing the nickname of a user that leaves keeps the others claimed. */
  lemma ReleaseKeepsRegistered(users: map<ConnId, User>, claimed: set<string>, id: ConnId)
    requires Registered(users, claimed)
    requires id in users
    ensures Registered(users - {id}, claimed - {users[id].nickname})
  {
    var gone := users[id].nickname;
    forall a | a in users - {id} ensures users[a].nickname != gone {
      assert a != id;
    }
  }

  /** Moving a user to another room leaves nicknames untouched. */
  lemma MoveKeepsRegistered(users: map<ConnId, User>, claimed: set<string>, id: ConnId, room: string)
    requires Registered(users, claimed)
    requires id in users
    ensures Registered(users[id := users[id].(room := room)], claimed)
  {
  }
}
