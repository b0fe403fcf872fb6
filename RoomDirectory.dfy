/**
 The room directory shared by both server variants: the ordered list of room
 names, the per-room user counts broadcast as the room list, and the pass
 that deletes rooms nobody is in.

 The transport's live group sizes are represented by the set of rooms that
 have at least one member (`inUse`); the servers derive it from their user
 table.
 */
module RoomDirectory {
  import opened Protocol

  /** No element occurs twice. */
  ghost predicate NoDup<T(!new)>(s: seq<T>)
  {
    forall x :: multiset(s)[x] <= 1
  }

  /** `Array.prototype.indexOf`: the first position of `x`, or -1. */
  function IndexOf<T(==)>(s: seq<T>, x: T): (k: int)
    ensures -1 <= k < |s|
    ensures k >= 0 ==> s[k] == x && forall j :: 0 <= j < k ==> s[j] != x
    ensures k == -1 ==> x !in s
  {
    if s == [] then -1
    else if s[0] == x then 0
    else
      var k := IndexOf(s[1..], x);
      if k == -1 then -1 else k + 1
  }

  /** `splice(k, 1)`: the sequence without its element at `k`. */
  function RemoveAt<T>(s: seq<T>, k: nat): (r: seq<T>)
    requires k < |s|
    ensures |r| == |s| - 1
    ensures forall j :: 0 <= j < k ==> r[j] == s[j]
    ensures forall j :: k <= j < |r| ==> r[j] == s[j + 1]
    ensures multiset(r) + multiset{s[k]} == multiset(s)
  {
    assert s == s[..k] + [s[k]] + s[k + 1..];
    s[..k] + s[k + 1..]
  }

  /** The connections whose user is in `room`. */
  ghost function Occupants(users: map<ConnId, User>, room: string): set<ConnId>
  {
    set id | id in users && users[id].room == room
  }

  /** The number of users in `room`. */
  ghost function Occupancy(users: map<ConnId, User>, room: string): nat
  {
    |Occupants(users, room)|
  }

  /** The rooms with at least one member. */
  function RoomsInUse(users: map<ConnId, User>): (inUse: set<string>)
    ensures forall id :: id in users ==> users[id].room in inUse
  {
    set id | id in users :: users[id].room
  }

  /** A room is in use exactly when some user is in it. */
  lemma InUseIffOccupied(users: map<ConnId, User>)
    ensures forall room :: room in RoomsInUse(users) <==> Occupants(users, room) != {}
  {
    forall room | room in RoomsInUse(users) ensures Occupants(users, room) != {} {
      var id :| id in users && users[id].room == room;
      assert id in Occupants(users, room);
    }
    forall room | Occupants(users, room) != {} ensures room in RoomsInUse(users) {
      var id :| id in Occupants(users, room);
    }
  }

  /** Among `ids`, the connections whose user is in `room`. */
  ghost function OccupantsAmong(users: map<ConnId, User>, ids: set<ConnId>, room: string): set<ConnId>
  {
    set id | id in ids && id in users && users[id].room == room
  }

  /** `roomCounts[room] || 0`: the count recorded for `room`, 0 when there is none. */
  function CountOf(roomCounts: map<string, nat>, room: string): (n: nat)
    ensures room in roomCounts ==> n == roomCounts[room]
    ensures n > 0 ==> room in roomCounts
  {
    if room in roomCounts then roomCounts[room] else 0
  }

  lemma CountStep(users: map<ConnId, User>, seen: set<ConnId>, id: ConnId, room: string)
    requires id in users && id !in seen
    ensures |OccupantsAmong(users, seen + {id}, room)|
         == |OccupantsAmong(users, seen, room)| + (if users[id].room == room then 1 else 0)
  {
    var before, after := OccupantsAmong(users, seen, room), OccupantsAmong(users, seen + {id}, room);
    if users[id].room == room {
      assert after == before + {id};
    } else {
      assert after == before;
    }
  }

  lemma AmongAll(users: map<ConnId, User>, room: string)
    ensures OccupantsAmong(users, users.Keys, room) == Occupants(users, room)
  {
  }

  /**
   The room list: one entry per room of `rooms`, in the same order, with the
   number of users in it (0 for a room nobody is in).
   */
  method GetRoomsWithCounts(rooms: seq<string>, users: map<ConnId, User>) returns (list: seq<RoomCount>)
    ensures list == RoomsWithCounts(rooms, users)
  {
    var roomCounts: map<string, nat> := map[];
    var pending := users.Keys;
    ghost var seen: set<ConnId> := {};
    while pending != {}
      invariant pending + seen == users.Keys && pending !! seen
      invariant forall room :: CountOf(roomCounts, room) == |OccupantsAmong(users, seen, room)|
      decreases pending
    {
      var id :| id in pending;
      var room := users[id].room;
      roomCounts := roomCounts[room := CountOf(roomCounts, room) + 1];
      forall r ensures CountOf(roomCounts, r) == |OccupantsAmong(users, seen + {id}, r)| {
        CountStep(users, seen, id, r);
      }
      pending, seen := pending - {id}, seen + {id};
    }
    list := [];
    for i := 0 to |rooms|
      invariant |list| == i
      invariant forall j :: 0 <= j < i ==> list[j] == RoomCount(rooms[j], Occupancy(users, rooms[j]))
    {
      AmongAll(users, rooms[i]);
      list := list + [RoomCount(rooms[i], CountOf(roomCounts, rooms[i]))];
    }
    assert list == RoomsWithCounts(rooms, users);
  }

  /** The room list as it should be: each room with the number of users in it. */
  ghost function RoomsWithCounts(rooms: seq<string>, users: map<ConnId, User>): (list: seq<RoomCount>)
    ensures |list| == |rooms|
    ensures forall i :: 0 <= i < |rooms| ==> list[i] == RoomCount(rooms[i], Occupancy(users, rooms[i]))
  {
    seq(|rooms|, i requires 0 <= i < |rooms| => RoomCount(rooms[i], Occupancy(users, rooms[i])))
  }

  /** The sum of the counts of a room list. */
  function TotalCount(list: seq<RoomCount>): nat
  {
    if list == [] then 0 else list[0].count + TotalCount(list[1..])
  }

  /** The connections whose user is in one of `rooms`. */
  ghost function UsersIn(users: map<ConnId, User>, rooms: seq<string>): set<ConnId>
  {
    set id | id in users && users[id].room in rooms
  }

  /** Dropping the head of a duplicate-free sequence leaves it duplicate-free, without the head. */
  lemma NoDupTail<T(!new)>(s: seq<T>)
    requires NoDup(s) && s != []
    ensures NoDup(s[1..]) && s[0] !in s[1..]
  {
    assert s == [s[0]] + s[1..];
    assert multiset(s) == multiset{s[0]} + multiset(s[1..]);
    assert multiset(s)[s[0]] == 1 + multiset(s[1..])[s[0]];
    forall x ensures multiset(s[1..])[x] <= 1 {
      assert multiset(s[1..])[x] <= multiset(s)[x];
    }
  }

  /** Two positions of a duplicate-free sequence hold different elements. */
  lemma NoDupDistinct<T(!new)>(s: seq<T>, i: nat, j: nat)
    requires NoDup(s) && i < j < |s|
    ensures s[i] != s[j]
  {
    assert s == s[..j] + [s[j]] + s[j + 1..];
    assert s[..j][i] == s[i];
    assert multiset(s)[s[i]] == multiset(s[..j])[s[i]] + multiset([s[j]])[s[i]] + multiset(s[j + 1..])[s[i]];
  }

  lemma InMultiset<T>(s: seq<T>, x: T)
    ensures x in s <==> multiset(s)[x] > 0
  {
  }

  /** Removing an element keeps a sequence duplicate-free. */
  lemma RemoveAtNoDup<T(!new)>(s: seq<T>, k: nat)
    requires NoDup(s) && k < |s|
    ensures NoDup(RemoveAt(s, k))
  {
    forall x ensures multiset(RemoveAt(s, k))[x] <= 1 {
      assert multiset(RemoveAt(s, k))[x] <= multiset(s)[x];
    }
  }

  /** Appending a room that is not listed keeps the list duplicate-free. */
  lemma AppendKeepsNoDup(rooms: seq<string>, room: string)
    requires NoDup(rooms) && room !in rooms
    ensures NoDup(rooms + [room])
  {
    InMultiset(rooms, room);
    assert multiset(rooms + [room]) == multiset(rooms) + multiset{room};
  }

  /**
   The same property stated head first, one element at a time; the server's
   invariant uses this form, which the verifier unfolds only on demand.
   */
  ghost predicate Distinct<T>(s: seq<T>)
  {
    s == [] || (s[0] !in s[1..] && Distinct(s[1..]))
  }

  lemma {:induction false} DistinctIsNoDup<T(!new)>(s: seq<T>)
    ensures Distinct(s) <==> NoDup(s)
  {
    if s != [] {
      DistinctIsNoDup(s[1..]);
      if NoDup(s) {
        NoDupTail(s);
      }
      if Distinct(s) {
        assert s == [s[0]] + s[1..];
        assert multiset(s) == multiset{s[0]} + multiset(s[1..]);
        InMultiset(s[1..], s[0]);
      }
    }
  }

  /** Appending a room that is not listed keeps the list free of duplicates. */
  lemma AppendKeepsDistinct(rooms: seq<string>, room: string)
    requires Distinct(rooms) && room !in rooms
    ensures Distinct(rooms + [room])
  {
    DistinctIsNoDup(rooms);
    AppendKeepsNoDup(rooms, room);
    DistinctIsNoDup(rooms + [room]);
  }

  lemma {:induction false} TotalCountIsUsersIn(rooms: seq<string>, users: map<ConnId, User>, list: seq<RoomCount>)
    requires NoDup(rooms)
    requires |list| == |rooms|
    requires forall i :: 0 <= i < |rooms| ==> list[i] == RoomCount(rooms[i], Occupancy(users, rooms[i]))
    ensures TotalCount(list) == |UsersIn(users, rooms)|
  {
    if rooms == [] {
      assert UsersIn(users, rooms) == {};
    } else {
      var rest := rooms[1..];
      NoDupTail(rooms);
      TotalCountIsUsersIn(rest, users, list[1..]);
      assert UsersIn(users, rooms) == Occupants(users, rooms[0]) + UsersIn(users, rest);
      assert Occupants(users, rooms[0]) !! UsersIn(users, rest);
    }
  }

  /**
   When every user is in a listed room and no room is listed twice, the counts
   of the room list add up to the number of users: every user is counted once.
   */
  lemma RoomListCountsEveryUser(rooms: seq<string>, users: map<ConnId, User>, list: seq<RoomCount>)
    requires NoDup(rooms)
    requires forall id :: id in users ==> users[id].room in rooms
    requires |list| == |rooms|
    requires forall i :: 0 <= i < |rooms| ==> list[i] == RoomCount(rooms[i], Occupancy(users, rooms[i]))
    ensures TotalCount(list) == |users|
  {
    TotalCountIsUsersIn(rooms, users, list);
    assert UsersIn(users, rooms) == users.Keys;
  }

  /** Outcome of a deletion pass: the remaining rooms and, in order, the rooms deleted. */
  datatype Pruned = Pruned(rooms: seq<string>, dropped: seq<string>)

  /**
   The deletion pass from position `i` on, as the `for...of` loop runs it: the
   room at `i` is read, the position advances, and an empty room other than
   the default one is spliced out at its first occurrence. The element that
   moves into the freed slot is not looked at.
   */
  function PruneFrom(rooms: seq<string>, i: nat, inUse: set<string>, dropped: seq<string>): (p: Pruned)
    ensures |p.rooms| + |p.dropped| == |rooms| + |dropped|
    ensures |dropped| <= |p.dropped| && p.dropped[..|dropped|] == dropped
    decreases |rooms| - i
  {
    if i >= |rooms| then Pruned(rooms, dropped)
    else if rooms[i] != General && rooms[i] !in inUse then
      var index := IndexOf(rooms, rooms[i]);
      PruneFrom(if index > -1 then RemoveAt(rooms, index) else rooms, i + 1, inUse, dropped + [rooms[i]])
    else
      PruneFrom(rooms, i + 1, inUse, dropped)
  }

  /** One whole deletion pass over the room list. */
  function Prune(rooms: seq<string>, inUse: set<string>): (p: Pruned)
    ensures |p.rooms| + |p.dropped| == |rooms|
    ensures |rooms| > 0 && rooms[0] == General ==> |p.rooms| > 0 && p.rooms[0] == General
    ensures forall room :: room in p.dropped ==> room != General && room !in inUse
  {
    PruneFromDropsOnlyEmpty(rooms, 0, inUse, []);
    if |rooms| > 0 && rooms[0] == General then
      PruneFromKeepsHead(rooms, 0, inUse, []);
      PruneFrom(rooms, 0, inUse, [])
    else
      PruneFrom(rooms, 0, inUse, [])
  }

  /** `deleteEmptyRooms`: the deletion pass as a loop over the spliced list. */
  method DeleteEmptyRooms(rooms: seq<string>, inUse: set<string>) returns (kept: seq<string>, dropped: seq<string>)
    ensures Pruned(kept, dropped) == Prune(rooms, inUse)
  {
    kept, dropped := rooms, [];
    var i := 0;
    while i < |kept|
      invariant i <= |kept| + 1
      invariant PruneFrom(kept, i, inUse, dropped) == Prune(rooms, inUse)
      decreases |kept| + 1 - i
    {
      var room := kept[i];
      i := i + 1;
      if room != General {
        if room !in inUse {
          dropped := dropped + [room];
          var index := IndexOf(kept, room);
          if index > -1 {
            kept := RemoveAt(kept, index);
          }
        }
      }
    }
  }

  /** One step of the pass that splices out the room at `i`. */
  lemma PruneFromRemoves(rooms: seq<string>, i: nat, inUse: set<string>, dropped: seq<string>)
    requires i < |rooms| && rooms[i] != General && rooms[i] !in inUse
    ensures var index := IndexOf(rooms, rooms[i]);
      && 0 <= index <= i && rooms[index] == rooms[i]
      && PruneFrom(rooms, i, inUse, dropped) == PruneFrom(RemoveAt(rooms, index), i + 1, inUse, dropped + [rooms[i]])
  {
  }

  /** A pass only moves rooms from the list to the deleted ones. */
  lemma {:induction false} PruneFromConserves(rooms: seq<string>, i: nat, inUse: set<string>, dropped: seq<string>)
    ensures var p := PruneFrom(rooms, i, inUse, dropped);
      multiset(p.rooms) + multiset(p.dropped) == multiset(rooms) + multiset(dropped)
    decreases |rooms| - i
  {
    if i < |rooms| {
      if rooms[i] != General && rooms[i] !in inUse {
        PruneFromRemoves(rooms, i, inUse, dropped);
        var index := IndexOf(rooms, rooms[i]);
        PruneFromConserves(RemoveAt(rooms, index), i + 1, inUse, dropped + [rooms[i]]);
      } else {
        PruneFromConserves(rooms, i + 1, inUse, dropped);
      }
    }
  }

  /** Every room a pass deletes is empty and is not the default room. */
  lemma {:induction false} PruneFromDropsOnlyEmpty(rooms: seq<string>, i: nat, inUse: set<string>, dropped: seq<string>)
    ensures forall x :: x in PruneFrom(rooms, i, inUse, dropped).dropped ==>
      x in dropped || (x != General && x !in inUse)
    decreases |rooms| - i
  {
    if i < |rooms| {
      if rooms[i] != General && rooms[i] !in inUse {
        PruneFromRemoves(rooms, i, inUse, dropped);
        var index := IndexOf(rooms, rooms[i]);
        PruneFromDropsOnlyEmpty(RemoveAt(rooms, index), i + 1, inUse, dropped + [rooms[i]]);
      } else {
        PruneFromDropsOnlyEmpty(rooms, i + 1, inUse, dropped);
      }
    }
  }

  /**
   `deleteEmptyRooms` keeps the default room and every room with a member,
   keeps the list free of duplicates, and deletes a room only if it is empty;
   a room is deleted exactly when it leaves the list.
   */
  lemma PruneSound(rooms: seq<string>, inUse: set<string>)
    requires NoDup(rooms)
    ensures var p := Prune(rooms, inUse);
      && NoDup(p.rooms)
      && (forall x :: x in p.dropped ==> x in rooms && x != General && x !in inUse)
      && (forall x :: x in p.rooms <==> x in rooms && x !in p.dropped)
  {
    var p := Prune(rooms, inUse);
    PruneFromConserves(rooms, 0, inUse, []);
    PruneFromDropsOnlyEmpty(rooms, 0, inUse, []);
    var mr, md := multiset(p.rooms), multiset(p.dropped);
    assert mr + md == multiset(rooms) by {
      var none: seq<string> := [];
      assert multiset(none) == multiset{};
    }
    forall x ensures mr[x] + md[x] == multiset(rooms)[x] && mr[x] <= 1 {
      assert (mr + md)[x] == mr[x] + md[x];
    }
    forall x ensures (x in p.rooms <==> mr[x] > 0) && (x in p.dropped <==> md[x] > 0) && (x in rooms <==> multiset(rooms)[x] > 0) {
      InMultiset(p.rooms, x);
      InMultiset(p.dropped, x);
      InMultiset(rooms, x);
    }
  }

  /**
   With the default room at the head of the list, it stays there: a splice
   always hits a later position.
   */
  lemma {:induction false} PruneFromKeepsHead(rooms: seq<string>, i: nat, inUse: set<string>, dropped: seq<string>)
    requires |rooms| > 0 && rooms[0] == General
    ensures var p := PruneFrom(rooms, i, inUse, dropped); |p.rooms| > 0 && p.rooms[0] == General
    decreases |rooms| - i
  {
    if i < |rooms| {
      if rooms[i] != General && rooms[i] !in inUse {
        PruneFromRemoves(rooms, i, inUse, dropped);
        var index := IndexOf(rooms, rooms[i]);
        var rest := RemoveAt(rooms, index);
        assert index > 0 && rest[0] == rooms[..index][0];
        PruneFromKeepsHead(rest, i + 1, inUse, dropped + [rooms[i]]);
      } else {
        PruneFromKeepsHead(rooms, i + 1, inUse, dropped);
      }
    }
  }

  /** Every room of the list other than the default one has a member. */
  ghost predicate AllOccupied(rooms: seq<string>, inUse: set<string>)
  {
    forall k :: 0 <= k < |rooms| && rooms[k] != General ==> rooms[k] in inUse
  }

  /** The rooms before position `n` other than the default one have members. */
  ghost predicate OccupiedBelow(rooms: seq<string>, n: nat, inUse: set<string>)
  {
    forall k :: 0 <= k < n && k < |rooms| && rooms[k] != General ==> rooms[k] in inUse
  }

  lemma NoDupIndexOf<T(!new)>(s: seq<T>, k: nat)
    requires NoDup(s) && k < |s|
    ensures IndexOf(s, s[k]) == k
  {
    var j := IndexOf(s, s[k]);
    if j < k {
      NoDupDistinct(s, j, k);
    }
  }

  /** Splicing out the one empty room at `i` leaves every room up to `i` occupied, the next one included. */
  lemma SpliceSingle(rooms: seq<string>, i: nat, inUse: set<string>, empty: string)
    requires NoDup(rooms) && i < |rooms| && rooms[i] == empty
    requires OccupiedBelow(rooms, i, inUse)
    requires forall k :: i <= k < |rooms| && rooms[k] != General && rooms[k] !in inUse ==> rooms[k] == empty
    ensures var next := RemoveAt(rooms, i);
      && NoDup(next)
      && OccupiedBelow(next, i + 1, inUse)
      && forall k :: i + 1 <= k < |next| && next[k] != General && next[k] !in inUse ==> next[k] == empty
  {
    var next := RemoveAt(rooms, i);
    RemoveAtNoDup(rooms, i);
    assert forall k :: 0 <= k < i ==> next[k] == rooms[k];
    assert forall k :: i <= k < |next| ==> next[k] == rooms[k + 1];
    if i + 1 < |rooms| {
      NoDupDistinct(rooms, i, i + 1);
    }
  }

  lemma {:induction false} PruneFromClearsSingle(rooms: seq<string>, i: nat, inUse: set<string>, dropped: seq<string>, empty: string)
    requires NoDup(rooms)
    requires OccupiedBelow(rooms, i, inUse)
    requires forall k :: i <= k < |rooms| && rooms[k] != General && rooms[k] !in inUse ==> rooms[k] == empty
    ensures AllOccupied(PruneFrom(rooms, i, inUse, dropped).rooms, inUse)
    decreases |rooms| - i
  {
    if i >= |rooms| {
    } else if rooms[i] != General && rooms[i] !in inUse {
      NoDupIndexOf(rooms, i);
      PruneFromRemoves(rooms, i, inUse, dropped);
      SpliceSingle(rooms, i, inUse, empty);
      PruneFromClearsSingle(RemoveAt(rooms, i), i + 1, inUse, dropped + [rooms[i]], empty);
    } else {
      PruneFromClearsSingle(rooms, i + 1, inUse, dropped, empty);
    }
  }

  /**
   If at most one room of a duplicate-free list is empty (besides the default
   one), a single pass leaves no empty room. This is the case after one user
   leaves a list whose rooms all had members.
   */
  lemma PruneClearsSingleEmpty(rooms: seq<string>, inUse: set<string>, empty: string)
    requires NoDup(rooms)
    requires forall k :: 0 <= k < |rooms| && rooms[k] != General && rooms[k] !in inUse ==> rooms[k] == empty
    ensures AllOccupied(Prune(rooms, inUse).rooms, inUse)
  {
    PruneFromClearsSingle(rooms, 0, inUse, [], empty);
  }

  /**
   Two empty rooms side by side: the pass deletes the first and never looks
   at the second, which moved into the slot it had just read, so an empty
   room stays listed.
   */
  lemma PruneSkipsNeighbour()
    ensures Prune([General, "a", "b"], {}) == Pruned([General, "b"], ["a"])
    ensures !AllOccupied(Prune([General, "a", "b"], {}).rooms, {})
  {
    var s := [General, "a", "b"];
    assert PruneFrom(s, 0, {}, []) == PruneFrom(s, 1, {}, []);
    assert IndexOf(s, "a") == 1;
    assert RemoveAt(s, 1) == [General, "b"];
    assert PruneFrom(s, 1, {}, []) == PruneFrom([General, "b"], 2, {}, ["a"]);
    assert [General, "b"][1] == "b";
  }

  /** Every user's room is on the list. */
  ghost predicate Listed(users: map<ConnId, User>, rooms: seq<string>)
  {
    forall id :: id in users ==> users[id].room in rooms
  }

  /** A user joining, with its room appended when new, keeps every room listed. */
  lemma JoinKeepsListed(users: map<ConnId, User>, rooms: seq<string>, id: ConnId, user: User)
    requires Listed(users, rooms)
    ensures Listed(users[id := user], if user.room in rooms then rooms else rooms + [user.room])
  {
    var after := if user.room in rooms then rooms else rooms + [user.room];
    var joined := users[id := user];
    forall other | other in joined ensures joined[other].room in after {
      if other != id {
        assert users[other].room in rooms;
      }
    }
  }

  /** A new user keeps every room occupied: its own room is occupied now. */
  lemma JoinKeepsOccupied(rooms: seq<string>, users: map<ConnId, User>, id: ConnId, user: User)
    requires AllOccupied(rooms, RoomsInUse(users)) && id !in users
    ensures AllOccupied(if user.room in rooms then rooms else rooms + [user.room], RoomsInUse(users[id := user]))
  {
    var joined := users[id := user];
    forall room | room in RoomsInUse(users) || room == user.room ensures room in RoomsInUse(joined) {
      if room == user.room {
        assert id in joined && joined[id].room == room;
      } else {
        var other :| other in users && users[other].room == room;
        assert other in joined && joined[other].room == room;
      }
    }
  }

  /**
   When one user leaves or moves away from `left`, every room that was
   occupied is still occupied, except possibly `left`.
   */
  lemma LeaveEmptiesAtMostOne(rooms: seq<string>, users: map<ConnId, User>, after: map<ConnId, User>, id: ConnId)
    requires AllOccupied(rooms, RoomsInUse(users)) && id in users
    requires forall other :: other in users && other != id ==> other in after && after[other].room == users[other].room
    ensures forall k :: 0 <= k < |rooms| && rooms[k] != General && rooms[k] !in RoomsInUse(after) ==> rooms[k] == users[id].room
  {
    forall k | 0 <= k < |rooms| && rooms[k] != General && rooms[k] != users[id].room ensures rooms[k] in RoomsInUse(after) {
      var other :| other in users && users[other].room == rooms[k];
      assert other in after && after[other].room == rooms[k];
    }
  }

  /**
   The room list the servers keep: the default room first, no room twice,
   and every user's room listed.
   */
  ghost predicate Directory(rooms: seq<string>, users: map<ConnId, User>)
  {
    |rooms| > 0 && rooms[0] == General && Distinct(rooms) && Listed(users, rooms)
  }

  /** A user joining or moving, with its room appended when new, keeps the directory. */
  lemma JoinKeepsDirectory(rooms: seq<string>, users: map<ConnId, User>, id: ConnId, user: User)
    requires Directory(rooms, users)
    ensures Directory(if user.room in rooms then rooms else rooms + [user.room], users[id := user])
  {
    JoinKeepsListed(users, rooms, id, user);
    if user.room !in rooms {
      AppendKeepsDistinct(rooms, user.room);
    }
  }

  /** A user leaving keeps the directory. */
  lemma LeaveKeepsDirectory(rooms: seq<string>, users: map<ConnId, User>, id: ConnId)
    requires Directory(rooms, users)
    ensures Directory(rooms, users - {id})
  {
  }

  /**
   A deletion pass over the rooms nobody is in keeps the directory: the
   default room stays first, no room appears twice, and every user's room,
   being in use, is kept. Every room it deletes was listed, is not the
   default room and has no user.
   */
  lemma PruneKeepsDirectory(rooms: seq<string>, users: map<ConnId, User>)
    requires Directory(rooms, users)
    ensures var p := Prune(rooms, RoomsInUse(users));
      && Directory(p.rooms, users)
      && forall x :: x in p.dropped ==> x in rooms && x != General && Occupants(users, x) == {}
  {
    var inUse := RoomsInUse(users);
    var p := Prune(rooms, inUse);
    DistinctIsNoDup(rooms);
    PruneSound(rooms, inUse);
    DistinctIsNoDup(p.rooms);
    PruneFromKeepsHead(rooms, 0, inUse, []);
    InUseIffOccupied(users);
    forall id | id in users ensures users[id].room in p.rooms {
      assert users[id].room in inUse;
    }
  }

  /**
   When one user leaves a list whose rooms all had members, the deletion
   pass that follows leaves every listed room occupied.
   */
  lemma LeaveThenPruneSettles(rooms: seq<string>, users: map<ConnId, User>, id: ConnId)
    requires Directory(rooms, users) && AllOccupied(rooms, RoomsInUse(users)) && id in users
    ensures var after := users - {id};
      AllOccupied(Prune(rooms, RoomsInUse(after)).rooms, RoomsInUse(after))
  {
    var after := users - {id};
    LeaveEmptiesAtMostOne(rooms, users, after, id);
    DistinctIsNoDup(rooms);
    PruneClearsSingleEmpty(rooms, RoomsInUse(after), users[id].room);
  }

  /**
   When one user moves to `newRoom` (appended when new) from a list whose
   rooms all had members, the deletion pass that follows leaves every listed
   room occupied.
   */
  lemma MoveThenPruneSettles(rooms: seq<string>, users: map<ConnId, User>, id: ConnId, newRoom: string)
    requires Directory(rooms, users) && AllOccupied(rooms, RoomsInUse(users)) && id in users
    ensures var after := users[id := users[id].(room := newRoom)];
      var grown := if newRoom in rooms then rooms else rooms + [newRoom];
      AllOccupied(Prune(grown, RoomsInUse(after)).rooms, RoomsInUse(after))
  {
    var after := users[id := users[id].(room := newRoom)];
    var grown := if newRoom in rooms then rooms else rooms + [newRoom];
    var inUse := RoomsInUse(after);
    LeaveEmptiesAtMostOne(rooms, users, after, id);
    assert id in after && after[id].room == newRoom;
    forall k | 0 <= k < |grown| && grown[k] != General && grown[k] !in inUse ensures grown[k] == users[id].room {
      assert k < |rooms|;
    }
    JoinKeepsDirectory(rooms, users, id, users[id].(room := newRoom));
    DistinctIsNoDup(grown);
    PruneClearsSingleEmpty(grown, inUse, users[id].room);
  }
}
