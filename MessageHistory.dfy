/**
 Per-room message history of the newer server: a log capped at the last
 `MaxHistory` messages, and the reactions recorded on each stored message,
 where a new reaction of a connection supersedes its previous one.
 */
module MessageHistory {
  import opened Protocol
  import opened MessageIds
  import opened RoomDirectory

  /** The history kept for `room`, empty when there is none. */
  function HistoryOf(histories: map<string, seq<Entry>>, room: string): (h: seq<Entry>)
    ensures room in histories ==> h == histories[room]
    ensures h != [] ==> room in histories
  {
    if room in histories then histories[room] else []
  }

  /**
   `saveMessageToHistory` on one room's log: the entry goes at the end and,
   when the log has grown past the cap, the oldest entry is dropped.
   */
  function AppendCapped(history: seq<Entry>, entry: Entry): (r: seq<Entry>)
    ensures |history| <= MaxHistory ==> |r| <= MaxHistory
    ensures |r| > 0 && r[|r| - 1] == entry
    ensures |history| < MaxHistory ==> r == history + [entry]
    ensures |history| >= MaxHistory ==> |r| == |history| && r == (history + [entry])[1..]
  {
    var grown := history + [entry];
    if |grown| > MaxHistory then grown[1..] else grown
  }

  /**
   Inserting the 51st message evicts the oldest one, which can no longer be
   found by id when ids are distinct; every other message stays, in order.
   */
  lemma OldestEvicted(history: seq<Entry>, entry: Entry)
    requires |history| == MaxHistory
    requires forall i :: 0 <= i < |history| ==> history[i].data.id != entry.data.id
    requires forall i, j :: 0 <= i < j < |history| ==> history[i].data.id != history[j].data.id
    ensures var r := AppendCapped(history, entry);
      && |r| == MaxHistory
      && r[..MaxHistory - 1] == history[1..]
      && forall k :: 0 <= k < |r| ==> r[k].data.id != history[0].data.id
  {
    var r := AppendCapped(history, entry);
    assert r == history[1..] + [entry];
    forall k | 0 <= k < |r| ensures r[k].data.id != history[0].data.id {
      if k < MaxHistory - 1 {
        assert r[k] == history[k + 1];
      }
    }
  }

  /** `ids.filter(id => id !== who)`. */
  function Without(ids: seq<ConnId>, who: ConnId): (r: seq<ConnId>)
    ensures who !in r
    ensures forall x :: x != who ==> (x in r <==> x in ids)
  {
    if ids == [] then []
    else
      var rest := Without(ids[1..], who);
      if ids[0] == who then rest else [ids[0]] + rest
  }

  /** The filter removes every occurrence of `who` and keeps every other element as often as before. */
  lemma {:induction false} WithoutCounts(ids: seq<ConnId>, who: ConnId)
    ensures multiset(Without(ids, who)) == multiset(ids)[who := 0]
  {
    if ids != [] {
      WithoutCounts(ids[1..], who);
      assert ids == [ids[0]] + ids[1..];
    }
  }

  /** The connections asserting `symbol`, empty when there is no list for it. */
  function Asserting(reactions: Reactions, symbol: string): seq<ConnId>
  {
    if symbol in reactions then reactions[symbol] else []
  }

  /**
   The removal loop of `updateMessageReaction`: every list that holds `who`
   is filtered, and a list left empty is deleted. Lists without `who` are
   kept as they are.
   */
  function Retract(reactions: Reactions, who: ConnId): (r: Reactions)
    ensures r.Keys <= reactions.Keys
    ensures forall symbol :: symbol in r ==> who !in r[symbol]
    ensures forall symbol :: symbol in reactions && who !in reactions[symbol] ==> symbol in r && r[symbol] == reactions[symbol]
  {
    map symbol | symbol in reactions && (who !in reactions[symbol] || Without(reactions[symbol], who) != [])
      :: if who in reactions[symbol] then Without(reactions[symbol], who) else reactions[symbol]
  }

  /**
   `updateMessageReaction` on one message: retract the connection's reactions,
   then append it to the list of `symbol`, creating the list if needed.
   */
  function Supersede(reactions: Reactions, who: ConnId, symbol: string): (r: Reactions)
    ensures symbol in r && r[symbol] != [] && r[symbol][|r[symbol]| - 1] == who
    ensures forall other :: other in r && other != symbol ==> who !in r[other]
    ensures r.Keys == Retract(reactions, who).Keys + {symbol}
  {
    var kept := Retract(reactions, who);
    kept[symbol := Asserting(kept, symbol) + [who]]
  }

  /** The lists of `symbols` as the removal loop leaves them: filtered, and dropped when left empty. */
  function Retracted(reactions: Reactions, who: ConnId, symbols: set<string>): Reactions
  {
    map symbol | symbol in reactions && (symbol !in symbols || who !in reactions[symbol] || Without(reactions[symbol], who) != [])
      :: if symbol in symbols && who in reactions[symbol] then Without(reactions[symbol], who) else reactions[symbol]
  }

  lemma RetractedNone(reactions: Reactions, who: ConnId)
    ensures Retracted(reactions, who, {}) == reactions
  {
  }

  lemma RetractedAll(reactions: Reactions, who: ConnId)
    ensures Retracted(reactions, who, reactions.Keys) == Retract(reactions, who)
  {
  }

  /** The removal loop's step on one more symbol. */
  lemma RetractedStep(reactions: Reactions, who: ConnId, done: set<string>, symbol: string)
    requires symbol in reactions && symbol !in done
    ensures var before := Retracted(reactions, who, done);
      var ids := reactions[symbol];
      Retracted(reactions, who, done + {symbol})
        == if who !in ids then before
           else if Without(ids, who) == [] then before - {symbol}
           else before[symbol := Without(ids, who)]
  {
    var before := Retracted(reactions, who, done);
    var after := Retracted(reactions, who, done + {symbol});
    var ids := reactions[symbol];
    if who !in ids {
      assert after.Keys == before.Keys;
    } else if Without(ids, who) == [] {
      assert after.Keys == before.Keys - {symbol};
    } else {
      assert after.Keys == before.Keys + {symbol};
    }
  }

  /** The removal loop as it runs over a snapshot of the entries. */
  method RetractReaction(reactions: Reactions, who: ConnId) returns (r: Reactions)
    ensures r == Retract(reactions, who)
  {
    r := reactions;
    var pending := reactions.Keys;
    ghost var done: set<string> := {};
    RetractedNone(reactions, who);
    while pending != {}
      invariant pending + done == reactions.Keys && pending !! done
      invariant r == Retracted(reactions, who, done)
      decreases pending
    {
      var symbol :| symbol in pending;
      RetractedStep(reactions, who, done, symbol);
      var ids := r[symbol];
      if who in ids {
        var filtered := Without(ids, who);
        if filtered == [] {
          r := r - {symbol};
        } else {
          r := r[symbol := filtered];
        }
      }
      pending, done := pending - {symbol}, done + {symbol};
    }
    RetractedAll(reactions, who);
  }

  /**
   The removal takes the connection out of every list and leaves every other
   connection in every list as often as before; a list deleted for being
   left empty held only the connection.
   */
  lemma RetractCounts(reactions: Reactions, who: ConnId)
    ensures forall t :: multiset(Asserting(Retract(reactions, who), t)) == multiset(Asserting(reactions, t))[who := 0]
  {
    var kept := Retract(reactions, who);
    forall t ensures multiset(Asserting(kept, t)) == multiset(Asserting(reactions, t))[who := 0] {
      if t in reactions && who !in reactions[t] {
        InMultiset(reactions[t], who);
        assert multiset(reactions[t])[who := 0] == multiset(reactions[t]);
      } else if t in reactions {
        WithoutCounts(reactions[t], who);
      }
    }
  }

  /**
   After a reaction, the connection asserts exactly the new symbol, once;
   every other connection asserts what it did before, as often as before.
   So the size of each list, the count shown for a symbol, changes only by
   the connection's own move.
   */
  lemma SupersedeCounts(reactions: Reactions, who: ConnId, symbol: string)
    ensures var r := Supersede(reactions, who, symbol);
      forall t, x :: multiset(Asserting(r, t))[x]
        == if x == who then (if t == symbol then 1 else 0) else multiset(Asserting(reactions, t))[x]
  {
    var kept := Retract(reactions, who);
    var r := Supersede(reactions, who, symbol);
    RetractCounts(reactions, who);
    forall t, x ensures multiset(Asserting(r, t))[x]
        == if x == who then (if t == symbol then 1 else 0) else multiset(Asserting(reactions, t))[x]
    {
      if t == symbol {
        assert Asserting(r, t) == Asserting(kept, t) + [who];
      } else {
        assert Asserting(r, t) == Asserting(kept, t);
      }
    }
  }

  /** Every list on a stored message is non-empty. */
  ghost predicate NoEmptyLists(reactions: Reactions)
  {
    forall symbol :: symbol in reactions ==> reactions[symbol] != []
  }

  /** A connection asserts at most one symbol, at most once. */
  ghost predicate OneReactionEach(reactions: Reactions)
  {
    && (forall symbol, x :: multiset(Asserting(reactions, symbol))[x] <= 1)
    && (forall s1, s2, x :: x in Asserting(reactions, s1) && x in Asserting(reactions, s2) ==> s1 == s2)
  }

  ghost predicate WellFormedReactions(reactions: Reactions)
  {
    NoEmptyLists(reactions) && OneReactionEach(reactions)
  }

  /** A reaction leaves no empty list behind. */
  lemma SupersedeNoEmptyLists(reactions: Reactions, who: ConnId, symbol: string)
    requires NoEmptyLists(reactions)
    ensures NoEmptyLists(Supersede(reactions, who, symbol))
  {
    var kept := Retract(reactions, who);
    var r := Supersede(reactions, who, symbol);
    forall t | t in r ensures r[t] != [] {
      if t != symbol {
        assert t in kept && r[t] == kept[t];
      }
    }
  }

  /** After a reaction every connection still asserts at most one symbol, once. */
  lemma SupersedeOneEach(reactions: Reactions, who: ConnId, symbol: string)
    requires OneReactionEach(reactions)
    ensures OneReactionEach(Supersede(reactions, who, symbol))
  {
    var r := Supersede(reactions, who, symbol);
    SupersedeCounts(reactions, who, symbol);
    forall s1, s2, x | x in Asserting(r, s1) && x in Asserting(r, s2) ensures s1 == s2 {
      InMultiset(Asserting(r, s1), x);
      InMultiset(Asserting(r, s2), x);
      if x != who {
        InMultiset(Asserting(reactions, s1), x);
        InMultiset(Asserting(reactions, s2), x);
      }
    }
  }

  /**
   A reaction leaves the connection in exactly one list, that of the new
   symbol, and leaves no empty list behind.
   */
  lemma SupersedeWellFormed(reactions: Reactions, who: ConnId, symbol: string)
    requires WellFormedReactions(reactions)
    ensures var r := Supersede(reactions, who, symbol);
      && WellFormedReactions(r)
      && symbol in r && who in r[symbol]
      && forall t :: t in r && who in r[t] ==> t == symbol
  {
    var r := Supersede(reactions, who, symbol);
    SupersedeNoEmptyLists(reactions, who, symbol);
    SupersedeOneEach(reactions, who, symbol);
    assert who in Asserting(r, symbol);
    forall t | t in r && who in r[t] ensures t == symbol {
      assert who in Asserting(r, t);
    }
  }

  lemma {:induction false} WithoutAppendSelf(ids: seq<ConnId>, who: ConnId)
    requires who !in ids
    ensures Without(ids + [who], who) == ids
  {
    if ids == [] {
      assert Without([who], who) == Without([], who);
    } else {
      assert (ids + [who])[1..] == ids[1..] + [who];
      WithoutAppendSelf(ids[1..], who);
    }
  }

  /**
   Reacting twice with the same symbol is the same as reacting once: the
   connection is asserted once, at the same place in the list.
   */
  lemma SupersedeIdempotent(reactions: Reactions, who: ConnId, symbol: string)
    ensures Supersede(Supersede(reactions, who, symbol), who, symbol) == Supersede(reactions, who, symbol)
  {
    var once := Supersede(reactions, who, symbol);
    var kept := Retract(reactions, who);
    var list := Asserting(kept, symbol);
    assert who !in list;
    var kept2 := Retract(once, who);
    forall t | t in once && t != symbol ensures t in kept2 && kept2[t] == once[t] {
      assert who !in once[t];
    }
    WithoutAppendSelf(list, who);
    assert Asserting(kept2, symbol) == list;
    var twice := Supersede(once, who, symbol);
    assert twice.Keys == once.Keys;
  }

  /** The ids of a room's log, oldest first. */
  function Ids(history: seq<Entry>): (ids: seq<Option<string>>)
    ensures |ids| == |history|
    ensures forall i :: 0 <= i < |history| ==> ids[i] == history[i].data.id
  {
    seq(|history|, i requires 0 <= i < |history| => history[i].data.id)
  }

  /**
   `history.findIndex(msg => msg.id === messageId)`: the position of the
   first message with that id, or -1.
   */
  method FindIndex(history: seq<Entry>, messageId: string) returns (index: int)
    ensures -1 <= index < |history|
    ensures index >= 0 ==> history[index].data.id == Some(messageId)
    ensures forall j :: 0 <= j < |history| && (index == -1 || j < index) ==> history[j].data.id != Some(messageId)
  {
    index := 0;
    while index < |history|
      invariant 0 <= index <= |history|
      invariant forall j :: 0 <= j < index ==> history[j].data.id != Some(messageId)
    {
      if history[index].data.id == Some(messageId) {
        return;
      }
      index := index + 1;
    }
    index := -1;
  }

  /**
   `updateMessageReaction` on one room's log: the reactions of the first
   message with the id are superseded; a log without it is left as it is.
   */
  function ReactIn(history: seq<Entry>, messageId: string, who: ConnId, symbol: string): (r: seq<Entry>)
    ensures |r| == |history|
    ensures Some(messageId) !in Ids(history) ==> r == history
  {
    var index := IndexOf(Ids(history), Some(messageId));
    if index == -1 then history
    else history[index := history[index].(reactions := Supersede(history[index].reactions, who, symbol))]
  }

  /**
   A reaction changes the reactions of exactly the message it names, when
   the log holds it, and touches no payload and no other message.
   */
  lemma ReactInEffect(history: seq<Entry>, messageId: string, who: ConnId, symbol: string)
    ensures var r := ReactIn(history, messageId, who, symbol);
      && |r| == |history|
      && (forall i :: 0 <= i < |r| ==> r[i].data == history[i].data)
      && (Some(messageId) !in Ids(history) ==> r == history)
      && forall i :: 0 <= i < |r| ==>
           r[i].reactions == if i == IndexOf(Ids(history), Some(messageId))
                             then Supersede(history[i].reactions, who, symbol)
                             else history[i].reactions
  {
  }

  /** A stored message carries an id issued from a counter value below `counter`. */
  predicate IssuedBelow(e: Entry, counter: nat)
  {
    && e.data.id.Some?
    && e.data.id.value == MsgId(IdNumber(e.data.id.value))
    && IdNumber(e.data.id.value) < counter
  }

  /** Every stored message carries an id issued before the counter's value. */
  ghost predicate IdsIssuedBelow(histories: map<string, seq<Entry>>, counter: nat)
  {
    forall room, i :: room in histories && 0 <= i < |histories[room]| ==> IssuedBelow(histories[room][i], counter)
  }

  /** No two stored messages, in any rooms, share an id. */
  ghost predicate DistinctIds(histories: map<string, seq<Entry>>)
  {
    forall r1, i1, r2, i2 ::
      && r1 in histories && 0 <= i1 < |histories[r1]|
      && r2 in histories && 0 <= i2 < |histories[r2]|
      && histories[r1][i1].data.id == histories[r2][i2].data.id
      ==> r1 == r2 && i1 == i2
  }

  /**
   Appending to one room's log, with the oldest message dropped past the
   cap: every message of the new log other than the last is a message of the
   old one, `Shift` positions further on.
   */
  function Shift(history: seq<Entry>, entry: Entry): nat
  {
    |history| + 1 - |AppendCapped(history, entry)|
  }

  lemma SavedFromBefore(history: seq<Entry>, entry: Entry, i: nat)
    requires i < |AppendCapped(history, entry)| - 1
    ensures i + Shift(history, entry) < |history|
    ensures AppendCapped(history, entry)[i] == history[i + Shift(history, entry)]
  {
  }

  /** Saving a message stamped with the counter's value keeps every id issued below the advanced counter. */
  lemma SaveKeepsIssued(histories: map<string, seq<Entry>>, counter: nat, room: string, data: MessageData)
    requires IdsIssuedBelow(histories, counter)
    requires data.id == Some(MsgId(counter))
    ensures IdsIssuedBelow(histories[room := AppendCapped(HistoryOf(histories, room), Entry(data, map[]))], counter + 1)
  {
    var entry := Entry(data, map[]);
    var saved: map<string, seq<Entry>> := histories[room := AppendCapped(HistoryOf(histories, room), entry)];
    IdRoundTrip(counter);
    forall r: string, i: int | r in saved && 0 <= i < |saved[r]| ensures IssuedBelow(saved[r][i], counter + 1) {
      var j := SavedOrigin(histories, room, entry, r, i);
    }
  }

  /**
   Where a message of the saved histories comes from: the new entry
   (`j == -1`) or position `j` of the same room's old log.
   */
  lemma SavedOrigin(histories: map<string, seq<Entry>>, room: string, entry: Entry, r: string, i: int) returns (j: int)
    requires var saved := histories[room := AppendCapped(HistoryOf(histories, room), entry)];
      r in saved && 0 <= i < |saved[r]|
    ensures var saved := histories[room := AppendCapped(HistoryOf(histories, room), entry)];
      && (j == -1 ==> r == room && i == |saved[r]| - 1 && saved[r][i] == entry)
      && (j >= 0 ==> r in histories && j < |histories[r]| && saved[r][i] == histories[r][j])
      && (j >= 0 && r != room ==> j == i)
      && (j >= 0 && r == room ==> j == i + Shift(HistoryOf(histories, room), entry))
  {
    var before := HistoryOf(histories, room);
    var after := AppendCapped(before, entry);
    if r != room {
      j := i;
    } else if i == |after| - 1 {
      j := -1;
    } else {
      SavedFromBefore(before, entry, i);
      j := i + Shift(before, entry);
    }
  }

  /**
   Saving a message stamped with the counter's current value keeps ids
   distinct across all rooms: no stored id was issued from that value.
   */
  lemma SaveKeepsDistinct(histories: map<string, seq<Entry>>, counter: nat, room: string, data: MessageData)
    requires IdsIssuedBelow(histories, counter) && DistinctIds(histories)
    requires data.id == Some(MsgId(counter))
    ensures DistinctIds(histories[room := AppendCapped(HistoryOf(histories, room), Entry(data, map[]))])
  {
    var entry := Entry(data, map[]);
    var saved: map<string, seq<Entry>> := histories[room := AppendCapped(HistoryOf(histories, room), entry)];
    IdRoundTrip(counter);
    forall r1: string, i1: int, r2: string, i2: int |
      && r1 in saved && 0 <= i1 < |saved[r1]|
      && r2 in saved && 0 <= i2 < |saved[r2]|
      && saved[r1][i1].data.id == saved[r2][i2].data.id
      ensures r1 == r2 && i1 == i2
    {
      var j1 := SavedOrigin(histories, room, entry, r1, i1);
      var j2 := SavedOrigin(histories, room, entry, r2, i2);
      if j1 >= 0 {
        assert IssuedBelow(histories[r1][j1], counter);
      }
      if j2 >= 0 {
        assert IssuedBelow(histories[r2][j2], counter);
      }
    }
  }

  /**
   Saving a message stamped with the counter's current value keeps ids
   distinct across all rooms, and every id issued below the advanced counter.
   */
  lemma SaveKeepsIds(histories: map<string, seq<Entry>>, counter: nat, room: string, data: MessageData)
    requires IdsIssuedBelow(histories, counter) && DistinctIds(histories)
    requires data.id == Some(MsgId(counter))
    ensures var saved := histories[room := AppendCapped(HistoryOf(histories, room), Entry(data, map[]))];
      IdsIssuedBelow(saved, counter + 1) && DistinctIds(saved)
  {
    SaveKeepsIssued(histories, counter, room, data);
    SaveKeepsDistinct(histories, counter, room, data);
  }

  /**
   Histories with the same rooms, lengths and payloads carry the same ids,
   so both id properties carry over; reactions do not matter.
   */
  lemma SamePayloadsKeepIds(histories: map<string, seq<Entry>>, updated: map<string, seq<Entry>>, counter: nat)
    requires updated.Keys == histories.Keys
    requires forall room :: room in histories ==> |updated[room]| == |histories[room]|
    requires forall room, i :: room in histories && 0 <= i < |histories[room]| ==> updated[room][i].data == histories[room][i].data
    requires IdsIssuedBelow(histories, counter) && DistinctIds(histories)
    ensures IdsIssuedBelow(updated, counter) && DistinctIds(updated)
  {
  }

  /** Each room's log holds at most `MaxHistory` messages. */
  ghost predicate Capped(histories: map<string, seq<Entry>>)
  {
    forall room :: room in histories ==> |histories[room]| <= MaxHistory
  }

  /** Every stored message carries well-formed reactions. */
  ghost predicate ReactionsWellFormed(histories: map<string, seq<Entry>>)
  {
    forall room, i :: room in histories && 0 <= i < |histories[room]| ==>
      WellFormedReactions(histories[room][i].reactions)
  }

  /**
   The history the newer server keeps: at most `MaxHistory` messages per
   room, ids issued below the counter and distinct across rooms, and
   well-formed reactions on every stored message.
   */
  ghost predicate HistoryValid(histories: map<string, seq<Entry>>, counter: nat)
  {
    Capped(histories) && IdsIssuedBelow(histories, counter) && DistinctIds(histories) && ReactionsWellFormed(histories)
  }

  /** Appending a message without reactions keeps every stored message's reactions well formed. */
  lemma SaveKeepsReactions(histories: map<string, seq<Entry>>, room: string, entry: Entry)
    requires ReactionsWellFormed(histories) && entry.reactions == map[]
    ensures ReactionsWellFormed(histories[room := AppendCapped(HistoryOf(histories, room), entry)])
  {
    var saved: map<string, seq<Entry>> := histories[room := AppendCapped(HistoryOf(histories, room), entry)];
    forall r: string, i: int | r in saved && 0 <= i < |saved[r]| ensures WellFormedReactions(saved[r][i].reactions) {
      var j := SavedOrigin(histories, room, entry, r, i);
    }
  }

  /** Saving a message stamped with the counter, then advancing it, keeps the history valid. */
  lemma SaveKeepsHistoryValid(histories: map<string, seq<Entry>>, counter: nat, room: string, data: MessageData)
    requires HistoryValid(histories, counter)
    requires data.id == Some(MsgId(counter))
    ensures HistoryValid(histories[room := AppendCapped(HistoryOf(histories, room), Entry(data, map[]))], counter + 1)
  {
    SaveKeepsIds(histories, counter, room, data);
    SaveKeepsReactions(histories, room, Entry(data, map[]));
  }

  /** Recording a reaction in a room's log keeps every stored message's reactions well formed. */
  lemma ReactKeepsReactions(histories: map<string, seq<Entry>>, room: string, messageId: string, who: ConnId, symbol: string)
    requires ReactionsWellFormed(histories) && room in histories
    ensures ReactionsWellFormed(histories[room := ReactIn(histories[room], messageId, who, symbol)])
  {
    var history := histories[room];
    var updated: map<string, seq<Entry>> := histories[room := ReactIn(history, messageId, who, symbol)];
    var index := IndexOf(Ids(history), Some(messageId));
    if index >= 0 {
      SupersedeWellFormed(history[index].reactions, who, symbol);
      forall r: string, i: int | r in updated && 0 <= i < |updated[r]| ensures WellFormedReactions(updated[r][i].reactions) {
        if r == room && i != index {
          assert updated[r][i] == history[i];
        }
      }
    }
  }

  /** Recording a reaction in a room's log keeps the history valid. */
  lemma ReactKeepsHistoryValid(histories: map<string, seq<Entry>>, counter: nat, room: string, messageId: string, who: ConnId, symbol: string)
    requires HistoryValid(histories, counter) && room in histories
    ensures HistoryValid(histories[room := ReactIn(histories[room], messageId, who, symbol)], counter)
  {
    var history := histories[room];
    var updated := histories[room := ReactIn(history, messageId, who, symbol)];
    ReactInEffect(history, messageId, who, symbol);
    SamePayloadsKeepIds(histories, updated, counter);
    ReactKeepsReactions(histories, room, messageId, who, symbol);
  }

  /** Deleting the logs of some rooms keeps the history valid. */
  lemma DropKeepsHistoryValid(histories: map<string, seq<Entry>>, counter: nat, gone: set<string>)
    requires HistoryValid(histories, counter)
    ensures HistoryValid(histories - gone, counter)
  {
    var kept: map<string, seq<Entry>> := histories - gone;
    forall r1: string, i1: int, r2: string, i2: int |
      && r1 in kept && 0 <= i1 < |kept[r1]|
      && r2 in kept && 0 <= i2 < |kept[r2]|
      && kept[r1][i1].data.id == kept[r2][i2].data.id
      ensures r1 == r2 && i1 == i2
    {
      assert kept[r1] == histories[r1] && kept[r2] == histories[r2];
    }
  }
}
