/** The roster data of the App component: player records, the new-player draft, the
    requests the handlers send and the responses they get back, and the pure list
    transformations the handlers apply once a response has arrived. */
module Roster {
  import opened Lists
  import opened Text

  /** Server-assigned identifier (the `_id` field); only compared for equality. */
  type PlayerId = string

  /** A player record as the server returns it. Apart from the identifier, the name
      and the position (the fields the component reads or edits), the record's other
      fields (jersey number, nationality, age, since, note) are carried as opaque data. */
  datatype Player = Player(id: PlayerId, name: string, position: string, details: map<string, string>)

  /** The new-player form; every field holds the form's text value. */
  datatype Draft = Draft(name: string, position: string, jerseyNumber: string, nationality: string, age: string)

  /** The draft the form starts with and is reset to after a successful add. */
  const EmptyDraft: Draft := Draft("", "Torwart", "", "", "")

  /** The options of the position selects. */
  const Positions: seq<string> := ["Torwart", "Abwehr", "Mittelfeld", "Sturm"]

  /** The filter value that shows every player. */
  const ShowAll: string := "alle"

  /** The filter buttons, in the order they are shown. */
  const FilterOptions: seq<string> := [ShowAll] + Positions

  /** The outcome of a create, update or delete call: `response.ok` with its parsed
      body, a response whose status is not ok, or an exception (network failure or a
      body that does not parse). */
  datatype Response<T> = Ok(body: T) | NotOk | Threw

  /** The outcome of the list call: a parsed body, or an exception. */
  datatype ListOutcome = Loaded(data: seq<Player>) | Failed

  /** The requests the handlers issue: the HTTP method with its path parameter and body. */
  datatype Request = List | Create(draft: Draft) | Update(id: PlayerId, player: Player) | Delete(id: PlayerId)

  datatype Option<T> = None | Some(value: T)

  // ---------------------------------------------------------------------------
  // The displayed list

  /** The position filter: the player's lower-cased position contains the
      lower-cased filter value. */
  predicate MatchesFilter(p: Player, filter: string) {
    Includes(Lower(p.position), Lower(filter))
  }

  function Matcher(filter: string): Player -> bool {
    (p: Player) => MatchesFilter(p, filter)
  }

  /** `filteredPlayers`: every player when the filter is `alle`, otherwise the
      players whose position contains the filter value, ignoring case. */
  function FilteredPlayers(players: seq<Player>, filter: string): (r: seq<Player>)
    ensures filter == ShowAll ==> r == players
    ensures filter != ShowAll ==> forall p :: p in r <==> p in players && MatchesFilter(p, filter)
    ensures |r| <= |players|
  {
    if filter == ShowAll then players else Filter(players, Matcher(filter))
  }

  /** The displayed list keeps the roster's order, and shows each matching player as
      often as the roster holds it. */
  lemma FilteredPlayersKeepsOrder(players: seq<Player>, filter: string)
    ensures IsSubsequence(FilteredPlayers(players, filter), players)
    ensures forall p :: multiset(FilteredPlayers(players, filter))[p] ==
                        if filter == ShowAll || MatchesFilter(p, filter) then multiset(players)[p] else 0
  {
    if filter == ShowAll {
      SubsequenceReflexive(players);
    } else {
      FilterIsSubsequence(players, Matcher(filter));
      FilterCount(players, Matcher(filter));
    }
  }

  /** Appending a player appends it to the displayed list exactly when it passes
      the filter; the players already displayed stay as they were. */
  lemma FilteredPlayersAppend(players: seq<Player>, added: Player, filter: string)
    ensures FilteredPlayers(players + [added], filter) ==
      FilteredPlayers(players, filter) +
      (if filter == ShowAll || MatchesFilter(added, filter) then [added] else [])
  {
    if filter != ShowAll {
      FilterConcat(players, [added], Matcher(filter));
    }
  }

  /** With the roster's positions taken from the select options, a position filter
      shows exactly the players with that position: the substring test never
      confuses two of the four positions. */
  lemma PositionFilterIsExact(players: seq<Player>, filter: string)
    requires filter in Positions
    requires forall i :: 0 <= i < |players| ==> players[i].position in Positions
    ensures forall p :: p in FilteredPlayers(players, filter) <==> p in players && p.position == filter
  {
    forall p | p in players
      ensures MatchesFilter(p, filter) <==> p.position == filter
    {
      PositionsDistinct(p.position, filter);
    }
  }

  /** No lower-cased position contains another one: each has a letter that none of
      the other three has. */
  lemma PositionsDistinct(a: string, b: string)
    requires a in Positions && b in Positions
    ensures Includes(Lower(a), Lower(b)) <==> a == b
  {
    LowerPositions();
    if a == b {
      assert OccursAt(Lower(a), Lower(b), 0);
    } else if b == "Sturm" {
      MissingChar(Lower(a), Lower(b), 0);
    } else {
      MissingChar(Lower(a), Lower(b), 1);
    }
  }

  /** The lower-cased select options. */
  lemma LowerPositions()
    ensures Lower("Torwart") == "torwart" && Lower("Abwehr") == "abwehr"
    ensures Lower("Mittelfeld") == "mittelfeld" && Lower("Sturm") == "sturm"
  {
  }

  // ---------------------------------------------------------------------------
  // Identifiers

  /** No two records of the roster share an identifier. */
  ghost predicate UniqueIds(players: seq<Player>) {
    forall i, j :: 0 <= i < j < |players| ==> players[i].id != players[j].id
  }

  /** Some record of the roster has identifier `id`. */
  ghost predicate HasId(players: seq<Player>, id: PlayerId) {
    exists i :: 0 <= i < |players| && players[i].id == id
  }

  // ---------------------------------------------------------------------------
  // Delete: `players.filter(player => player._id !== id)`

  function OtherId(id: PlayerId): Player -> bool {
    (p: Player) => p.id != id
  }

  /** The roster without the players whose identifier is `id`. */
  function RemoveById(players: seq<Player>, id: PlayerId): (r: seq<Player>)
    ensures forall p :: p in r <==> p in players && p.id != id
    ensures |r| <= |players|
  {
    Filter(players, OtherId(id))
  }

  /** Remove-by-id keeps the survivors in their original order, each as often as
      before. */
  lemma RemoveByIdKeepsOthers(players: seq<Player>, id: PlayerId)
    ensures IsSubsequence(RemoveById(players, id), players)
    ensures forall p :: multiset(RemoveById(players, id))[p] == if p.id != id then multiset(players)[p] else 0
  {
    FilterIsSubsequence(players, OtherId(id));
    FilterCount(players, OtherId(id));
  }

  /** On a roster with unique identifiers, deleting a present identifier removes
      exactly one record, and deleting an absent one removes nothing. */
  lemma {:induction false} RemoveByIdLength(players: seq<Player>, id: PlayerId)
    requires UniqueIds(players)
    ensures HasId(players, id) ==> |RemoveById(players, id)| == |players| - 1
    ensures !HasId(players, id) ==> RemoveById(players, id) == players
    decreases |players|
  {
    if !HasId(players, id) {
      FilterAllKept(players, OtherId(id));
    } else {
      var rest := players[1..];
      assert UniqueIds(rest) by {
        forall i, j | 0 <= i < j < |rest| ensures rest[i].id != rest[j].id {
          assert rest[i] == players[i + 1] && rest[j] == players[j + 1];
        }
      }
      if players[0].id == id {
        forall i | 0 <= i < |rest| ensures rest[i].id != id {
          assert rest[i] == players[i + 1];
        }
        FilterAllKept(rest, OtherId(id));
        assert RemoveById(players, id) == RemoveById(rest, id);
      } else {
        assert HasId(rest, id) by {
          var i :| 0 <= i < |players| && players[i].id == id;
          assert rest[i - 1].id == id;
        }
        RemoveByIdLength(rest, id);
        assert RemoveById(players, id) == [players[0]] + RemoveById(rest, id);
      }
    }
  }

  /** Removing records keeps identifiers unique. */
  lemma {:induction false} RemoveByIdKeepsUnique(players: seq<Player>, id: PlayerId)
    requires UniqueIds(players)
    ensures UniqueIds(RemoveById(players, id))
    decreases |players|
  {
    if players != [] {
      var rest := players[1..];
      assert UniqueIds(rest) by {
        forall i, j | 0 <= i < j < |rest| ensures rest[i].id != rest[j].id {
          assert rest[i] == players[i + 1] && rest[j] == players[j + 1];
        }
      }
      RemoveByIdKeepsUnique(rest, id);
      if players[0].id != id {
        var r := RemoveById(players, id);
        var tail := RemoveById(rest, id);
        assert r == [players[0]] + tail;
        forall i, j | 0 <= i < j < |r| ensures r[i].id != r[j].id {
          if i == 0 {
            assert r[j] == tail[j - 1];
            assert tail[j - 1] in rest;
            var k :| 0 <= k < |rest| && rest[k] == tail[j - 1];
            assert rest[k] == players[k + 1];
          } else {
            assert r[i] == tail[i - 1] && r[j] == tail[j - 1];
          }
        }
      }
    }
  }

  // ---------------------------------------------------------------------------
  // Update: `players.map(p => p._id === updated._id ? updated : p)`

  function Replacer(updated: Player): Player -> Player {
    (p: Player) => if p.id == updated.id then updated else p
  }

  /** The roster with every record whose identifier is `updated.id` replaced by
      `updated`; positions, identifiers and all other records stay as they were. */
  function ReplaceById(players: seq<Player>, updated: Player): (r: seq<Player>)
    ensures |r| == |players|
    ensures forall i :: 0 <= i < |players| ==> r[i].id == players[i].id
    ensures forall i :: 0 <= i < |players| && players[i].id != updated.id ==> r[i] == players[i]
    ensures forall i :: 0 <= i < |players| && players[i].id == updated.id ==> r[i] == updated
  {
    Map(players, Replacer(updated))
  }

  /** After an update, the updated record is in the roster exactly when its
      identifier was, and it is then the only record with that identifier. */
  lemma ReplaceByIdResult(players: seq<Player>, updated: Player)
    ensures updated in ReplaceById(players, updated) <==> HasId(players, updated.id)
    ensures forall p :: p in ReplaceById(players, updated) && p.id == updated.id ==> p == updated
  {
  }

  /** Replacing by identifier keeps identifiers unique. */
  lemma ReplaceByIdKeepsUnique(players: seq<Player>, updated: Player)
    requires UniqueIds(players)
    ensures UniqueIds(ReplaceById(players, updated))
  {
  }

  // ---------------------------------------------------------------------------
  // Add: `[...players, added]`

  /** Appending to a roster with unique identifiers keeps them unique exactly when
      the appended record's identifier is fresh; a fresh record then occurs once. */
  lemma AppendKeepsUnique(players: seq<Player>, added: Player)
    requires UniqueIds(players)
    ensures UniqueIds(players + [added]) <==> !HasId(players, added.id)
    ensures !HasId(players, added.id) ==> multiset(players + [added])[added] == 1
  {
    if HasId(players, added.id) {
      var i :| 0 <= i < |players| && players[i].id == added.id;
      assert (players + [added])[i].id == (players + [added])[|players|].id;
    }
  }

  // ---------------------------------------------------------------------------
  // A concrete scenario

  /** A defender filter on a roster holding only a forward shows nothing. */
  lemma FilterScenario()
    ensures FilteredPlayers([Player("1", "A", "Sturm", map[])], "Abwehr") == []
  {
  }
}
