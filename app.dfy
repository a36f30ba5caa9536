/** The App component's state and its event handlers. Each handler runs to
    completion against the current state; the network call it makes is given as the
    response it receives, and the request it issues is returned. */
module AppState {
  import opened Roster
  import Lists

  class App {
    var players: seq<Player>
    var loading: bool
    var newPlayer: Draft
    var editingPlayer: Option<Player>
    var filterPosition: string

    /** The filter is one of the filter buttons and the draft's position one of the
        select options: the only ways these fields change. */
    ghost predicate Valid()
      reads this
    {
      filterPosition in FilterOptions && newPlayer.position in Positions
    }

    /** The initial state: no players, loading, an empty draft, no edit, filter `alle`. */
    constructor ()
      ensures Valid()
      ensures players == [] && loading
      ensures newPlayer == EmptyDraft && editingPlayer == None && filterPosition == ShowAll
    {
      players := [];
      loading := true;
      newPlayer := EmptyDraft;
      editingPlayer := None;
      filterPosition := ShowAll;
    }

    /** The list of player cards shown: the whole roster under `alle`, otherwise the
        players whose position contains the filter ignoring case, in roster order. */
    function Shown(): (r: seq<Player>)
      reads this
      ensures filterPosition == ShowAll ==> r == players
      ensures filterPosition != ShowAll ==> forall p :: p in r <==> p in players && MatchesFilter(p, filterPosition)
      ensures Lists.IsSubsequence(r, players)
    {
      FilteredPlayersKeepsOrder(players, filterPosition);
      FilteredPlayers(players, filterPosition)
    }

    /** Loads the roster: whatever body the list call yields replaces the roster (the
        status is not inspected), a thrown error empties it, and loading always ends. */
    method FetchPlayers(outcome: ListOutcome) returns (sent: Request)
      requires Valid()
      modifies this`players, this`loading
      ensures Valid()
      ensures sent == List
      ensures !loading
      ensures players == (if outcome.Loaded? then outcome.data else [])
    {
      loading := true;
      sent := List;
      match outcome {
        case Loaded(data) =>
          players := data;
        case Failed =>
          players := [];
      }
      loading := false;
    }

    /** Submits the draft. On success the returned player is appended and the draft is
        reset; on a non-ok status or an error neither changes. */
    method AddPlayer(response: Response<Player>) returns (sent: Request)
      requires Valid()
      modifies this`players, this`newPlayer
      ensures Valid()
      ensures sent == Create(old(newPlayer))
      ensures response.Ok? ==> players == old(players) + [response.body] && newPlayer == EmptyDraft
      ensures !response.Ok? ==> players == old(players) && newPlayer == old(newPlayer)
    {
      sent := Create(newPlayer);
      if response.Ok? {
        players := players + [response.body];
        newPlayer := EmptyDraft;
      }
    }

    /** Deletes the player with identifier `id` once the user confirms. A declined
        confirmation issues no request and changes nothing; on success every player
        with that identifier disappears; otherwise the roster stays. */
    method DeletePlayer(id: PlayerId, confirmed: bool, response: Response<()>) returns (sent: Option<Request>)
      requires Valid()
      modifies this`players
      ensures Valid()
      ensures sent == if confirmed then Some(Delete(id)) else None
      ensures players == if confirmed && response.Ok? then RemoveById(old(players), id) else old(players)
    {
      if !confirmed {
        return None;
      }
      sent := Some(Delete(id));
      if response.Ok? {
        players := RemoveById(players, id);
      }
    }

    /** Saves the player being edited under its identifier. On success every player
        with the returned player's identifier is replaced by it and editing ends; on a
        non-ok status or an error the roster stays and editing continues. Without a
        player being edited, reading its identifier fails before any request and the
        error is caught. */
    method UpdatePlayer(response: Response<Player>) returns (sent: Option<Request>)
      requires Valid()
      modifies this`players, this`editingPlayer
      ensures Valid()
      ensures sent == match old(editingPlayer)
                      case None => None
                      case Some(p) => Some(Update(p.id, p))
      ensures old(editingPlayer).Some? && response.Ok? ==>
                players == ReplaceById(old(players), response.body) && editingPlayer == None
      ensures !(old(editingPlayer).Some? && response.Ok?) ==>
                players == old(players) && editingPlayer == old(editingPlayer)
    {
      match editingPlayer {
        case None =>
          sent := None;
        case Some(p) =>
          sent := Some(Update(p.id, p));
          if response.Ok? {
            players := ReplaceById(players, response.body);
            editingPlayer := None;
          }
      }
    }

    /** The edit button of a card: editing starts on a copy of that player. */
    method StartEdit(player: Player)
      requires Valid()
      modifies this`editingPlayer
      ensures Valid()
      ensures editingPlayer == Some(player)
    {
      editingPlayer := Some(player);
    }

    /** The cancel button of the edit form: editing ends, nothing is sent. */
    method CancelEdit()
      requires Valid()
      modifies this`editingPlayer
      ensures Valid()
      ensures editingPlayer == None
    {
      editingPlayer := None;
    }

    /** A filter button. */
    method SetFilter(position: string)
      requires Valid()
      requires position in FilterOptions
      modifies this`filterPosition
      ensures Valid()
      ensures filterPosition == position
    {
      filterPosition := position;
    }

    /** A field of the new-player form; the position comes from its select. */
    method EditDraft(field: DraftField, value: string)
      requires Valid()
      requires field == DraftPosition ==> value in Positions
      modifies this`newPlayer
      ensures Valid()
      ensures newPlayer == match field
                           case DraftName => old(newPlayer).(name := value)
                           case DraftPosition => old(newPlayer).(position := value)
                           case DraftJerseyNumber => old(newPlayer).(jerseyNumber := value)
                           case DraftNationality => old(newPlayer).(nationality := value)
                           case DraftAge => old(newPlayer).(age := value)
    {
      match field {
        case DraftName => newPlayer := newPlayer.(name := value);
        case DraftPosition => newPlayer := newPlayer.(position := value);
        case DraftJerseyNumber => newPlayer := newPlayer.(jerseyNumber := value);
        case DraftNationality => newPlayer := newPlayer.(nationality := value);
        case DraftAge => newPlayer := newPlayer.(age := value);
      }
    }

    /** The name field of the edit form, shown only while a player is being edited. */
    method EditName(value: string)
      requires Valid()
      requires editingPlayer.Some?
      modifies this`editingPlayer
      ensures Valid()
      ensures editingPlayer == Some(old(editingPlayer).value.(name := value))
    {
      editingPlayer := Some(editingPlayer.value.(name := value));
    }

    /** The position select of the edit form, shown only while a player is being edited. */
    method EditPosition(value: string)
      requires Valid()
      requires editingPlayer.Some? && value in Positions
      modifies this`editingPlayer
      ensures Valid()
      ensures editingPlayer == Some(old(editingPlayer).value.(position := value))
    {
      editingPlayer := Some(editingPlayer.value.(position := value));
    }
  }

  /** The fields of the new-player form. */
  datatype DraftField = DraftName | DraftPosition | DraftJerseyNumber | DraftNationality | DraftAge

  /** With the select options as the roster's positions, a position filter button
      shows exactly the players of that position. */
  lemma ShownByPosition(app: App)
    requires app.Valid() && app.filterPosition != ShowAll
    requires forall i :: 0 <= i < |app.players| ==> app.players[i].position in Positions
    ensures forall p :: p in app.Shown() <==> p in app.players && p.position == app.filterPosition
  {
    assert app.filterPosition in Positions by {
      assert app.filterPosition in [ShowAll] + Positions;
    }
    PositionFilterIsExact(app.players, app.filterPosition);
  }

  /** A session that relies only on the contracts of the handlers and of `Shown`,
      and on `FilteredPlayersAppend`: a load, a declined delete,
      a failed save that keeps the edit open, a cancel, a filter and an add that
      becomes visible exactly when it passes the filter. */
  method HandlerSession(p: Player, q: Player)
    requires p.position in Positions
  {
    var app := new App();
    var _ := app.FetchPlayers(Loaded([p]));
    assert app.players == [p] && !app.loading;

    var sent := app.DeletePlayer(p.id, false, Ok(()));
    assert sent == None && app.players == [p];

    app.StartEdit(p);
    sent := app.UpdatePlayer(NotOk);
    assert sent == Some(Update(p.id, p));
    assert app.players == [p] && app.editingPlayer == Some(p);
    app.CancelEdit();
    assert app.editingPlayer == None && app.players == [p];

    app.SetFilter(p.position);
    var _ := app.AddPlayer(Ok(q));
    assert app.players == [p] + [q] && app.newPlayer == EmptyDraft;
    FilteredPlayersAppend([p], q, p.position);
    assert q in app.Shown() <==> MatchesFilter(q, p.position);
  }
}
