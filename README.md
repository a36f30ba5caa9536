# Roster store of the player database front end

This project models the client-side roster store of the `App` component in
`src/App.js`: a React page that lists football players, filters them by position,
and creates, updates and deletes players through a REST API. The model covers:

- the five state fields (`players`, `loading`, `newPlayer`, `editingPlayer`,
  `filterPosition`);
- the state change each handler makes once its network call has answered;
- the position filter that derives the displayed list.

Network calls are not performed. Each handler receives the call's outcome as a
value, and it returns the request it would have issued:

- `Response<T>` is `Ok(body)`, `NotOk` (a status that is not ok) or `Threw` (an
  exception from `fetch` or `response.json()`, caught by the handler);
- `ListOutcome` is `Loaded(data)` or `Failed`;
- `Request` is `List`, `Create(draft)`, `Update(id, player)` or `Delete(id)`.

Files:

- `lists.dfy` (module `Lists`): `Filter` and `Map`, shaped like JavaScript's
  `Array.prototype.filter` and `map`, with lemmas on order, multiplicity and
  concatenation.
- `text.dfy` (module `Text`): ASCII `toLowerCase` and `String.prototype.includes`.
  `includes` is specified against an occurrence predicate, and `toLowerCase`
  character by character.
- `roster.dfy` (module `Roster`): the player record, the draft, the outcomes and
  requests, `FilteredPlayers`, `RemoveById` and `ReplaceById`, with lemmas about
  id uniqueness and about the four positions.
- `app.dfy` (module `AppState`): class `App` with one method per handler, plus a
  client method `HandlerSession`. It relies only on the contracts of the handlers
  and of `Shown`, and on the lemma `FilteredPlayersAppend`.

Points where the code's behaviour is easy to misread:

- `fetchPlayers` never looks at `response.ok` (`src/App.js:27-29`). Any body that
  parses replaces the roster. Only a thrown error empties it.
- A successful update replaces the records whose id equals the id of the player
  the server returned (`src/App.js:97-98`). The id of the edited player names the
  request path (`src/App.js:89`) but is not used for the match.
- After a successful add, the draft resets to the position `Torwart`
  (`src/App.js:53`). The position names are the German ones the code uses
  (`Torwart`, `Abwehr`, `Mittelfeld`, `Sturm`).
- The code never checks that an added record's id is new. On a roster with unique
  ids, ids stay unique after an add exactly when the returned id is fresh
  (`AppendKeepsUnique`).

## Model

| member | source | states |
|---|---|---|
| Lists.Filter | src/App.js:114-116 | the result is no longer than the input and holds exactly the input elements the predicate accepts |
| Lists.Map | src/App.js:97-99 | the result has the input's length and holds at each position the function applied to the input element there |
| Lists.FilterIsSubsequence | src/App.js:114-116 | a filtered sequence is a subsequence of its input, so its relative order is kept |
| Lists.FilterCount | src/App.js:114-116 | each accepted element occurs as often as in the input; each rejected element does not occur |
| Lists.FilterConcat | src/App.js:112-116 | filtering a concatenation gives the concatenation of the two filtered parts |
| Lists.FilterAllKept | src/App.js:76 | a filter that accepts every element returns its input unchanged |
| Text.LowerChar | src/App.js:115 | the result is never an upper-case ASCII letter; `A`..`Z` move to `a`..`z`; every other character is kept |
| Text.Lower | src/App.js:115 | the length is kept; each `A`..`Z` becomes the matching `a`..`z` in place; every other character is kept in place; no upper-case ASCII letter remains |
| Text.Includes | src/App.js:115 | true exactly when the needle occurs at some index of the haystack; the empty needle occurs in every string |
| Text.MissingChar | src/App.js:115 | a needle with a character the haystack lacks is not included in it |
| Roster.FilteredPlayers | src/App.js:112-116 | for `alle`, the whole roster unchanged; for any other filter, exactly the players whose lower-cased position includes the lower-cased filter; never longer than the roster |
| Roster.FilteredPlayersKeepsOrder | src/App.js:112-116 | the displayed list is a subsequence of the roster, and each shown player appears as often as in the roster |
| Roster.FilteredPlayersAppend | src/App.js:112-116 | after an append, the displayed list is the old one plus the new player exactly when the new player passes the filter |
| Roster.PositionFilterIsExact | src/App.js:143 | when every position comes from the select options, a position filter shows exactly the players with that position |
| Roster.PositionsDistinct | src/App.js:210-213 | among `Torwart`, `Abwehr`, `Mittelfeld` and `Sturm`, one lower-cased position includes another only when they are the same |
| Roster.RemoveById | src/App.js:76 | the result holds exactly the roster's players whose id differs from the deleted id, and is no longer than the roster |
| Roster.RemoveByIdKeepsOthers | src/App.js:76 | after a delete, the survivors keep their relative order and their multiplicities; players with the deleted id are gone |
| Roster.RemoveByIdLength | src/App.js:75-76 | with unique ids, deleting a present id removes exactly one record, and deleting an absent id leaves the roster as it was |
| Roster.RemoveByIdKeepsUnique | src/App.js:76 | deleting keeps ids unique |
| Roster.ReplaceById | src/App.js:97-99 | length and ids are kept at each position; records with another id are unchanged; records with the returned id become the returned player |
| Roster.ReplaceByIdResult | src/App.js:97-99 | the returned player is in the new roster exactly when its id was present, and it is then the only record with that id |
| Roster.ReplaceByIdKeepsUnique | src/App.js:97-99 | an update keeps ids unique |
| Roster.AppendKeepsUnique | src/App.js:49-50 | on a roster with unique ids, appending keeps ids unique exactly when the appended id is fresh, and a fresh player then occurs exactly once |
| Roster.FilterScenario | src/App.js:112-116 | a roster holding only a `Sturm` player shows nothing under the `Abwehr` filter |
| AppState.App.constructor | src/App.js:5-14 | initial state: empty roster, loading, the empty draft with position `Torwart`, no edit, and filter `alle` (the filter's initial value is set at `src/App.js:110`) |
| AppState.App.Shown | src/App.js:112-116 | the displayed cards of the current state: the whole roster under `alle`, otherwise exactly the players whose position includes the filter ignoring case, always a subsequence of the roster |
| AppState.ShownByPosition | src/App.js:143-147 | in a valid state whose roster positions are select options, a position button shows exactly the players with that position |
| AppState.App.FetchPlayers | src/App.js:24-36 | issues the list request; loading ends false whatever happens; the roster becomes the parsed body, or empty after an error |
| AppState.App.AddPlayer | src/App.js:39-64 | sends the current draft; on ok, appends the returned player and resets the draft; on a non-ok status or an error, roster and draft stay unchanged |
| AppState.App.DeletePlayer | src/App.js:67-83 | a declined confirmation sends nothing and changes nothing; on ok, applies remove-by-id; otherwise the roster stays unchanged |
| AppState.App.UpdatePlayer | src/App.js:86-107 | sends the edited player under its own id; on ok, applies replace-by-id with the returned player and ends editing; otherwise roster and edit state stay unchanged; with nothing being edited it sends nothing |
| AppState.App.StartEdit | src/App.js:164 | editing starts on a copy of the selected player |
| AppState.App.CancelEdit | src/App.js:275 | editing ends and nothing else changes |
| AppState.App.SetFilter | src/App.js:147 | the filter becomes the pressed button's value, one of `alle` and the four positions |
| AppState.App.EditDraft | src/App.js:198-239 | exactly the edited draft field takes the typed value |
| AppState.App.EditName | src/App.js:256 | only the edited player's name changes |
| AppState.App.EditPosition | src/App.js:260-262 | only the edited player's position changes, to one of the select options |

## Left out

- HTTP itself is left out: `fetch`, methods, headers, URLs, `process.env`,
  `response.json()` and `JSON.stringify`. Each call is replaced by its outcome,
  given as a parameter.
- `alert`, `window.confirm` and `console.error` are left out. The confirmation is
  the boolean `confirmed`.
- JSX rendering is left out: the loading screen, card layout, CSS classes and the
  footer clock.
- Asynchrony is left out. Each handler runs atomically on the current state,
  so the `players` value captured by a handler's closure before its `await` cannot
  go stale in the model.
- The browser's `min`, `max` and `required` input checks are left out. The draft
  fields are plain text.
- Text.Lower: lower-cases only ASCII `A`..`Z`, not the full Unicode mapping of
  `toLowerCase`. The filter values and positions are ASCII.
- A list body that is not an array is not modelled. `Loaded` always carries a
  sequence of players.
- Where a player came from the server with a position outside the four options,
  `FilteredPlayers` still applies to it. Only `PositionFilterIsExact` and
  `ShownByPosition` assume the four options.
- Create and update bodies are taken to be player records. `Ok` always carries a
  `Player`. The code accepts whatever `response.json()` yields. A `null` body, or
  one without `_id`, is not modelled.
