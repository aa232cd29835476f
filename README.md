# Steam lobby wrapper, modelled in Dafny

A model of the data transformations in `wrapper.py`, the `Lobby` client of a
thin wrapper around the Steam Web API. The HTTP requests are not modelled.
Each operation instead takes the part of the API's reply that it uses, as a
plain input:

- **Profile-reference parsing** (`Lobby.convert_url_to_steamid`). A raw
  steamid, a profile URL or a custom name is reduced to a candidate. If the
  candidate is already a numeric steamid the result is `Numeric(id)`;
  otherwise it is `NeedsLookup(name)`, the vanity name that would be sent to
  `ResolveVanityURL`.
- **Summary picking** (`get_single_user_data`) returns the first record of the
  reply's `players` list, or fails with `IndexError("steamid not found!")`.
- **Status reshaping** (`get_player_status`) turns one player record into a
  one-entry map: display name → `playing`, `steamid`, `has_lobby`,
  `visibility`.
- **Lobby aggregation** (`get_all_current_lobbies`) folds the reply's player
  list into a nested table: game name → join address → display name → steamid.
  Only players in a lobby are included, and players of the same lobby are
  merged.

Files:
- `wrappers.dfy`: `Option` and the failure-compatible `Result`.
- `text.dfy`: `isdecimal`, `split` and `join` on one separator.
- `profile_reference.dfy`: the reference parser.
- `players.dfy`: the player record, the `KeyError`/`IndexError` exceptions, and
  the join address `steam://joinlobby/<gameid>/<lobbysteamid>`. Both the status
  and the aggregation use this one `JoinLink` function.
- `summaries.dfy`: summary picking and status reshaping.
- `lobbies.dfy`: the aggregation. `Aggregate` is a functional left fold.
  `GetAllCurrentLobbies` is the source's loop with its in-place nested updates,
  and it is proved equal to `Aggregate`.

Modelling choices:
- A player record is a datatype with one `Option` field per key the code
  reads. A missing key is `None`, and subscripting it gives `KeyError(key)`.
  When a record lacks several keys, the `KeyError` names the first one in the
  order Python evaluates the expression.
- `playing` and `has_lobby` are `Option<string>`. `None` stands for Python's
  `False`.
- The `Lobby` object holds a key, an endpoint and the registry, and never
  changes them. Those fields feed only the HTTP requests, so the model has no
  class. The aggregation loop changes only a local dictionary, which is a local
  `map` variable of the method. Each inner dictionary is created fresh and
  belongs to exactly one outer entry, so value semantics lose no aliasing.

Where the source and the prose description differ, the model follows the code:
- The code drops exactly one trailing `/`, so `"a//"` yields the empty candidate.
- The join address is `steam://joinlobby/<gameid>/<lobbysteamid>`, prefix
  included.
- The aggregate does not always ignore the order of the reply. Two players with
  the same game, address and display name collide, and the later one's steamid
  is kept (`Lobbies.SameNameLaterWins`). Order independence holds only when
  there is no such collision (`Lobbies.AggregateOrderIndependent`).

## Model

| member | source | states |
|---|---|---|
| `Text.Split` | wrapper.py:31 | `split('/')` gives at least one piece; no piece contains the separator; joining the pieces gives back the input |
| `Text.SplitJoin` | wrapper.py:31 | splitting undoes joining when no piece contains the separator |
| `Text.IsDecimal` | wrapper.py:32 | `isdecimal` holds only of a non-empty string of digits, which therefore contains no `/` |
| `Text.LastPieceFollowsLastSep` | wrapper.py:31 | the last piece of `split('/')` is the suffix after the last separator, or the whole string when there is none |
| `Text.LastSegment` | wrapper.py:31 | `split('/')[-1]` contains no separator, is a suffix of the input, is the whole input exactly when the input has no separator, and otherwise is preceded by a separator |
| `Text.LastSegmentOfSuffix` | wrapper.py:31 | for `prefix + '/' + tail` with no separator in `tail`, the last segment is `tail` |
| `ProfileReference.Trimmed` | wrapper.py:29-30 | the trimmed reference is a prefix of the input, one character shorter exactly when the input ends in `/`, and otherwise the whole input |
| `ProfileReference.Candidate` | wrapper.py:28-31 | the candidate contains no `/`; with no `/` in the input it is the whole input; otherwise it is the suffix of the trimmed input after its last `/` |
| `ProfileReference.ConvertUrlToSteamid` | wrapper.py:28-37 | the carried string is the whole input when it has no `/`, and otherwise the `/`-free text after the last `/` of the input stripped of one trailing `/`; the result is `Numeric` exactly when that string is all decimal digits, and `NeedsLookup` (vanity resolution) otherwise |
| `ProfileReference.NumericReferenceUnchanged` | wrapper.py:28-33 | an input with no `/` that is all digits is returned unchanged, and no lookup is requested |
| `ProfileReference.VanityNameUnchanged` | wrapper.py:28-37 | an input with no `/` that is not all digits goes to vanity resolution unchanged |
| `ProfileReference.CandidateFollowsLastSlash` | wrapper.py:28-31 | with a `/` present, exactly one trailing `/` is removed and the candidate is the text after the last remaining `/` |
| `ProfileReference.ProfileUrlCandidate` | wrapper.py:28-31 | `<prefix>/<id>/` yields `<id>`; so does `<prefix>/<id>` when `<id>` is non-empty |
| `ProfileReference.ProfileUrlNumeric` | wrapper.py:28-33 | a profile URL ending in a numeric id, with or without a trailing `/`, resolves to that id with no lookup |
| `ProfileReference.ProfileUrlExample` | wrapper.py:28-33 | `"https://x/y/76561198000000000/"` yields `Numeric("76561198000000000")` |
| `ProfileReference.DoubleSlashNeedsLookupOfEmpty` | wrapper.py:29-37 | an input ending in `//` gives an empty candidate, which goes to vanity resolution |
| `ProfileReference.DoubleSlashExample` | wrapper.py:29-37 | `"a//"` yields `NeedsLookup("")` |
| `Players.Field` | wrapper.py:77-81 | subscripting a record gives the field's value, or `KeyError` naming the missing key |
| `Players.JoinLink` | wrapper.py:60 | the join address (the same function builds it at wrapper.py:82) is `steam://joinlobby/`, then the game id, then `/`, then the lobby id, each at its fixed position |
| `Players.ParseJoinLinkInverse` | wrapper.py:60 | a join address built from a game id without `/` parses back to its game id and lobby id |
| `Players.ParseJoinLinkSound` | wrapper.py:82 | every address that parses is the join address of the pair it parses to |
| `Players.JoinLinkInjective` | wrapper.py:82 | two join addresses are equal exactly when their game ids and lobby ids are equal (game ids contain no `/`) |
| `Players.JoinLinkExample` | wrapper.py:60 | game id `730` and lobby `555` give `steam://joinlobby/730/555` |
| `Summaries.GetSingleUserData` | wrapper.py:47-50 | fails with `IndexError("steamid not found!")` exactly when the list is empty; otherwise returns element 0 |
| `Summaries.StatusOf` | wrapper.py:56-63 | fails with `KeyError` on the first missing key in evaluation order (`gameid` counts only under a lobby). On success the map has exactly one key, the `personaname`; `steamid` and `visibility` come from `steamid` and `communityvisibilitystate`; `playing` is `gameextrainfo` or `False`; `has_lobby` is set exactly when `lobbysteamid` is present, and then it is the join address |
| `Summaries.GetPlayerStatus` | wrapper.py:52-63 | an empty reply raises the not-found error; otherwise the result is the status of the first player |
| `Summaries.IdlePlayerStatus` | wrapper.py:58-60 | a player with neither `gameextrainfo` nor `lobbysteamid` gets `playing` and `has_lobby` both `False` |
| `Summaries.LobbyStatusExample` | wrapper.py:56-63 | a complete player with `gameid` `730` and `lobbysteamid` `555` gets `has_lobby` `steam://joinlobby/730/555` |
| `Summaries.LobbyWithoutGameIdFails` | wrapper.py:60 | a record with `lobbysteamid` but no `gameid` raises `KeyError("gameid")` |
| `Lobbies.Insert` | wrapper.py:84-90 | the nested update sets one game/address/name entry, changes no other lookup, and keeps every game and address entry non-empty |
| `Lobbies.InsertOnlyAdds` | wrapper.py:84-90 | the update only adds the one game and the one address; every other game and every other lobby of that game is unchanged |
| `Lobbies.EntryOf` | wrapper.py:76-82 | a player contributes an entry exactly when it has `lobbysteamid` and none of the keys the loop reads is missing |
| `Lobbies.Step` | wrapper.py:76-90 | a player without `lobbysteamid` changes nothing; otherwise the step fails with `KeyError` on the first missing key, or inserts the player's entry |
| `Lobbies.Aggregate` | wrapper.py:73-92 | every table the fold produces has only non-empty game and address entries |
| `Lobbies.GetAllCurrentLobbies` | wrapper.py:73-92 | the loop over the players, with its in-place nested updates, returns exactly the fold `Aggregate`, and its table is well formed |
| `Lobbies.AggregateErrorIsFinal` | wrapper.py:75-81 | once a prefix of the list raises, the whole call raises the same error |
| `Lobbies.AggregateSucceeds` | wrapper.py:75-81 | the call succeeds exactly when every lobby player has `gameextrainfo`, `gameid`, `personaname` and `steamid` |
| `Lobbies.AggregateFirstError` | wrapper.py:76-81 | a failing call raises `KeyError` for the first missing key of the first lobby player that lacks one |
| `Lobbies.AggregateLookup` | wrapper.py:75-92 | every lookup in the finished table equals the reference `LastEntry`: the steamid of the last lobby player with that game, address and name |
| `Lobbies.NoLobbyPlayersNoLobbies` | wrapper.py:73-76 | a list without lobby players, including the empty list, yields the empty table |
| `Lobbies.LobbyPlayers` | wrapper.py:75-76 | the filtered list holds exactly the input's players that have `lobbysteamid`, and is no longer than the input |
| `Lobbies.AggregateFilter` | wrapper.py:75-76 | removing every player without `lobbysteamid` leaves the result, value or error, unchanged |
| `Lobbies.EntriesComeFromLobbyPlayers` | wrapper.py:76-90 | every entry in the table was contributed by some lobby player with exactly that game, address, name and steamid |
| `Lobbies.EveryLobbyPlayerListed` | wrapper.py:84-90 | every lobby player appears under its game, address and name, with its own steamid unless a later player has the same three |
| `Lobbies.SharedLobbyAccumulates` | wrapper.py:85-86 | two players with the same game and lobby both appear, each under its own display name, in one inner map |
| `Lobbies.ProcessLobbyPlayer` | wrapper.py:82-90 | after one more lobby player, `lobbies[game][link][name] == steamid`; every other entry keeps its value and no key disappears |
| `Lobbies.MergeExample` | wrapper.py:84-90 | two players in one lobby plus one player outside any lobby give one game, one address and two names |
| `Lobbies.StatusLinkIsLobbyKey` | wrapper.py:60 | the `has_lobby` of a player's status is the address the aggregation files that player under |
| `Lobbies.AggregateOrderIndependent` | wrapper.py:75-92 | if no two players collide on game, address and name with different steamids, the table depends only on which players were returned, not their order or repetition |
| `Lobbies.SameNameLaterWins` | wrapper.py:86 | two players with one name in one lobby: whichever comes later keeps its steamid |

## Left out

- `Lobby.get_request` (wrapper.py:12-23): the aiohttp session, its timeout, redirects and text/json/bytes decoding are I/O in a library outside this model.
- The HTTP requests and JSON decoding (wrapper.py:35-40, 44-46, 68-72) are left out. Each operation takes the reply's data as an input instead: the `players` list, or the `NeedsLookup` outcome in place of the vanity request.
- Reading `response['response']['steamid']` after the vanity request (wrapper.py:40) is a field read on the external reply. A missing field there is not modelled.
- Missing `response` or `players` keys in the reply (wrapper.py:48, 72) are not modelled, because the list is given directly.
- The identifier list (wrapper.py:67) and the batch URL built from its Python `repr` (wrapper.py:69) are not modelled. Only the resulting player list enters the model.
- The constructor (wrapper.py:5-9) only stores the key, the endpoint and the registry, which only the requests use.
- `async`/`await` and concurrent callers do not affect these transformations.
- `Text.IsDecimal` accepts only the ASCII digits `0`-`9`. Python's `str.isdecimal` also accepts other Unicode decimal digits.
- Record values have fixed types: strings, and an integer for `communityvisibilitystate`. So the f-string rendering of non-string JSON values, and `TypeError` for unhashable keys, are not modelled.
- Python dictionaries keep insertion order. Dafny `map`s have no key order, so the model does not record it.
