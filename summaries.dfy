/** `get_single_user_data` (pick the one summary the API returned) and
    `get_player_status` (reshape it into a one-entry status table). The HTTP
    request is replaced by the `players` list of the reply. */
module Summaries {
  import opened Wrappers
  import opened Players

  /** What `get_player_status` reports for one player; `None` stands for the
      Python `False` placed in `playing` and `has_lobby`. */
  datatype Status = Status(
    playing: Option<string>,
    steamid: string,
    hasLobby: Option<string>,
    visibility: int)

  /** `response['response']['players'][0]`, with the `IndexError` of an empty
      list replaced by one saying the steamid was not found. */
  function GetSingleUserData(players: seq<Player>): (r: Result<Player, Error>)
    ensures r.Err? <==> |players| == 0
    ensures r.Err? ==> r.error == IndexError(NotFoundMessage)
    ensures r.Ok? ==> r.value == players[0]
  {
    if |players| == 0 then Err(IndexError(NotFoundMessage)) else Ok(players[0])
  }

  /** The keys the status expression reads by subscript and finds absent, in
      the order Python evaluates them. */
  function MissingStatusFields(p: Player): seq<string> {
    (if p.personaname.None? then ["personaname"] else [])
    + (if p.steamid.None? then ["steamid"] else [])
    + (if p.lobbysteamid.Some? && p.gameid.None? then ["gameid"] else [])
    + (if p.communityvisibilitystate.None? then ["communityvisibilitystate"] else [])
  }

  /** `{personaname: {'playing': ..., 'steamid': ..., 'has_lobby': ...,
      'visibility': ...}}` for one player record. */
  function StatusOf(p: Player): (r: Result<map<string, Status>, Error>)
    ensures r.Err? <==> MissingStatusFields(p) != []
    ensures r.Err? ==> r.error == KeyError(MissingStatusFields(p)[0])
    ensures r.Ok? ==> r.value.Keys == {p.personaname.value}
    ensures r.Ok? ==> var s := r.value[p.personaname.value];
      && s.steamid == p.steamid.value
      && s.visibility == p.communityvisibilitystate.value
      && s.playing == p.gameextrainfo
      && (s.hasLobby.Some? <==> p.lobbysteamid.Some?)
      && (s.hasLobby.Some? ==> s.hasLobby.value == JoinLink(p.gameid.value, p.lobbysteamid.value))
  {
    var name :- Field(p.personaname, "personaname");
    var playing := p.gameextrainfo;
    var steamid :- Field(p.steamid, "steamid");
    var hasLobby :- if p.lobbysteamid.Some? then
        var gameid :- Field(p.gameid, "gameid");
        Ok(Some(JoinLink(gameid, p.lobbysteamid.value)))
      else Ok(None);
    var visibility :- Field(p.communityvisibilitystate, "communityvisibilitystate");
    Ok(map[name := Status(playing, steamid, hasLobby, visibility)])
  }

  /** `get_player_status` on the reply's player list. */
  function GetPlayerStatus(players: seq<Player>): (r: Result<map<string, Status>, Error>)
    ensures |players| == 0 ==> r == Err(IndexError(NotFoundMessage))
    ensures |players| > 0 ==> r == StatusOf(players[0])
  {
    var player :- GetSingleUserData(players);
    StatusOf(player)
  }

  /** A player outside any game and lobby reports `False` for both. */
  lemma IdlePlayerStatus(p: Player)
    requires p.personaname.Some? && p.steamid.Some? && p.communityvisibilitystate.Some?
    requires p.gameextrainfo.None? && p.lobbysteamid.None?
    ensures StatusOf(p).Ok?
    ensures StatusOf(p).value[p.personaname.value].playing.None?
    ensures StatusOf(p).value[p.personaname.value].hasLobby.None?
  {
  }

  lemma LobbyStatusExample()
    ensures var p := Player(Some("alice"), Some("76561198000000000"), Some(3), Some("Counter-Strike 2"), Some("730"), Some("555"));
      StatusOf(p) == Ok(map["alice" := Status(Some("Counter-Strike 2"), "76561198000000000", Some("steam://joinlobby/730/555"), 3)])
  {
    var p := Player(Some("alice"), Some("76561198000000000"), Some(3), Some("Counter-Strike 2"), Some("730"), Some("555"));
    JoinLinkExample();
    var r := StatusOf(p);
    assert r.Ok? && r.value.Keys == {"alice"};
  }

  /** A lobby player without a game id cannot be reported. */
  lemma LobbyWithoutGameIdFails(p: Player)
    requires p.personaname.Some? && p.steamid.Some?
    requires p.lobbysteamid.Some? && p.gameid.None?
    ensures StatusOf(p) == Err(KeyError("gameid"))
  {
  }
}
