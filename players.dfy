/** One player summary as the GetPlayerSummaries endpoint returns it, the
    errors the Python code raises on it, and the lobby join address that both
    `get_player_status` and `get_all_current_lobbies` build from it. */
module Players {
  import opened Wrappers
  import Text

  /** The fields of a player summary that the wrapper reads. A field the
      reply leaves out is `None`; the other fields of the reply are never read. */
  datatype Player = Player(
    personaname: Option<string>,
    steamid: Option<string>,
    communityvisibilitystate: Option<int>,
    gameextrainfo: Option<string>,
    gameid: Option<string>,
    lobbysteamid: Option<string>)

  /** The exceptions of the modelled code: a missing dictionary key, and the
      re-raised `IndexError` of an empty player list. */
  datatype Error = KeyError(key: string) | IndexError(message: string)

  const NotFoundMessage: string := "steamid not found!"

  /** `player[name]`: the field's value, or `KeyError(name)` when it is absent. */
  function Field<T>(o: Option<T>, name: string): (r: Result<T, Error>)
    ensures r.Ok? <==> o.Some?
    ensures r.Ok? ==> r.value == o.value
    ensures r.Err? ==> r.error == KeyError(name)
  {
    match o
    case Some(v) => Ok(v)
    case None => Err(KeyError(name))
  }

  const JoinLobbyPrefix: string := "steam://joinlobby/"

  /** `f'steam://joinlobby/{gameid}/{lobbysteamid}'`, shared by both callers:
      the prefix, then the game id, then a `/`, then the lobby id. */
  function JoinLink(gameid: string, lobbysteamid: string): (link: string)
    ensures |link| == |JoinLobbyPrefix| + |gameid| + 1 + |lobbysteamid|
    ensures link[..|JoinLobbyPrefix|] == JoinLobbyPrefix
    ensures link[|JoinLobbyPrefix|..|JoinLobbyPrefix| + |gameid|] == gameid
    ensures link[|JoinLobbyPrefix| + |gameid|] == '/'
    ensures link[|JoinLobbyPrefix| + |gameid| + 1..] == lobbysteamid
  {
    var link := JoinLobbyPrefix + gameid + "/" + lobbysteamid;
    link
  }

  /** Reads a join address back into its game id and lobby id; the game id is
      the text up to the first `/` after the prefix. */
  function ParseJoinLink(link: string): Option<(string, string)> {
    var n := |JoinLobbyPrefix|;
    if |link| < n || link[..n] != JoinLobbyPrefix then None
    else
      var rest := link[n..];
      if '/' !in rest then None
      else
        var i := Text.IndexOf(rest, '/');
        Some((rest[..i], rest[i + 1..]))
  }

  /** A join address built from a game id without `/` parses back to the
      pair it was built from. */
  lemma ParseJoinLinkInverse(gameid: string, lobbysteamid: string)
    requires '/' !in gameid
    ensures ParseJoinLink(JoinLink(gameid, lobbysteamid)) == Some((gameid, lobbysteamid))
  {
    var link := JoinLink(gameid, lobbysteamid);
    var n := |JoinLobbyPrefix|;
    assert link[..n] == JoinLobbyPrefix;
    var rest := link[n..];
    assert rest == gameid + "/" + lobbysteamid;
    assert rest[..|gameid|] == gameid;
    Text.IndexOfUnique(rest, '/', |gameid|);
    assert rest[|gameid| + 1..] == lobbysteamid;
  }

  /** Every address that parses is the join address of what it parses to. */
  lemma ParseJoinLinkSound(link: string, gameid: string, lobbysteamid: string)
    requires ParseJoinLink(link) == Some((gameid, lobbysteamid))
    ensures '/' !in gameid
    ensures JoinLink(gameid, lobbysteamid) == link
  {
    var n := |JoinLobbyPrefix|;
    var rest := link[n..];
    var i := Text.IndexOf(rest, '/');
    assert rest[..i] + "/" + rest[i + 1..] == rest;
    assert link == link[..n] + rest;
  }

  /** Two players share a join address exactly when they share game id and
      lobby id (game ids carry no `/`). */
  lemma JoinLinkInjective(g1: string, l1: string, g2: string, l2: string)
    requires '/' !in g1 && '/' !in g2
    ensures JoinLink(g1, l1) == JoinLink(g2, l2) <==> g1 == g2 && l1 == l2
  {
    if JoinLink(g1, l1) == JoinLink(g2, l2) {
      ParseJoinLinkInverse(g1, l1);
      ParseJoinLinkInverse(g2, l2);
    }
  }

  lemma JoinLinkExample()
    ensures JoinLink("730", "555") == "steam://joinlobby/730/555"
  {
  }
}
