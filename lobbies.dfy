/** `get_all_current_lobbies`: the reply's player list is folded into a
    three-level table, game name -> join address -> display name -> steamid,
    keeping only players that are in a lobby and merging players of one lobby.
    `Aggregate` is the fold as a function; `GetAllCurrentLobbies` is the loop
    of the source, proved equal to it. */
module Lobbies {
  import opened Wrappers
  import opened Players
  import Summaries

  type Names = map<string, string>   // display name -> steamid
  type Links = map<string, Names>    // join address -> players in that lobby
  type Table = map<string, Links>    // game name -> its lobbies

  /** No game has an empty set of lobbies and no lobby an empty set of players. */
  predicate WellFormed(t: Table) {
    forall game :: game in t ==>
      t[game] != map[] && forall link :: link in t[game] ==> t[game][link] != map[]
  }

  /** `lobbies[game][link][name]`, if all three keys are present. */
  function Lookup(t: Table, game: string, link: string, name: string): Option<string> {
    if game in t && link in t[game] && name in t[game][link] then Some(t[game][link][name])
    else None
  }

  /** The nested update of one player: a new game, a new lobby of a known game,
      or one more (or a replaced) name in a known lobby. */
  function Insert(t: Table, game: string, link: string, name: string, steamid: string): (r: Table)
    ensures forall g, l, n {:trigger Lookup(r, g, l, n)} ::
      Lookup(r, g, l, n) == if g == game && l == link && n == name then Some(steamid) else Lookup(t, g, l, n)
    ensures WellFormed(t) ==> WellFormed(r)
  {
    var single: Names := map[name := steamid];
    assert name in single;
    if game in t then
      if link in t[game] then t[game := t[game][link := t[game][link][name := steamid]]]
      else t[game := t[game][link := single]]
    else
      var links: Links := map[link := single];
      assert link in links;
      t[game := links]
  }

  /** The update only adds: it keeps every game, every address of every game
      and every other lobby as they were. */
  lemma InsertOnlyAdds(t: Table, game: string, link: string, name: string, steamid: string)
    ensures var r := Insert(t, game, link, name, steamid);
      && r.Keys == t.Keys + {game}
      && r[game].Keys == (if game in t then t[game].Keys else {}) + {link}
      && (forall g :: g in t && g != game ==> r[g] == t[g])
      && (forall l :: game in t && l in t[game] && l != link ==> r[game][l] == t[game][l])
  {
    var r := Insert(t, game, link, name, steamid);
    if game in t {
      assert r[game].Keys == t[game].Keys + {link};
    } else {
      assert r[game].Keys == {link};
    }
  }

  /** The keys a lobby player lacks, in the order the loop body reads them. */
  function MissingLobbyFields(p: Player): seq<string> {
    (if p.gameextrainfo.None? then ["gameextrainfo"] else [])
    + (if p.gameid.None? then ["gameid"] else [])
    + (if p.personaname.None? then ["personaname"] else [])
    + (if p.steamid.None? then ["steamid"] else [])
  }

  /** A player the loop gets through: not in a lobby, or carrying every field. */
  predicate Admissible(p: Player) {
    p.lobbysteamid.Some? ==> MissingLobbyFields(p) == []
  }

  datatype Entry = Entry(game: string, link: string, name: string, steamid: string)

  /** The entry a player contributes, if it is in a lobby and has every field. */
  function EntryOf(p: Player): (e: Option<Entry>)
    ensures e.Some? <==> p.lobbysteamid.Some? && MissingLobbyFields(p) == []
  {
    if p.lobbysteamid.Some? && p.gameextrainfo.Some? && p.gameid.Some? && p.personaname.Some? && p.steamid.Some? then
      Some(Entry(p.gameextrainfo.value, JoinLink(p.gameid.value, p.lobbysteamid.value),
                 p.personaname.value, p.steamid.value))
    else None
  }

  predicate HasKey(p: Player, game: string, link: string, name: string) {
    var e := EntryOf(p);
    e.Some? && e.value.game == game && e.value.link == link && e.value.name == name
  }

  /** One iteration of the loop body. */
  function Step(t: Table, p: Player): (r: Result<Table, Error>)
    ensures p.lobbysteamid.None? ==> r == Ok(t)
    ensures r.Ok? <==> Admissible(p)
    ensures r.Err? ==> r.error == KeyError(MissingLobbyFields(p)[0])
    ensures r.Ok? && EntryOf(p).Some? ==>
      var e := EntryOf(p).value; r.value == Insert(t, e.game, e.link, e.name, e.steamid)
  {
    if p.lobbysteamid.None? then Ok(t)
    else
      var gameextrainfo :- Field(p.gameextrainfo, "gameextrainfo");
      var gameid :- Field(p.gameid, "gameid");
      var lobbysteamid := p.lobbysteamid.value;
      var personaname :- Field(p.personaname, "personaname");
      var steamid :- Field(p.steamid, "steamid");
      Ok(Insert(t, gameextrainfo, JoinLink(gameid, lobbysteamid), personaname, steamid))
  }

  /** The loop as a left fold from the empty table: the first error ends it. */
  function Aggregate(ps: seq<Player>): (r: Result<Table, Error>)
    ensures r.Ok? ==> WellFormed(r.value)
  {
    if ps == [] then Ok(map[])
    else
      var t :- Aggregate(ps[..|ps| - 1]);
      Step(t, ps[|ps| - 1])
  }

  /** Reference for the finished table: the steamid of the LAST complete lobby
      player with this game, join address and display name. */
  function LastEntry(ps: seq<Player>, game: string, link: string, name: string): Option<string> {
    if ps == [] then None
    else if HasKey(ps[|ps| - 1], game, link, name) then Some(EntryOf(ps[|ps| - 1]).value.steamid)
    else LastEntry(ps[..|ps| - 1], game, link, name)
  }

  /** The loop is the source's `for` over `steam_players`, the nested updates
      of lines 84-90 written out; it raises the first `KeyError` it meets. */
  method GetAllCurrentLobbies(steamPlayers: seq<Player>) returns (r: Result<Table, Error>)
    ensures r == Aggregate(steamPlayers)
    ensures r.Ok? ==> WellFormed(r.value)
  {
    var lobbies: Table := map[];
    for i := 0 to |steamPlayers|
      invariant Aggregate(steamPlayers[..i]) == Ok(lobbies)
      invariant WellFormed(lobbies)
    {
      var player := steamPlayers[i];
      assert steamPlayers[..i + 1][..i] == steamPlayers[..i];
      AggregateErrorIsFinal(steamPlayers, i + 1);
      if player.lobbysteamid.Some? {
        var gameextrainfo :- Field(player.gameextrainfo, "gameextrainfo");
        var gameid :- Field(player.gameid, "gameid");
        var lobbysteamid := player.lobbysteamid.value;
        var personaname :- Field(player.personaname, "personaname");
        var steamid :- Field(player.steamid, "steamid");
        var steamLobbyLink := JoinLink(gameid, lobbysteamid);
        if gameextrainfo in lobbies {
          if steamLobbyLink in lobbies[gameextrainfo] {
            var names := lobbies[gameextrainfo][steamLobbyLink][personaname := steamid];
            lobbies := lobbies[gameextrainfo := lobbies[gameextrainfo][steamLobbyLink := names]];
          } else {
            lobbies := lobbies[gameextrainfo := lobbies[gameextrainfo][steamLobbyLink := map[personaname := steamid]]];
          }
        } else {
          lobbies := lobbies[gameextrainfo := map[steamLobbyLink := map[personaname := steamid]]];
        }
      }
    }
    assert steamPlayers[..|steamPlayers|] == steamPlayers;
    r := Ok(lobbies);
  }

  /** Once a prefix fails, the whole list fails with the same error. */
  lemma {:induction false} AggregateErrorIsFinal(ps: seq<Player>, k: nat)
    requires k <= |ps|
    ensures Aggregate(ps[..k]).Err? ==> Aggregate(ps) == Aggregate(ps[..k])
    decreases |ps| - k
  {
    if k < |ps| && Aggregate(ps[..k]).Err? {
      assert ps[..k + 1][..k] == ps[..k];
      AggregateErrorIsFinal(ps, k + 1);
    } else if k == |ps| {
      assert ps[..k] == ps;
    }
  }

  /** The fold succeeds exactly when every player is admissible. */
  lemma {:induction false} AggregateSucceeds(ps: seq<Player>)
    ensures Aggregate(ps).Ok? <==> forall i :: 0 <= i < |ps| ==> Admissible(ps[i])
  {
    if ps != [] {
      var init := ps[..|ps| - 1];
      AggregateSucceeds(init);
      assert forall i :: 0 <= i < |init| ==> init[i] == ps[i];
    }
  }

  /** A failing fold raises the first missing key of the first player that is
      in a lobby and lacks a field. */
  lemma {:induction false} AggregateFirstError(ps: seq<Player>)
    requires Aggregate(ps).Err?
    ensures exists i :: (0 <= i < |ps| && !Admissible(ps[i])
      && (forall j :: 0 <= j < i ==> Admissible(ps[j]))
      && Aggregate(ps).error == KeyError(MissingLobbyFields(ps[i])[0]))
  {
    var init := ps[..|ps| - 1];
    assert forall i :: 0 <= i < |init| ==> init[i] == ps[i];
    if Aggregate(init).Err? {
      AggregateFirstError(init);
      var i :| 0 <= i < |init| && !Admissible(init[i])
        && (forall j :: 0 <= j < i ==> Admissible(init[j]))
        && Aggregate(init).error == KeyError(MissingLobbyFields(init[i])[0]);
      assert !Admissible(ps[i]);
    } else {
      AggregateSucceeds(init);
      assert !Admissible(ps[|ps| - 1]);
    }
  }

  /** The finished table holds, under every game, address and name, exactly
      the steamid of the last complete lobby player with those three. */
  lemma {:induction false} AggregateLookup(ps: seq<Player>, game: string, link: string, name: string)
    requires Aggregate(ps).Ok?
    ensures Lookup(Aggregate(ps).value, game, link, name) == LastEntry(ps, game, link, name)
  {
    if ps != [] {
      var init := ps[..|ps| - 1];
      var p := ps[|ps| - 1];
      AggregateLookup(init, game, link, name);
      var t := Aggregate(init).value;
      if EntryOf(p).Some? {
        var e := EntryOf(p).value;
        assert Aggregate(ps).value == Insert(t, e.game, e.link, e.name, e.steamid);
      } else {
        assert Aggregate(ps).value == t;
      }
    }
  }

  /** A player who is in no lobby passes through the loop without effect. */
  lemma {:induction false} NoLobbyPlayersNoLobbies(ps: seq<Player>)
    requires forall i :: 0 <= i < |ps| ==> ps[i].lobbysteamid.None?
    ensures Aggregate(ps) == Ok(map[])
  {
    if ps != [] {
      var init := ps[..|ps| - 1];
      assert forall i :: 0 <= i < |init| ==> init[i] == ps[i];
      NoLobbyPlayersNoLobbies(init);
    }
  }

  /** The players of the list that are in a lobby, in their order. */
  function LobbyPlayers(ps: seq<Player>): (r: seq<Player>)
    ensures forall p :: p in r <==> p in ps && p.lobbysteamid.Some?
    ensures |r| <= |ps|
  {
    if ps == [] then []
    else LobbyPlayers(ps[..|ps| - 1]) + (if ps[|ps| - 1].lobbysteamid.Some? then [ps[|ps| - 1]] else [])
  }

  /** Dropping every player without a lobby leaves the outcome unchanged. */
  lemma {:induction false} AggregateFilter(ps: seq<Player>)
    ensures Aggregate(ps) == Aggregate(LobbyPlayers(ps))
  {
    if ps != [] {
      var init := ps[..|ps| - 1];
      var p := ps[|ps| - 1];
      AggregateFilter(init);
      var kept := LobbyPlayers(init);
      if p.lobbysteamid.Some? {
        assert LobbyPlayers(ps) == kept + [p];
        assert (kept + [p])[..|kept|] == kept;
      } else {
        assert LobbyPlayers(ps) == kept;
      }
    }
  }

  lemma {:induction false} LastEntryWitness(ps: seq<Player>, game: string, link: string, name: string)
    requires LastEntry(ps, game, link, name).Some?
    ensures exists i :: (0 <= i < |ps| &&
      EntryOf(ps[i]) == Some(Entry(game, link, name, LastEntry(ps, game, link, name).value)))
  {
    var init := ps[..|ps| - 1];
    if !HasKey(ps[|ps| - 1], game, link, name) {
      LastEntryWitness(init, game, link, name);
      var i :| 0 <= i < |init| &&
        EntryOf(init[i]) == Some(Entry(game, link, name, LastEntry(init, game, link, name).value));
      assert init[i] == ps[i];
    } else {
      var e := EntryOf(ps[|ps| - 1]).value;
      assert e == Entry(game, link, name, e.steamid);
    }
  }

  lemma {:induction false} LastEntryAt(ps: seq<Player>, i: nat)
    requires i < |ps| && EntryOf(ps[i]).Some?
    requires var e := EntryOf(ps[i]).value;
      forall j :: i < j < |ps| ==> !HasKey(ps[j], e.game, e.link, e.name)
    ensures var e := EntryOf(ps[i]).value; LastEntry(ps, e.game, e.link, e.name) == Some(e.steamid)
  {
    if i < |ps| - 1 {
      var init := ps[..|ps| - 1];
      assert forall j :: 0 <= j < |init| ==> init[j] == ps[j];
      LastEntryAt(init, i);
    }
  }

  /** Every entry of the table was contributed by a complete lobby player. */
  lemma EntriesComeFromLobbyPlayers(ps: seq<Player>, game: string, link: string, name: string)
    requires Aggregate(ps).Ok?
    requires Lookup(Aggregate(ps).value, game, link, name).Some?
    ensures exists i :: (0 <= i < |ps| && ps[i].lobbysteamid.Some? &&
      EntryOf(ps[i]) == Some(Entry(game, link, name, Lookup(Aggregate(ps).value, game, link, name).value)))
  {
    AggregateLookup(ps, game, link, name);
    LastEntryWitness(ps, game, link, name);
  }

  /** Every lobby player is listed under its game, address and name, and keeps
      its own steamid there unless a later player has the same three. */
  lemma EveryLobbyPlayerListed(ps: seq<Player>, i: nat)
    requires Aggregate(ps).Ok?
    requires i < |ps| && ps[i].lobbysteamid.Some?
    ensures EntryOf(ps[i]).Some?
    ensures var e := EntryOf(ps[i]).value;
      Lookup(Aggregate(ps).value, e.game, e.link, e.name).Some?
    ensures var e := EntryOf(ps[i]).value;
      (forall j :: i < j < |ps| ==> !HasKey(ps[j], e.game, e.link, e.name)) ==>
        Lookup(Aggregate(ps).value, e.game, e.link, e.name) == Some(e.steamid)
  {
    AggregateSucceeds(ps);
    assert Admissible(ps[i]);
    var e := EntryOf(ps[i]).value;
    AggregateLookup(ps, e.game, e.link, e.name);
    var k := LastIndexWithKey(ps, i);
    LastEntryAt(ps, k);
    var last := EntryOf(ps[k]).value;
    assert last.game == e.game && last.link == e.link && last.name == e.name;
    assert LastEntry(ps, e.game, e.link, e.name) == Some(last.steamid);
    if forall j :: i < j < |ps| ==> !HasKey(ps[j], e.game, e.link, e.name) {
      assert k == i;
    }
  }

  /** The last position at or after `i` whose player has the key of `ps[i]`. */
  lemma {:induction false} LastIndexWithKey(ps: seq<Player>, i: nat) returns (k: nat)
    requires i < |ps| && EntryOf(ps[i]).Some?
    ensures i <= k < |ps| && EntryOf(ps[k]).Some?
    ensures var e := EntryOf(ps[i]).value;
      && HasKey(ps[k], e.game, e.link, e.name)
      && forall j :: k < j < |ps| ==> !HasKey(ps[j], e.game, e.link, e.name)
    decreases |ps| - i
  {
    var e := EntryOf(ps[i]).value;
    if j :| i < j < |ps| && HasKey(ps[j], e.game, e.link, e.name) {
      k := LastIndexWithKey(ps, j);
    } else {
      k := i;
    }
  }

  /** Two lobby players of the same game and lobby end up side by side in one
      inner table, each under its own display name. */
  lemma SharedLobbyAccumulates(ps: seq<Player>, i: nat, j: nat)
    requires Aggregate(ps).Ok?
    requires i < |ps| && j < |ps| && EntryOf(ps[i]).Some? && EntryOf(ps[j]).Some?
    requires ps[i].gameextrainfo == ps[j].gameextrainfo
    requires ps[i].gameid == ps[j].gameid && ps[i].lobbysteamid == ps[j].lobbysteamid
    ensures var t := Aggregate(ps).value;
      var game := ps[i].gameextrainfo.value;
      var link := JoinLink(ps[i].gameid.value, ps[i].lobbysteamid.value);
      && game in t && link in t[game]
      && ps[i].personaname.value in t[game][link] && ps[j].personaname.value in t[game][link]
  {
    EveryLobbyPlayerListed(ps, i);
    EveryLobbyPlayerListed(ps, j);
  }

  /** Processing one more lobby player sets its one entry and changes nothing
      else: every other game, address and name keeps its value, and no key
      disappears. */
  lemma ProcessLobbyPlayer(ps: seq<Player>, p: Player)
    requires Aggregate(ps).Ok? && EntryOf(p).Some?
    ensures Aggregate(ps + [p]).Ok?
    ensures var before := Aggregate(ps).value;
      var after := Aggregate(ps + [p]).value;
      var e := EntryOf(p).value;
      && after[e.game][e.link][e.name] == e.steamid
      && before.Keys <= after.Keys
      && (forall g :: g in before ==> before[g].Keys <= after[g].Keys)
      && (forall g, l, n {:trigger Lookup(after, g, l, n)} ::
            !(g == e.game && l == e.link && n == e.name) ==> Lookup(after, g, l, n) == Lookup(before, g, l, n))
  {
    assert (ps + [p])[..|ps|] == ps;
    var before := Aggregate(ps).value;
    var e := EntryOf(p).value;
    assert Aggregate(ps + [p]).value == Insert(before, e.game, e.link, e.name, e.steamid);
    InsertOnlyAdds(before, e.game, e.link, e.name, e.steamid);
  }

  /** Two players in one lobby share one game and one address, each under
      their own display name; a player in no lobby adds nothing. */
  lemma MergeExample()
    ensures var a := Player(Some("alice"), Some("1"), Some(3), Some("Dota 2"), Some("570"), Some("9"));
      var b := Player(Some("bob"), Some("2"), Some(3), Some("Dota 2"), Some("570"), Some("9"));
      var c := Player(Some("carol"), Some("4"), Some(3), None, None, None);
      Aggregate([a, c, b]) == Ok(map["Dota 2" := map["steam://joinlobby/570/9" := map["alice" := "1", "bob" := "2"]]])
  {
    var a := Player(Some("alice"), Some("1"), Some(3), Some("Dota 2"), Some("570"), Some("9"));
    var b := Player(Some("bob"), Some("2"), Some(3), Some("Dota 2"), Some("570"), Some("9"));
    var c := Player(Some("carol"), Some("4"), Some(3), None, None, None);
    var link := JoinLink("570", "9");
    assert link == "steam://joinlobby/570/9";
    assert [a, c, b][..2] == [a, c];
    assert [a, c][..1] == [a];
    assert [a][..0] == [];
    var t1 := map["Dota 2" := map[link := map["alice" := "1"]]];
    assert Aggregate([a]) == Ok(t1);
    assert Aggregate([a, c]) == Ok(t1);
    assert Aggregate([a, c, b]) == Ok(Insert(t1, "Dota 2", link, "bob", "2"));
    var names := map["alice" := "1", "bob" := "2"];
    assert map["alice" := "1"]["bob" := "2"] == names;
    assert "Dota 2" in t1 && link in t1["Dota 2"] && t1["Dota 2"][link] == map["alice" := "1"];
    assert t1["Dota 2"][link := names] == map[link := names];
    assert Insert(t1, "Dota 2", link, "bob", "2") == map["Dota 2" := map[link := names]];
  }

  /** The address under which a player is filed is the `has_lobby` value its
      status reports: both come from the one `JoinLink`. */
  lemma StatusLinkIsLobbyKey(p: Player)
    requires EntryOf(p).Some? && Summaries.StatusOf(p).Ok?
    ensures Summaries.StatusOf(p).value[p.personaname.value].hasLobby == Some(EntryOf(p).value.link)
  {
  }
  /** Two well-formed tables that agree on every lookup are the same table. */
  lemma TableExtensional(a: Table, b: Table)
    requires WellFormed(a) && WellFormed(b)
    requires forall g, l, n :: Lookup(a, g, l, n) == Lookup(b, g, l, n)
    ensures a == b
  {
    forall g | g in a ensures g in b {
      var l :| l in a[g];
      var n :| n in a[g][l];
      assert Lookup(a, g, l, n).Some?;
    }
    forall g | g in b ensures g in a {
      var l :| l in b[g];
      var n :| n in b[g][l];
      assert Lookup(b, g, l, n).Some?;
    }
    forall g | g in a ensures a[g] == b[g] {
      LinksExtensional(a, b, g);
    }
  }

  lemma LinksExtensional(a: Table, b: Table, g: string)
    requires WellFormed(a) && WellFormed(b) && g in a && g in b
    requires forall g, l, n :: Lookup(a, g, l, n) == Lookup(b, g, l, n)
    ensures a[g] == b[g]
  {
    forall l | l in a[g] ensures l in b[g] {
      var n :| n in a[g][l];
      assert Lookup(a, g, l, n).Some?;
    }
    forall l | l in b[g] ensures l in a[g] {
      var n :| n in b[g][l];
      assert Lookup(b, g, l, n).Some?;
    }
    forall l | l in a[g] ensures a[g][l] == b[g][l] {
      NamesExtensional(a, b, g, l);
    }
  }

  lemma NamesExtensional(a: Table, b: Table, g: string, l: string)
    requires g in a && g in b && l in a[g] && l in b[g]
    requires forall g, l, n :: Lookup(a, g, l, n) == Lookup(b, g, l, n)
    ensures a[g][l] == b[g][l]
  {
    forall n | n in a[g][l] ensures n in b[g][l] && a[g][l][n] == b[g][l][n] {
      assert Lookup(a, g, l, n).Some?;
    }
    forall n | n in b[g][l] ensures n in a[g][l] {
      assert Lookup(b, g, l, n).Some?;
    }
  }

  /** No two complete lobby players share game, address and display name
      while having different steamids. */
  predicate Consistent(ps: seq<Player>) {
    forall i, j ::
      (0 <= i < |ps| && 0 <= j < |ps| && EntryOf(ps[i]).Some? && EntryOf(ps[j]).Some? &&
       HasKey(ps[j], EntryOf(ps[i]).value.game, EntryOf(ps[i]).value.link, EntryOf(ps[i]).value.name)) ==>
        EntryOf(ps[i]).value.steamid == EntryOf(ps[j]).value.steamid
  }

  /** For a consistent list the reference entry is that of any player with the key. */
  lemma ConsistentLastEntry(ps: seq<Player>, i: nat)
    requires Consistent(ps) && i < |ps| && EntryOf(ps[i]).Some?
    ensures var e := EntryOf(ps[i]).value; LastEntry(ps, e.game, e.link, e.name) == Some(e.steamid)
  {
    var k := LastIndexWithKey(ps, i);
    LastEntryAt(ps, k);
  }

  /** When the list is consistent, the table depends only on which players the
      reply contains: not on their order, nor on repetitions. */
  lemma AggregateOrderIndependent(ps: seq<Player>, qs: seq<Player>)
    requires forall p :: p in ps <==> p in qs
    requires Consistent(ps) && Aggregate(ps).Ok?
    ensures Aggregate(qs) == Aggregate(ps)
  {
    AggregateSucceeds(ps);
    AggregateSucceeds(qs);
    forall i | 0 <= i < |qs| ensures Admissible(qs[i]) {
      assert qs[i] in ps;
    }
    assert Consistent(qs) by {
      forall i, j | 0 <= i < |qs| && 0 <= j < |qs| && EntryOf(qs[i]).Some? && EntryOf(qs[j]).Some? &&
        HasKey(qs[j], EntryOf(qs[i]).value.game, EntryOf(qs[i]).value.link, EntryOf(qs[i]).value.name)
        ensures EntryOf(qs[i]).value.steamid == EntryOf(qs[j]).value.steamid
      {
        assert qs[i] in ps && qs[j] in ps;
      }
    }
    var a := Aggregate(ps).value;
    var b := Aggregate(qs).value;
    forall g, l, n ensures Lookup(a, g, l, n) == Lookup(b, g, l, n) {
      AggregateLookup(ps, g, l, n);
      AggregateLookup(qs, g, l, n);
      if LastEntry(ps, g, l, n).Some? {
        LastEntryWitness(ps, g, l, n);
        var i :| 0 <= i < |ps| && EntryOf(ps[i]) == Some(Entry(g, l, n, LastEntry(ps, g, l, n).value));
        assert ps[i] in qs;
        var j :| 0 <= j < |qs| && qs[j] == ps[i];
        ConsistentLastEntry(qs, j);
      } else if LastEntry(qs, g, l, n).Some? {
        LastEntryWitness(qs, g, l, n);
        var j :| 0 <= j < |qs| && EntryOf(qs[j]) == Some(Entry(g, l, n, LastEntry(qs, g, l, n).value));
        assert qs[j] in ps;
        var i :| 0 <= i < |ps| && ps[i] == qs[j];
        ConsistentLastEntry(ps, i);
        assert false;
      }
    }
    TableExtensional(a, b);
  }

  /** Without consistency order matters: of two players with one display name
      in one lobby, the later one's steamid is kept. */
  lemma SameNameLaterWins()
    ensures var a := Player(Some("sam"), Some("1"), Some(3), Some("Dota 2"), Some("570"), Some("9"));
      var b := Player(Some("sam"), Some("2"), Some(3), Some("Dota 2"), Some("570"), Some("9"));
      && Aggregate([a, b]).Ok? && Aggregate([b, a]).Ok?
      && Lookup(Aggregate([a, b]).value, "Dota 2", JoinLink("570", "9"), "sam") == Some("2")
      && Lookup(Aggregate([b, a]).value, "Dota 2", JoinLink("570", "9"), "sam") == Some("1")
  {
    var a := Player(Some("sam"), Some("1"), Some(3), Some("Dota 2"), Some("570"), Some("9"));
    var b := Player(Some("sam"), Some("2"), Some(3), Some("Dota 2"), Some("570"), Some("9"));
    assert [a, b][..1] == [a] && [b, a][..1] == [b];
    assert [a][..0] == [] && [b][..0] == [];
    var link := JoinLink("570", "9");
    assert Aggregate([a]) == Ok(Insert(map[], "Dota 2", link, "sam", "1"));
    assert Aggregate([b]) == Ok(Insert(map[], "Dota 2", link, "sam", "2"));
    assert Aggregate([a, b]) == Ok(Insert(Aggregate([a]).value, "Dota 2", link, "sam", "2"));
    assert Aggregate([b, a]) == Ok(Insert(Aggregate([b]).value, "Dota 2", link, "sam", "1"));
  }
}
