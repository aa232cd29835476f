/** The parsing half of `Lobby.convert_url_to_steamid`: a profile reference
    (a raw steamid, a profile URL or a custom name) is reduced to a candidate,
    which is either already a numeric steamid or must be resolved as a vanity
    name by the remote API. The remote lookup itself is the `NeedsLookup`
    outcome. */
module ProfileReference {
  import Text

  datatype Reference =
    | Numeric(steamid: string)      // returned unchanged, no request made
    | NeedsLookup(vanity: string)   // passed to ResolveVanityURL as `vanityurl`

  /** The reference without one trailing `/`, when it contains a `/` at all. */
  function Trimmed(url: string): (u: string)
    requires '/' in url
    ensures |u| <= |url| && u == url[..|u|]
    ensures |u| == |url| - 1 <==> url[|url| - 1] == '/'
    ensures |u| == |url| <==> url[|url| - 1] != '/'
  {
    if url[|url| - 1] == '/' then url[..|url| - 1] else url
  }

  /** The text handed to `isdecimal`: the last `/`-separated segment of the
      trimmed reference, or the whole reference when it has no `/`. */
  function Candidate(url: string): (c: string)
    ensures '/' !in c
    ensures '/' !in url ==> c == url
    ensures '/' in url ==> var u := Trimmed(url);
      && |c| <= |u| && c == u[|u| - |c|..]
      && (|c| < |u| ==> u[|u| - |c| - 1] == '/')
  {
    if '/' in url then Text.LastSegment(Trimmed(url), '/') else url
  }

  /** The string the outcome carries, numeric or not. */
  function Carried(r: Reference): string {
    match r
    case Numeric(id) => id
    case NeedsLookup(name) => name
  }

  /** The outcome carries the whole reference when it has no `/`, and
      otherwise the separator-free text after the last `/` of the reference
      stripped of one trailing `/`; it is `Numeric` exactly when that text
      is all decimal digits. */
  function ConvertUrlToSteamid(url: string): (r: Reference)
    ensures '/' !in Carried(r)
    ensures r.Numeric? <==> Text.IsDecimal(Carried(r))
    ensures '/' !in url ==> Carried(r) == url
    ensures '/' in url ==> var u := Trimmed(url); var c := Carried(r);
      && |c| <= |u| && c == u[|u| - |c|..]
      && (|c| < |u| ==> u[|u| - |c| - 1] == '/')
  {
    var c := Candidate(url);
    if Text.IsDecimal(c) then Numeric(c) else NeedsLookup(c)
  }

  /** A reference without `/` that is all decimal digits is returned as it is. */
  lemma NumericReferenceUnchanged(url: string)
    requires '/' !in url && Text.IsDecimal(url)
    ensures ConvertUrlToSteamid(url) == Numeric(url)
  {
  }

  /** A reference without `/` that is not all digits is resolved as given. */
  lemma VanityNameUnchanged(url: string)
    requires '/' !in url && !Text.IsDecimal(url)
    ensures ConvertUrlToSteamid(url) == NeedsLookup(url)
  {
  }

  /** With a `/` present, exactly one trailing `/` is dropped and the candidate
      is the text after the last remaining `/`. */
  lemma CandidateFollowsLastSlash(url: string)
    requires '/' in url
    ensures var u := Trimmed(url);
      var c := Candidate(url);
      && |u| == (if url[|url| - 1] == '/' then |url| - 1 else |url|)
      && u == url[..|u|]
      && '/' !in c
      && |c| <= |u| && c == u[|u| - |c|..]
      && (|c| < |u| ==> u[|u| - |c| - 1] == '/')
      && (|c| == |u| <==> '/' !in u)
  {
    var u := Trimmed(url);
    assert Candidate(url) == Text.LastSegment(u, '/');
  }

  /** A profile URL `<prefix>/<id>/` names `<id>`, and so does `<prefix>/<id>`
      when `<id>` is not empty. */
  lemma ProfileUrlCandidate(prefix: string, id: string)
    requires '/' !in id
    ensures Candidate(prefix + "/" + id + "/") == id
    ensures id != "" ==> Candidate(prefix + "/" + id) == id
  {
    var withSlash := prefix + "/" + id + "/";
    var plain := prefix + "/" + id;
    assert plain[|prefix|] == '/';
    assert withSlash[|prefix|] == '/';
    assert withSlash[..|withSlash| - 1] == plain;
    Text.LastSegmentOfSuffix(prefix, '/', id);
    if id != [] {
      assert plain[|plain| - 1] == id[|id| - 1];
      assert Trimmed(plain) == plain;
    }
  }

  /** A profile URL whose last segment is a numeric id yields that id. */
  lemma ProfileUrlNumeric(prefix: string, id: string)
    requires Text.IsDecimal(id)
    ensures ConvertUrlToSteamid(prefix + "/" + id + "/") == Numeric(id)
    ensures ConvertUrlToSteamid(prefix + "/" + id) == Numeric(id)
  {
    ProfileUrlCandidate(prefix, id);
  }

  lemma ProfileUrlExample()
    ensures ConvertUrlToSteamid("https://x/y/76561198000000000/") == Numeric("76561198000000000")
  {
    var id := "76561198000000000";
    assert Text.IsDecimal(id);
    assert "https://x/y/76561198000000000/" == "https://x/y" + "/" + id + "/";
    ProfileUrlNumeric("https://x/y", id);
  }

  /** A reference ending in `//` loses only one `/`, so its candidate is empty,
      and the empty name is passed on to vanity resolution. */
  lemma DoubleSlashNeedsLookupOfEmpty(url: string)
    requires |url| >= 2 && url[|url| - 1] == '/' && url[|url| - 2] == '/'
    ensures ConvertUrlToSteamid(url) == NeedsLookup("")
  {
    var prefix := url[..|url| - 2];
    assert url[..|url| - 1] == prefix + "/" + "";
    Text.LastSegmentOfSuffix(prefix, '/', "");
  }

  lemma DoubleSlashExample()
    ensures ConvertUrlToSteamid("a//") == NeedsLookup("")
  {
    DoubleSlashNeedsLookupOfEmpty("a//");
  }
}
