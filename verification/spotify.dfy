/** The Spotify adapter of `lib/spotify.ts`: the primary artist of an artist
    field, the module-level token cache with its 60-second safety margin, and
    the ISRC lookup built on both. The clock, the token endpoint and the
    search endpoint are parameters. */
module Spotify {
  import opened Base
  import opened Text
  import opened Helpers

  // ---------------------------------------------------------------------
  // primaryArtist
  // ---------------------------------------------------------------------

  /** `primaryArtist(artist)`: the featuring markers become separators as in
      `splitArtists`, and the first piece is cleaned, empty or not. */
  function PrimaryArtist(artist: string): (r: string)
    ensures Tidy(r) && NoMojibake(r)
  {
    Clean(Split(MarkFeaturing(artist), AnyChar(ArtistSeparators))[0])
  }

  /** When the first piece cleans to something, it is also the first artist
      `splitArtists` reports. */
  lemma PrimaryArtistIsFirstArtist(artist: string)
    requires PrimaryArtist(artist) != []
    ensures SplitArtists(artist) != [] && SplitArtists(artist)[0] == PrimaryArtist(artist)
  {
    var pieces := Split(MarkFeaturing(artist), AnyChar(ArtistSeparators));
    var cleaned := Map(pieces, Clean);
    assert cleaned[0] == PrimaryArtist(artist);
    KeepNonEmptyHead(cleaned);
  }

  // ---------------------------------------------------------------------
  // getSpotifyToken
  // ---------------------------------------------------------------------

  /** The two module variables `spotifyToken` and `spotifyTokenExpiresAt`
      (milliseconds since the epoch). An `undefined` token is `None`. */
  datatype TokenCache = TokenCache(token: Option<string>, expiresAt: int)

  /** The values the module starts with. */
  const InitialCache := TokenCache(None, 0)

  /** A cached token is reused only while it is this far from expiring. */
  const SafetyMarginMs := 60000

  /** The truthiness test on the cached token. */
  predicate HasToken(c: TokenCache) {
    c.token.Some? && c.token.value != ""
  }

  /** `spotifyToken && now < spotifyTokenExpiresAt - 60_000`. */
  predicate Reusable(c: TokenCache, now: int) {
    HasToken(c) && now < c.expiresAt - SafetyMarginMs
  }

  /** What the token endpoint answers when asked. */
  datatype TokenReply =
    | TokenRejected(error: string)                          // `fetch` or `res.json()` throws
    | TokenNotOk                                            // `!res.ok`
    | Granted(accessToken: Option<string>, expiresIn: int)  // seconds

  /** The outcome of one call: whether the endpoint was asked, what the call
      returns or throws, and the cache afterwards. */
  datatype TokenStep = TokenStep(requested: bool, result: Result<Option<string>>, cache: TokenCache)

  /** The message `String(err)` gives for the error thrown on `!res.ok`. */
  const TokenRequestFailed := "Error: Spotify token request failed"

  /** `getSpotifyToken()` at time `now`; `reply` is what the endpoint would
      answer if asked. */
  function GetToken(c: TokenCache, now: int, reply: TokenReply): (s: TokenStep)
    ensures !s.requested <==> Reusable(c, now)
    ensures !s.requested ==> s.result == Success(c.token) && s.cache == c
    ensures s.result.Failure? ==> s.cache == c
    ensures s.requested && reply.Granted? ==>
      s.cache == TokenCache(reply.accessToken, now + reply.expiresIn * 1000) && s.result == Success(reply.accessToken)
    ensures s.requested && reply.TokenNotOk? ==> s.result == Failure(TokenRequestFailed)
  {
    if Reusable(c, now) then TokenStep(false, Success(c.token), c)
    else
      match reply
      case TokenRejected(e) => TokenStep(true, Failure(e), c)
      case TokenNotOk => TokenStep(true, Failure(TokenRequestFailed), c)
      case Granted(token, expiresIn) =>
        TokenStep(true, Success(token), TokenCache(token, now + expiresIn * 1000))
  }

  /** The first call after start-up always asks for a token. */
  lemma FirstCallRequests(now: int, reply: TokenReply)
    ensures GetToken(InitialCache, now, reply).requested
  {
  }

  /** A granted token is reused by every later call made more than a minute
      before it expires, whatever the endpoint would answer then. */
  lemma GrantedTokenReused(c: TokenCache, now: int, token: string, expiresIn: int, later: int, reply: TokenReply)
    requires token != ""
    requires now <= later < now + expiresIn * 1000 - SafetyMarginMs
    requires !Reusable(c, now)
    ensures var next := GetToken(c, now, Granted(Some(token), expiresIn)).cache;
      var step := GetToken(next, later, reply);
      !step.requested && step.result == Success(Some(token)) && step.cache == next
  {
  }

  /** Once the token is too close to expiry it stays so: later calls ask again
      until a new token is granted. */
  lemma StaleStaysStale(c: TokenCache, now: int, later: int)
    requires !Reusable(c, now) && now <= later
    ensures !Reusable(c, later)
  {
  }

  /** A failed refresh keeps the old cache, so the next call asks again. */
  lemma FailedRefreshRetries(c: TokenCache, now: int, later: int, error: string, reply: TokenReply)
    requires !Reusable(c, now) && now <= later
    ensures var step := GetToken(c, now, TokenRejected(error));
      step.result == Failure(error) && GetToken(step.cache, later, reply).requested
  {
    StaleStaysStale(c, now, later);
  }

  // ---------------------------------------------------------------------
  // findSpotifyISRC
  // ---------------------------------------------------------------------

  /** The first track of a search answer; a missing ISRC is `""`. */
  datatype SpotifyTrack = SpotifyTrack(isrc: string, id: string, name: string, artists: seq<string>)

  /** What the search endpoint answers. */
  datatype SearchReply =
    | SearchRejected(error: string)            // `fetch` or `res.json()` throws
    | SearchNotOk                              // `!res.ok`
    | Found(first: Option<SpotifyTrack>)       // `data?.tracks?.items?.[0]`

  /** The record `findSpotifyISRC` returns. */
  datatype SpotifyMatch = SpotifyMatch(isrc: string, spotifyId: string, spotifyTrackName: string, spotifyArtistName: string)

  /** Where the two field values sit in a `track:… artist:…` query. */
  lemma QueryFields(t: string, p: string)
    ensures var q := "track:" + t + " artist:" + p;
      && |q| == 14 + |t| + |p|
      && q[..6] == "track:" && q[6..6 + |t|] == t
      && q[6 + |t|..14 + |t|] == " artist:" && q[14 + |t|..] == p
  {
  }

  /** `` `track:${clean(title)} artist:${primaryArtist(artist)}` ``: the
      track field holds the cleaned title and the artist field the primary
      artist, both tidy. */
  function SearchQuery(artist: string, title: string): (q: string)
    ensures var t := Clean(title); var p := PrimaryArtist(artist);
      && Tidy(t) && Tidy(p)
      && |q| == 14 + |t| + |p|
      && q[..6] == "track:" && q[6..6 + |t|] == t
      && q[6 + |t|..14 + |t|] == " artist:" && q[14 + |t|..] == p
  {
    var t := Clean(title);
    var p := PrimaryArtist(artist);
    QueryFields(t, p);
    "track:" + t + " artist:" + p
  }

  /** The answer shaping: no first track, or one without an ISRC, is `null`. */
  function MatchOf(first: Option<SpotifyTrack>): (r: Option<SpotifyMatch>)
    ensures r.Some? <==> first.Some? && first.value.isrc != ""
    ensures r.Some? ==> r.value.isrc == first.value.isrc && r.value.spotifyId == first.value.id
    ensures r.Some? ==>
      r.value.spotifyTrackName == first.value.name && r.value.spotifyArtistName == JoinWith(first.value.artists, ", ")
  {
    match first
    case None => None
    case Some(t) =>
      if t.isrc == "" then None
      else Some(SpotifyMatch(t.isrc, t.id, t.name, JoinWith(t.artists, ", ")))
  }

  /** `findSpotifyISRC(artistRaw, titleRaw)` at time `now`, with the cache
      before the call; the cache after the call is returned alongside. */
  function FindSpotifyIsrc(
    c: TokenCache, now: int, tokenReply: TokenReply,
    search: (Option<string>, string) -> SearchReply,
    artistRaw: string, titleRaw: string): (r: (Result<Option<SpotifyMatch>>, TokenCache))
    ensures r.1 == GetToken(c, now, tokenReply).cache
    ensures GetToken(c, now, tokenReply).result.Failure? ==> r.0.Failure?
    ensures r.0.Success? && r.0.value.Some? ==> r.0.value.value.isrc != ""
    ensures GetToken(c, now, tokenReply).result.Success? ==>
      var reply := search(GetToken(c, now, tokenReply).result.value, SearchQuery(artistRaw, titleRaw));
      && (reply.SearchNotOk? ==> r.0 == Success(None))
      && (reply.Found? ==> r.0 == Success(MatchOf(reply.first)))
      && (reply.SearchRejected? ==> r.0 == Failure(reply.error))
  {
    var step := GetToken(c, now, tokenReply);
    match step.result
    case Failure(e) => (Failure(e), step.cache)
    case Success(token) =>
      match search(token, SearchQuery(artistRaw, titleRaw))
      case SearchRejected(e) => (Failure(e), step.cache)
      case SearchNotOk => (Success(None), step.cache)
      case Found(first) => (Success(MatchOf(first)), step.cache)
  }
}
