/** The Muso adapter of `lib/muso.ts`: its own artist splitter, the title
    filter over a profile's credits, the choice of one track among the
    candidate lists of several artist profiles, and the role-ordered
    extraction of writer names from that track's collaborators. The three
    HTTP endpoints are oracle functions of the `Api` record. */
module Muso {
  import opened Base
  import opened Text
  import opened Helpers

  // ---------------------------------------------------------------------
  // Responses
  // ---------------------------------------------------------------------

  /** The first profile item of a search: only its id is used. */
  datatype Profile = Profile(id: string)

  /** A credited track. A missing or falsy id is `""`; a missing title is
      `None`. */
  datatype Track = Track(id: string, title: Option<string>)

  /** One entry of a role list of the songwriter block; a missing, `null` or
      empty name is `""`. */
  datatype Credit = Credit(name: string)

  /** The `Songwriter` block of a collaborators response, by role. A role
      whose value is missing or not an array is absent from the map; a
      response without the block has the empty map. */
  datatype Collaborators = Collaborators(songwriter: map<string, seq<Credit>>)

  /** The three endpoints. `Failure` is a rejected `fetch` or an unreadable
      body; `Success(None)` is a non-OK status or an absent payload. */
  datatype Api = Api(
    profile: string -> Result<Option<Profile>>,
    credits: (string, string) -> Result<Option<seq<Option<Track>>>>,
    collaborators: string -> Result<Option<Collaborators>>)

  // ---------------------------------------------------------------------
  // splitArtists (the local one)
  // ---------------------------------------------------------------------

  /** A name as the local splitter delivers it. */
  predicate IsArtistPiece(x: string) {
    x != [] && !IsSpace(x[0]) && !IsSpace(x[|x| - 1]) && ',' !in x && '&' !in x
  }

  /** `raw.split(/,|&| feat\.?| ft\.?/i).map((a) => a.trim()).filter(Boolean)`. */
  function SplitArtists(raw: string): (r: seq<string>)
    ensures |r| <= |Split(raw, ArtistJoiner)|
    ensures Every(r, IsArtistPiece)
  {
    var trimmed := Map(Split(raw, ArtistJoiner), Trim);
    SplitArtistsPieces(raw);
    KeepNonEmptyEvery(trimmed, TrimmedPiece);
    var r := KeepNonEmpty(trimmed);
    assert Every(r, IsArtistPiece) by {
      forall k | 0 <= k < |r|
        ensures IsArtistPiece(r[k])
      {
        assert TrimmedPiece(r[k]) && r[k] != [];
      }
    }
    r
  }

  /** What trimming a piece of the joiner split gives, empty or not. */
  predicate TrimmedPiece(x: string) {
    (x != [] ==> !IsSpace(x[0]) && !IsSpace(x[|x| - 1])) && ',' !in x && '&' !in x
  }

  lemma SplitArtistsPieces(raw: string)
    ensures Every(Map(Split(raw, ArtistJoiner), Trim), TrimmedPiece)
  {
    var pieces := Split(raw, ArtistJoiner);
    var trimmed := Map(pieces, Trim);
    SplitArtistJoinerPieces(raw);
    forall k | 0 <= k < |trimmed|
      ensures TrimmedPiece(trimmed[k])
    {
      TrimmedPieceOf(pieces[k]);
    }
  }

  lemma TrimmedPieceOf(piece: string)
    requires Every(piece, (c: char) => c != ',' && c != '&')
    ensures TrimmedPiece(Trim(piece))
  {
    TrimEvery(piece, (c: char) => c != ',' && c != '&');
    var t := Trim(piece);
    assert forall i :: 0 <= i < |t| ==> t[i] != ',' && t[i] != '&';
  }

  /** A `,` or `&` ends an artist name, and the rest is split on its own. */
  lemma SplitArtistsAround(a: string, c: char, b: string)
    requires NoArtistJoiner(a) && (c == ',' || c == '&')
    ensures SplitArtists(a + [c] + b) == KeepNonEmpty([Trim(a)]) + SplitArtists(b)
  {
    SplitArtistJoinerAround(a, c, b);
    MapAppend([a], Split(b, ArtistJoiner), Trim);
    assert Map([a], Trim) == [Trim(a)];
    KeepNonEmptyAppend([Trim(a)], Map(Split(b, ArtistJoiner), Trim));
  }

  /** A name without a joiner is one artist, trimmed, or none when blank. */
  lemma SplitArtistsSingle(a: string)
    requires NoArtistJoiner(a)
    ensures SplitArtists(a) == KeepNonEmpty([Trim(a)])
  {
    SplitArtistJoinerAbsent(a);
    assert Map([a], Trim) == [Trim(a)];
  }

  /** A ` feat` or ` ft` marker, in any letter case, ends an artist name, a
      dot after it is dropped, and the rest is split on its own. */
  lemma SplitArtistsMarker(a: string, m: string, b: string)
    requires NoArtistJoiner(a) && IsFeaturingMarker(m)
    ensures SplitArtists(a + m + b) == KeepNonEmpty([Trim(a)]) + SplitArtists(DropDot(b))
    ensures SplitArtists(a + m + b) == SplitArtists(a) + SplitArtists(DropDot(b))
  {
    SplitArtistsSingle(a);
    SplitArtistJoinerMarker(a, m, b);
    MapAppend([a], Split(DropDot(b), ArtistJoiner), Trim);
    assert Map([a], Trim) == [Trim(a)];
    KeepNonEmptyAppend([Trim(a)], Map(Split(DropDot(b), ArtistJoiner), Trim));
  }

  /** Unlike the splitter of the text helpers, every ` feat` or ` ft`
      separates artists here: `a feat b feat c` is three names. */
  lemma SplitArtistsEveryFeat(a: string, m1: string, b: string, m2: string, c: string)
    requires NoArtistJoiner(a) && NoArtistJoiner(b) && NoArtistJoiner(c)
    requires IsFeaturingMarker(m1) && IsFeaturingMarker(m2)
    ensures SplitArtists(a + m1 + b + m2 + c) == KeepNonEmpty([Trim(a), Trim(DropDot(b)), Trim(DropDot(c))])
  {
    var rest := b + m2 + c;
    MarkersRegroup(a, m1, b, m2, c);
    MarkerShape(m2, if IsMarker(m2, "feat") then "feat" else "ft");
    DropDotBeforeMarker(b, m2, c);
    NoArtistJoinerDropDot(b);
    SplitArtistsTwoFeat(DropDot(b), m2, c);
    KeepNonEmptyTriple(Trim(a), Trim(DropDot(b)), Trim(DropDot(c)));
    SplitArtistsMarker(a, m1, rest);
  }

  /** `a feat b` is two names. */
  lemma SplitArtistsTwoFeat(a: string, m: string, b: string)
    requires NoArtistJoiner(a) && NoArtistJoiner(b) && IsFeaturingMarker(m)
    ensures SplitArtists(a + m + b) == KeepNonEmpty([Trim(a), Trim(DropDot(b))])
  {
    NoArtistJoinerDropDot(b);
    SplitArtistsSingle(DropDot(b));
    KeepNonEmptyPair(Trim(a), Trim(DropDot(b)));
    SplitArtistsMarker(a, m, b);
  }

  /** `"A feat B feat C"`, for any capital letters, is the three artists. */
  lemma SplitArtistsThreeNames(x: char, y: char, z: char)
    requires 'A' <= x <= 'Z' && 'A' <= y <= 'Z' && 'A' <= z <= 'Z'
    ensures SplitArtists([x] + " feat " + [y] + " feat " + [z]) == [[x], [y], [z]]
  {
    ThreeNamesText(x, y, z);
    ThreeNamesSplit(x, y, z);
    ThreeNamesTrimmed(x, y, z);
  }

  lemma ThreeNamesText(x: char, y: char, z: char)
    ensures [x] + " feat " + [y] + " feat " + [z] == [x] + " feat" + [' ', y] + " feat" + [' ', z]
  {
  }

  lemma ThreeNamesSplit(x: char, y: char, z: char)
    requires x != ',' && x != '&' && y != ',' && y != '&' && z != ',' && z != '&'
    ensures SplitArtists([x] + " feat" + [' ', y] + " feat" + [' ', z])
         == KeepNonEmpty([Trim([x]), Trim(DropDot([' ', y])), Trim(DropDot([' ', z]))])
  {
    ShortNoArtistJoiner([x]);
    ShortNoArtistJoiner([' ', y]);
    ShortNoArtistJoiner([' ', z]);
    LowerMarkers();
    SplitArtistsEveryFeat([x], " feat", [' ', y], " feat", [' ', z]);
  }

  lemma ThreeNamesTrimmed(x: char, y: char, z: char)
    requires 'A' <= x <= 'Z' && 'A' <= y <= 'Z' && 'A' <= z <= 'Z'
    ensures KeepNonEmpty([Trim([x]), Trim(DropDot([' ', y])), Trim(DropDot([' ', z]))]) == [[x], [y], [z]]
  {
    TrimLetter(x);
    TrimLetter(y);
    TrimLetter(z);
    assert [Trim([x]), Trim(DropDot([' ', y])), Trim(DropDot([' ', z]))] == [[x], [y], [z]];
  }

  /** A capital letter, with or without a space before it, trims to itself. */
  lemma TrimLetter(c: char)
    requires 'A' <= c <= 'Z'
    ensures Trim(DropDot([' ', c])) == [c] && Trim([c]) == [c]
  {
    assert DropDot([' ', c]) == [' ', c];
    TrimSpaced(c);
  }

  /** Unlike the splitter of the text helpers, `&` separates artists here:
      `"Kleine John & Dopebwoy"` is two artists. */
  lemma SplitArtistsAmpersand(a: string, b: string)
    requires NoArtistJoiner(a) && NoArtistJoiner(b)
    requires Trim(a) != [] && Trim(b) != []
    ensures SplitArtists(a + "&" + b) == [Trim(a), Trim(b)]
  {
    SplitArtistsAround(a, '&', b);
    SplitArtistsSingle(b);
    KeepNonEmptySingle(Trim(a));
    KeepNonEmptySingle(Trim(b));
  }

  // ---------------------------------------------------------------------
  // findTracksViaProfile: the candidate filter
  // ---------------------------------------------------------------------

  /** What `normalizeTitle(undefined)` throws, as `String(err)` renders it. */
  const TitleTypeError := "TypeError: Cannot read properties of undefined (reading 'toLowerCase')"

  /** A track passes `t?.id && accept(t.title)`. */
  predicate Kept(t: Track, accept: string -> bool) {
    t.id != "" && t.title.Some? && accept(t.title.value)
  }

  /** A track on which the filter throws: it has an id but no title. */
  predicate Untitled(t: Track) {
    t.id != "" && t.title.None?
  }

  /** `items.map((i) => i.track).filter((t) => t?.id && accept(t.title))`;
      the first id-bearing track without a title makes the filter throw. */
  function Candidates(items: seq<Option<Track>>, accept: string -> bool): (r: Result<seq<Track>>)
    ensures r.Failure? <==> exists i :: 0 <= i < |items| && items[i].Some? && Untitled(items[i].value)
    ensures r.Success? ==> |r.value| <= |items| && forall k :: 0 <= k < |r.value| ==> Kept(r.value[k], accept)
    ensures r.Success? ==> forall i :: 0 <= i < |items| && items[i].Some? && Kept(items[i].value, accept) ==> items[i].value in r.value
    ensures r.Success? ==> forall t :: t in r.value ==> Some(t) in items
    decreases |items|
  {
    if items == [] then Success([])
    else
      var rest := Candidates(items[1..], accept);
      assert forall i :: 1 <= i < |items| ==> items[i] == items[1..][i - 1];
      assert forall t :: Some(t) in items[1..] ==> Some(t) in items;
      match items[0]
      case None => rest
      case Some(t) =>
        if t.id == "" then rest
        else if t.title.None? then Failure(TitleTypeError)
        else if rest.Failure? then rest
        else if accept(t.title.value) then Success([t] + rest.value)
        else rest
  }

  /** Filtering works on each part of the item list separately. */
  lemma {:induction false} CandidatesAppend(xs: seq<Option<Track>>, ys: seq<Option<Track>>, accept: string -> bool)
    requires Candidates(xs, accept).Success? && Candidates(ys, accept).Success?
    ensures Candidates(xs + ys, accept) == Success(Candidates(xs, accept).value + Candidates(ys, accept).value)
    decreases |xs|
  {
    if xs == [] {
      assert xs + ys == ys && Candidates(xs, accept).value == [];
      assert [] + Candidates(ys, accept).value == Candidates(ys, accept).value;
    } else {
      assert (xs + ys)[0] == xs[0] && (xs + ys)[1..] == xs[1..] + ys;
      assert Candidates(xs[1..], accept).Success?;
      CandidatesAppend(xs[1..], ys, accept);
      var a := Candidates(xs[1..], accept).value;
      var b := Candidates(ys, accept).value;
      if xs[0].Some? && Kept(xs[0].value, accept) {
        Associative([xs[0].value], a, b);
      }
    }
  }

  /** The title test of `findTracksViaProfile`. */
  predicate TitleContains(candidate: string, title: string) {
    Contains(NormalizeTitle(candidate), NormalizeTitle(title))
  }

  predicate KeptFor(t: Track, title: string) {
    t.id != "" && t.title.Some? && TitleContains(t.title.value, title)
  }

  /** The filter of `findTracksViaProfile` on the credit items of a profile. */
  function FilterTracks(items: seq<Option<Track>>, title: string): (r: Result<seq<Track>>)
    ensures r.Success? ==> forall k :: 0 <= k < |r.value| ==>
      r.value[k].id != "" && r.value[k].title.Some? && TitleContains(r.value[k].title.value, title)
    ensures r.Success? ==> forall i :: 0 <= i < |items| && items[i].Some? && KeptFor(items[i].value, title) ==> items[i].value in r.value
    ensures r.Failure? <==> exists i :: 0 <= i < |items| && items[i].Some? && Untitled(items[i].value)
  {
    Candidates(items, (x: string) => TitleContains(x, title))
  }

  /** `findTracksViaProfile(profileId, title)`: the credits are searched with
      the normalised title as keyword; a non-OK answer or a body without items
      gives no candidates. */
  function TracksViaProfile(api: Api, profileId: string, title: string): (r: Result<seq<Track>>)
    ensures api.credits(profileId, NormalizeTitle(title)).Failure? ==> r.Failure?
    ensures api.credits(profileId, NormalizeTitle(title)) == Success(None) ==> r == Success([])
    ensures r.Success? ==> forall k :: 0 <= k < |r.value| ==>
      r.value[k].id != "" && r.value[k].title.Some? && TitleContains(r.value[k].title.value, title)
    ensures var answer := api.credits(profileId, NormalizeTitle(title));
      answer.Success? && answer.value.Some? ==> r == FilterTracks(answer.value.value, title)
  {
    var response :- api.credits(profileId, NormalizeTitle(title));
    match response
    case None => Success([])
    case Some(items) => FilterTracks(items, title)
  }

  // ---------------------------------------------------------------------
  // Choosing the track
  // ---------------------------------------------------------------------

  function IdOf(t: Track): string {
    t.id
  }

  function Ids(ts: seq<Track>): seq<string> {
    Map(ts, IdOf)
  }

  /** An entry of the `trackCount` map: the track first seen under an id and
      how often the id was seen. */
  datatype Tally = Tally(track: Track, count: nat)

  function TallyId(e: Tally): string {
    e.track.id
  }

  /** One step of the counting loop: a known id has its count raised, a new
      id is appended with count 1 (a `Map` iterates in insertion order). */
  function Bump(es: seq<Tally>, t: Track): (r: seq<Tally>)
    ensures |r| >= |es|
  {
    match IndexOf(Map(es, TallyId), t.id)
    case None => es + [Tally(t, 1)]
    case Some(i) => es[i := Tally(es[i].track, es[i].count + 1)]
  }

  /** The `trackCount` map after the loop over all tracks `ts`. */
  function TallyOf(ts: seq<Track>): seq<Tally>
    decreases |ts|
  {
    if ts == [] then [] else Bump(TallyOf(ts[..|ts| - 1]), ts[|ts| - 1])
  }

  /** How many tracks of `ts` carry the id. */
  function Occurrences(ts: seq<Track>, id: string): nat
    decreases |ts|
  {
    if ts == [] then 0
    else Occurrences(ts[..|ts| - 1], id) + (if ts[|ts| - 1].id == id then 1 else 0)
  }

  /** The first track of `ts` with the id. */
  function FirstOf(ts: seq<Track>, id: string): (r: Option<Track>)
    ensures r.Some? ==> r.value in ts && r.value.id == id
    ensures r.None? <==> id !in Ids(ts)
  {
    match IndexOf(Ids(ts), id)
    case None => None
    case Some(j) => Some(ts[j])
  }

  /** The position of the first entry counted `n` times. */
  function FullIndex(es: seq<Tally>, n: nat): (r: Option<nat>)
    ensures r.Some? ==> r.value < |es| && es[r.value].count == n
    ensures r.Some? ==> forall k :: 0 <= k < r.value ==> es[k].count != n
    ensures r.None? <==> forall k :: 0 <= k < |es| ==> es[k].count != n
    decreases |es|
  {
    if es == [] then None
    else if es[0].count == n then Some(0)
    else
      match FullIndex(es[1..], n)
      case None => None
      case Some(k) => Some(k + 1)
  }

  /** Step 3 of `findMusoComposers` on the candidate lists of the profiles:
      one list gives its first track; several give the first-inserted track
      counted once per list, else the first track of the first list. */
  function ChooseTrack(lists: seq<seq<Track>>): (r: Option<Track>)
    requires |lists| >= 1
    ensures r.Some? ==> r.value in Flatten(lists)
    ensures r.None? ==> lists[0] == []
    ensures |lists| == 1 ==> r == Head(lists[0])
  {
    assert Flatten(lists) == lists[0] + Flatten(lists[1..]);
    if |lists| == 1 then Head(lists[0])
    else
      var es := TallyOf(Flatten(lists));
      match FullIndex(es, |lists|)
      case Some(k) =>
        TallyFirst(Flatten(lists));
        Some(es[k].track)
      case None => Head(lists[0])
  }

  /** The entry ids are the distinct ids of the tracks, in first-seen order. */
  lemma {:induction false} TallyIds(ts: seq<Track>)
    ensures Map(TallyOf(ts), TallyId) == Dedup(Ids(ts))
    decreases |ts|
  {
    if ts != [] {
      var init := ts[..|ts| - 1];
      var t := ts[|ts| - 1];
      TallyIds(init);
      SnocIds(ts);
      BumpIds(TallyOf(init), t);
      DedupSnoc(Ids(init), t.id);
    }
  }

  /** A step adds the track's id to the entry ids unless it is there. */
  lemma BumpIds(es: seq<Tally>, t: Track)
    ensures Map(Bump(es, t), TallyId) == if t.id in Map(es, TallyId) then Map(es, TallyId) else Map(es, TallyId) + [t.id]
  {
    match IndexOf(Map(es, TallyId), t.id)
    case None =>
      MapAppend(es, [Tally(t, 1)], TallyId);
    case Some(i) =>
      MapUpdate(es, i, Tally(es[i].track, es[i].count + 1), TallyId);
  }

  lemma SnocIds(ts: seq<Track>)
    requires ts != []
    ensures Ids(ts) == Ids(ts[..|ts| - 1]) + [ts[|ts| - 1].id]
    ensures Ids(ts)[..|ts| - 1] == Ids(ts[..|ts| - 1])
  {
    assert ts == ts[..|ts| - 1] + [ts[|ts| - 1]];
    MapAppend(ts[..|ts| - 1], [ts[|ts| - 1]], IdOf);
  }

  /** Ids that no track carries occur zero times. */
  lemma {:induction false} OccurrencesAbsent(ts: seq<Track>, id: string)
    requires id !in Ids(ts)
    ensures Occurrences(ts, id) == 0
    decreases |ts|
  {
    if ts != [] {
      SnocIds(ts);
      OccurrencesAbsent(ts[..|ts| - 1], id);
    }
  }

  /** Each entry counts every track with its id. */
  lemma {:induction false} TallyCounts(ts: seq<Track>)
    ensures forall k :: 0 <= k < |TallyOf(ts)| ==> TallyOf(ts)[k].count == Occurrences(ts, TallyOf(ts)[k].track.id)
    decreases |ts|
  {
    if ts != [] {
      var init := ts[..|ts| - 1];
      var t := ts[|ts| - 1];
      TallyCounts(init);
      TallyIds(init);
      SnocIds(ts);
      var es := TallyOf(init);
      var ids := Map(es, TallyId);
      var es' := TallyOf(ts);
      forall k | 0 <= k < |es'|
        ensures es'[k].count == Occurrences(ts, es'[k].track.id)
      {
        match IndexOf(ids, t.id)
        case None =>
          if k == |es| {
            OccurrencesAbsent(init, t.id);
          } else {
            assert ids[k] == es[k].track.id;
          }
        case Some(i) =>
          if k != i {
            assert ids[k] == es[k].track.id && ids[i] == t.id;
          }
      }
    }
  }

  /** Each entry keeps the first track seen with its id. */
  lemma {:induction false} TallyFirst(ts: seq<Track>)
    ensures forall k :: 0 <= k < |TallyOf(ts)| ==> FirstOf(ts, TallyOf(ts)[k].track.id) == Some(TallyOf(ts)[k].track)
    decreases |ts|
  {
    if ts != [] {
      TallyFirst(ts[..|ts| - 1]);
      forall k | 0 <= k < |TallyOf(ts)|
        ensures FirstOf(ts, TallyOf(ts)[k].track.id) == Some(TallyOf(ts)[k].track)
      {
        TallyFirstAt(ts, k);
      }
    }
  }

  /** One entry after one more step of the counting loop. */
  lemma TallyFirstAt(ts: seq<Track>, k: nat)
    requires ts != []
    requires var es := TallyOf(ts[..|ts| - 1]);
      forall j :: 0 <= j < |es| ==> FirstOf(ts[..|ts| - 1], es[j].track.id) == Some(es[j].track)
    requires k < |TallyOf(ts)|
    ensures FirstOf(ts, TallyOf(ts)[k].track.id) == Some(TallyOf(ts)[k].track)
  {
    var init := ts[..|ts| - 1];
    var t := ts[|ts| - 1];
    TallyIds(init);
    SnocIds(ts);
    var es := TallyOf(init);
    var ids := Map(es, TallyId);
    var es' := TallyOf(ts);
    var id := es'[k].track.id;
    IndexOfAppend(Ids(init), [t.id], id);
    match IndexOf(ids, t.id)
    case None =>
      if k == |es| {
        assert IndexOf([t.id], t.id) == Some(0);
      } else {
        assert ids[k] == es[k].track.id;
        assert id in Ids(init);
      }
    case Some(i) =>
      assert ids[k] == es[k].track.id;
      assert id in Ids(init);
  }

  /** Every id is unique within each list. */
  predicate UniqueIds(lists: seq<seq<Track>>) {
    forall k :: 0 <= k < |lists| ==> NoDup(Ids(lists[k]))
  }

  /** Every list has a track with the id. */
  predicate Common(lists: seq<seq<Track>>, id: string) {
    forall k :: 0 <= k < |lists| ==> id in Ids(lists[k])
  }

  /** How many lists have a track with the id. */
  function ListsHolding(lists: seq<seq<Track>>, id: string): (n: nat)
    ensures n <= |lists|
    decreases |lists|
  {
    if lists == [] then 0
    else (if id in Ids(lists[0]) then 1 else 0) + ListsHolding(lists[1..], id)
  }

  /** Reference definition of the intersection: the position in the first list
      of the first track whose id every list has. */
  function FirstCommon(lists: seq<seq<Track>>, j: nat): (r: Option<nat>)
    requires |lists| >= 1 && j <= |lists[0]|
    ensures r.Some? ==> j <= r.value < |lists[0]| && Common(lists, lists[0][r.value].id)
    ensures r.Some? ==> forall i :: j <= i < r.value ==> !Common(lists, lists[0][i].id)
    ensures r.None? ==> forall i :: j <= i < |lists[0]| ==> !Common(lists, lists[0][i].id)
    decreases |lists[0]| - j
  {
    if j == |lists[0]| then None
    else if Common(lists, lists[0][j].id) then Some(j)
    else FirstCommon(lists, j + 1)
  }

  lemma {:induction false} OccurrencesAppend(xs: seq<Track>, ys: seq<Track>, id: string)
    ensures Occurrences(xs + ys, id) == Occurrences(xs, id) + Occurrences(ys, id)
    decreases |ys|
  {
    if ys == [] {
      assert xs + ys == xs;
    } else {
      var zs := xs + ys;
      assert zs[..|zs| - 1] == xs + ys[..|ys| - 1];
      OccurrencesAppend(xs, ys[..|ys| - 1], id);
    }
  }

  /** In a list with unique ids an id occurs at most once. */
  lemma {:induction false} OccurrencesUnique(ts: seq<Track>, id: string)
    requires NoDup(Ids(ts))
    ensures Occurrences(ts, id) == if id in Ids(ts) then 1 else 0
    decreases |ts|
  {
    if ts != [] {
      var init := ts[..|ts| - 1];
      SnocIds(ts);
      assert NoDup(Ids(init)) by {
        forall i, j | 0 <= i < j < |Ids(init)|
          ensures Ids(init)[i] != Ids(init)[j]
        {
          assert Ids(ts)[i] == Ids(init)[i] && Ids(ts)[j] == Ids(init)[j];
        }
      }
      OccurrencesUnique(init, id);
      assert ts[|ts| - 1].id !in Ids(init) by {
        forall i | 0 <= i < |Ids(init)|
          ensures Ids(init)[i] != ts[|ts| - 1].id
        {
          assert Ids(ts)[i] == Ids(init)[i] && Ids(ts)[|ts| - 1] == ts[|ts| - 1].id;
        }
      }
    }
  }

  /** With unique ids per list, the count of an id over all lists is the
      number of lists holding it. */
  lemma {:induction false} FlattenOccurrences(lists: seq<seq<Track>>, id: string)
    requires UniqueIds(lists)
    ensures Occurrences(Flatten(lists), id) == ListsHolding(lists, id)
    decreases |lists|
  {
    if lists != [] {
      assert UniqueIds(lists[1..]) by {
        forall k | 0 <= k < |lists[1..]|
          ensures NoDup(Ids(lists[1..][k]))
        {
          assert lists[1..][k] == lists[k + 1];
        }
      }
      FlattenOccurrences(lists[1..], id);
      OccurrencesAppend(lists[0], Flatten(lists[1..]), id);
      OccurrencesUnique(lists[0], id);
    }
  }

  /** Held by all lists exactly when common to them. */
  lemma {:induction false} HoldingAll(lists: seq<seq<Track>>, id: string)
    ensures ListsHolding(lists, id) == |lists| <==> Common(lists, id)
    decreases |lists|
  {
    if lists != [] {
      HoldingAll(lists[1..], id);
      assert Common(lists, id) <==> id in Ids(lists[0]) && Common(lists[1..], id) by {
        if id in Ids(lists[0]) && Common(lists[1..], id) {
          forall k | 1 <= k < |lists|
            ensures id in Ids(lists[k])
          {
            assert lists[k] == lists[1..][k - 1];
          }
        }
        if Common(lists, id) {
          forall k | 0 <= k < |lists[1..]|
            ensures id in Ids(lists[1..][k])
          {
            assert lists[1..][k] == lists[k + 1];
          }
        }
      }
    }
  }

  /** With unique ids per list, an entry reaches the number of lists exactly
      when its id is common to all of them. */
  lemma FullCountIsCommon(lists: seq<seq<Track>>)
    requires UniqueIds(lists)
    ensures forall k :: 0 <= k < |TallyOf(Flatten(lists))| ==>
      (TallyOf(Flatten(lists))[k].count == |lists| <==> Common(lists, TallyOf(Flatten(lists))[k].track.id))
  {
    var es := TallyOf(Flatten(lists));
    TallyCounts(Flatten(lists));
    forall k | 0 <= k < |es|
      ensures es[k].count == |lists| <==> Common(lists, es[k].track.id)
    {
      FlattenOccurrences(lists, es[k].track.id);
      HoldingAll(lists, es[k].track.id);
    }
  }

  /** The ids of the first list, when unique, start the entry ids. */
  lemma TallyIdsStart(lists: seq<seq<Track>>)
    requires |lists| >= 1 && NoDup(Ids(lists[0]))
    ensures Ids(lists[0]) <= Map(TallyOf(Flatten(lists)), TallyId)
    ensures Ids(Flatten(lists)) == Ids(lists[0]) + Ids(Flatten(lists[1..]))
  {
    var ids0 := Ids(lists[0]);
    assert Flatten(lists) == lists[0] + Flatten(lists[1..]);
    MapAppend(lists[0], Flatten(lists[1..]), IdOf);
    TallyIds(Flatten(lists));
    DedupPrefix(ids0, Ids(Flatten(lists[1..])));
    DedupOfDistinct(ids0);
  }

  /** The entries start with the tracks of the first list, in order, when its
      ids are unique. */
  lemma TallyTrackAt(lists: seq<seq<Track>>, j: nat)
    requires |lists| >= 1 && NoDup(Ids(lists[0])) && j < |lists[0]|
    ensures j < |TallyOf(Flatten(lists))| && TallyOf(Flatten(lists))[j].track == lists[0][j]
  {
    var ts := Flatten(lists);
    var es := TallyOf(ts);
    var ids0 := Ids(lists[0]);
    TallyIdsStart(lists);
    TallyFirst(ts);
    assert Map(es, TallyId)[j] == ids0[j] == es[j].track.id;
    IndexOfAppend(ids0, Ids(Flatten(lists[1..])), ids0[j]);
    IndexOfDistinct(ids0, j);
    assert ts == lists[0] + Flatten(lists[1..]);
    assert ts[j] == lists[0][j];
  }

  /** The later entries have ids that the first list does not have. */
  lemma TallyBeyondFirstList(lists: seq<seq<Track>>, k: nat)
    requires |lists| >= 1 && NoDup(Ids(lists[0]))
    requires |lists[0]| <= k < |TallyOf(Flatten(lists))|
    ensures TallyOf(Flatten(lists))[k].track.id !in Ids(lists[0])
  {
    var es := TallyOf(Flatten(lists));
    var ids0 := Ids(lists[0]);
    var eids := Map(es, TallyId);
    TallyIdsStart(lists);
    TallyIds(Flatten(lists));
    assert NoDup(eids);
    assert eids[k] == es[k].track.id;
    forall j | 0 <= j < |ids0|
      ensures ids0[j] != eids[k]
    {
      assert ids0[j] == eids[j];
    }
  }

  /** With unique ids in every list, counting is intersection: several lists
      give the first track of the first list whose id every list has, and the
      first track of the first list when there is none. */
  lemma IntersectionWins(lists: seq<seq<Track>>)
    requires |lists| >= 2 && UniqueIds(lists)
    ensures ChooseTrack(lists) == match FirstCommon(lists, 0)
      case Some(j) => Some(lists[0][j])
      case None => Head(lists[0])
  {
    var es := TallyOf(Flatten(lists));
    var n := |lists|;
    FullMeansCommonInFirst(lists);
    match FirstCommon(lists, 0)
    case Some(j) =>
      TallyTrackAt(lists, j);
      FullIndexIs(es, n, j);
    case None =>
      assert FullIndex(es, n).None?;
  }

  /** With unique ids per list, the entries counted once per list are those
      of the first list's tracks that every list has. */
  lemma FullMeansCommonInFirst(lists: seq<seq<Track>>)
    requires |lists| >= 1 && UniqueIds(lists)
    ensures forall k :: 0 <= k < |TallyOf(Flatten(lists))| ==>
      (TallyOf(Flatten(lists))[k].count == |lists| <==> k < |lists[0]| && Common(lists, lists[0][k].id))
  {
    var es := TallyOf(Flatten(lists));
    FullCountIsCommon(lists);
    assert NoDup(Ids(lists[0]));
    forall k | 0 <= k < |es|
      ensures es[k].count == |lists| <==> k < |lists[0]| && Common(lists, lists[0][k].id)
    {
      if k < |lists[0]| {
        TallyTrackAt(lists, k);
      } else {
        TallyBeyondFirstList(lists, k);
      }
    }
  }

  lemma FullIndexIs(es: seq<Tally>, n: nat, j: nat)
    requires j < |es| && es[j].count == n
    requires forall k :: 0 <= k < j ==> es[k].count != n
    ensures FullIndex(es, n) == Some(j)
  {
  }

  /** A track listed twice for one artist is counted twice: with two artists
      it wins although the second artist does not have it. */
  lemma DuplicatesInflateCount(a: Track, b: Track)
    requires a.id != b.id
    ensures !Common([[a, a], [b]], a.id)
    ensures ChooseTrack([[a, a], [b]]) == Some(a)
  {
    var lists := [[a, a], [b]];
    assert a.id !in Ids([b]);
    assert Flatten(lists) == [a, a, b] by {
      assert Flatten(lists[1..]) == [b] + Flatten([]);
    }
    var ts := [a, a, b];
    assert ts[..2] == [a, a] && [a, a][..1] == [a] && [a][..0] == [];
    assert TallyOf([a]) == [Tally(a, 1)];
    assert Map([Tally(a, 1)], TallyId) == [a.id];
    assert TallyOf([a, a]) == [Tally(a, 2)];
    assert Map([Tally(a, 2)], TallyId) == [a.id];
    assert TallyOf(ts) == [Tally(a, 2), Tally(b, 1)];
  }

  // ---------------------------------------------------------------------
  // Writer names
  // ---------------------------------------------------------------------

  /** The roles read from the songwriter block, in this order. */
  const Roles: seq<string> := ["Composer", "Lyricist", "Songwriter"]

  /** The non-empty names of a role list, in order; nothing when the role is
      absent. */
  function RoleNames(block: map<string, seq<Credit>>, role: string): (r: seq<string>)
    ensures forall x :: x in r <==> x != "" && role in block && Credit(x) in block[role]
  {
    if role in block then Named(block[role]) else []
  }

  function Named(entries: seq<Credit>): (r: seq<string>)
    ensures forall x :: x in r <==> x != "" && Credit(x) in entries
    decreases |entries|
  {
    if entries == [] then []
    else
      var rest := Named(entries[1..]);
      assert forall c :: c in entries <==> c == entries[0] || c in entries[1..];
      (if entries[0].name != "" then [entries[0].name] else []) + rest
  }

  /** Some role of the block lists the name. */
  ghost predicate Credited(block: map<string, seq<Credit>>, x: string) {
    exists role :: role in Roles && role in block && Credit(x) in block[role]
  }

  /** Step 4 of `findMusoComposers`: the names of the Composer, Lyricist and
      Songwriter lists, in that order, empty names skipped and duplicates
      dropped at their later occurrences. The names are not cleaned. */
  function ComposerNames(block: map<string, seq<Credit>>): (r: seq<string>)
    ensures NoDup(r)
    ensures forall x :: x in r <==> x != "" && Credited(block, x)
    ensures FirstSeen(r, RoleNames(block, "Composer") + RoleNames(block, "Lyricist") + RoleNames(block, "Songwriter"))
  {
    var all := RoleNames(block, "Composer") + RoleNames(block, "Lyricist") + RoleNames(block, "Songwriter");
    assert forall x :: x in all <==> x != "" && Credited(block, x) by {
      forall x
        ensures x in all <==> x != "" && Credited(block, x)
      {
        if x != "" && Credited(block, x) {
          var role :| role in Roles && role in block && Credit(x) in block[role];
          assert role == "Composer" || role == "Lyricist" || role == "Songwriter";
        }
        if x in all {
          assert x in RoleNames(block, "Composer") || x in RoleNames(block, "Lyricist") || x in RoleNames(block, "Songwriter");
          assert Roles[0] == "Composer" && Roles[1] == "Lyricist" && Roles[2] == "Songwriter";
        }
      }
    }
    DedupOrder(all);
    Dedup(all)
  }

  /** Composers come first: the distinct Composer names start the result. */
  lemma ComposersFirst(block: map<string, seq<Credit>>)
    ensures Dedup(RoleNames(block, "Composer")) <= ComposerNames(block)
  {
    var c := RoleNames(block, "Composer");
    var rest := RoleNames(block, "Lyricist") + RoleNames(block, "Songwriter");
    assert c + RoleNames(block, "Lyricist") + RoleNames(block, "Songwriter") == c + rest;
    DedupPrefix(c, rest);
  }

  /** A Lyricist name comes before every name first listed under Songwriter. */
  lemma LyricistBeforeSongwriter(block: map<string, seq<Credit>>, x: string, y: string)
    requires x in RoleNames(block, "Lyricist")
    requires y in RoleNames(block, "Songwriter")
    requires y !in RoleNames(block, "Composer") && y !in RoleNames(block, "Lyricist")
    ensures Before(ComposerNames(block), x, y)
  {
    var front := RoleNames(block, "Composer") + RoleNames(block, "Lyricist");
    var songwriters := RoleNames(block, "Songwriter");
    var all := front + songwriters;
    var r := ComposerNames(block);
    assert x in front && y !in front;
    IndexOfAppend(front, songwriters, x);
    IndexOfAppend(front, songwriters, y);
    assert Before(all, x, y);
    OrderedBefore(r, all, x, y);
  }

  // ---------------------------------------------------------------------
  // findMusoComposers
  // ---------------------------------------------------------------------

  /** The profiles that were found, in artist order (`.filter(Boolean)`). */
  function Present(found: seq<Option<Profile>>): (r: seq<Profile>)
    ensures |r| <= |found|
    ensures forall p :: p in r <==> Some(p) in found
    ensures (forall i :: 0 <= i < |found| ==> found[i].None?) ==> r == []
    ensures found != [] && found[0].Some? ==> r != [] && r[0] == found[0].value
    decreases |found|
  {
    if found == [] then []
    else
      var rest := Present(found[1..]);
      assert forall o :: o in found <==> o == found[0] || o in found[1..];
      (if found[0].Some? then [found[0].value] else []) + rest
  }

  /** The filter keeps the artists' order: the profiles of a concatenation
      are those of each part, in order. */
  lemma {:induction false} PresentAppend(a: seq<Option<Profile>>, b: seq<Option<Profile>>)
    ensures Present(a + b) == Present(a) + Present(b)
    decreases |a|
  {
    if a == [] {
      assert a + b == b;
    } else {
      assert (a + b)[0] == a[0] && (a + b)[1..] == a[1..] + b;
      PresentAppend(a[1..], b);
      Associative(if a[0].Some? then [a[0].value] else [], Present(a[1..]), Present(b));
    }
  }

  /** Steps 1 to 3 of `findMusoComposers`: the track whose collaborators are
      loaded, or `None` when the lookup stops early with the empty list. */
  function ChosenTrack(api: Api, artist: string, title: string): (r: Result<Option<Track>>)
    ensures r.Success? && r.value.Some? ==> r.value.value.id != ""
    ensures SplitArtists(artist) == [] ==> r == Success(None)
  {
    var found :- Gather(SplitArtists(artist), api.profile);
    var profiles := Present(found);
    if profiles == [] then Success(None)
    else
      var lists :- Gather(profiles, (p: Profile) => TracksViaProfile(api, p.id, title));
      match ChooseTrack(lists)
      case None => Success(None)
      case Some(t) => if t.id == "" then Success(None) else Success(Some(t))
  }

  /** `findMusoComposers(artist, title)`. Every exit yields a list (never
      `null`); a failure is an exception the caller sees. */
  function FindMusoComposers(api: Api, artist: string, title: string): (r: Result<seq<string>>)
    ensures r.Success? ==> NoDup(r.value) && "" !in r.value
    ensures ChosenTrack(api, artist, title) == Success(None) ==> r == Success([])
    ensures forall t: Track :: (ChosenTrack(api, artist, title) == Success(Some(t)) && api.collaborators(t.id) == Success(None)
      ==> r == Success([]))
    ensures forall t: Track, c: Collaborators :: (ChosenTrack(api, artist, title) == Success(Some(t)) && api.collaborators(t.id) == Success(Some(c))
      ==> r == Success(ComposerNames(c.songwriter)))
  {
    var chosen :- ChosenTrack(api, artist, title);
    match chosen
    case None => Success([])
    case Some(t) =>
      var collaborators :- api.collaborators(t.id);
      match collaborators
      case None => Success([])
      case Some(c) => Success(ComposerNames(c.songwriter))
  }

  /** No profile found for any artist: the empty list, and no track lookup. */
  lemma NoProfilesNoComposers(api: Api, artist: string, title: string)
    requires forall a :: a in SplitArtists(artist) ==> api.profile(a) == Success(None)
    ensures ChosenTrack(api, artist, title) == Success(None)
    ensures FindMusoComposers(api, artist, title) == Success([])
  {
    GatherNothing(SplitArtists(artist), api.profile);
  }
}
