/** The MusicBrainz adapter (lib/musicbrainz.ts): composer extraction from
    recording and work relations, the parent-work link, and the search
    queries with their first-hit loops. Every search and lookup is an oracle
    parameter that either answers or throws. */
module MusicBrainz {
  import opened Base
  import opened Text
  import opened Helpers

  /** A relation of a recording or a work. A missing `type`, `direction` or
      artist name is the empty string, which no test accepts as a match or
      as a truthy name. */
  datatype Relation = Relation(relType: string, direction: string, artistName: string, work: Option<Work>)

  /** A work as a lookup or a relation carries it; a missing id is `""`. */
  datatype Work = Work(id: string, relations: Option<seq<Relation>>)

  /** An artist-credit entry of a recording; a missing name is `""`, which
      `clean` maps to `""`. */
  datatype Credit = Credit(creditType: string, name: string)

  /** A recording with the includes the adapter asks for. */
  datatype Recording = Recording(id: string, relations: Option<seq<Relation>>, credits: Option<seq<Credit>>)

  /** The structured query of the recording text search. */
  datatype RecordingQuery = RecordingQuery(name: string, artist: string)

  /** The relation types that name a writer of the music or the words. */
  const WriterTypes: seq<string> := [
    "composer", "lyricist", "writer", "author", "librettist", "arranger",
    "orchestrator", "based on", "based on work", "composer of", "writer of", "poet"
  ]

  predicate IsWriterType(t: string) {
    t in WriterTypes
  }

  // ---------------------------------------------------------------------
  // Composer extraction
  // ---------------------------------------------------------------------

  /** A relation whose artist is recorded as a writer: a writer type and a
      non-empty artist name. */
  predicate Contributes(rel: Relation) {
    IsWriterType(rel.relType) && rel.artistName != ""
  }

  /** The artist names of the writer relations, in scan order, before they
      are cleaned and before the set removes repeats. */
  function RawWriterNames(rels: seq<Relation>): seq<string>
    decreases |rels|
  {
    if rels == [] then []
    else (if Contributes(rels[0]) then [rels[0].artistName] else []) + RawWriterNames(rels[1..])
  }

  /** The names `extractNamesFromRelations` adds, in the order it adds them. */
  function WriterNames(rels: seq<Relation>): seq<string> {
    Map(RawWriterNames(rels), Clean)
  }

  /** `x` is the cleaned name of some writer relation in `rels`. */
  ghost predicate IsWriterName(rels: seq<Relation>, x: string) {
    exists i :: 0 <= i < |rels| && Contributes(rels[i]) && Clean(rels[i].artistName) == x
  }

  lemma {:induction false} RawWriterNamesSpec(rels: seq<Relation>, n: string)
    ensures n in RawWriterNames(rels) <==> exists i :: 0 <= i < |rels| && Contributes(rels[i]) && rels[i].artistName == n
    decreases |rels|
  {
    if rels != [] {
      RawWriterNamesSpec(rels[1..], n);
      if exists i :: 0 <= i < |rels[1..]| && Contributes(rels[1..][i]) && rels[1..][i].artistName == n {
        var i :| 0 <= i < |rels[1..]| && Contributes(rels[1..][i]) && rels[1..][i].artistName == n;
        assert rels[i + 1] == rels[1..][i];
      }
      if exists i :: 0 <= i < |rels| && Contributes(rels[i]) && rels[i].artistName == n {
        var i :| 0 <= i < |rels| && Contributes(rels[i]) && rels[i].artistName == n;
        if i > 0 {
          assert rels[1..][i - 1] == rels[i];
        }
      }
    }
  }

  lemma WriterNamesSpec(rels: seq<Relation>, x: string)
    ensures x in WriterNames(rels) <==> IsWriterName(rels, x)
  {
    MapMember(RawWriterNames(rels), Clean, x);
    OwnNamesSpec(rels, x);
  }

  lemma WriterNamesSpecAll(rels: seq<Relation>)
    ensures forall x :: x in WriterNames(rels) <==> IsWriterName(rels, x)
  {
    forall x
      ensures x in WriterNames(rels) <==> IsWriterName(rels, x)
    {
      WriterNamesSpec(rels, x);
    }
  }

  lemma {:induction false} RawWriterNamesAppend(a: seq<Relation>, b: seq<Relation>)
    ensures RawWriterNames(a + b) == RawWriterNames(a) + RawWriterNames(b)
    decreases |a|
  {
    if a == [] {
      assert a + b == b;
    } else {
      assert (a + b)[0] == a[0] && (a + b)[1..] == a[1..] + b;
      RawWriterNamesAppend(a[1..], b);
    }
  }

  /** `extractComposersFromWork(work)`: the distinct cleaned names of the
      writer relations, in first-seen order; no relations, no names. */
  function ExtractComposersFromWork(work: Work): (r: seq<string>)
    ensures NoDup(r)
    ensures work.relations.None? ==> r == []
    ensures forall x :: x in r <==> work.relations.Some? && IsWriterName(work.relations.value, x)
    ensures work.relations.Some? ==> FirstSeen(r, WriterNames(work.relations.value))
  {
    match work.relations
    case None => []
    case Some(rels) =>
      WriterNamesSpecAll(rels);
      DedupOrder(WriterNames(rels));
      Dedup(WriterNames(rels))
  }

  /** A writer relation without an artist name adds nothing. */
  lemma NamelessRelationIgnored(id: string, rels: seq<Relation>, rel: Relation)
    requires rel.artistName == ""
    ensures ExtractComposersFromWork(Work(id, Some(rels + [rel])))
         == ExtractComposersFromWork(Work(id, Some(rels)))
  {
    RawWriterNamesAppend(rels, [rel]);
    assert RawWriterNames([rel]) == [];
    assert RawWriterNames(rels + [rel]) == RawWriterNames(rels);
  }

  /** Only writer types count: a composer relation next to a relation of any
      other type (a performer, say) yields the composer's cleaned name alone. */
  lemma ComposerNotPerformer(id: string, composer: string, otherType: string, other: string)
    requires composer != "" && !IsWriterType(otherType)
    ensures ExtractComposersFromWork(Work(id, Some([Relation("composer", "", composer, None),
                                                    Relation(otherType, "", other, None)])))
         == [Clean(composer)]
  {
    var c := Relation("composer", "", composer, None);
    var o := Relation(otherType, "", other, None);
    assert Contributes(c) by {
      assert WriterTypes[0] == "composer";
    }
    assert RawWriterNames([o]) == [] by {
      assert [o][1..] == [];
    }
    assert RawWriterNames([c, o]) == [composer] by {
      assert [c, o][1..] == [o];
    }
    assert Map([composer], Clean) == [Clean(composer)];
    assert Dedup([Clean(composer)]) == [Clean(composer)] by {
      assert [Clean(composer)][..0] == [];
    }
  }

  /** The raw names the attached works contribute: the writer names of the
      relations of each relation's work, one level deep. */
  function RawAttachedNames(rels: seq<Relation>): seq<string>
    decreases |rels|
  {
    if rels == [] then []
    else
      var own := match rels[0].work
        case Some(w) => (match w.relations case Some(inner) => RawWriterNames(inner) case None => [])
        case None => [];
      own + RawAttachedNames(rels[1..])
  }

  /** `x` is a writer name of the work attached to some relation in `rels`. */
  ghost predicate IsAttachedWriterName(rels: seq<Relation>, x: string) {
    exists i :: 0 <= i < |rels| && rels[i].work.Some? && rels[i].work.value.relations.Some?
      && IsWriterName(rels[i].work.value.relations.value, x)
  }

  /** `x` comes from a raw name of an attached work exactly when it is an
      attached writer name. */
  lemma {:induction false} AttachedNamesSpec(rels: seq<Relation>, x: string)
    ensures MapsTo(RawAttachedNames(rels), Clean, x) <==> IsAttachedWriterName(rels, x)
    decreases |rels|
  {
    if rels != [] {
      AttachedNamesSpec(rels[1..], x);
      var own := match rels[0].work
        case Some(w) => (match w.relations case Some(inner) => RawWriterNames(inner) case None => [])
        case None => [];
      assert RawAttachedNames(rels) == own + RawAttachedNames(rels[1..]);
      MapsToAppend(own, RawAttachedNames(rels[1..]), Clean, x);
      var w := rels[0].work;
      if w.Some? && w.value.relations.Some? {
        OwnNamesSpec(w.value.relations.value, x);
      }
      if IsAttachedWriterName(rels[1..], x) {
        var i :| 0 <= i < |rels[1..]| && rels[1..][i].work.Some? && rels[1..][i].work.value.relations.Some?
          && IsWriterName(rels[1..][i].work.value.relations.value, x);
        assert rels[i + 1] == rels[1..][i];
      }
      if IsAttachedWriterName(rels, x) {
        var i :| 0 <= i < |rels| && rels[i].work.Some? && rels[i].work.value.relations.Some?
          && IsWriterName(rels[i].work.value.relations.value, x);
        if i > 0 {
          assert rels[1..][i - 1] == rels[i];
        }
      }
    }
  }

  lemma OwnNamesSpec(inner: seq<Relation>, x: string)
    ensures MapsTo(RawWriterNames(inner), Clean, x) <==> IsWriterName(inner, x)
  {
    if MapsTo(RawWriterNames(inner), Clean, x) {
      var n :| n in RawWriterNames(inner) && Clean(n) == x;
      RawWriterNamesSpec(inner, n);
    }
    if IsWriterName(inner, x) {
      var i :| 0 <= i < |inner| && Contributes(inner[i]) && Clean(inner[i].artistName) == x;
      RawWriterNamesSpec(inner, inner[i].artistName);
    }
  }

  /** The raw names of the writer-typed credits, with no name check. */
  function RawCreditNames(credits: seq<Credit>): seq<string>
    decreases |credits|
  {
    if credits == [] then []
    else (if IsWriterType(credits[0].creditType) then [credits[0].name] else []) + RawCreditNames(credits[1..])
  }

  ghost predicate IsCreditName(credits: seq<Credit>, x: string) {
    exists i :: 0 <= i < |credits| && IsWriterType(credits[i].creditType) && Clean(credits[i].name) == x
  }

  lemma {:induction false} CreditNamesSpec(credits: seq<Credit>, x: string)
    ensures MapsTo(RawCreditNames(credits), Clean, x) <==> IsCreditName(credits, x)
    decreases |credits|
  {
    if credits != [] {
      CreditNamesSpec(credits[1..], x);
      var own := if IsWriterType(credits[0].creditType) then [credits[0].name] else [];
      assert RawCreditNames(credits) == own + RawCreditNames(credits[1..]);
      MapsToAppend(own, RawCreditNames(credits[1..]), Clean, x);
      if IsCreditName(credits[1..], x) {
        var i :| 0 <= i < |credits[1..]| && IsWriterType(credits[1..][i].creditType) && Clean(credits[1..][i].name) == x;
        assert credits[i + 1] == credits[1..][i];
      }
      if IsCreditName(credits, x) {
        var i :| 0 <= i < |credits| && IsWriterType(credits[i].creditType) && Clean(credits[i].name) == x;
        if i > 0 {
          assert credits[1..][i - 1] == credits[i];
        }
      }
    }
  }

  /** The raw names the recording extractor adds, in the order it adds them:
      top-level relations, then the relations of attached works, then the
      credits. */
  function RawRecordingNames(details: Recording): seq<string> {
    var rels := details.relations.GetOr([]);
    RawWriterNames(rels) + RawAttachedNames(rels) + RawCreditNames(details.credits.GetOr([]))
  }

  /** `extractComposersFromRecording(details)`. */
  function ExtractComposersFromRecording(details: Recording): (r: seq<string>)
    ensures NoDup(r)
    ensures details.relations.None? && details.credits.None? ==> r == []
    ensures FirstSeen(r, Map(RawRecordingNames(details), Clean))
  {
    DedupOrder(Map(RawRecordingNames(details), Clean));
    Dedup(Map(RawRecordingNames(details), Clean))
  }

  /** Exactly the writer names of the three sources appear, each once. */
  lemma RecordingComposersSpec(details: Recording, x: string)
    ensures x in ExtractComposersFromRecording(details) <==>
      || IsWriterName(details.relations.GetOr([]), x)
      || IsAttachedWriterName(details.relations.GetOr([]), x)
      || IsCreditName(details.credits.GetOr([]), x)
  {
    var rels := details.relations.GetOr([]);
    var credits := details.credits.GetOr([]);
    MapMember(RawRecordingNames(details), Clean, x);
    MapsToAppend(RawWriterNames(rels) + RawAttachedNames(rels), RawCreditNames(credits), Clean, x);
    MapsToAppend(RawWriterNames(rels), RawAttachedNames(rels), Clean, x);
    OwnNamesSpec(rels, x);
    AttachedNamesSpec(rels, x);
    CreditNamesSpec(credits, x);
  }

  /** The top-level relations are scanned first, so what the work extractor
      finds on the same relations comes first, in the same order. */
  lemma RecordingStartsWithRelationNames(details: Recording, id: string)
    ensures ExtractComposersFromWork(Work(id, details.relations)) <= ExtractComposersFromRecording(details)
  {
    var rels := details.relations.GetOr([]);
    var rest := RawAttachedNames(rels) + RawCreditNames(details.credits.GetOr([]));
    assert RawRecordingNames(details) == RawWriterNames(rels) + rest;
    MapAppend(RawWriterNames(rels), rest, Clean);
    DedupPrefix(WriterNames(rels), Map(rest, Clean));
  }

  /** A writer-typed credit whose name is missing contributes the empty
      name, unlike a relation, which needs a name. */
  lemma NamelessCreditKept(details: Recording, i: nat)
    requires details.credits.Some? && i < |details.credits.value|
    requires IsWriterType(details.credits.value[i].creditType) && details.credits.value[i].name == ""
    ensures "" in ExtractComposersFromRecording(details)
  {
    assert Clean("") == "";
    assert IsCreditName(details.credits.value, "");
    RecordingComposersSpec(details, "");
  }

  // ---------------------------------------------------------------------
  // Parent work
  // ---------------------------------------------------------------------

  /** The relation `findParentWorkComposers` looks for. */
  predicate IsParentLink(rel: Relation) {
    rel.relType == "parts" && rel.direction == "backward"
  }

  /** `relations.find(...)`: the position of the first parent link. */
  function FirstParentLink(rels: seq<Relation>): (r: Option<nat>)
    ensures r.Some? ==> r.value < |rels| && IsParentLink(rels[r.value])
    ensures r.Some? ==> forall j :: 0 <= j < r.value ==> !IsParentLink(rels[j])
    ensures r.None? ==> forall j :: 0 <= j < |rels| ==> !IsParentLink(rels[j])
    decreases |rels|
  {
    if rels == [] then None
    else if IsParentLink(rels[0]) then Some(0)
    else
      match FirstParentLink(rels[1..])
      case None => None
      case Some(i) => Some(i + 1)
  }

  /** The id of the work the first parent link points at, when it has one. */
  function ParentWorkId(details: Work): (r: Option<string>)
    ensures r.Some? ==> r.value != ""
    ensures r.Some? ==> (details.relations.Some?
      && exists i :: 0 <= i < |details.relations.value| && IsParentLink(details.relations.value[i]))
  {
    match details.relations
    case None => None
    case Some(rels) =>
      match FirstParentLink(rels)
      case None => None
      case Some(i) =>
        if rels[i].work.Some? && rels[i].work.value.id != "" then Some(rels[i].work.value.id) else None
  }

  /** `findParentWorkComposers(workDetails)`, with the work lookup as an oracle
      that may throw. */
  function FindParentWorkComposers(details: Work, loadWork: string -> Result<Work>): (r: Result<seq<string>>)
    ensures ParentWorkId(details).None? ==> r == Success([])
    ensures r.Success? ==> NoDup(r.value)
    ensures r.Failure? ==> ParentWorkId(details).Some? && loadWork(ParentWorkId(details).value).Failure?
    ensures ParentWorkId(details).Some? && loadWork(ParentWorkId(details).value).Success? ==>
      r == Success(ExtractComposersFromWork(loadWork(ParentWorkId(details).value).value))
  {
    match ParentWorkId(details)
    case None => Success([])
    case Some(id) =>
      var parent :- loadWork(id);
      Success(ExtractComposersFromWork(parent))
  }

  /** Only the first parent link is consulted: when it has no work id the
      answer is empty, whatever later links say, and no lookup is made. */
  lemma FirstParentLinkDecides(id: string, before: seq<Relation>, link: Relation, after: seq<Relation>,
                               loadWork: string -> Result<Work>)
    requires forall j :: 0 <= j < |before| ==> !IsParentLink(before[j])
    requires IsParentLink(link) && (link.work.None? || link.work.value.id == "")
    ensures FindParentWorkComposers(Work(id, Some(before + [link] + after)), loadWork) == Success([])
  {
    FirstLinkAt(before, link, after);
  }

  /** A parent link with a work id after no other parent link is the one
      looked up. */
  lemma ParentLinkLookedUp(id: string, before: seq<Relation>, link: Relation, after: seq<Relation>)
    requires forall j :: 0 <= j < |before| ==> !IsParentLink(before[j])
    requires IsParentLink(link) && link.work.Some? && link.work.value.id != ""
    ensures ParentWorkId(Work(id, Some(before + [link] + after))) == Some(link.work.value.id)
  {
    FirstLinkAt(before, link, after);
  }

  lemma FirstLinkAt(before: seq<Relation>, link: Relation, after: seq<Relation>)
    requires forall j :: 0 <= j < |before| ==> !IsParentLink(before[j])
    requires IsParentLink(link)
    ensures FirstParentLink(before + [link] + after) == Some(|before|)
  {
    var rels := before + [link] + after;
    assert rels[|before|] == link;
    assert forall j :: 0 <= j < |before| ==> rels[j] == before[j];
  }

  // ---------------------------------------------------------------------
  // Searches
  // ---------------------------------------------------------------------

  /** A search that answered with at least one result. A thrown search and a
      missing or empty result list are misses alike. */
  predicate Hit<T>(res: Result<seq<T>>) {
    res.Success? && |res.value| > 0
  }

  /** The position of the first query whose search hits. */
  function FirstHitIndex<Q, T>(queries: seq<Q>, search: Q -> Result<seq<T>>): (r: Option<nat>)
    ensures r.Some? ==> r.value < |queries| && Hit(search(queries[r.value]))
    ensures r.Some? ==> forall j :: 0 <= j < r.value ==> !Hit(search(queries[j]))
    ensures r.None? ==> forall j :: 0 <= j < |queries| ==> !Hit(search(queries[j]))
    decreases |queries|
  {
    if queries == [] then None
    else if Hit(search(queries[0])) then Some(0)
    else
      match FirstHitIndex(queries[1..], search)
      case None => None
      case Some(i) => Some(i + 1)
  }

  /** The loop over queries that returns the first result of the first
      search that hits, and `null` when every search misses. */
  function FirstHit<Q, T>(queries: seq<Q>, search: Q -> Result<seq<T>>): (r: Option<T>)
    ensures r.None? <==> forall j :: 0 <= j < |queries| ==> !Hit(search(queries[j]))
    ensures r.Some? ==>
      exists i :: && 0 <= i < |queries| && Hit(search(queries[i]))
                  && r.value == search(queries[i]).value[0]
                  && forall j :: 0 <= j < i ==> !Hit(search(queries[j]))
  {
    match FirstHitIndex(queries, search)
    case None => None
    case Some(i) => Some(search(queries[i]).value[0])
  }

  /** How many searches the loop issues: up to and including the first hit. */
  function SearchesIssued<Q, T>(queries: seq<Q>, search: Q -> Result<seq<T>>): (n: nat)
    ensures n <= |queries|
    ensures n < |queries| ==> n > 0 && Hit(search(queries[n - 1]))
    ensures forall j :: 0 <= j < |queries| && Hit(search(queries[j])) ==> n <= j + 1
    ensures forall j :: 0 <= j < n - 1 ==> !Hit(search(queries[j]))
  {
    match FirstHitIndex(queries, search)
    case None => |queries|
    case Some(i) => i + 1
  }

  /** Searches after the first hit are never issued: an oracle that answers
      the same up to the first hit gives the same result, whatever it would
      answer later. */
  lemma {:induction false} FirstHitIgnoresLater<Q, T>(queries: seq<Q>, search: Q -> Result<seq<T>>, other: Q -> Result<seq<T>>)
    requires forall j :: 0 <= j < SearchesIssued(queries, search) ==> other(queries[j]) == search(queries[j])
    ensures FirstHitIndex(queries, other) == FirstHitIndex(queries, search)
    ensures FirstHit(queries, other) == FirstHit(queries, search)
    decreases |queries|
  {
    if queries != [] {
      assert other(queries[0]) == search(queries[0]);
      if !Hit(search(queries[0])) {
        var n := SearchesIssued(queries[1..], search);
        forall j | 0 <= j < n
          ensures other(queries[1..][j]) == search(queries[1..][j])
        {
          assert queries[1..][j] == queries[j + 1];
        }
        FirstHitIgnoresLater(queries[1..], search, other);
      }
    }
  }

  /** The first hit of a list of queries is the first hit of its first part
      when that part hits at all. */
  lemma {:induction false} FirstHitAppend<Q, T>(a: seq<Q>, b: seq<Q>, search: Q -> Result<seq<T>>)
    ensures FirstHit(a + b, search) == if FirstHit(a, search).Some? then FirstHit(a, search) else FirstHit(b, search)
    decreases |a|
  {
    if a == [] {
      assert a + b == b;
    } else {
      assert (a + b)[0] == a[0] && (a + b)[1..] == a[1..] + b;
      FirstHitAppend(a[1..], b, search);
    }
  }

  /** `"${s}"` inside a Lucene query; the text is not escaped. */
  function Quoted(s: string): string {
    "\"" + s + "\""
  }

  /** `work:"${title}" AND artist:"${artist}"`. */
  function WorkArtistQuery(title: string, artist: string): string {
    "work:" + Quoted(title) + " AND artist:" + Quoted(artist)
  }

  /** `work:"${title}"`. */
  function WorkQuery(title: string): string {
    "work:" + Quoted(title)
  }

  /** `work:${title}~`, the fuzzy search. */
  function FuzzyWorkQuery(title: string): string {
    "work:" + title + "~"
  }

  /** The two queries per artist: the cleaned title, then the normalised one. */
  function ArtistWorkQueries(titleClean: string, titleNorm: string, artists: seq<string>): seq<string> {
    Pairs(artists, a => WorkArtistQuery(titleClean, a), a => WorkArtistQuery(titleNorm, a))
  }

  /** The queries of `findWorkAdvanced` for a cleaned title, its normalised
      form and the split artists, in the order they are tried: both titles
      with each artist, then both titles alone, then both fuzzy. */
  function WorkQueriesFor(titleClean: string, titleNorm: string, artists: seq<string>): (qs: seq<string>)
    ensures |qs| == 2 * |artists| + 4
    ensures forall k :: 0 <= k < |artists| ==>
      && qs[2 * k] == WorkArtistQuery(titleClean, artists[k])
      && qs[2 * k + 1] == WorkArtistQuery(titleNorm, artists[k])
    ensures qs[|qs| - 4] == WorkQuery(titleClean) && qs[|qs| - 3] == WorkQuery(titleNorm)
    ensures qs[|qs| - 2] == FuzzyWorkQuery(titleClean) && qs[|qs| - 1] == FuzzyWorkQuery(titleNorm)
  {
    ArtistWorkQueries(titleClean, titleNorm, artists)
      + [WorkQuery(titleClean), WorkQuery(titleNorm), FuzzyWorkQuery(titleClean), FuzzyWorkQuery(titleNorm)]
  }

  /** The queries `findWorkAdvanced(title, artist)` tries. */
  function WorkQueries(title: string, artist: string): seq<string> {
    WorkQueriesFor(Clean(title), NormalizeTitle(title), SplitArtists(artist))
  }

  /** `findWorkAdvanced(title, artist)`: the first-hit loop over its queries. */
  function FindWorkAdvanced(title: string, artist: string, search: string -> Result<seq<Work>>): Option<Work> {
    FirstHit(WorkQueries(title, artist), search)
  }

  /** With no artist to split, only the four title-only queries are tried. */
  lemma WorkQueriesWithoutArtists(titleClean: string, titleNorm: string)
    ensures WorkQueriesFor(titleClean, titleNorm, [])
         == [WorkQuery(titleClean), WorkQuery(titleNorm), FuzzyWorkQuery(titleClean), FuzzyWorkQuery(titleNorm)]
  {
  }

  /** A hit on the first artist query wins over everything after it. */
  lemma FirstArtistQueryWins(titleClean: string, titleNorm: string, artists: seq<string>,
                             search: string -> Result<seq<Work>>)
    requires artists != [] && Hit(search(WorkArtistQuery(titleClean, artists[0])))
    ensures FirstHit(WorkQueriesFor(titleClean, titleNorm, artists), search)
         == Some(search(WorkArtistQuery(titleClean, artists[0])).value[0])
  {
  }

  /** The per-artist queries of `findRecordingByText`: the normalised title
      with each split artist, in order. */
  function RecordingQueriesFor(normTitle: string, artists: seq<string>): (qs: seq<RecordingQuery>)
    ensures |qs| == |artists|
    ensures forall k :: 0 <= k < |qs| ==> qs[k] == RecordingQuery(normTitle, artists[k])
  {
    seq(|artists|, k requires 0 <= k < |artists| => RecordingQuery(normTitle, artists[k]))
  }

  /** `findRecordingByText(artist, title)`. */
  function FindRecordingByText(artist: string, title: string, search: RecordingQuery -> Result<seq<Recording>>): (r: Option<Recording>)
  {
    FirstHit(RecordingQueriesFor(NormalizeTitle(title), SplitArtists(artist)), search)
  }

  /** What the recording search answers: the first result of the first split
      artist whose search with the normalised title hits, and nothing when
      there is no artist to search for. */
  lemma FindRecordingByTextHit(normTitle: string, artists: seq<string>, search: RecordingQuery -> Result<seq<Recording>>)
    ensures var r := FirstHit(RecordingQueriesFor(normTitle, artists), search);
      r.Some? ==> (exists k :: 0 <= k < |artists|
                     && Hit(search(RecordingQuery(normTitle, artists[k])))
                     && r.value == search(RecordingQuery(normTitle, artists[k])).value[0]
                     && forall j :: 0 <= j < k ==> !Hit(search(RecordingQuery(normTitle, artists[j]))))
    ensures artists == [] ==> FirstHit(RecordingQueriesFor(normTitle, artists), search).None?
  {
    var qs := RecordingQueriesFor(normTitle, artists);
    var i := FirstHitIndex(qs, search);
    if i.Some? {
      assert qs[i.value] == RecordingQuery(normTitle, artists[i.value]);
    }
  }

  /** `findWorkLucene(title, artist)`: one search with the raw title and artist;
      its first result, or `null` when it throws or finds nothing. */
  function FindWorkLucene(title: string, artist: string, search: string -> Result<seq<Work>>): (r: Option<Work>)
    ensures search(WorkArtistQuery(title, artist)).Failure? ==> r.None?
  {
    match search(WorkArtistQuery(title, artist))
    case Failure(_) => None
    case Success(works) => Head(works)
  }

  /** The single Lucene search is the first-hit loop over one query. */
  lemma FindWorkLuceneIsFirstHit(title: string, artist: string, search: string -> Result<seq<Work>>)
    ensures FindWorkLucene(title, artist, search) == FirstHit([WorkArtistQuery(title, artist)], search)
  {
    assert [WorkArtistQuery(title, artist)][1..] == [];
  }
}
