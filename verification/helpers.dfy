/** The text normalisers of `lib/helpers.ts`: cleaning of user-typed names,
    the artist splitter, the title and artist-name normalisers used for
    matching, and the match score. */
module Helpers {
  import opened Base
  import opened Text

  // ---------------------------------------------------------------------
  // clean
  // ---------------------------------------------------------------------

  /** The three characters the repair of UTF-8-read-as-Latin-1 text targets:
      `ï`, `¿` and `½`. */
  predicate IsMojibake(c: char) {
    c == '\U{EF}' || c == '\U{BF}' || c == '\U{BD}'
  }

  predicate NoMojibake(s: string) {
    Every(s, (c: char) => !IsMojibake(c))
  }

  /** `.replace(/^"|"$/g, "")`: a `"` at the very start goes, then a `"` at the
      very end of what is left; a lone `"` is removed once. */
  function StripQuotes(s: string): (r: string)
    ensures |s| - 2 <= |r| <= |s|
    ensures s != [] && s[0] != '"' && s[|s| - 1] != '"' ==> r == s
    ensures var k := if s != [] && s[0] == '"' then 1 else 0;
      k + |r| <= |s| && r == s[k..k + |r|]
    ensures var k := if s != [] && s[0] == '"' then 1 else 0;
      |r| == if k < |s| && s[|s| - 1] == '"' then |s| - k - 1 else |s| - k
  {
    var t := if s != [] && s[0] == '"' then s[1..] else s;
    if t != [] && t[|t| - 1] == '"' then t[..|t| - 1] else t
  }

  lemma StripQuotesEvery(s: string, p: char -> bool)
    requires Every(s, p)
    ensures Every(StripQuotes(s), p)
  {
    var t := if s != [] && s[0] == '"' then s[1..] else s;
    assert Every(t, p) by {
      forall i | 0 <= i < |t|
        ensures p(t[i])
      {
        assert t[i] == s[|s| - |t| + i];
      }
    }
  }

  /** `.replace(/[ï¿½]/g, "Ã©")`: each of the three characters becomes the
      two characters `Ã©`. */
  function FixMojibake(s: string): (r: string)
    ensures NoMojibake(r)
    ensures NoMojibake(s) ==> r == s
    decreases |s|
  {
    if s == [] then []
    else
      var head := if IsMojibake(s[0]) then "\U{C3}\U{A9}" else [s[0]];
      var rest := FixMojibake(s[1..]);
      assert NoMojibake(s) ==> NoMojibake(s[1..]) by {
        if NoMojibake(s) {
          forall i | 0 <= i < |s[1..]|
            ensures !IsMojibake(s[1..][i])
          {
            assert s[1..][i] == s[i + 1];
          }
        }
      }
      EveryAppend(head, rest, (c: char) => !IsMojibake(c));
      head + rest
  }

  /** The repair works on each part of a text independently. */
  lemma {:induction false} FixMojibakeAppend(a: string, b: string)
    ensures FixMojibake(a + b) == FixMojibake(a) + FixMojibake(b)
    decreases |a|
  {
    if a == [] {
      assert a + b == b;
    } else {
      assert (a + b)[0] == a[0] && (a + b)[1..] == a[1..] + b;
      FixMojibakeAppend(a[1..], b);
      var head := if IsMojibake(a[0]) then "\U{C3}\U{A9}" else [a[0]];
      Associative(head, FixMojibake(a[1..]), FixMojibake(b));
    }
  }

  /** Each of the three characters becomes `Ã©`; any other character stays. */
  lemma FixMojibakeChar(c: char)
    ensures IsMojibake(c) ==> FixMojibake([c]) == "\U{C3}\U{A9}"
    ensures !IsMojibake(c) ==> FixMojibake([c]) == [c]
  {
    assert [c][1..] == [];
  }

  lemma {:induction false} FixMojibakeEvery(s: string, p: char -> bool)
    requires Every(s, p) && p('\U{C3}') && p('\U{A9}')
    ensures Every(FixMojibake(s), p)
    decreases |s|
  {
    if s != [] {
      assert Every(s[1..], p) by {
        forall i | 0 <= i < |s[1..]|
          ensures p(s[1..][i])
        {
          assert s[1..][i] == s[i + 1];
        }
      }
      FixMojibakeEvery(s[1..], p);
      var head := if IsMojibake(s[0]) then "\U{C3}\U{A9}" else [s[0]];
      EveryAppend(head, FixMojibake(s[1..]), p);
    }
  }

  /** `clean(text)`. NFC normalisation is the identity in this model. */
  function Clean(text: string): (r: string)
    ensures text == [] ==> r == []
    ensures Tidy(r)
    ensures NoMojibake(r)
    ensures NonSpace(r) == NonSpace(FixMojibake(StripQuotes(text)))
  {
    if text == [] then []
    else
      var fixed := FixMojibake(StripQuotes(text));
      SquashEvery(fixed, (c: char) => !IsMojibake(c));
      Squash(fixed)
  }

  /** `clean` keeps the words of the repaired, unquoted text, in order, with
      exactly one space between neighbours and none at either end. */
  lemma CleanWords(text: string)
    ensures Clean(text) == JoinWith(Words(FixMojibake(StripQuotes(text))), " ")
  {
    var fixed := FixMojibake(StripQuotes(text));
    SquashWords(fixed);
    if text == [] {
      assert fixed == [];
      assert Squash(fixed) == [];
    }
  }

  /** `clean` introduces no character except spaces and the repair `Ã©`: every
      property the input's characters share with those three is kept. */
  lemma CleanEvery(text: string, p: char -> bool)
    requires Every(text, p) && p(' ') && p('\U{C3}') && p('\U{A9}')
    ensures Every(Clean(text), p)
  {
    if text != [] {
      StripQuotesEvery(text, p);
      FixMojibakeEvery(StripQuotes(text), p);
      var fixed := FixMojibake(StripQuotes(text));
      assert Every(fixed, (c: char) => IsSpace(c) || p(c));
      SquashEvery(fixed, p);
    }
  }

  /** One pair of surrounding quotes is removed from tidy text. */
  lemma CleanUnquotes(x: string)
    requires Tidy(x) && NoMojibake(x)
    ensures Clean("\"" + x + "\"") == x
  {
    StripQuotesPair(x);
    CleanOfUnquoted("\"" + x + "\"", x);
  }

  /** Text whose quote-stripped form is already clean comes out as that form. */
  lemma CleanOfUnquoted(text: string, x: string)
    requires text != [] && StripQuotes(text) == x
    requires Tidy(x) && NoMojibake(x)
    ensures Clean(text) == x
  {
    SquashTidy(x);
  }

  lemma StripQuotesPair(x: string)
    ensures StripQuotes("\"" + x + "\"") == x
  {
    var q := "\"" + x + "\"";
    assert q[1..] == x + "\"";
    assert (x + "\"")[..|x|] == x;
  }

  /** Text that `clean` could have produced and that does not start or end
      with a quote comes back unchanged. */
  lemma CleanStable(s: string)
    requires s != [] ==> s[0] != '"' && s[|s| - 1] != '"'
    requires Tidy(s) && NoMojibake(s)
    ensures Clean(s) == s
  {
    if s != [] {
      SquashTidy(s);
    }
  }

  /** `clean` is not idempotent: a doubly quoted name loses one pair of quotes
      per application. */
  lemma CleanNotIdempotent()
    ensures Clean(Clean("\"\"a\"\"")) != Clean("\"\"a\"\"")
  {
    CleanDoublyQuoted();
    CleanQuoted();
  }

  lemma CleanDoublyQuoted()
    ensures Clean("\"\"a\"\"") == "\"a\""
  {
    QuotedATidy();
    assert "\"\"a\"\"" == "\"" + "\"a\"" + "\"";
    CleanUnquotes("\"a\"");
  }

  lemma CleanQuoted()
    ensures Clean("\"a\"") == "a"
  {
    QuotedATidy();
    assert "\"a\"" == "\"" + "a" + "\"";
    CleanUnquotes("a");
  }

  lemma QuotedATidy()
    ensures Tidy("\"a\"") && NoMojibake("\"a\"")
    ensures Tidy("a") && NoMojibake("a")
  {
  }

  // ---------------------------------------------------------------------
  // splitArtists
  // ---------------------------------------------------------------------

  /** `.replace(/ feat\.?/i, ";").replace(/ ft\.?/i, ";")`: the first marker of
      each kind becomes a separator. */
  function MarkFeaturing(artist: string): string {
    ReplaceFirstMarker(ReplaceFirstMarker(artist, "feat", ";"), "ft", ";")
  }

  predicate NoMarkers(s: string) {
    MarkerFree(s, "feat") && MarkerFree(s, "ft")
  }

  /** Text without markers is left alone by `MarkFeaturing`. */
  lemma MarkFeaturingUnmarked(s: string)
    requires NoMarkers(s)
    ensures MarkFeaturing(s) == s
  {
    ReplaceFirstMarkerFree(s, "feat", ";");
    ReplaceFirstMarkerFree(s, "ft", ";");
  }

  /** The first ` feat`, in any letter case, after marker-free text becomes
      the separator `;`, with a dot after it; of what follows, only a ` ft`
      is still marked. */
  lemma MarkFeaturingFirst(a: string, m: string, b: string)
    requires NoMarkers(a) && IsMarker(m, "feat")
    ensures MarkFeaturing(a + m + b) == a + ";" + ReplaceFirstMarker(DropDot(b), "ft", ";")
  {
    ReplaceFirstMarkerAt(a, m, "feat", b, ";");
    ReplaceFirstMarkerPast(a, ';', DropDot(b), "ft", ";");
  }

  /** Without any ` feat`, the first ` ft`, in any letter case, becomes the
      separator `;`, with a dot after it. */
  lemma MarkFeaturingFt(a: string, m: string, b: string)
    requires NoMarkers(a) && MarkerFree(b, "feat") && IsMarker(m, "ft")
    ensures MarkFeaturing(a + m + b) == a + ";" + DropDot(b)
  {
    MarkerFreeAround(a, m, b, "ft", "feat");
    ReplaceFirstMarkerFree(a + m + b, "feat", ";");
    ReplaceFirstMarkerAt(a, m, "ft", b, ";");
  }

  /** The separators of `split(/[;,]/)`. */
  const ArtistSeparators: set<char> := {';', ','}

  predicate NotArtistSeparator(c: char) {
    c != ';' && c != ','
  }

  /** The shape of every name `splitArtists` returns. */
  ghost predicate IsArtistName(x: string) {
    x != [] && IsCleanPiece(x)
  }

  /** `splitArtists(artist)`. */
  function SplitArtists(artist: string): (r: seq<string>)
    ensures forall i :: 0 <= i < |r| ==> IsArtistName(r[i])
  {
    SplitNames(MarkFeaturing(artist))
  }

  /** `.split(/[;,]/).map((a) => clean(a)).filter(Boolean)`: the names between
      separators, cleaned, blank ones dropped. */
  function SplitNames(s: string): (r: seq<string>)
    ensures forall i :: 0 <= i < |r| ==> IsArtistName(r[i])
  {
    var cs := ArtistSeparators;
    var pieces := Split(s, AnyChar(cs));
    var cleaned := Map(pieces, Clean);
    var r := KeepNonEmpty(cleaned);
    SplitAnyCharEvery(s, cs, NotArtistSeparator);
    SplitArtistsShape(pieces, cleaned, r);
    r
  }

  lemma SplitArtistsShape(pieces: seq<string>, cleaned: seq<string>, r: seq<string>)
    requires forall k :: 0 <= k < |pieces| ==> Every(pieces[k], NotArtistSeparator)
    requires cleaned == Map(pieces, Clean) && r == KeepNonEmpty(cleaned)
    ensures forall i :: 0 <= i < |r| ==> IsArtistName(r[i])
  {
    forall k | 0 <= k < |cleaned|
      ensures IsCleanPiece(cleaned[k])
    {
      CleanPiece(pieces[k]);
    }
    KeepNonEmptyEvery(cleaned, IsCleanPiece);
    forall i | 0 <= i < |r|
      ensures IsArtistName(r[i])
    {
      assert r[i] != [] && IsCleanPiece(r[i]);
    }
  }

  ghost predicate IsCleanPiece(x: string) {
    Tidy(x) && NoMojibake(x) && Every(x, NotArtistSeparator)
  }

  lemma CleanPiece(piece: string)
    requires Every(piece, NotArtistSeparator)
    ensures IsCleanPiece(Clean(piece))
  {
    CleanEvery(piece, NotArtistSeparator);
  }

  /** On marker-free text, the names on either side of a `;` or `,` are split
      independently and listed left to right. */
  lemma SplitArtistsAround(a: string, sep: char, b: string)
    requires sep in ArtistSeparators
    requires NoMarkers(a + [sep] + b) && NoMarkers(a) && NoMarkers(b)
    ensures SplitArtists(a + [sep] + b) == SplitArtists(a) + SplitArtists(b)
  {
    MarkFeaturingUnmarked(a + [sep] + b);
    MarkFeaturingUnmarked(a);
    MarkFeaturingUnmarked(b);
    var cs := ArtistSeparators;
    SplitAroundAnyChar(a, sep, b, cs);
    var pa := Split(a, AnyChar(cs));
    var pb := Split(b, AnyChar(cs));
    MapAppend(pa, pb, Clean);
    KeepNonEmptyAppend(Map(pa, Clean), Map(pb, Clean));
  }

  /** A single marker-free name without separators is one artist, cleaned. */
  lemma SplitArtistsSingle(a: string)
    requires NoMarkers(a) && Every(a, NotArtistSeparator)
    ensures SplitArtists(a) == if Clean(a) == [] then [] else [Clean(a)]
  {
    MarkFeaturingUnmarked(a);
    SplitAnyCharAbsent(a, ArtistSeparators);
    assert Map([a], Clean) == [Clean(a)];
  }

  /** A `;` after marker-free text separates its names from those of the
      text after it. */
  lemma SplitNamesAfterMarked(a: string, rest: string)
    requires NoMarkers(a)
    ensures SplitNames(a + ";" + rest) == SplitArtists(a) + SplitNames(rest)
  {
    MarkFeaturingUnmarked(a);
    var cs := ArtistSeparators;
    SplitAroundAnyChar(a, ';', rest, cs);
    var pa := Split(a, AnyChar(cs));
    var pr := Split(rest, AnyChar(cs));
    MapAppend(pa, pr, Clean);
    KeepNonEmptyAppend(Map(pa, Clean), Map(pr, Clean));
  }

  /** The first ` feat`, in any letter case, after marker-free text separates
      the names before it from those after it, where only a ` ft` still
      separates. */
  lemma SplitArtistsFeat(a: string, m: string, b: string)
    requires NoMarkers(a) && IsMarker(m, "feat")
    ensures SplitArtists(a + m + b) == SplitArtists(a) + SplitNames(ReplaceFirstMarker(DropDot(b), "ft", ";"))
  {
    MarkFeaturingFirst(a, m, b);
    SplitNamesAfterMarked(a, ReplaceFirstMarker(DropDot(b), "ft", ";"));
  }

  /** In text without ` feat`, the first ` ft`, in any letter case, separates
      the names before it from those after it. */
  lemma SplitArtistsFt(a: string, m: string, b: string)
    requires NoMarkers(a) && MarkerFree(b, "feat") && IsMarker(m, "ft")
    ensures SplitArtists(a + m + b) == SplitArtists(a) + SplitNames(DropDot(b))
  {
    MarkFeaturingFt(a, m, b);
    SplitNamesAfterMarked(a, DropDot(b));
  }

  /** Only the first ` feat` separates: of `a feat b feat c`, in any letter
      case, the second marker stays inside the second name. */
  lemma SplitArtistsSecondFeatKept(a: string, m1: string, b: string, m2: string, c: string)
    requires NoMarkers(a) && NoMarkers(b) && NoMarkers(c)
    requires IsMarker(m1, "feat") && IsMarker(m2, "feat")
    requires Every(b, NotArtistSeparator) && Every(c, NotArtistSeparator)
    ensures SplitArtists(a + m1 + b + m2 + c) == SplitArtists(a) + KeepNonEmpty([Clean(DropDot(b) + m2 + c)])
  {
    var n := DropDot(b) + m2 + c;
    MarkersRegroup(a, m1, b, m2, c);
    MarkerShape(m2, "feat");
    DropDotBeforeMarker(b, m2, c);
    MarkerFreeDropDot(b, "ft");
    MarkerFreeAround(DropDot(b), m2, c, "feat", "ft");
    ReplaceFirstMarkerFree(n, "ft", ";");
    SeparatorFreeAroundMarker(b, m2, c);
    SplitNamesSingle(n);
    SplitArtistsFeat(a, m1, b + m2 + c);
  }

  /** Text without separators is one name, cleaned, or none when blank. */
  lemma SplitNamesSingle(m: string)
    requires Every(m, (x: char) => x !in ArtistSeparators)
    ensures SplitNames(m) == KeepNonEmpty([Clean(m)])
  {
    SplitAnyCharAbsent(m, ArtistSeparators);
    assert Map([m], Clean) == [Clean(m)];
  }

  /** Joining two separator-free texts with a marker adds no separator. */
  lemma SeparatorFreeAroundMarker(b: string, m: string, c: string)
    requires Every(b, NotArtistSeparator) && Every(c, NotArtistSeparator)
    requires IsMarker(m, "feat")
    ensures Every(DropDot(b) + m + c, (x: char) => x !in ArtistSeparators)
  {
    MarkerShape(m, "feat");
    var b' := DropDot(b);
    var n := b' + m + c;
    forall k | 0 <= k < |n|
      ensures n[k] !in ArtistSeparators
    {
      if k < |b'| {
        assert n[k] == b[k + |b| - |b'|];
      } else if k < |b'| + |m| {
        assert n[k] == m[k - |b'|];
      } else {
        assert n[k] == c[k - |b'| - |m|];
      }
    }
  }

  // ---------------------------------------------------------------------
  // normalizeTitle
  // ---------------------------------------------------------------------

  /** Where the lazy `.*?` of `/\(.*?\)/` stops: the first `close` in `s`, if no
      line terminator comes before it. */
  function CloseAt(s: string, close: char): (r: Option<nat>)
    ensures r.Some? ==> r.value < |s| && s[r.value] == close
    ensures close !in s ==> r.None?
    decreases |s|
  {
    if s == [] then None
    else if s[0] == close then Some(0)
    else if IsLineTerminator(s[0]) then None
    else
      match CloseAt(s[1..], close)
      case None => None
      case Some(k) => Some(k + 1)
  }

  /** `.replace(/\(.*?\)/g, "")` for the bracket pair `open`/`close`: every
      bracketed group on one line is removed, leftmost first. */
  function DropGroups(s: string, open: char, close: char): string
    decreases |s|
  {
    if s == [] then []
    else if s[0] == open && CloseAt(s[1..], close).Some? then
      DropGroups(s[1..][CloseAt(s[1..], close).value + 1..], open, close)
    else [s[0]] + DropGroups(s[1..], open, close)
  }

  lemma {:induction false} DropGroupsShorter(s: string, open: char, close: char)
    ensures |DropGroups(s, open, close)| <= |s|
    decreases |s|
  {
    if s != [] {
      if s[0] == open && CloseAt(s[1..], close).Some? {
        DropGroupsShorter(s[1..][CloseAt(s[1..], close).value + 1..], open, close);
      } else {
        DropGroupsShorter(s[1..], open, close);
      }
    }
  }

  /** Text without an opening bracket has no group to drop. */
  lemma {:induction false} DropGroupsUnchanged(s: string, open: char, close: char)
    requires open !in s
    ensures DropGroups(s, open, close) == s
    decreases |s|
  {
    if s != [] {
      assert open !in s[1..] by {
        assert forall i :: 0 <= i < |s[1..]| ==> s[1..][i] == s[i + 1];
      }
      DropGroupsUnchanged(s[1..], open, close);
      assert s == [s[0]] + s[1..];
    }
  }

  lemma {:induction false} DropGroupsEvery(s: string, open: char, close: char, p: char -> bool)
    requires Every(s, p)
    ensures Every(DropGroups(s, open, close), p)
    decreases |s|
  {
    if s != [] {
      var t := s[1..];
      assert Every(t, p) by {
        forall i | 0 <= i < |t|
          ensures p(t[i])
        {
          assert t[i] == s[i + 1];
        }
      }
      if s[0] == open && CloseAt(t, close).Some? {
        var k := CloseAt(t, close).value;
        var u := t[k + 1..];
        assert DropGroups(s, open, close) == DropGroups(u, open, close);
        assert Every(u, p) by {
          forall i | 0 <= i < |u|
            ensures p(u[i])
          {
            assert u[i] == t[k + 1 + i];
          }
        }
        DropGroupsEvery(u, open, close, p);
      } else {
        assert DropGroups(s, open, close) == [s[0]] + DropGroups(t, open, close);
        DropGroupsEvery(t, open, close, p);
        EveryAppend([s[0]], DropGroups(t, open, close), p);
      }
    }
  }

  predicate NoLineTerminator(s: string) {
    forall i :: 0 <= i < |s| ==> !IsLineTerminator(s[i])
  }

  /** `.replace(/-.*$/g, "")`: everything from the first `-` that has no line
      terminator after it is cut off. */
  function CutDash(s: string): (r: string)
    ensures r <= s
    ensures '-' !in s ==> r == s
    ensures |r| < |s| ==> s[|r|] == '-' && NoLineTerminator(s[|r| + 1..])
    decreases |s|
  {
    if s == [] then []
    else if s[0] == '-' && NoLineTerminator(s[1..]) then []
    else [s[0]] + CutDash(s[1..])
  }

  /** What `/[^\p{L}\p{N}\s]/gu` leaves in place. */
  predicate IsTitleChar(c: char) {
    IsLetter(c) || IsNumber(c) || IsSpace(c)
  }

  /** `.replace(/[^\p{L}\p{N}\s]/gu, "")`. */
  function KeepTitleChars(s: string): (r: string)
    ensures Every(r, IsTitleChar)
    ensures Every(s, IsTitleChar) ==> r == s
    decreases |s|
  {
    if s == [] then []
    else
      var head := if IsTitleChar(s[0]) then [s[0]] else [];
      assert Every(s, IsTitleChar) ==> Every(s[1..], IsTitleChar) by {
        if Every(s, IsTitleChar) {
          forall i | 0 <= i < |s[1..]|
            ensures IsTitleChar(s[1..][i])
          {
            assert s[1..][i] == s[i + 1];
          }
        }
      }
      EveryAppend(head, KeepTitleChars(s[1..]), IsTitleChar);
      head + KeepTitleChars(s[1..])
  }

  lemma {:induction false} KeepTitleCharsEvery(s: string, p: char -> bool)
    requires Every(s, p)
    ensures Every(KeepTitleChars(s), p)
    decreases |s|
  {
    if s != [] {
      assert Every(s[1..], p) by {
        forall i | 0 <= i < |s[1..]|
          ensures p(s[1..][i])
        {
          assert s[1..][i] == s[i + 1];
        }
      }
      KeepTitleCharsEvery(s[1..], p);
      EveryAppend(if IsTitleChar(s[0]) then [s[0]] else [], KeepTitleChars(s[1..]), p);
    }
  }

  /** The filter works on each part of a text independently. */
  lemma {:induction false} KeepTitleCharsAppend(a: string, b: string)
    ensures KeepTitleChars(a + b) == KeepTitleChars(a) + KeepTitleChars(b)
    decreases |a|
  {
    if a == [] {
      assert a + b == b;
    } else {
      assert (a + b)[0] == a[0] && (a + b)[1..] == a[1..] + b;
      KeepTitleCharsAppend(a[1..], b);
      var head := if IsTitleChar(a[0]) then [a[0]] else [];
      Associative(head, KeepTitleChars(a[1..]), KeepTitleChars(b));
    }
  }

  /** Each character is kept exactly when it is a letter, a number or
      whitespace, and the text around it is filtered on its own. */
  lemma KeepTitleCharsAround(a: string, c: char, b: string)
    ensures KeepTitleChars(a + [c] + b)
         == KeepTitleChars(a) + (if IsTitleChar(c) then [c] else []) + KeepTitleChars(b)
  {
    KeepTitleCharsAppend(a + [c], b);
    KeepTitleCharsAppend(a, [c]);
    assert [c][1..] == [];
  }

  /** The characters a normalised title is made of: lower-case letters,
      digits and the single space. */
  predicate IsNormalTitleChar(c: char) {
    (IsLetter(c) || IsNumber(c) || c == ' ') && !IsCapital(c)
  }

  /** `normalizeTitle(title)`. */
  function NormalizeTitle(title: string): (r: string)
    ensures Tidy(r)
    ensures Every(r, IsNormalTitleChar)
  {
    var lowered := LowerAll(title);
    var grouped := Ungroup(lowered);
    var kept := KeepTitleChars(CutDash(grouped));
    NormalizeTitleChars(lowered, grouped, kept);
    Squash(kept)
  }

  /** Both group removals of `normalizeTitle`: parentheses, then brackets. */
  function Ungroup(s: string): (r: string)
    ensures |r| <= |s|
    ensures '(' !in s && '[' !in s ==> r == s
  {
    var inner := DropGroups(s, '(', ')');
    DropGroupsShorter(s, '(', ')');
    DropGroupsShorter(inner, '[', ']');
    UngroupUnbracketed(s);
    DropGroups(inner, '[', ']')
  }

  lemma UngroupUnbracketed(s: string)
    ensures '(' !in s && '[' !in s ==> DropGroups(DropGroups(s, '(', ')'), '[', ']') == s
  {
    if '(' !in s && '[' !in s {
      DropGroupsUnchanged(s, '(', ')');
      DropGroupsUnchanged(s, '[', ']');
    }
  }

  lemma NormalizeTitleChars(lowered: string, grouped: string, kept: string)
    requires Every(lowered, IsNotCapital)
    requires grouped == Ungroup(lowered)
    requires kept == KeepTitleChars(CutDash(grouped))
    ensures Every(Squash(kept), IsNormalTitleChar)
  {
    DropGroupsEvery(lowered, '(', ')', IsNotCapital);
    DropGroupsEvery(DropGroups(lowered, '(', ')'), '[', ']', IsNotCapital);
    var cut := CutDash(grouped);
    assert Every(cut, IsNotCapital) by {
      forall i | 0 <= i < |cut|
        ensures IsNotCapital(cut[i])
      {
        assert cut[i] == grouped[i];
      }
    }
    KeepTitleCharsEvery(cut, IsNotCapital);
    assert Every(kept, (c: char) => IsSpace(c) || IsNormalTitleChar(c)) by {
      forall i | 0 <= i < |kept|
        ensures IsSpace(kept[i]) || IsNormalTitleChar(kept[i])
      {
        assert IsTitleChar(kept[i]) && IsNotCapital(kept[i]);
      }
    }
    SquashEvery(kept, IsNormalTitleChar);
  }

  /** The normalised title holds no bracket and no dash. */
  lemma NormalizeTitleNoPunctuation(title: string)
    ensures '(' !in NormalizeTitle(title) && ')' !in NormalizeTitle(title)
    ensures '[' !in NormalizeTitle(title) && ']' !in NormalizeTitle(title)
    ensures '-' !in NormalizeTitle(title)
  {
    NormalTitleCharsOnly(NormalizeTitle(title));
  }

  lemma NormalTitleCharsOnly(r: string)
    requires Every(r, IsNormalTitleChar)
    ensures '(' !in r && ')' !in r && '[' !in r && ']' !in r && '-' !in r
  {
    forall i | 0 <= i < |r|
      ensures r[i] != '(' && r[i] != ')' && r[i] != '[' && r[i] != ']' && r[i] != '-'
    {
      assert IsNormalTitleChar(r[i]);
    }
  }

  /** Normalising a normalised title changes nothing. */
  lemma NormalizeTitleIdempotent(title: string)
    ensures NormalizeTitle(NormalizeTitle(title)) == NormalizeTitle(title)
  {
    NormalizeTitleStable(NormalizeTitle(title));
  }

  /** Every tidy text of lower-case letters, digits and single spaces is its
      own normal form. */
  lemma NormalizeTitleStable(s: string)
    requires Tidy(s) && Every(s, IsNormalTitleChar)
    ensures NormalizeTitle(s) == s
  {
    NormalTitleCharsOnly(s);
    assert Every(s, IsNotCapital) by {
      forall i | 0 <= i < |s|
        ensures IsNotCapital(s[i])
      {
        assert IsNormalTitleChar(s[i]);
      }
    }
    assert Every(s, IsTitleChar) by {
      forall i | 0 <= i < |s|
        ensures IsTitleChar(s[i])
      {
        assert IsNormalTitleChar(s[i]);
      }
    }
    SquashTidy(s);
  }

  /** A title of letters, digits and whitespace only normalises to its
      lower-cased words, one space apart. */
  lemma NormalizeTitlePlain(s: string)
    requires Every(s, IsTitleChar)
    ensures NormalizeTitle(s) == JoinWith(Words(LowerAll(s)), " ")
  {
    var l := LowerAll(s);
    assert Every(l, IsTitleChar) by {
      forall i | 0 <= i < |l|
        ensures IsTitleChar(l[i])
      {
        assert l[i] == Lower(s[i]) && IsTitleChar(s[i]);
      }
    }
    TitleCharsOnly(l);
    assert Ungroup(l) == l;
    assert CutDash(l) == l;
    SquashWords(l);
  }

  lemma TitleCharsOnly(s: string)
    requires Every(s, IsTitleChar)
    ensures '(' !in s && '[' !in s && '-' !in s
  {
    forall i | 0 <= i < |s|
      ensures s[i] != '(' && s[i] != '[' && s[i] != '-'
    {
      assert IsTitleChar(s[i]);
    }
  }

  /** The first close bracket on the line is where a group ends. */
  lemma {:induction false} CloseAtFirst(x: string, close: char, b: string)
    requires close !in x && NoLineTerminator(x)
    ensures CloseAt(x + [close] + b, close) == Some(|x|)
    decreases |x|
  {
    var s := x + [close] + b;
    if x != [] {
      assert s[0] == x[0] && s[1..] == x[1..] + [close] + b;
      CloseAtFirst(x[1..], close, b);
    }
  }

  /** A group at the very start is dropped and the scan goes on after it. */
  lemma DropGroupsHere(x: string, b: string, open: char, close: char)
    requires close !in x && NoLineTerminator(x)
    ensures DropGroups([open] + x + [close] + b, open, close) == DropGroups(b, open, close)
  {
    var s := [open] + x + [close] + b;
    var t := x + [close] + b;
    assert s[0] == open && s[1..] == t;
    CloseAtFirst(x, close, b);
    assert t[|x| + 1..] == b;
  }

  lemma DropGroupsSkip(s: string, open: char, close: char)
    requires s != [] && s[0] != open
    ensures DropGroups(s, open, close) == [s[0]] + DropGroups(s[1..], open, close)
  {
  }

  /** Text without an opening bracket passes through unchanged ahead of the rest. */
  lemma {:induction false} DropGroupsPrefix(a: string, b: string, open: char, close: char)
    requires open !in a
    ensures DropGroups(a + b, open, close) == a + DropGroups(b, open, close)
    decreases |a|
  {
    if a == [] {
      assert a + b == b;
    } else {
      var s := a + b;
      var t := a[1..];
      assert a == [a[0]] + t;
      assert open !in t;
      assert s[0] == a[0] && a[0] != open && s[1..] == t + b;
      DropGroupsSkip(s, open, close);
      DropGroupsPrefix(t, b, open, close);
    }
  }

  /** A bracketed group on one line, with no opening bracket before it,
      disappears without a trace. */
  lemma DropGroupsAround(a: string, x: string, b: string, open: char, close: char)
    requires open !in a && close !in x && NoLineTerminator(x)
    ensures DropGroups(a + ([open] + x + [close] + b), open, close) == a + DropGroups(b, open, close)
  {
    DropGroupsPrefix(a, [open] + x + [close] + b, open, close);
    DropGroupsHere(x, b, open, close);
  }

  /** With no dash before it, a dash that has no line terminator after it cuts
      off the rest of the text. */
  lemma {:induction false} CutDashAt(a: string, b: string)
    requires '-' !in a && NoLineTerminator(b)
    ensures CutDash(a + ['-'] + b) == a
    decreases |a|
  {
    var s := a + ['-'] + b;
    if a == [] {
      assert s[0] == '-' && s[1..] == b;
    } else {
      assert s[0] == a[0] && s[1..] == a[1..] + ['-'] + b;
      CutDashAt(a[1..], b);
    }
  }

  /** Lower-casing leaves every character that is not a letter in place. */
  lemma LowerAllAround(a: string, x: string, b: string, open: char, close: char)
    requires !IsLetter(open) && !IsLetter(close)
    ensures LowerAll(a + [open] + x + [close] + b)
         == LowerAll(a) + [open] + LowerAll(x) + [close] + LowerAll(b)
  {
    LowerAllAppend(a + [open] + x + [close], b);
    LowerAllAppend(a + [open] + x, [close]);
    LowerAllAppend(a + [open], x);
    LowerAllAppend(a, [open]);
  }

  /** A character that is not a letter occurs after lower-casing exactly where
      it occurred before. */
  lemma LowerAllKeeps(s: string, c: char)
    requires !IsLetter(c)
    ensures c in s <==> c in LowerAll(s)
  {
    var r := LowerAll(s);
    if c in s {
      var i :| 0 <= i < |s| && s[i] == c;
      assert r[i] == c;
    }
    if c in r {
      var i :| 0 <= i < |r| && r[i] == c;
      assert !IsLetter(s[i]);
    }
  }

  lemma LowerAllNoLineTerminator(s: string)
    requires NoLineTerminator(s)
    ensures NoLineTerminator(LowerAll(s))
  {
  }

  /** A parenthesised group on one line, with no `(` before it, vanishes from
      the grouped text. */
  lemma UngroupParentheses(a: string, x: string, b: string)
    requires '(' !in a && ')' !in x && NoLineTerminator(x)
    ensures Ungroup(a + "(" + x + ")" + b) == Ungroup(a + b)
  {
    assert a + "(" + x + ")" + b == a + ("(" + x + ")" + b);
    DropGroupsAround(a, x, b, '(', ')');
    DropGroupsPrefix(a, b, '(', ')');
  }

  /** A bracketed group on one line vanishes from text without parentheses. */
  lemma UngroupBrackets(a: string, x: string, b: string)
    requires '(' !in a + "[" + x + "]" + b && '(' !in a + b
    requires '[' !in a && ']' !in x && NoLineTerminator(x)
    ensures Ungroup(a + "[" + x + "]" + b) == Ungroup(a + b)
  {
    DropGroupsUnchanged(a + "[" + x + "]" + b, '(', ')');
    DropGroupsUnchanged(a + b, '(', ')');
    assert a + "[" + x + "]" + b == a + ("[" + x + "]" + b);
    DropGroupsAround(a, x, b, '[', ']');
    DropGroupsPrefix(a, b, '[', ']');
  }

  /** A parenthesised part of a title on one line does not affect its normal
      form: `"Song (feat. X)"` normalises like `"Song "`. */
  lemma NormalizeTitleDropsParentheses(a: string, x: string, b: string)
    requires '(' !in a && ')' !in x && NoLineTerminator(x)
    ensures NormalizeTitle(a + "(" + x + ")" + b) == NormalizeTitle(a + b)
  {
    var la, lx, lb := LowerAll(a), LowerAll(x), LowerAll(b);
    LowerAllAround(a, x, b, '(', ')');
    LowerAllAppend(a, b);
    LowerAllKeeps(a, '(');
    LowerAllKeeps(x, ')');
    LowerAllNoLineTerminator(x);
    UngroupParentheses(la, lx, lb);
  }

  /** The same for a part in square brackets, in a title without parentheses. */
  lemma NormalizeTitleDropsBrackets(a: string, x: string, b: string)
    requires '(' !in a && '(' !in x && '(' !in b
    requires '[' !in a && ']' !in x && NoLineTerminator(x)
    ensures NormalizeTitle(a + "[" + x + "]" + b) == NormalizeTitle(a + b)
  {
    var la, lx, lb := LowerAll(a), LowerAll(x), LowerAll(b);
    LowerAllAround(a, x, b, '[', ']');
    LowerAllAppend(a, b);
    LowerAllKeeps(a, '(');
    LowerAllKeeps(x, '(');
    LowerAllKeeps(b, '(');
    LowerAllKeeps(a, '[');
    LowerAllKeeps(x, ']');
    LowerAllNoLineTerminator(x);
    UngroupBrackets(la, lx, lb);
  }

  /** A title is cut at a dash that has no line break after it:
      `"Title - Remix"` normalises like `"Title "`. */
  lemma NormalizeTitleCutsAtDash(a: string, b: string)
    requires '(' !in a && '(' !in b && '[' !in a && '[' !in b
    requires '-' !in a && NoLineTerminator(b)
    ensures NormalizeTitle(a + "-" + b) == NormalizeTitle(a)
  {
    var la, lb := LowerAll(a), LowerAll(b);
    LowerAllAppend(a + "-", b);
    LowerAllAppend(a, "-");
    assert LowerAll(a + "-" + b) == la + "-" + lb;
    LowerAllKeeps(a, '(');
    LowerAllKeeps(b, '(');
    LowerAllKeeps(a, '[');
    LowerAllKeeps(b, '[');
    LowerAllKeeps(a, '-');
    LowerAllNoLineTerminator(b);
    UngroupedDash(la, lb);
  }

  /** `"Song (feat. X) [Remix]"` normalises to `"song"`: for a plain title
      `w`, one-line groups in parentheses and brackets after it leave just
      its lower-cased words. */
  lemma NormalizeTitleGroupsAfter(w: string, x: string, y: string)
    requires Every(w, IsTitleChar)
    requires ')' !in x && NoLineTerminator(x)
    requires '(' !in y && ']' !in y && NoLineTerminator(y)
    ensures NormalizeTitle(w + " (" + x + ") [" + y + "]") == JoinWith(Words(LowerAll(w)), " ")
  {
    var a := w + " ";
    var b := " [" + y + "]";
    GroupsAfterText(w, x, y);
    UngroupedSpaced(w);
    var t0 := w + " (" + x + ") [" + y + "]";
    var t1 := a + "(" + x + ")" + b;
    var t2 := (a + " ") + "[" + y + "]" + "";
    assert t0 == t1;
    assert a + b == t2;
    NormalizeTitleDropsParentheses(a, x, b);
    assert NormalizeTitle(t0) == NormalizeTitle(t2);
    NormalizeTitleDropsBrackets(a + " ", y, "");
    assert NormalizeTitle(t2) == NormalizeTitle(w + "  ");
    TrailingSpaces(w);
  }

  lemma GroupsAfterText(w: string, x: string, y: string)
    ensures w + " (" + x + ") [" + y + "]" == (w + " ") + "(" + x + ")" + " [" + y + "]"
    ensures (w + " ") + " [" + y + "]" == (w + " " + " ") + "[" + y + "]" + ""
    ensures w + " " + " " + "" == w + "  "
  {
  }

  lemma UngroupedSpaced(w: string)
    requires Every(w, IsTitleChar)
    ensures '(' !in w + " " && '(' !in w + " " + " " && '[' !in w + " " + " "
  {
    TitleCharsOnly(w);
  }

  /** Two trailing spaces add no word. */
  lemma TrailingSpaces(w: string)
    requires Every(w, IsTitleChar)
    ensures NormalizeTitle(w + "  ") == JoinWith(Words(LowerAll(w)), " ")
  {
    TitleCharsSpaced(w);
    NormalizeTitlePlain(w + "  ");
    LowerAllAppend(w, "  ");
    assert LowerAll("  ") == "  ";
    WordsTwoSpaces(LowerAll(w));
  }

  lemma TitleCharsSpaced(w: string)
    requires Every(w, IsTitleChar)
    ensures Every(w + "  ", IsTitleChar)
  {
    var s := w + "  ";
    forall i | 0 <= i < |s|
      ensures IsTitleChar(s[i])
    {
      if i < |w| {
        assert s[i] == w[i];
      }
    }
  }

  lemma UngroupedDash(a: string, b: string)
    requires '(' !in a && '(' !in b && '[' !in a && '[' !in b
    requires '-' !in a && NoLineTerminator(b)
    ensures CutDash(Ungroup(a + "-" + b)) == CutDash(Ungroup(a))
  {
    var s := a + "-" + b;
    assert '(' !in s && '[' !in s;
    CutDashAt(a, b);
    assert CutDash(a) == a;
  }

  // ---------------------------------------------------------------------
  // normalizeArtistName
  // ---------------------------------------------------------------------

  predicate NotAmpersand(c: char) {
    c != '&'
  }

  /** `.replace(/&/g, "and")`. */
  function SpellAnd(s: string): (r: string)
    ensures Every(r, NotAmpersand)
    ensures '&' !in s ==> r == s
    decreases |s|
  {
    if s == [] then []
    else
      var head := if s[0] == '&' then "and" else [s[0]];
      var rest := SpellAnd(s[1..]);
      assert Every(head, NotAmpersand);
      EveryAppend(head, rest, NotAmpersand);
      assert '&' !in s ==> head + rest == s by {
        if '&' !in s {
          assert '&' !in s[1..];
          assert s == [s[0]] + s[1..];
        }
      }
      head + rest
  }

  /** The replacement works on each part of a text independently. */
  lemma {:induction false} SpellAndAppend(a: string, b: string)
    ensures SpellAnd(a + b) == SpellAnd(a) + SpellAnd(b)
    decreases |a|
  {
    if a == [] {
      assert a + b == b;
    } else {
      assert (a + b)[0] == a[0] && (a + b)[1..] == a[1..] + b;
      SpellAndAppend(a[1..], b);
    }
  }

  /** An ampersand between two texts without one is spelt out. */
  lemma SpellAndSplices(a: string, b: string)
    requires '&' !in a && '&' !in b
    ensures SpellAnd(a + "&" + b) == a + "and" + b
  {
    SpellAndAppend(a + "&", b);
    SpellAndAppend(a, "&");
    assert SpellAnd("&") == "and";
  }

  lemma {:induction false} SpellAndEvery(s: string, p: char -> bool)
    requires forall i :: 0 <= i < |s| && s[i] != '&' ==> p(s[i])
    requires p('a') && p('n') && p('d')
    ensures Every(SpellAnd(s), p)
    decreases |s|
  {
    if s != [] {
      var head := if s[0] == '&' then "and" else [s[0]];
      assert Every(head, p);
      assert forall i :: 0 <= i < |s[1..]| && s[1..][i] != '&' ==> p(s[1..][i]) by {
        forall i | 0 <= i < |s[1..]| && s[1..][i] != '&'
          ensures p(s[1..][i])
        {
          assert s[1..][i] == s[i + 1];
        }
      }
      SpellAndEvery(s[1..], p);
      EveryAppend(head, SpellAnd(s[1..]), p);
    }
  }

  /** The characters `/[,.-]/g` deletes. */
  predicate IsNamePunctuation(c: char) {
    c == ',' || c == '.' || c == '-'
  }

  predicate NotNamePunctuation(c: char) {
    !IsNamePunctuation(c)
  }

  /** `.replace(/[,.-]/g, "")`. */
  function DropNamePunctuation(s: string): (r: string)
    ensures |r| <= |s|
    ensures Every(r, NotNamePunctuation)
    decreases |s|
  {
    if s == [] then []
    else
      var head := if IsNamePunctuation(s[0]) then [] else [s[0]];
      var rest := DropNamePunctuation(s[1..]);
      assert Every(head, NotNamePunctuation);
      EveryAppend(head, rest, NotNamePunctuation);
      head + rest
  }

  /** A name without punctuation passes through unchanged. */
  lemma {:induction false} DropNamePunctuationKeeps(s: string)
    requires Every(s, NotNamePunctuation)
    ensures DropNamePunctuation(s) == s
    decreases |s|
  {
    if s != [] {
      assert NotNamePunctuation(s[0]);
      assert Every(s[1..], NotNamePunctuation) by {
        forall i | 0 <= i < |s[1..]|
          ensures NotNamePunctuation(s[1..][i])
        {
          assert s[1..][i] == s[i + 1];
        }
      }
      DropNamePunctuationKeeps(s[1..]);
      assert s == [s[0]] + s[1..];
    }
  }

  lemma {:induction false} DropNamePunctuationAppend(a: string, b: string)
    ensures DropNamePunctuation(a + b) == DropNamePunctuation(a) + DropNamePunctuation(b)
    decreases |a|
  {
    if a == [] {
      assert a + b == b;
    } else {
      assert (a + b)[0] == a[0] && (a + b)[1..] == a[1..] + b;
      DropNamePunctuationAppend(a[1..], b);
      var head := if IsNamePunctuation(a[0]) then [] else [a[0]];
      Associative(head, DropNamePunctuation(a[1..]), DropNamePunctuation(b));
    }
  }

  lemma {:induction false} DropNamePunctuationEvery(s: string, p: char -> bool)
    requires Every(s, p)
    ensures Every(DropNamePunctuation(s), p)
    decreases |s|
  {
    if s != [] {
      var head := if IsNamePunctuation(s[0]) then [] else [s[0]];
      assert Every(head, p);
      assert Every(s[1..], p) by {
        forall i | 0 <= i < |s[1..]|
          ensures p(s[1..][i])
        {
          assert s[1..][i] == s[i + 1];
        }
      }
      DropNamePunctuationEvery(s[1..], p);
      EveryAppend(head, DropNamePunctuation(s[1..]), p);
    }
  }

  /** `w` followed by the end of the text or by a character that is not a
      word character: the `w\b` part of the pattern. */
  predicate StartsWholeWord(s: string, w: string) {
    StartsWith(s, w) && (|s| == |w| || !IsWordChar(s[|w|]))
  }

  /** Whether `\b(feat|ft|featuring)\b` matches at the start of `s` once the
      boundary before it holds. The alternatives are tried in order, so
      `featuring` is reached only after `feat` failed on the `i` after it. */
  predicate StartsFeaturingWord(s: string) {
    StartsWholeWord(s, "feat") || StartsWholeWord(s, "ft") || StartsWholeWord(s, "featuring")
  }

  /** The position of the first line terminator of `s`, or `|s|`: where `.*`
      stops. */
  function LineEnd(s: string): (i: nat)
    ensures i <= |s|
    ensures forall j :: 0 <= j < i ==> !IsLineTerminator(s[j])
    ensures i < |s| ==> IsLineTerminator(s[i])
    ensures s != [] && !IsLineTerminator(s[0]) ==> i > 0
    decreases |s|
  {
    if s == [] || IsLineTerminator(s[0]) then 0
    else
      var i := LineEnd(s[1..]);
      assert forall j :: 1 <= j < i + 1 ==> s[j] == s[1..][j - 1];
      i + 1
  }

  /** Whether the pattern finds a match in `s`; `afterWord` says whether the
      character before `s` is a word character. */
  predicate HasFeaturingWord(s: string, afterWord: bool)
    decreases |s|
  {
    s != [] && ((!afterWord && StartsFeaturingWord(s)) || HasFeaturingWord(s[1..], IsWordChar(s[0])))
  }

  /** `.replace(/\b(feat|ft|featuring)\b.* /g, "")` (without the blank): a
      whole word `feat`, `ft` or `featuring` and the rest of its line are
      deleted, on every line. `afterWord` says whether the character before
      `s` is a word character. */
  function DropFeaturing(s: string, afterWord: bool): (r: string)
    ensures |r| <= |s|
    ensures !HasFeaturingWord(s, afterWord) ==> r == s
    decreases |s|
  {
    if s == [] then []
    else if !afterWord && StartsFeaturingWord(s) then
      assert s[0] == 'f';
      DropFeaturing(s[LineEnd(s)..], false)
    else
      assert !HasFeaturingWord(s, afterWord) ==> !HasFeaturingWord(s[1..], IsWordChar(s[0]));
      [s[0]] + DropFeaturing(s[1..], IsWordChar(s[0]))
  }

  lemma {:induction false} DropFeaturingEvery(s: string, afterWord: bool, p: char -> bool)
    requires Every(s, p)
    ensures Every(DropFeaturing(s, afterWord), p)
    decreases |s|
  {
    if s == [] {
    } else if !afterWord && StartsFeaturingWord(s) {
      var t := s[LineEnd(s)..];
      assert s[0] == 'f';
      assert Every(t, p) by {
        forall i | 0 <= i < |t|
          ensures p(t[i])
        {
          assert t[i] == s[|s| - |t| + i];
        }
      }
      DropFeaturingEvery(t, false, p);
    } else {
      assert Every(s[1..], p) by {
        forall i | 0 <= i < |s[1..]|
          ensures p(s[1..][i])
        {
          assert s[1..][i] == s[i + 1];
        }
      }
      DropFeaturingEvery(s[1..], IsWordChar(s[0]), p);
      EveryAppend([s[0]], DropFeaturing(s[1..], IsWordChar(s[0])), p);
    }
  }
  /** Text after a character that is not a word character cannot change
      whether a whole word matches before it. */
  lemma WholeWordPrefix(a: string, rest: string, w: string)
    requires a != [] && !IsWordChar(a[|a| - 1])
    requires Every(w, IsWordChar)
    ensures StartsWholeWord(a + rest, w) <==> StartsWholeWord(a, w)
  {
    var s := a + rest;
    if |a| <= |w| {
      assert IsWordChar(w[|a| - 1]);
      assert !StartsWith(s, w) by {
        if |w| <= |s| {
          assert s[..|w|][|a| - 1] == a[|a| - 1];
        }
      }
      assert !StartsWith(a, w) by {
        if |w| <= |a| {
          assert a[..|w|][|a| - 1] == a[|a| - 1];
        }
      }
    } else {
      assert s[|w|] == a[|w|];
      assert s[..|w|] == a[..|w|];
    }
  }

  lemma FeaturingWordPrefix(a: string, rest: string)
    requires a != [] && !IsWordChar(a[|a| - 1])
    ensures StartsFeaturingWord(a + rest) <==> StartsFeaturingWord(a)
  {
    WholeWordPrefix(a, rest, "feat");
    WholeWordPrefix(a, rest, "ft");
    WholeWordPrefix(a, rest, "featuring");
  }

  /** A featuring word that starts a word on the last line deletes everything
      after it: the result is what the text before it alone gives. */
  lemma {:induction false} DropFeaturingAt(a: string, rest: string, afterWord: bool)
    requires NoLineTerminator(a) && NoLineTerminator(rest) && StartsFeaturingWord(rest)
    requires a == [] ==> !afterWord
    requires a != [] ==> !IsWordChar(a[|a| - 1])
    ensures DropFeaturing(a + rest, afterWord) == DropFeaturing(a, afterWord)
    decreases |a|
  {
    var s := a + rest;
    assert NoLineTerminator(s);
    if a == [] {
      assert s == rest;
      assert LineEnd(s) == |s|;
    } else if !afterWord && StartsFeaturingWord(s) {
      FeaturingWordPrefix(a, rest);
      assert LineEnd(s) == |s|;
      assert LineEnd(a) == |a|;
    } else {
      FeaturingWordPrefix(a, rest);
      assert s[0] == a[0] && s[1..] == a[1..] + rest;
      DropFeaturingAt(a[1..], rest, IsWordChar(a[0]));
    }
  }

  predicate NotLineTerminator(c: char) {
    !IsLineTerminator(c)
  }

  /** The character-level replacements of `normalizeArtistName`: lower case,
      `&` spelt out, punctuation dropped. */
  function SpellName(name: string): string {
    DropNamePunctuation(SpellAnd(LowerAll(name)))
  }

  lemma SpellNameAppend(a: string, b: string)
    ensures SpellName(a + b) == SpellName(a) + SpellName(b)
  {
    LowerAllAppend(a, b);
    SpellAndAppend(LowerAll(a), LowerAll(b));
    DropNamePunctuationAppend(SpellAnd(LowerAll(a)), SpellAnd(LowerAll(b)));
  }

  /** Lower-case text without `&` or punctuation is already spelt. */
  lemma SpellNameKeeps(s: string)
    requires Every(s, IsNotCapital) && '&' !in s && Every(s, NotNamePunctuation)
    ensures SpellName(s) == s
  {
    DropNamePunctuationKeeps(s);
  }

  lemma SpellNameOneLine(s: string)
    requires NoLineTerminator(s)
    ensures NoLineTerminator(SpellName(s))
  {
    var l := LowerAll(s);
    assert Every(l, NotLineTerminator) by {
      forall i | 0 <= i < |l|
        ensures NotLineTerminator(l[i])
      {
        assert l[i] == Lower(s[i]);
      }
    }
    SpellAndEvery(l, NotLineTerminator);
    DropNamePunctuationEvery(SpellAnd(l), NotLineTerminator);
    var r := SpellName(s);
    forall i | 0 <= i < |r|
      ensures !IsLineTerminator(r[i])
    {
      assert NotLineTerminator(r[i]);
    }
  }

  /** The characters a normalised artist name is made of. */
  predicate IsNormalNameChar(c: char) {
    c != '&' && NotNamePunctuation(c) && !IsCapital(c)
  }

  /** `normalizeArtistName(name)`. */
  function NormalizeArtistName(name: string): (r: string)
    ensures Tidy(r)
    ensures Every(r, IsNormalNameChar)
  {
    var s := DropFeaturing(SpellName(name), false);
    NormalizeArtistNameChars(name, s);
    Squash(s)
  }

  lemma NormalizeArtistNameChars(name: string, s: string)
    requires s == DropFeaturing(SpellName(name), false)
    ensures Every(Squash(s), IsNormalNameChar)
  {
    var l := LowerAll(name);
    var t := SpellAnd(l);
    SpellAndEvery(l, IsNotCapital);
    var u := DropNamePunctuation(t);
    DropNamePunctuationEvery(t, IsNotCapital);
    DropNamePunctuationEvery(t, NotAmpersand);
    DropFeaturingEvery(u, false, IsNotCapital);
    DropFeaturingEvery(u, false, NotAmpersand);
    DropFeaturingEvery(u, false, NotNamePunctuation);
    assert Every(s, IsNormalNameChar) by {
      forall i | 0 <= i < |s|
        ensures IsNormalNameChar(s[i])
      {
        assert IsNotCapital(s[i]) && NotAmpersand(s[i]) && NotNamePunctuation(s[i]);
      }
    }
    SquashEvery(s, IsNormalNameChar);
  }

  /** A featured-artist suffix is ignored: `"Drake feat Rihanna"` normalises
      like `"Drake "`, which normalises to `"drake"`. */
  lemma NormalizeArtistNameDropsFeaturing(a: string, word: string, b: string)
    requires word == "feat" || word == "ft" || word == "featuring"
    requires a == [] || a[|a| - 1] == ' '
    requires NoLineTerminator(a) && NoLineTerminator(b)
    ensures NormalizeArtistName(a + word + " " + b) == NormalizeArtistName(a)
  {
    SpellNameSplice(a, word, b);
    SpellNameOneLine(a);
    SpellNameOneLine(b);
    SpellNameEndsInSpace(a);
    FeaturingRest(word, SpellName(b));
    DropFeaturingAt(SpellName(a), word + " " + SpellName(b), false);
  }

  /** The featuring word and the blank after it survive spelling unchanged. */
  lemma SpellNameSplice(a: string, word: string, b: string)
    requires word == "feat" || word == "ft" || word == "featuring"
    ensures SpellName(a + word + " " + b) == SpellName(a) + (word + " " + SpellName(b))
  {
    FeaturingWordSpelt(word);
    assert a + word + " " + b == a + (word + " ") + b;
    SpellNameAround(a, word + " ", b);
  }

  /** Text that spelling leaves alone stays put between two spelt parts. */
  lemma SpellNameAround(a: string, m: string, b: string)
    requires SpellName(m) == m
    ensures SpellName(a + m + b) == SpellName(a) + (m + SpellName(b))
  {
    SpellNameAppend(a + m, b);
    SpellNameAppend(a, m);
    Associative(SpellName(a), m, SpellName(b));
  }

  lemma FeaturingWordSpelt(word: string)
    requires word == "feat" || word == "ft" || word == "featuring"
    ensures SpellName(word + " ") == word + " "
  {
    var m := word + " ";
    assert Every(m, IsNotCapital) by {
      forall i | 0 <= i < |m|
        ensures IsNotCapital(m[i])
      {
        assert 'a' <= m[i] <= 'z' || m[i] == ' ';
      }
    }
    assert Every(m, NotNamePunctuation) by {
      forall i | 0 <= i < |m|
        ensures NotNamePunctuation(m[i])
      {
        assert 'a' <= m[i] <= 'z' || m[i] == ' ';
      }
    }
    assert '&' !in m;
    SpellNameKeeps(m);
  }

  lemma FeaturingRest(word: string, t: string)
    requires word == "feat" || word == "ft" || word == "featuring"
    requires NoLineTerminator(t)
    ensures StartsFeaturingWord(word + " " + t)
    ensures NoLineTerminator(word + " " + t)
  {
    var rest := word + " " + t;
    assert StartsWholeWord(rest, word) by {
      assert rest[..|word|] == word;
      assert rest[|word|] == ' ';
    }
    forall i | 0 <= i < |rest|
      ensures !IsLineTerminator(rest[i])
    {
      if i > |word| {
        assert rest[i] == t[i - |word| - 1];
      }
    }
  }

  lemma SpellNameEndsInSpace(a: string)
    requires a == [] || a[|a| - 1] == ' '
    ensures SpellName(a) == [] || SpellName(a)[|SpellName(a)| - 1] == ' '
    ensures a == [] ==> SpellName(a) == []
  {
    if a != [] {
      var a0 := a[..|a| - 1];
      assert a == a0 + " ";
      SpellNameAppend(a0, " ");
      SpellNameKeeps(" ");
    }
  }

  /** Every tidy name that normalising could produce and that has no
      featuring word is its own normal form. */
  lemma NormalizeArtistNameStable(s: string)
    requires Tidy(s) && Every(s, IsNormalNameChar) && !HasFeaturingWord(s, false)
    ensures NormalizeArtistName(s) == s
  {
    assert Every(s, IsNotCapital) && Every(s, NotNamePunctuation) && '&' !in s by {
      forall i | 0 <= i < |s|
        ensures IsNotCapital(s[i]) && NotNamePunctuation(s[i]) && s[i] != '&'
      {
        assert IsNormalNameChar(s[i]);
      }
    }
    SpellNameKeeps(s);
    SquashTidy(s);
  }

  /** A name without `&`, punctuation or featuring word normalises to its
      lower-cased words, one space apart. */
  lemma NormalizeArtistNamePlain(s: string)
    requires '&' !in s && Every(s, NotNamePunctuation)
    requires !HasFeaturingWord(LowerAll(s), false)
    ensures NormalizeArtistName(s) == JoinWith(Words(LowerAll(s)), " ")
  {
    var l := LowerAll(s);
    LowerAllKeeps(s, '&');
    assert Every(l, NotNamePunctuation) by {
      forall i | 0 <= i < |l|
        ensures NotNamePunctuation(l[i])
      {
        assert l[i] == Lower(s[i]) && NotNamePunctuation(s[i]);
        if IsCapital(s[i]) {
          assert IsLetter(s[i]);
        }
      }
    }
    DropNamePunctuationKeeps(l);
    SquashWords(l);
  }

  /** `&` counts as the word `and`. */
  lemma NormalizeArtistNameSpellsAnd(a: string, b: string)
    ensures NormalizeArtistName(a + "&" + b) == NormalizeArtistName(a + "and" + b)
  {
    SpellNameAppend(a + "&", b);
    SpellNameAppend(a, "&");
    SpellNameAppend(a + "and", b);
    SpellNameAppend(a, "and");
    SpellAndOne();
  }

  lemma SpellAndOne()
    ensures SpellName("&") == "and" && SpellName("and") == "and"
  {
    assert LowerAll("&") == "&";
    assert SpellAnd("&") == "and";
    assert LowerAll("and") == "and";
    assert Every("and", NotNamePunctuation);
    DropNamePunctuationKeeps("and");
  }

  /** A comma, full stop or hyphen is deleted outright, without leaving a
      space: `"Jay-Z"` normalises like `"JayZ"`. */
  lemma NormalizeArtistNameDropsPunctuation(a: string, c: char, b: string)
    requires IsNamePunctuation(c)
    ensures NormalizeArtistName(a + [c] + b) == NormalizeArtistName(a + b)
  {
    SpellNameAppend(a + [c], b);
    SpellNameAppend(a, [c]);
    SpellNameAppend(a, b);
    SpellNamePunctuation(c);
    assert SpellName(a) + [] == SpellName(a);
    assert SpellName(a + [c] + b) == SpellName(a + b);
  }

  lemma SpellNamePunctuation(c: char)
    requires IsNamePunctuation(c)
    ensures SpellName([c]) == []
  {
    assert LowerAll([c]) == [c];
    assert SpellAnd([c]) == [c];
    assert DropNamePunctuation([c]) == [];
  }

  // ---------------------------------------------------------------------
  // scoreMatch
  // ---------------------------------------------------------------------

  /** `/remix|cover|version|live/i.test(title)`. */
  predicate IsVariantTitle(title: string) {
    || ContainsIgnoringCase(title, "remix")
    || ContainsIgnoringCase(title, "cover")
    || ContainsIgnoringCase(title, "version")
    || ContainsIgnoringCase(title, "live")
  }

  /** `scoreMatch(overlap, titleMatch, musoTitle, inputTitle)`: ten points per
      overlapping artist, thirty for the identical title or else fifteen for a
      title match, and ten off for a remix, cover, version or live recording. */
  function ScoreMatch(overlap: seq<string>, titleMatch: bool, musoTitle: string, inputTitle: string): (r: int)
    ensures musoTitle == inputTitle ==> 10 * |overlap| + 20 <= r <= 10 * |overlap| + 30
    ensures musoTitle != inputTitle && titleMatch ==> 10 * |overlap| + 5 <= r <= 10 * |overlap| + 15
    ensures musoTitle != inputTitle && !titleMatch ==> 10 * |overlap| - 10 <= r <= 10 * |overlap|
    ensures IsVariantTitle(musoTitle) ==> r <= 10 * |overlap| + 20
    ensures musoTitle == inputTitle && !IsVariantTitle(musoTitle) ==> r == 10 * |overlap| + 30
    ensures musoTitle == inputTitle && IsVariantTitle(musoTitle) ==> r == 10 * |overlap| + 20
  {
    var artists := |overlap| * 10;
    var title := if musoTitle == inputTitle then 30 else if titleMatch then 15 else 0;
    var penalty := if IsVariantTitle(musoTitle) then 10 else 0;
    artists + title - penalty
  }

  /** Each overlapping artist is worth exactly ten points. */
  lemma ScoreMatchOverlap(o1: seq<string>, o2: seq<string>, titleMatch: bool, musoTitle: string, inputTitle: string)
    ensures ScoreMatch(o1, titleMatch, musoTitle, inputTitle) - ScoreMatch(o2, titleMatch, musoTitle, inputTitle)
         == 10 * (|o1| - |o2|)
  {
  }

  /** For the identical title the fuzzy title flag is not consulted. */
  lemma ScoreMatchExact(overlap: seq<string>, t1: bool, t2: bool, title: string)
    ensures ScoreMatch(overlap, t1, title, title) == ScoreMatch(overlap, t2, title, title)
  {
  }

  /** A title that mentions a remix, cover, version or live recording
      anywhere, in any case, costs ten points against a plain title that
      compares the same way with its own input title, exact or not. */
  lemma ScoreMatchVariant(overlap: seq<string>, titleMatch: bool, a: string, m: string, word: string,
                          inputTitle: string, plain: string, plainInput: string)
    requires word == "remix" || word == "cover" || word == "version" || word == "live"
    requires StartsWithIgnoringCase(m, word) && !IsVariantTitle(plain)
    requires (a + m == inputTitle) == (plain == plainInput)
    ensures ScoreMatch(overlap, titleMatch, a + m, inputTitle) + 10 == ScoreMatch(overlap, titleMatch, plain, plainInput)
  {
    ContainsIgnoringCaseAt(a, m, word);
  }
}
