/** The string primitives the system borrows from JavaScript: the character
    classes of its regular expressions, `trim`, whitespace collapsing,
    `includes`/`indexOf`, `split` and `join`. Strings are sequences of Unicode
    scalar values. */
module Text {
  import opened Base

  // ---------------------------------------------------------------------
  // Character classes
  // ---------------------------------------------------------------------

  /** The characters `.` does not match and `$` treats as line ends. */
  predicate IsLineTerminator(c: char) {
    c == '\n' || c == '\r' || c == '\U{2028}' || c == '\U{2029}'
  }

  /** `\s`; String.prototype.trim strips exactly the same characters. */
  predicate IsSpace(c: char) {
    || c == ' ' || c == '\t' || c == '\U{B}' || c == '\U{C}'
    || c == '\U{A0}' || c == '\U{1680}' || ('\U{2000}' <= c <= '\U{200A}')
    || c == '\U{202F}' || c == '\U{205F}' || c == '\U{3000}' || c == '\U{FEFF}'
    || IsLineTerminator(c)
  }

  /** `\w` of a pattern without the `u` flag; it also decides `\b`. */
  predicate IsWordChar(c: char) {
    'a' <= c <= 'z' || 'A' <= c <= 'Z' || '0' <= c <= '9' || c == '_'
  }

  /** `\p{L}`, restricted to ASCII, Latin-1 and Latin Extended-A/B letters. */
  predicate IsLetter(c: char) {
    || 'a' <= c <= 'z' || 'A' <= c <= 'Z'
    || c == '\U{AA}' || c == '\U{B5}' || c == '\U{BA}'
    || ('\U{C0}' <= c <= '\U{24F}' && c != '\U{D7}' && c != '\U{F7}')
  }

  /** `\p{N}`, restricted to ASCII digits and the Latin-1 superscripts and fractions. */
  predicate IsNumber(c: char) {
    '0' <= c <= '9' || c == '\U{B2}' || c == '\U{B3}' || c == '\U{B9}'
    || ('\U{BC}' <= c <= '\U{BE}')
  }

  /** The capitals `toLowerCase` folds in this model: ASCII and Latin-1. */
  predicate IsCapital(c: char) {
    'A' <= c <= 'Z' || ('\U{C0}' <= c <= '\U{DE}' && c != '\U{D7}')
  }

  predicate IsNotCapital(c: char) {
    !IsCapital(c)
  }

  /** toLowerCase on ASCII and Latin-1 capitals; every other character is kept. */
  function Lower(c: char): (d: char)
    ensures !IsCapital(d)
    ensures !IsCapital(c) ==> d == c
    ensures IsSpace(c) <==> IsSpace(d)
    ensures IsLetter(c) <==> IsLetter(d)
    ensures IsNumber(c) <==> IsNumber(d)
    ensures IsLineTerminator(c) <==> IsLineTerminator(d)
    ensures IsWordChar(c) <==> IsWordChar(d)
  {
    if IsCapital(c) then (c as int + 32) as char else c
  }

  /** Lower-casing a lower-case character changes nothing. */
  lemma LowerIdempotent(c: char)
    ensures Lower(Lower(c)) == Lower(c)
  {
  }

  /** `s.toLowerCase()`, character by character. */
  function LowerAll(s: string): (r: string)
    ensures |r| == |s| && forall i :: 0 <= i < |s| ==> r[i] == Lower(s[i])
    ensures Every(r, IsNotCapital)
    ensures Every(s, IsNotCapital) ==> r == s
  {
    seq(|s|, i requires 0 <= i < |s| => Lower(s[i]))
  }

  /** Lower-casing works on each part of a concatenation separately. */
  lemma LowerAllAppend(a: string, b: string)
    ensures LowerAll(a + b) == LowerAll(a) + LowerAll(b)
  {
  }

  /** The canonical form case-insensitive patterns without the `u` flag compare:
      only ASCII letters fold. */
  function AsciiUpper(c: char): char {
    if 'a' <= c <= 'z' then (c as int - 32) as char else c
  }

  // ---------------------------------------------------------------------
  // Prefixes and searching
  // ---------------------------------------------------------------------

  predicate StartsWith(s: string, p: string) {
    |p| <= |s| && s[..|p|] == p
  }

  predicate StartsWithIgnoringCase(s: string, p: string) {
    |p| <= |s| && forall i :: 0 <= i < |p| ==> AsciiUpper(s[i]) == AsciiUpper(p[i])
  }

  /** `s.indexOf(p)`: the first position where `p` occurs. */
  function Find(s: string, p: string): (r: Option<nat>)
    ensures r.Some? ==> r.value + |p| <= |s|
    decreases |s|
  {
    if StartsWith(s, p) then Some(0)
    else if s == [] then None
    else
      match Find(s[1..], p)
      case None => None
      case Some(k) => Some(k + 1)
  }

  /** `Find` reports the first occurrence, or that there is none. */
  lemma {:induction false} FindSpec(s: string, p: string)
    ensures Find(s, p).Some? ==> StartsWith(s[Find(s, p).value..], p)
    ensures Find(s, p).Some? ==> forall j :: 0 <= j < Find(s, p).value ==> !StartsWith(s[j..], p)
    ensures Find(s, p).None? ==> forall j :: 0 <= j <= |s| ==> !StartsWith(s[j..], p)
    decreases |s|
  {
    assert s[0..] == s;
    if !StartsWith(s, p) && s != [] {
      FindSpec(s[1..], p);
      forall j | 1 <= j <= |s|
        ensures s[j..] == s[1..][j - 1..]
      {
      }
    }
  }

  /** An occurrence with none before it is the one `Find` reports. */
  lemma FindAt(s: string, p: string, i: nat)
    requires i <= |s| && StartsWith(s[i..], p)
    requires forall j :: 0 <= j < i ==> !StartsWith(s[j..], p)
    ensures Find(s, p) == Some(i)
  {
    FindSpec(s, p);
  }

  /** `s.includes(p)`. */
  predicate Contains(s: string, p: string) {
    Find(s, p).Some?
  }

  /** Case-insensitive `includes`, as `/p/i.test(s)` decides it. */
  predicate ContainsIgnoringCase(s: string, p: string)
    decreases |s|
  {
    StartsWithIgnoringCase(s, p) || (s != [] && ContainsIgnoringCase(s[1..], p))
  }

  /** A case-insensitive match anywhere in the text is found. */
  lemma {:induction false} ContainsIgnoringCaseAt(a: string, m: string, p: string)
    requires StartsWithIgnoringCase(m, p)
    ensures ContainsIgnoringCase(a + m, p)
    decreases |a|
  {
    if a == [] {
      assert a + m == m;
    } else {
      assert (a + m)[1..] == a[1..] + m;
      ContainsIgnoringCaseAt(a[1..], m, p);
    }
  }

  /** Length of the match of `/ word\.?/i` at the start of `s`, or 0 if it does
      not match there: a space, the word in any case, and an optional dot. */
  function MarkerLength(s: string, word: string): (n: nat)
    ensures n <= |s|
    ensures n > 0 ==> StartsWithIgnoringCase(s, [' '] + word)
    ensures n == 0 ==> !StartsWithIgnoringCase(s, [' '] + word)
  {
    if StartsWithIgnoringCase(s, [' '] + word) then
      if |s| > |word| + 1 && s[|word| + 1] == '.' then |word| + 2 else |word| + 1
    else 0
  }

  /** `s.replace(/ word\.?/i, replacement)`: only the first match is replaced. */
  function ReplaceFirstMarker(s: string, word: string, replacement: string): string
    decreases |s|
  {
    if s == [] then []
    else if MarkerLength(s, word) > 0 then replacement + s[MarkerLength(s, word)..]
    else [s[0]] + ReplaceFirstMarker(s[1..], word, replacement)
  }

  /** No position of `s` starts a match of `/ word/i`. */
  predicate MarkerFree(s: string, word: string) {
    forall j :: 0 <= j <= |s| ==> !StartsWithIgnoringCase(s[j..], [' '] + word)
  }

  /** Without a match the replacement leaves the text alone. */
  lemma {:induction false} ReplaceFirstMarkerFree(s: string, word: string, replacement: string)
    requires MarkerFree(s, word)
    ensures ReplaceFirstMarker(s, word, replacement) == s
    decreases |s|
  {
    if s != [] {
      assert s[0..] == s;
      assert MarkerFree(s[1..], word) by {
        forall j | 0 <= j <= |s[1..]|
          ensures !StartsWithIgnoringCase(s[1..][j..], [' '] + word)
        {
          assert s[1..][j..] == s[j + 1..];
        }
      }
      ReplaceFirstMarkerFree(s[1..], word, replacement);
    }
  }

  /** Text no longer than the word has no room for a marker. */
  lemma MarkerFreeShort(s: string, word: string)
    requires |s| <= |word|
    ensures MarkerFree(s, word)
  {
  }

  /** Every suffix of marker-free text is marker-free. */
  lemma MarkerFreeSuffix(s: string, k: nat, word: string)
    requires MarkerFree(s, word) && k <= |s|
    ensures MarkerFree(s[k..], word)
  {
    forall j | 0 <= j <= |s[k..]|
      ensures s[k..][j..] == s[k + j..]
    {
    }
  }

  /** What follows a marker once the optional `\.?` has taken its dot. */
  function DropDot(s: string): (r: string)
    ensures s == r || s == ['.'] + r
    ensures (s == [] || s[0] != '.') ==> r == s
  {
    if s != [] && s[0] == '.' then s[1..] else s
  }

  /** Exactly the text `/ word/i` matches: a space, then the word with each
      ASCII letter in either case. */
  predicate IsMarker(m: string, word: string) {
    |m| == |word| + 1 && StartsWithIgnoringCase(m, [' '] + word)
  }

  /** A ` feat` or ` ft` marker, in any letter case. */
  predicate IsFeaturingMarker(m: string) {
    IsMarker(m, "feat") || IsMarker(m, "ft")
  }

  /** The lower-case spellings are markers. */
  lemma LowerMarkers()
    ensures IsMarker(" feat", "feat") && IsMarker(" ft", "ft")
  {
  }

  /** A marker starts with a plain space, and no later character of it is
      whitespace, a dot, or one of `,`, `&`, `;`. */
  lemma MarkerShape(m: string, word: string)
    requires IsMarker(m, word) && (word == "feat" || word == "ft")
    ensures m == [' '] + m[1..]
    ensures forall k :: 1 <= k < |m| ==> AsciiUpper(m[k]) == AsciiUpper(word[k - 1])
    ensures forall k :: 1 <= k < |m| ==> m[k] != ' ' && m[k] != '.' && m[k] != ',' && m[k] != '&' && m[k] != ';'
  {
    assert AsciiUpper(m[0]) == AsciiUpper(' ');
    forall k | 1 <= k < |m|
      ensures AsciiUpper(m[k]) == AsciiUpper(word[k - 1])
    {
      assert ([' '] + word)[k] == word[k - 1];
    }
  }

  /** Text with two markers is the text before the first, the first marker,
      and the rest. */
  lemma MarkersRegroup(a: string, m1: string, b: string, m2: string, c: string)
    ensures a + m1 + b + m2 + c == a + m1 + (b + m2 + c)
  {
    Associative(a + m1, b + m2, c);
    Associative(a + m1, b, m2);
    Associative(a, m1, b + m2 + c);
  }

  /** `DropDot` only looks at the first character. */
  lemma DropDotAppend(s: string, t: string)
    requires s != []
    ensures DropDot(s + t) == DropDot(s) + t
  {
  }

  /** A dot is dropped only at the very start, before a marker that follows. */
  lemma DropDotBeforeMarker(b: string, m: string, c: string)
    requires m != [] && m[0] == ' '
    ensures DropDot(b + m + c) == DropDot(b) + m + c
  {
    Associative(b, m, c);
    if b != [] {
      DropDotAppend(b, m + c);
    } else {
      assert b + m + c == m + c;
    }
    Associative(DropDot(b), m, c);
  }

  /** Dropping a dot keeps text marker-free. */
  lemma MarkerFreeDropDot(s: string, word: string)
    requires MarkerFree(s, word)
    ensures MarkerFree(DropDot(s), word)
  {
    if s != [] && s[0] == '.' {
      MarkerFreeSuffix(s, 1, word);
    }
  }

  /** Where no marker starts in the first `|x|` positions, the replacement
      keeps `x` and works on the rest. */
  lemma {:induction false} ReplaceFirstMarkerSkip(x: string, y: string, word: string, replacement: string)
    requires forall i :: 0 <= i < |x| ==> MarkerLength((x + y)[i..], word) == 0
    ensures ReplaceFirstMarker(x + y, word, replacement) == x + ReplaceFirstMarker(y, word, replacement)
    decreases |x|
  {
    if x == [] {
      assert x + y == y;
    } else {
      var s := x + y;
      assert s[0..] == s;
      assert s[1..] == x[1..] + y;
      forall i | 0 <= i < |x[1..]|
        ensures MarkerLength((x[1..] + y)[i..], word) == 0
      {
        assert (x[1..] + y)[i..] == s[i + 1..];
      }
      ReplaceFirstMarkerSkip(x[1..], y, word, replacement);
      assert x == [x[0]] + x[1..];
      Associative([x[0]], x[1..], ReplaceFirstMarker(y, word, replacement));
    }
  }

  /** A `,`, `&` or `;` after marker-free text is passed over: the
      replacement happens in what follows it, if anywhere. */
  lemma ReplaceFirstMarkerPast(a: string, c: char, b: string, word: string, replacement: string)
    requires MarkerFree(a, word) && (c == ',' || c == '&' || c == ';')
    requires word == "feat" || word == "ft"
    ensures ReplaceFirstMarker(a + [c] + b, word, replacement) == a + [c] + ReplaceFirstMarker(b, word, replacement)
  {
    var s := a + [c] + b;
    forall i | 0 <= i < |a + [c]|
      ensures MarkerLength(((a + [c]) + b)[i..], word) == 0
    {
      MarkerFreeSuffix(a, i, word);
      assert s[i..] == a[i..] + [c] + b;
      MarkerFreeFront(a[i..], c, b, word);
    }
    ReplaceFirstMarkerSkip(a + [c], b, word, replacement);
  }

  /** A ` feat` marker between two texts without ` ft` does not make one,
      and the other way round. */
  lemma MarkerFreeAround(b: string, m: string, c: string, word: string, other: string)
    requires (word == "feat" && other == "ft") || (word == "ft" && other == "feat")
    requires MarkerFree(b, other) && MarkerFree(c, other) && IsMarker(m, word)
    ensures MarkerFree(b + m + c, other)
  {
    var s := b + m + c;
    var p := [' '] + other;
    MarkerShape(m, word);
    forall j | 0 <= j <= |s|
      ensures !StartsWithIgnoringCase(s[j..], p)
    {
      if j < |b| {
        MarkerFreeSuffix(b, j, other);
        assert s[j..] == b[j..] + [' '] + (m[1..] + c);
        MarkerFreeFront(b[j..], ' ', m[1..] + c, other);
      } else if j == |b| {
        if |p| <= |s[j..]| {
          assert s[j..][2] == m[2];
          assert AsciiUpper(s[j..][2]) != AsciiUpper(p[2]);
        }
      } else if j < |b| + |m| {
        assert s[j..][0] == m[j - |b|];
      } else {
        assert s[j..] == c[j - |b| - |m|..];
      }
    }
  }

  /** No marker starts inside marker-free text followed by a space. */
  lemma NoMarkerBeforeSpace(a: string, t: string, word: string)
    requires MarkerFree(a, word) && (word == "feat" || word == "ft")
    ensures forall i :: 0 <= i < |a| ==> MarkerLength((a + [' '] + t)[i..], word) == 0
  {
    forall i | 0 <= i < |a|
      ensures MarkerLength((a + [' '] + t)[i..], word) == 0
    {
      MarkerFreeSuffix(a, i, word);
      assert (a + [' '] + t)[i..] == a[i..] + [' '] + t;
      MarkerFreeFront(a[i..], ' ', t, word);
    }
  }

  /** A marker at the very start is replaced with a dot that follows it. */
  lemma ReplaceFirstMarkerHere(m: string, word: string, b: string, replacement: string)
    requires IsMarker(m, word)
    ensures ReplaceFirstMarker(m + b, word, replacement) == replacement + DropDot(b)
  {
    var y := m + b;
    assert StartsWithIgnoringCase(y, [' '] + word) by {
      assert forall i :: 0 <= i < |m| ==> y[i] == m[i];
    }
    assert y[|word| + 1..] == b;
  }

  /** After marker-free text, the marker right there, in whatever letter
      case, is the one replaced, together with a dot that follows it. */
  lemma ReplaceFirstMarkerAt(a: string, m: string, word: string, b: string, replacement: string)
    requires MarkerFree(a, word) && (word == "feat" || word == "ft") && IsMarker(m, word)
    ensures ReplaceFirstMarker(a + m + b, word, replacement) == a + replacement + DropDot(b)
  {
    MarkerShape(m, word);
    var t := m[1..] + b;
    Associative(a, m, b);
    Associative(a, [' '], t);
    Associative([' '], m[1..], b);
    NoMarkerBeforeSpace(a, t, word);
    ReplaceFirstMarkerSkip(a, m + b, word, replacement);
    ReplaceFirstMarkerHere(m, word, b, replacement);
  }

  // ---------------------------------------------------------------------
  // Whitespace
  // ---------------------------------------------------------------------

  /** The characters of `s` that are not whitespace, in order. */
  function NonSpace(s: string): string
    decreases |s|
  {
    if s == [] then [] else (if IsSpace(s[0]) then [] else [s[0]]) + NonSpace(s[1..])
  }

  lemma {:induction false} NonSpaceAppend(a: string, b: string)
    ensures NonSpace(a + b) == NonSpace(a) + NonSpace(b)
    decreases |a|
  {
    if a == [] {
      assert a + b == b;
    } else {
      assert (a + b)[1..] == a[1..] + b;
      NonSpaceAppend(a[1..], b);
    }
  }

  function TrimStart(s: string): (r: string)
    ensures |r| <= |s| && r == s[|s| - |r|..]
    ensures r != [] ==> !IsSpace(r[0])
    ensures forall i :: 0 <= i < |s| - |r| ==> IsSpace(s[i])
    ensures NonSpace(r) == NonSpace(s)
    decreases |s|
  {
    if s != [] && IsSpace(s[0]) then TrimStart(s[1..]) else s
  }

  function TrimEnd(s: string): (r: string)
    ensures |r| <= |s| && r == s[..|r|]
    ensures r != [] ==> !IsSpace(r[|r| - 1])
    ensures forall i :: |r| <= i < |s| ==> IsSpace(s[i])
    ensures NonSpace(r) == NonSpace(s)
    decreases |s|
  {
    if s != [] && IsSpace(s[|s| - 1]) then
      var init := s[..|s| - 1];
      assert s == init + [s[|s| - 1]];
      NonSpaceAppend(init, [s[|s| - 1]]);
      TrimEnd(init)
    else s
  }

  /** A non-space character, with or without one space before it, trims to itself. */
  lemma TrimSpaced(c: char)
    requires !IsSpace(c)
    ensures Trim([' ', c]) == [c] && Trim([c]) == [c]
  {
    assert TrimStart([c]) == [c];
    assert [' ', c][1..] == [c];
    assert TrimStart([' ', c]) == [c];
    assert TrimEnd([c]) == [c];
  }

  /** Where the trimmed text starts: the number of leading whitespace characters. */
  function TrimOffset(s: string): nat {
    |s| - |TrimStart(s)|
  }

  /** String.prototype.trim: the text without its leading and trailing whitespace. */
  function Trim(s: string): (r: string)
    ensures r != [] ==> !IsSpace(r[0]) && !IsSpace(r[|r| - 1])
    ensures NonSpace(r) == NonSpace(s)
    ensures TrimOffset(s) + |r| <= |s| && r == s[TrimOffset(s)..TrimOffset(s) + |r|]
    ensures forall i :: 0 <= i < TrimOffset(s) ==> IsSpace(s[i])
    ensures forall i :: TrimOffset(s) + |r| <= i < |s| ==> IsSpace(s[i])
  {
    TrimEnd(TrimStart(s))
  }

  /** Whitespace at position `i`, if any, is a single `' '`. */
  predicate SingleSpaceAt(s: string, i: nat) {
    i < |s| && IsSpace(s[i]) ==> s[i] == ' ' && (i + 1 < |s| ==> !IsSpace(s[i + 1]))
  }

  /** Whitespace occurs only as single `' '` characters. */
  ghost predicate Collapsed(s: string) {
    forall i: nat :: i < |s| ==> SingleSpaceAt(s, i)
  }

  /** The shape of text after `.replace(/\s+/g, " ").trim()`. */
  ghost predicate Tidy(s: string) {
    Collapsed(s) && (s != [] ==> !IsSpace(s[0]) && !IsSpace(s[|s| - 1]))
  }

  /** `s.replace(/\s+/g, " ")`: every run of whitespace becomes one space. */
  function Collapse(s: string): (r: string)
    ensures Collapsed(r)
    ensures NonSpace(r) == NonSpace(s)
    ensures s != [] && IsSpace(s[0]) ==> r != [] && r[0] == ' '
    ensures s != [] && !IsSpace(s[0]) ==> r != [] && r[0] == s[0]
    decreases |s|
  {
    if s == [] then []
    else if IsSpace(s[0]) then
      var rest := Collapse(TrimStart(s[1..]));
      CollapsedCons(' ', rest);
      [' '] + rest
    else
      var rest := Collapse(s[1..]);
      CollapsedCons(s[0], rest);
      [s[0]] + rest
  }

  /** A character in front of a collapsed text keeps it collapsed unless it
      is whitespace other than a lone `' '`. */
  lemma CollapsedCons(c: char, t: string)
    requires Collapsed(t)
    requires IsSpace(c) ==> c == ' ' && (t != [] ==> !IsSpace(t[0]))
    ensures Collapsed([c] + t)
  {
    var r := [c] + t;
    forall i: nat | 1 <= i < |r|
      ensures SingleSpaceAt(r, i)
    {
      assert SingleSpaceAt(t, i - 1);
    }
    assert SingleSpaceAt(r, 0);
  }

  /** `.replace(/\s+/g, " ").trim()`, the tail shared by the text normalisers. */
  function Squash(s: string): (r: string)
    ensures Tidy(r)
    ensures NonSpace(r) == NonSpace(s)
  {
    var c := Collapse(s);
    TrimCollapsed(c);
    Trim(c)
  }

  /** Trimming a collapsed text leaves it tidy. */
  lemma TrimCollapsed(s: string)
    requires Collapsed(s)
    ensures Tidy(Trim(s))
  {
    TidySlice(s, TrimOffset(s), Trim(s));
  }

  /** A collapsed piece without whitespace at either end is tidy. */
  lemma TidySlice(s: string, k: nat, r: string)
    requires Collapsed(s) && k + |r| <= |s| && r == s[k..k + |r|]
    requires r != [] ==> !IsSpace(r[0]) && !IsSpace(r[|r| - 1])
    ensures Tidy(r)
  {
    CollapsedSlice(s, k, k + |r|);
  }

  /** Every piece of a collapsed text is collapsed. */
  lemma CollapsedSlice(s: string, k: nat, m: nat)
    requires Collapsed(s) && k <= m <= |s|
    ensures Collapsed(s[k..m])
  {
    var r := s[k..m];
    forall i: nat | i < |r|
      ensures SingleSpaceAt(r, i)
    {
      assert SingleSpaceAt(s, k + i);
    }
  }

  /** Squashing keeps every property its input's non-space characters have,
      as long as `' '` has it too: the output holds only those characters and
      single spaces. */
  lemma SquashEvery(s: string, p: char -> bool)
    requires Every(s, (c: char) => IsSpace(c) || p(c)) && p(' ')
    ensures Every(Squash(s), p)
  {
    CollapseEvery(s, p);
    TrimEvery(Collapse(s), p);
    assert Squash(s) == Trim(Collapse(s));
  }

  lemma TrimEvery(s: string, p: char -> bool)
    requires Every(s, p)
    ensures Every(Trim(s), p)
  {
    var k := TrimOffset(s);
    var r := Trim(s);
    forall i | 0 <= i < |r|
      ensures p(r[i])
    {
      assert r[i] == s[k + i];
    }
  }

  lemma {:induction false} CollapseEvery(s: string, p: char -> bool)
    requires Every(s, (c: char) => IsSpace(c) || p(c)) && p(' ')
    ensures Every(Collapse(s), p)
    decreases |s|
  {
    if s != [] {
      var t := s[1..];
      EveryDrop(s, 1, (c: char) => IsSpace(c) || p(c));
      if IsSpace(s[0]) {
        var u := TrimStart(t);
        EveryDrop(t, |t| - |u|, (c: char) => IsSpace(c) || p(c));
        CollapseEvery(u, p);
        assert Collapse(s) == [' '] + Collapse(u);
        EveryAppend([' '], Collapse(u), p);
      } else {
        CollapseEvery(t, p);
        assert Collapse(s) == [s[0]] + Collapse(t);
        EveryAppend([s[0]], Collapse(t), p);
      }
    }
  }

  /** Text that is already tidy is left alone: squashing is idempotent. */
  lemma SquashTidy(s: string)
    requires Tidy(s)
    ensures Squash(s) == s
  {
    CollapseCollapsed(s);
  }

  lemma {:induction false} CollapseCollapsed(s: string)
    requires Collapsed(s)
    ensures Collapse(s) == s
    decreases |s|
  {
    if s != [] {
      CollapsedSlice(s, 1, |s|);
      assert s[1..|s|] == s[1..];
      CollapseCollapsed(s[1..]);
      if IsSpace(s[0]) {
        assert SingleSpaceAt(s, 0);
        assert TrimStart(s[1..]) == s[1..];
      }
    }
  }

  /** `xs.filter(Boolean)` on strings: the non-empty ones, in order. */
  function KeepNonEmpty(xs: seq<string>): (r: seq<string>)
    ensures |r| <= |xs|
    ensures Every(r, (x: string) => x != [])
    ensures (forall i :: 0 <= i < |xs| ==> xs[i] != []) ==> r == xs
    decreases |xs|
  {
    if xs == [] then []
    else (if xs[0] == [] then [] else [xs[0]]) + KeepNonEmpty(xs[1..])
  }

  /** Filtering a pair filters each element. */
  lemma KeepNonEmptyPair(x: string, y: string)
    ensures KeepNonEmpty([x, y]) == KeepNonEmpty([x]) + KeepNonEmpty([y])
  {
    assert [x, y] == [x] + [y];
    KeepNonEmptyAppend([x], [y]);
  }

  /** Filtering a triple filters the first element and the rest. */
  lemma KeepNonEmptyTriple(x: string, y: string, z: string)
    ensures KeepNonEmpty([x, y, z]) == KeepNonEmpty([x]) + KeepNonEmpty([y, z])
  {
    assert [x, y, z] == [x] + [y, z];
    KeepNonEmptyAppend([x], [y, z]);
  }

  /** A non-empty first element is the first survivor. */
  lemma KeepNonEmptyHead(xs: seq<string>)
    requires xs != [] && xs[0] != []
    ensures KeepNonEmpty(xs) != [] && KeepNonEmpty(xs)[0] == xs[0]
  {
  }

  lemma KeepNonEmptySingle(x: string)
    requires x != []
    ensures KeepNonEmpty([x]) == [x]
  {
  }

  /** Filtering keeps only elements of the input: whatever holds of all of
      them holds of the survivors. */
  lemma {:induction false} KeepNonEmptyEvery(xs: seq<string>, p: string -> bool)
    requires Every(xs, p)
    ensures Every(KeepNonEmpty(xs), p)
    decreases |xs|
  {
    if xs != [] {
      assert Every(xs[1..], p) by {
        forall i | 0 <= i < |xs[1..]|
          ensures p(xs[1..][i])
        {
          assert xs[1..][i] == xs[i + 1];
        }
      }
      KeepNonEmptyEvery(xs[1..], p);
      EveryAppend(if xs[0] == [] then [] else [xs[0]], KeepNonEmpty(xs[1..]), p);
    }
  }

  /** Filtering works on each part of a concatenation separately. */
  lemma {:induction false} KeepNonEmptyAppend(xs: seq<string>, ys: seq<string>)
    ensures KeepNonEmpty(xs + ys) == KeepNonEmpty(xs) + KeepNonEmpty(ys)
    decreases |xs|
  {
    if xs == [] {
      assert xs + ys == ys;
    } else {
      assert (xs + ys)[0] == xs[0] && (xs + ys)[1..] == xs[1..] + ys;
      KeepNonEmptyAppend(xs[1..], ys);
    }
  }

  // ---------------------------------------------------------------------
  // Splitting and joining
  // ---------------------------------------------------------------------

  /** The regular expressions the system splits on; a one-character literal
      such as `split("\t")` is the class of that character. */
  datatype Delimiter =
    | AnyChar(chars: set<char>) // a one-character class such as `/[;,]/`
    | ArtistJoiner              // `/,|&| feat\.?| ft\.?/i`

  /** Length of the separator match at the start of `s`, 0 when there is none. */
  function DelimiterLength(d: Delimiter, s: string): (n: nat)
    ensures n <= |s|
  {
    match d
    case AnyChar(cs) => if s != [] && s[0] in cs then 1 else 0
    case ArtistJoiner =>
      if s != [] && (s[0] == ',' || s[0] == '&') then 1
      else if MarkerLength(s, "feat") > 0 then MarkerLength(s, "feat")
      else MarkerLength(s, "ft")
  }

  /** `s.split(d)`: the pieces between non-overlapping separator matches found
      left to right; there is always at least one piece. */
  function Split(s: string, d: Delimiter): (parts: seq<string>)
    ensures |parts| >= 1
  {
    SplitFrom(s, d, [])
  }

  /** The scan behind `Split`: `piece` is the text of the piece being built. */
  function SplitFrom(s: string, d: Delimiter, piece: string): (parts: seq<string>)
    ensures |parts| >= 1
    decreases |s|
  {
    if s == [] then [piece]
    else if DelimiterLength(d, s) > 0 then [piece] + SplitFrom(s[DelimiterLength(d, s)..], d, [])
    else SplitFrom(s[1..], d, piece + [s[0]])
  }

  /** The first piece of a split is a prefix of the text. */
  lemma {:induction false} SplitFromHead(s: string, d: Delimiter, piece: string)
    ensures SplitFrom(s, d, piece)[0] <= piece + s
    decreases |s|
  {
    if s == [] {
    } else if DelimiterLength(d, s) > 0 {
      assert SplitFrom(s, d, piece)[0] == piece;
    } else {
      SplitFromStep(s, d, piece);
      SplitFromHead(s[1..], d, piece + [s[0]]);
      assert piece + [s[0]] + s[1..] == piece + s;
    }
  }

  /** `parts.join(sep)`. */
  function JoinWith(parts: seq<string>, sep: string): string
    decreases |parts|
  {
    if parts == [] then []
    else if |parts| == 1 then parts[0]
    else parts[0] + sep + JoinWith(parts[1..], sep)
  }

  lemma JoinWithCons(piece: string, rest: seq<string>, sep: string)
    requires |rest| >= 1
    ensures JoinWith([piece] + rest, sep) == piece + sep + JoinWith(rest, sep)
  {
    assert ([piece] + rest)[1..] == rest;
  }

  /** `s.split(sep)` on a literal of several characters: the text up to the
      first occurrence, then the split of what follows that occurrence. The
      system never splits on the empty string. */
  function SplitOn(s: string, sep: string): (parts: seq<string>)
    requires sep != []
    ensures |parts| >= 1
    decreases |s|
  {
    match Find(s, sep)
    case None => [s]
    case Some(i) => [s[..i]] + SplitOn(s[i + |sep|..], sep)
  }

  /** Joining the pieces with the separator gives the text back. */
  lemma {:induction false} SplitOnJoin(s: string, sep: string)
    requires sep != []
    ensures JoinWith(SplitOn(s, sep), sep) == s
    decreases |s|
  {
    match Find(s, sep)
    case None =>
    case Some(i) =>
      var rest := s[i + |sep|..];
      FindSpec(s, sep);
      assert s[i..][..|sep|] == sep;
      assert s == s[..i] + sep + rest;
      SplitOnJoin(rest, sep);
      JoinWithCons(s[..i], SplitOn(rest, sep), sep);
  }

  /** The text before the first occurrence does not contain the separator. */
  lemma FindBefore(s: string, sep: string, i: nat)
    requires sep != [] && Find(s, sep) == Some(i)
    ensures !Contains(s[..i], sep)
  {
    if Find(s[..i], sep).Some? {
      var k := Find(s[..i], sep).value;
      FindSpec(s[..i], sep);
      assert s[..i][k..][..|sep|] == s[k..][..|sep|];
      FindSpec(s, sep);
      assert false;
    }
  }

  /** No piece contains the separator. */
  lemma {:induction false} SplitOnPieces(s: string, sep: string)
    requires sep != []
    ensures forall k :: 0 <= k < |SplitOn(s, sep)| ==> !Contains(SplitOn(s, sep)[k], sep)
    decreases |s|
  {
    match Find(s, sep)
    case None =>
    case Some(i) =>
      FindBefore(s, sep, i);
      SplitOnPieces(s[i + |sep|..], sep);
  }

  /** The same for a character class: cutting at one of its characters splits
      the two sides independently. */
  lemma SplitAroundAnyChar(a: string, c: char, b: string, cs: set<char>)
    requires c in cs
    ensures Split(a + [c] + b, AnyChar(cs)) == Split(a, AnyChar(cs)) + Split(b, AnyChar(cs))
  {
    SplitFromAroundAnyChar(a, c, b, cs, []);
  }

  lemma {:induction false} SplitFromAroundAnyChar(a: string, c: char, b: string, cs: set<char>, piece: string)
    requires c in cs
    ensures SplitFrom(a + [c] + b, AnyChar(cs), piece)
         == SplitFrom(a, AnyChar(cs), piece) + SplitFrom(b, AnyChar(cs), [])
    decreases |a|
  {
    var s := a + [c] + b;
    if a == [] {
      assert s == [c] + b && s[1..] == b;
    } else {
      assert s[0] == a[0] && s[1..] == a[1..] + [c] + b;
      if a[0] in cs {
        SplitFromAroundAnyChar(a[1..], c, b, cs, []);
      } else {
        SplitFromAroundAnyChar(a[1..], c, b, cs, piece + [a[0]]);
      }
    }
  }

  /** Text without any character of the class stays in one piece. */
  lemma SplitAnyCharAbsent(s: string, cs: set<char>)
    requires Every(s, (c: char) => c !in cs)
    ensures Split(s, AnyChar(cs)) == [s]
  {
    SplitFromAnyCharAbsent(s, cs, []);
    assert [] + s == s;
  }

  lemma {:induction false} SplitFromAnyCharAbsent(s: string, cs: set<char>, piece: string)
    requires Every(s, (c: char) => c !in cs)
    ensures SplitFrom(s, AnyChar(cs), piece) == [piece + s]
    decreases |s|
  {
    if s == [] {
      assert piece + s == piece;
    } else {
      assert s[0] !in cs;
      assert Every(s[1..], (c: char) => c !in cs) by {
        forall i | 0 <= i < |s[1..]|
          ensures s[1..][i] !in cs
        {
          assert s[1..][i] == s[i + 1];
        }
      }
      SplitFromAnyCharAbsent(s[1..], cs, piece + [s[0]]);
      assert piece + [s[0]] + s[1..] == piece + s;
    }
  }

  /** The pieces of a split on a character class hold only characters of the
      text that are not in the class: whatever holds of those holds of every
      character of every piece. */
  lemma SplitAnyCharEvery(s: string, cs: set<char>, p: char -> bool)
    requires forall i :: 0 <= i < |s| && s[i] !in cs ==> p(s[i])
    ensures forall k :: 0 <= k < |Split(s, AnyChar(cs))| ==> Every(Split(s, AnyChar(cs))[k], p)
  {
    SplitFromAnyCharEvery(s, cs, p, []);
  }

  lemma {:induction false} SplitFromAnyCharEvery(s: string, cs: set<char>, p: char -> bool, piece: string)
    requires forall i :: 0 <= i < |s| && s[i] !in cs ==> p(s[i])
    requires Every(piece, p)
    ensures forall k :: 0 <= k < |SplitFrom(s, AnyChar(cs), piece)| ==> Every(SplitFrom(s, AnyChar(cs), piece)[k], p)
    decreases |s|
  {
    if s != [] {
      assert forall i :: 0 <= i < |s[1..]| && s[1..][i] !in cs ==> p(s[1..][i]) by {
        forall i | 0 <= i < |s[1..]| && s[1..][i] !in cs
          ensures p(s[1..][i])
        {
          assert s[1..][i] == s[i + 1];
        }
      }
      if s[0] in cs {
        SplitFromAnyCharEvery(s[1..], cs, p, []);
      } else {
        EveryAppend(piece, [s[0]], p);
        SplitFromAnyCharEvery(s[1..], cs, p, piece + [s[0]]);
      }
    }
  }

  /** No piece of a split on the artist joiner contains `,` or `&`. */
  lemma SplitArtistJoinerPieces(s: string)
    ensures forall k :: 0 <= k < |Split(s, ArtistJoiner)| ==> Every(Split(s, ArtistJoiner)[k], (c: char) => c != ',' && c != '&')
  {
    SplitFromArtistJoinerPieces(s, []);
  }

  lemma {:induction false} SplitFromArtistJoinerPieces(s: string, piece: string)
    requires Every(piece, (c: char) => c != ',' && c != '&')
    ensures forall k :: 0 <= k < |SplitFrom(s, ArtistJoiner, piece)| ==> Every(SplitFrom(s, ArtistJoiner, piece)[k], (c: char) => c != ',' && c != '&')
    decreases |s|
  {
    if s != [] {
      var n := DelimiterLength(ArtistJoiner, s);
      if n > 0 {
        SplitFromArtistJoinerPieces(s[n..], []);
      } else {
        EveryAppend(piece, [s[0]], (c: char) => c != ',' && c != '&');
        SplitFromArtistJoinerPieces(s[1..], piece + [s[0]]);
      }
    }
  }

  /** Text in which the artist joiner finds no match: no `,`, no `&`, and no
      ` feat` or ` ft` in any case. */
  predicate NoArtistJoiner(s: string) {
    ',' !in s && '&' !in s && MarkerFree(s, "feat") && MarkerFree(s, "ft")
  }

  /** A `,`, `&` or `;`, or a space after at least one character, cannot
      complete a marker that started in the text before it. */
  lemma MarkerFreeFront(a: string, c: char, b: string, word: string)
    requires MarkerFree(a, word) && (c == ',' || c == '&' || c == ';' || (c == ' ' && a != []))
    requires word == "feat" || word == "ft"
    ensures !StartsWithIgnoringCase(a + [c] + b, [' '] + word)
  {
    var s := a + [c] + b;
    var p := [' '] + word;
    assert a[0..] == a;
    if |p| <= |a| {
      assert forall i :: 0 <= i < |p| ==> s[i] == a[i];
      assert StartsWithIgnoringCase(s, p) ==> StartsWithIgnoringCase(a[0..], p);
    } else {
      assert s[|a|] == c;
      assert AsciiUpper(s[|a|]) != AsciiUpper(p[|a|]);
    }
  }

  /** Text of at most two characters without `,` or `&` has no joiner match. */
  lemma ShortNoArtistJoiner(s: string)
    requires |s| <= 2 && ',' !in s && '&' !in s
    ensures NoArtistJoiner(s)
  {
    MarkerFreeShort(s, "feat");
    MarkerFreeShort(s, "ft");
  }

  /** Every suffix of text without a joiner match is without one too. */
  lemma NoArtistJoinerSuffix(a: string, k: nat)
    requires NoArtistJoiner(a) && k <= |a|
    ensures NoArtistJoiner(a[k..])
  {
    forall j | 0 <= j <= |a[k..]|
      ensures a[k..][j..] == a[k + j..]
    {
    }
  }

  /** Where no separator starts in the first `k` positions, the scan moves
      those `k` characters into the piece. */
  predicate NoSeparatorAt(d: Delimiter, s: string, i: nat)
    requires i <= |s|
  {
    DelimiterLength(d, s[i..]) == 0
  }

  lemma {:induction false} SplitFromSkip(s: string, d: Delimiter, k: nat, piece: string)
    requires k <= |s|
    requires forall i :: 0 <= i < k ==> NoSeparatorAt(d, s, i)
    ensures SplitFrom(s, d, piece) == SplitFrom(s[k..], d, piece + s[..k])
    decreases k
  {
    if k == 0 {
      assert s[0..] == s && piece + s[..0] == piece;
    } else {
      assert NoSeparatorAt(d, s, 0) && s[0..] == s;
      SplitFromStep(s, d, piece);
      NoSeparatorTail(s, d, k);
      var t := s[1..];
      SplitFromSkip(t, d, k - 1, piece + [s[0]]);
      assert t[k - 1..] == s[k..];
      assert [s[0]] + t[..k - 1] == s[..k];
      Associative(piece, [s[0]], t[..k - 1]);
    }
  }

  lemma NoSeparatorTail(s: string, d: Delimiter, k: nat)
    requires 0 < k <= |s|
    requires forall i :: 0 <= i < k ==> NoSeparatorAt(d, s, i)
    ensures forall i :: 0 <= i < k - 1 ==> NoSeparatorAt(d, s[1..], i)
  {
    forall i | 0 <= i < k - 1
      ensures NoSeparatorAt(d, s[1..], i)
    {
      assert NoSeparatorAt(d, s, i + 1);
      assert s[1..][i..] == s[i + 1..];
    }
  }

  /** Where no separator starts, the scan moves one character into the piece. */
  lemma SplitFromStep(s: string, d: Delimiter, piece: string)
    requires s != [] && DelimiterLength(d, s) == 0
    ensures SplitFrom(s, d, piece) == SplitFrom(s[1..], d, piece + [s[0]])
  {
  }

  /** No joiner match starts inside text without one, even with a `,` or `&`
      after it. */
  lemma NoJoinerBefore(a: string, c: char, b: string)
    requires NoArtistJoiner(a) && a != [] && (c == ',' || c == '&')
    ensures DelimiterLength(ArtistJoiner, a + [c] + b) == 0
  {
    MarkerFreeFront(a, c, b, "feat");
    MarkerFreeFront(a, c, b, "ft");
    assert (a + [c] + b)[0] == a[0];
  }

  /** No joiner match starts inside text without one. */
  lemma NoJoinerWithin(s: string, i: nat)
    requires NoArtistJoiner(s) && i < |s|
    ensures DelimiterLength(ArtistJoiner, s[i..]) == 0
  {
    assert s[i..][0] == s[i];
  }

  /** A `,` or `&` after text without a joiner match ends the first piece
      there; the rest is split on its own. */
  lemma SplitArtistJoinerAround(a: string, c: char, b: string)
    requires NoArtistJoiner(a) && (c == ',' || c == '&')
    ensures Split(a + [c] + b, ArtistJoiner) == [a] + Split(b, ArtistJoiner)
  {
    var s := a + [c] + b;
    forall i | 0 <= i < |a|
      ensures NoSeparatorAt(ArtistJoiner, s, i)
    {
      NoArtistJoinerSuffix(a, i);
      assert s[i..] == a[i..] + [c] + b;
      NoJoinerBefore(a[i..], c, b);
    }
    SplitFromSkip(s, ArtistJoiner, |a|, []);
    assert s[|a|..] == [c] + b && s[..|a|] == a;
    assert ([c] + b)[1..] == b;
    assert [] + a == a;
  }

  /** Dropping a dot keeps text without a joiner match. */
  lemma NoArtistJoinerDropDot(s: string)
    requires NoArtistJoiner(s)
    ensures NoArtistJoiner(DropDot(s))
  {
    if s != [] && s[0] == '.' {
      NoArtistJoinerSuffix(s, 1);
    }
  }

  /** A ` feat` or ` ft` marker at the very start is a joiner match, and takes
      a dot that follows it. */
  lemma JoinerMarkerHere(m: string, b: string)
    requires IsFeaturingMarker(m)
    ensures var y := m + b;
      && DelimiterLength(ArtistJoiner, y) > 0
      && y[DelimiterLength(ArtistJoiner, y)..] == DropDot(b)
  {
    var y := m + b;
    assert forall i :: 0 <= i < |m| ==> y[i] == m[i];
    if IsMarker(m, "feat") {
      MarkerShape(m, "feat");
      assert StartsWithIgnoringCase(y, " feat");
    } else {
      MarkerShape(m, "ft");
      assert StartsWithIgnoringCase(y, " ft");
      assert AsciiUpper(y[2]) != AsciiUpper(" feat"[2]);
    }
    assert y[|m|..] == b;
  }

  /** A ` feat` or ` ft` marker, in any letter case, after text without a
      joiner match ends the first piece there, taking a dot that follows it;
      the rest is split on its own. */
  lemma SplitArtistJoinerMarker(a: string, m: string, b: string)
    requires NoArtistJoiner(a) && IsFeaturingMarker(m)
    ensures Split(a + m + b, ArtistJoiner) == [a] + Split(DropDot(b), ArtistJoiner)
  {
    var s := a + m + b;
    var word := if IsMarker(m, "feat") then "feat" else "ft";
    MarkerShape(m, word);
    var t := m[1..] + b;
    Associative(a, m, b);
    Associative(a, [' '], t);
    Associative([' '], m[1..], b);
    NoMarkerBeforeSpace(a, t, "feat");
    NoMarkerBeforeSpace(a, t, "ft");
    forall i | 0 <= i < |a|
      ensures NoSeparatorAt(ArtistJoiner, s, i)
    {
      assert s[i..][0] == a[i];
    }
    SplitFromSkip(s, ArtistJoiner, |a|, []);
    assert s[|a|..] == m + b && s[..|a|] == a;
    assert [] + a == a;
    JoinerMarkerHere(m, b);
  }

  /** Text without a joiner match stays in one piece. */
  lemma SplitArtistJoinerAbsent(s: string)
    requires NoArtistJoiner(s)
    ensures Split(s, ArtistJoiner) == [s]
  {
    forall i | 0 <= i < |s|
      ensures NoSeparatorAt(ArtistJoiner, s, i)
    {
      NoJoinerWithin(s, i);
    }
    SplitFromSkip(s, ArtistJoiner, |s|, []);
    assert s[|s|..] == [] && s[..|s|] == s;
    assert [] + s == s;
  }

  // ---------------------------------------------------------------------
  // Words: an independent description of squashing
  // ---------------------------------------------------------------------

  /** The characters `\s` matches, as the set a one-character class splits on. */
  const SpaceChars: set<char> := {
    ' ', '\t', '\U{B}', '\U{C}', '\U{A0}', '\U{1680}',
    '\U{2000}', '\U{2001}', '\U{2002}', '\U{2003}', '\U{2004}', '\U{2005}',
    '\U{2006}', '\U{2007}', '\U{2008}', '\U{2009}', '\U{200A}',
    '\U{202F}', '\U{205F}', '\U{3000}', '\U{FEFF}',
    '\n', '\r', '\U{2028}', '\U{2029}'
  }

  lemma SpaceCharsAreSpaces(c: char)
    ensures c in SpaceChars <==> IsSpace(c)
  {
  }

  predicate NotSpace(c: char) {
    !IsSpace(c)
  }

  /** `s.split(/\s/).filter(Boolean)`: the maximal runs of non-whitespace
      characters of `s`, in order. */
  function Words(s: string): seq<string> {
    KeepNonEmpty(Split(s, AnyChar(SpaceChars)))
  }

  /** Text without whitespace is one word, or none when empty. */
  lemma WordsSpaceFree(a: string)
    requires Every(a, NotSpace)
    ensures Words(a) == if a == [] then [] else [a]
  {
    forall i | 0 <= i < |a|
      ensures a[i] !in SpaceChars
    {
      SpaceCharsAreSpaces(a[i]);
    }
    SplitAnyCharAbsent(a, SpaceChars);
  }

  /** A whitespace character separates the words before it from those after it. */
  lemma WordsAround(a: string, c: char, b: string)
    requires IsSpace(c)
    ensures Words(a + [c] + b) == Words(a) + Words(b)
  {
    SpaceCharsAreSpaces(c);
    SplitAroundAnyChar(a, c, b, SpaceChars);
    KeepNonEmptyAppend(Split(a, AnyChar(SpaceChars)), Split(b, AnyChar(SpaceChars)));
  }

  /** Text without whitespace is already squashed. */
  lemma SquashSpaceFree(s: string)
    requires Every(s, NotSpace)
    ensures Squash(s) == s
  {
    forall i: nat | i < |s|
      ensures SingleSpaceAt(s, i)
    {
      assert NotSpace(s[i]);
    }
    SquashTidy(s);
  }

  /** Text without whitespace in front trims to what is left of its end. */
  lemma TrimUnspaced(x: string)
    requires x == [] || !IsSpace(x[0])
    ensures Trim(x) == TrimEnd(x)
    ensures Trim([' '] + x) == TrimEnd(x)
  {
    assert TrimStart(x) == x;
    assert ([' '] + x)[1..] == x;
  }

  lemma SquashIsTrim(s: string)
    ensures Squash(s) == Trim(Collapse(s))
  {
  }

  /** Collapsing text that starts with whitespace gives one space, then the
      collapsed text after the whitespace. */
  lemma CollapseSpaceFront(b: string)
    requires b != [] && IsSpace(b[0])
    ensures Collapse(b) == [' '] + Collapse(TrimStart(b))
  {
    assert TrimStart(b) == TrimStart(b[1..]);
  }

  /** Collapsing keeps a first character that is not whitespace. */
  lemma CollapseUnspaced(t: string)
    requires t == [] || !IsSpace(t[0])
    ensures Collapse(t) == [] || !IsSpace(Collapse(t)[0])
  {
  }

  /** Squashing looks past leading whitespace: the collapsed rest starts
      with a character that is not whitespace, and only its end is trimmed. */
  lemma SquashLead(b: string)
    ensures var x := Collapse(TrimStart(b));
      && (x == [] || !IsSpace(x[0]))
      && Squash(b) == TrimEnd(x)
  {
    CollapseUnspaced(TrimStart(b));
    if b != [] && IsSpace(b[0]) {
      SquashLeadSpace(b);
    } else {
      SquashLeadPlain(b);
    }
  }

  lemma SquashLeadSpace(b: string)
    requires b != [] && IsSpace(b[0])
    ensures Squash(b) == TrimEnd(Collapse(TrimStart(b)))
  {
    var x := Collapse(TrimStart(b));
    CollapseUnspaced(TrimStart(b));
    CollapseSpaceFront(b);
    TrimUnspaced(x);
    SquashIsTrim(b);
  }

  lemma SquashLeadPlain(b: string)
    requires b == [] || !IsSpace(b[0])
    ensures Squash(b) == TrimEnd(Collapse(TrimStart(b)))
  {
    assert TrimStart(b) == b;
    CollapseUnspaced(b);
    TrimUnspaced(Collapse(b));
    SquashIsTrim(b);
  }

  /** Whitespace in front changes nothing. */
  lemma SquashSpaceFront(c: char, b: string)
    requires IsSpace(c)
    ensures Squash([c] + b) == Squash(b)
  {
    var s := [c] + b;
    assert s[1..] == b;
    assert TrimStart(s) == TrimStart(b);
    SquashLead(s);
    SquashLead(b);
  }

  /** Trailing spaces add no word. */
  lemma WordsTwoSpaces(l: string)
    ensures Words(l + "  ") == Words(l)
  {
    assert l + "  " == l + [' '] + " ";
    WordsAround(l, ' ', " ");
    assert " " == [] + [' '] + [];
    WordsAround([], ' ', []);
    assert Words([]) == [];
    assert Words(l) + [] == Words(l);
  }

  /** Text without whitespace passes through collapsing in front of the rest. */
  lemma {:induction false} CollapseSpaceFreePrefix(a: string, t: string)
    requires Every(a, NotSpace)
    ensures Collapse(a + t) == a + Collapse(t)
    decreases |a|
  {
    if a == [] {
      assert a + t == t;
    } else {
      var s := a + t;
      assert NotSpace(a[0]);
      assert s[0] == a[0] && s[1..] == a[1..] + t;
      EveryDrop(a, 1, NotSpace);
      CollapseSpaceFreePrefix(a[1..], t);
      Associative([a[0]], a[1..], Collapse(t));
      assert a == [a[0]] + a[1..];
    }
  }

  /** Text with a non-space character trims its end without touching what
      comes before it. */
  lemma {:induction false} TrimEndAppend(p: string, q: string)
    requires NonSpace(q) != []
    ensures TrimEnd(p + q) == p + TrimEnd(q)
    decreases |q|
  {
    assert q != [];
    var s := p + q;
    assert s[|s| - 1] == q[|q| - 1];
    if IsSpace(q[|q| - 1]) {
      var init := q[..|q| - 1];
      assert q == init + [q[|q| - 1]];
      NonSpaceAppend(init, [q[|q| - 1]]);
      assert NonSpace([q[|q| - 1]]) == [];
      assert s[..|s| - 1] == p + init;
      TrimEndAppend(p, init);
    }
  }

  /** Text that starts with a non-space character has one in its `NonSpace`. */
  lemma NonSpaceFront(t: string)
    requires t != [] && !IsSpace(t[0])
    ensures NonSpace(t) != []
  {
  }

  /** Collapsing a word, whitespace and more text keeps the word and one
      space in front of the collapsed text after the whitespace. */
  lemma CollapseWordFront(a: string, c: char, b: string)
    requires Every(a, NotSpace) && IsSpace(c)
    ensures Collapse(a + [c] + b) == a + ([' '] + Collapse(TrimStart(b)))
  {
    var cb := [c] + b;
    assert a + [c] + b == a + cb;
    assert cb[1..] == b;
    CollapseSpaceFront(cb);
    assert TrimStart(cb) == TrimStart(b);
    CollapseSpaceFreePrefix(a, cb);
  }

  /** A word followed by one space trims to the word. */
  lemma TrimEndWordSpace(a: string)
    requires a != [] && NotSpace(a[|a| - 1])
    ensures TrimEnd(a + [' ']) == a
  {
    assert (a + [' '])[..|a|] == a;
    assert TrimEnd(a) == a;
  }

  /** Blank text trims away completely. */
  lemma TrimStartBlank(b: string)
    requires NonSpace(b) == []
    ensures TrimStart(b) == []
  {
    var t := TrimStart(b);
    if t != [] {
      NonSpaceFront(t);
    }
  }

  /** A word, whitespace, then more text squashes to the word followed by a
      single space and the squashed rest, or to the word alone when the rest
      is blank. */
  lemma SquashWordFront(a: string, c: char, b: string)
    requires a != [] && Every(a, NotSpace) && IsSpace(c)
    ensures Squash(a + [c] + b) == if NonSpace(b) == [] then a else a + " " + Squash(b)
  {
    SquashLead(b);
    SquashWordCollapsed(a, c, b);
    if NonSpace(b) == [] {
      SquashWordBlankRest(a, b);
    } else {
      TrimEndAppend(a + [' '], Collapse(TrimStart(b)));
    }
  }

  /** A word followed by one space and the collapse of blank text trims to
      the word. */
  lemma SquashWordBlankRest(a: string, b: string)
    requires a != [] && Every(a, NotSpace) && NonSpace(b) == []
    ensures TrimEnd(a + [' '] + Collapse(TrimStart(b))) == a
  {
    TrimStartBlank(b);
    assert Collapse(TrimStart(b)) == [];
    assert a + [' '] + [] == a + [' '];
    assert NotSpace(a[|a| - 1]);
    TrimEndWordSpace(a);
  }

  /** The squashed form of a word, whitespace and more text, before its end
      is trimmed. */
  lemma SquashWordCollapsed(a: string, c: char, b: string)
    requires a != [] && Every(a, NotSpace) && IsSpace(c)
    ensures Squash(a + [c] + b) == TrimEnd(a + [' '] + Collapse(TrimStart(b)))
  {
    var x := Collapse(TrimStart(b));
    CollapseWordFront(a, c, b);
    var s := a + ([' '] + x);
    assert NotSpace(a[0]) && s[0] == a[0];
    TrimUnspaced(s);
    SquashIsTrim(a + [c] + b);
    Associative(a, [' '], x);
  }

  /** A list whose first element is non-empty joins to non-empty text. */
  lemma JoinWithNonEmpty(parts: seq<string>, sep: string)
    requires parts != [] && parts[0] != []
    ensures JoinWith(parts, sep) != []
  {
  }

  /** Once squashing is known to join the words, blank text is the text
      without words. */
  lemma WordsBlank(b: string)
    requires Squash(b) == JoinWith(Words(b), " ")
    ensures Words(b) == [] <==> NonSpace(b) == []
  {
    var r := Squash(b);
    if r != [] {
      NonSpaceFront(r);
    }
    if Words(b) != [] {
      assert Every(Words(b), (x: string) => x != []);
      assert Words(b)[0] != [];
      JoinWithNonEmpty(Words(b), " ");
    }
  }

  /** Squashing keeps the words of the text and puts one space between
      neighbours: `.replace(/\s+/g, " ").trim()` equals
      `.split(/\s/).filter(Boolean).join(" ")`. */
  lemma SquashWords(s: string)
    ensures Squash(s) == JoinWith(Words(s), " ")
  {
    SquashWordsFrom([], s);
    assert [] + s == s;
  }

  /** The induction behind `SquashWords`: `a` is the part of the current word
      already read. */
  lemma {:induction false} SquashWordsFrom(a: string, t: string)
    requires Every(a, NotSpace)
    ensures Squash(a + t) == JoinWith(Words(a + t), " ")
    decreases |t|
  {
    if t == [] {
      assert a + t == a;
      SquashWordsLast(a);
    } else {
      var b := t[1..];
      FrontSplit(a, t);
      if IsSpace(t[0]) {
        SquashWordsFrom([], b);
        assert [] + b == b;
        SquashWordsSpace(a, t[0], b);
      } else {
        assert Every([t[0]], NotSpace);
        EveryAppend(a, [t[0]], NotSpace);
        SquashWordsFrom(a + [t[0]], b);
      }
    }
  }

  /** Two ways to read off the first character of `t` after `a`. */
  lemma FrontSplit<T>(a: seq<T>, t: seq<T>)
    requires t != []
    ensures a + t == a + [t[0]] + t[1..]
  {
    assert t == [t[0]] + t[1..];
    Associative(a, [t[0]], t[1..]);
  }

  /** The last word of the text. */
  lemma SquashWordsLast(a: string)
    requires Every(a, NotSpace)
    ensures Squash(a) == JoinWith(Words(a), " ")
  {
    SquashSpaceFree(a);
    WordsSpaceFree(a);
  }

  /** The step at whitespace, given the result for the text after it. */
  lemma SquashWordsSpace(a: string, c: char, b: string)
    requires Every(a, NotSpace) && IsSpace(c)
    requires Squash(b) == JoinWith(Words(b), " ")
    ensures Squash(a + [c] + b) == JoinWith(Words(a + [c] + b), " ")
  {
    var s := a + [c] + b;
    WordsAround(a, c, b);
    assert Words(s) == Words(a) + Words(b);
    WordsSpaceFree(a);
    if a == [] {
      assert Words(a) == [];
      assert Words(s) == Words(b);
      SquashWordsLeading(c, b);
      assert Squash(s) == Squash(b);
    } else {
      assert Words(a) == [a];
      assert Words(s) == [a] + Words(b);
      SquashWordsAfter(a, c, b);
      assert Squash(s) == JoinWith([a] + Words(b), " ");
    }
  }

  /** Whitespace at the front of the text. */
  lemma SquashWordsLeading(c: char, b: string)
    requires IsSpace(c)
    requires Squash(b) == JoinWith(Words(b), " ")
    ensures Squash([] + [c] + b) == JoinWith(Words(b), " ")
  {
    assert [] + [c] + b == [c] + b;
    SquashSpaceFront(c, b);
  }

  /** The step at whitespace that ends the non-empty word `a`. */
  lemma SquashWordsAfter(a: string, c: char, b: string)
    requires a != [] && Every(a, NotSpace) && IsSpace(c)
    requires Squash(b) == JoinWith(Words(b), " ")
    ensures Squash(a + [c] + b) == JoinWith([a] + Words(b), " ")
  {
    WordsBlank(b);
    SquashWordFront(a, c, b);
    if Words(b) != [] {
      JoinWithCons(a, Words(b), " ");
    } else {
      assert [a] + Words(b) == [a];
    }
  }
}
