/**
 * String helpers of the scraper: word capitalisation, the four-digit year check and
 * the country name hidden in a flag image's file name.
 */
module Helpers {
  import opened Wrappers
  import opened JavaText

  // ================================================================ capitalize

  /** word.substring(0, 1).toUpperCase() + word.substring(1).toLowerCase() */
  function Recase(w: string): (r: string)
    ensures |r| == |w|
  {
    if w == [] then [] else [UpperChar(w[0])] + ToLower(w[1..])
  }

  /**
   * What the StringBuilder of capitalize holds after the loop has read `parts`;
   * `done` records whether a word has already been recased (the source's `set` flag).
   */
  function Emitted(parts: seq<string>, onlyFirst: bool, done: bool): string
  {
    if parts == [] then ""
    else if parts[0] == [] then Emitted(parts[1..], onlyFirst, done)
    else if !onlyFirst || !done then Recase(parts[0]) + " " + Emitted(parts[1..], onlyFirst, true)
    else parts[0] + " " + Emitted(parts[1..], onlyFirst, done)
  }

  /** The value capitalize returns; the empty string is returned unchanged. */
  function Capitalized(s: string, onlyFirst: bool): string {
    if s == [] then s else Trim(Emitted(JavaSplit(s), onlyFirst, false))
  }

  /**
   * Capitalisation stated word by word: every word recased, or only the first one
   * when onlyFirst holds and the others kept verbatim.
   */
  function CapitalizedWords(ws: seq<string>, onlyFirst: bool): (r: seq<string>)
    ensures |r| == |ws|
  {
    seq(|ws|, i requires 0 <= i < |ws| => if !onlyFirst || i == 0 then Recase(ws[i]) else ws[i])
  }

  /** No character that trim() would strip other than regex whitespace. */
  predicate NoStrayControl(s: string) {
    forall i :: 0 <= i < |s| ==> IsTrimmable(s[i]) ==> IsSpace(s[i])
  }

  /** No character that trim() would strip. */
  predicate Solid(w: string) {
    forall i :: 0 <= i < |w| ==> !IsTrimmable(w[i])
  }

  /**
   * Helpers.capitalize: splits on whitespace and rebuilds the string word by word in a
   * builder, recasing either every word or only the first non-empty one.
   */
  method Capitalize(s: string, onlyFirst: bool) returns (r: string)
    ensures r == Capitalized(s, onlyFirst)
    ensures s == [] ==> r == s
    ensures NoStrayControl(s) ==> r == Join(CapitalizedWords(Words(s), onlyFirst))
  {
    if s == [] {
      return s;
    }
    var words := JavaSplit(s);
    var result := "";
    var done := false;
    var i := 0;
    while i < |words|
      invariant 0 <= i <= |words|
      invariant result + Emitted(words[i..], onlyFirst, done) == Emitted(words, onlyFirst, false)
    {
      var word := words[i];
      ghost var rest := words[i + 1..];
      assert words[i..][0] == word && words[i..][1..] == rest;
      if word != [] {
        ghost var wasDone := done;
        var piece;
        if !onlyFirst || !done {
          piece := Recase(word) + " ";
          done := true;
        } else {
          piece := word + " ";
        }
        assert Emitted(words[i..], onlyFirst, wasDone) == piece + Emitted(rest, onlyFirst, done);
        ConcatAssoc(result, piece, Emitted(rest, onlyFirst, done));
        result := result + piece;
      }
      i := i + 1;
    }
    assert result + "" == result;
    r := Trim(result);
    if NoStrayControl(s) {
      CapitalizedMeaning(s, onlyFirst);
    }
  }

  // ---------------------------------------------------------------- proofs about capitalize

  lemma ConcatAssoc(a: string, b: string, c: string)
    ensures a + b + c == a + (b + c)
  {
  }

  function TrailingJoin(xs: seq<string>): string {
    if xs == [] then "" else xs[0] + " " + TrailingJoin(xs[1..])
  }

  lemma {:induction false} TrailingJoinIsJoin(xs: seq<string>)
    requires xs != []
    ensures TrailingJoin(xs) == Join(xs) + " "
    decreases |xs|
  {
    if |xs| > 1 {
      TrailingJoinIsJoin(xs[1..]);
    }
  }

  lemma {:induction false} EmittedSkipsEmpty(ws: seq<string>, onlyFirst: bool)
    ensures Emitted([""] + ws, onlyFirst, false) == Emitted(ws, onlyFirst, false)
  {
    assert ([""] + ws)[1..] == ws;
  }

  /** The words after the first recased one: kept verbatim when onlyFirst, else recased. */
  function LaterWords(ws: seq<string>, onlyFirst: bool): (r: seq<string>)
    ensures |r| == |ws|
  {
    seq(|ws|, i requires 0 <= i < |ws| => if onlyFirst then ws[i] else Recase(ws[i]))
  }

  /** Once a word was recased, the builder receives the remaining words as LaterWords gives them. */
  lemma {:induction false} EmittedAfterFirst(ws: seq<string>, onlyFirst: bool)
    requires forall i :: 0 <= i < |ws| ==> ws[i] != []
    ensures Emitted(ws, onlyFirst, true) == TrailingJoin(LaterWords(ws, onlyFirst))
    decreases |ws|
  {
    if ws != [] {
      EmittedAfterFirst(ws[1..], onlyFirst);
      assert LaterWords(ws, onlyFirst)[1..] == LaterWords(ws[1..], onlyFirst);
    }
  }

  lemma EmittedWords(ws: seq<string>, onlyFirst: bool)
    requires forall i :: 0 <= i < |ws| ==> ws[i] != []
    ensures Emitted(ws, onlyFirst, false) == TrailingJoin(CapitalizedWords(ws, onlyFirst))
  {
    if ws != [] {
      EmittedAfterFirst(ws[1..], onlyFirst);
      assert CapitalizedWords(ws, onlyFirst)[1..] == LaterWords(ws[1..], onlyFirst);
    }
  }

  lemma RecaseSolid(w: string)
    requires Solid(w)
    ensures Solid(Recase(w)) && NoSpace(Recase(w))
  {
  }

  /** Recasing twice is recasing once. */
  lemma RecaseIdempotent(w: string)
    ensures Recase(Recase(w)) == Recase(w)
  {
    if w != [] {
      var r := Recase(w);
      assert r[1..] == ToLower(w[1..]);
      assert ToLower(r[1..]) == r[1..];
    }
  }

  lemma {:induction false} WordsSolid(s: string)
    requires NoStrayControl(s)
    ensures forall k :: 0 <= k < |Words(s)| ==> Solid(Words(s)[k])
    decreases |s|
  {
    if s == [] {
    } else if IsSpace(s[0]) {
      WordsSolid(s[1..]);
    } else {
      var k := WordLen(s);
      WordLenNoSpace(s);
      WordsSolid(s[k..]);
      assert Words(s) == [s[..k]] + Words(s[k..]);
    }
  }

  lemma {:induction false} JoinEnds(xs: seq<string>)
    requires xs != [] && forall i :: 0 <= i < |xs| ==> xs[i] != []
    ensures Join(xs) != []
    ensures Join(xs)[0] == xs[0][0]
    ensures Join(xs)[|Join(xs)| - 1] == xs[|xs| - 1][|xs[|xs| - 1]| - 1]
    decreases |xs|
  {
    if |xs| > 1 {
      JoinEnds(xs[1..]);
    }
  }

  lemma {:induction false} JoinNoStrayControl(xs: seq<string>)
    requires forall i :: 0 <= i < |xs| ==> Solid(xs[i])
    ensures NoStrayControl(Join(xs))
    decreases |xs|
  {
    if |xs| > 1 {
      JoinNoStrayControl(xs[1..]);
      var j := Join(xs);
      assert j == xs[0] + " " + Join(xs[1..]);
      forall i | 0 <= i < |j| && IsTrimmable(j[i]) ensures IsSpace(j[i]) {
        if i > |xs[0]| {
          assert j[i] == Join(xs[1..])[i - |xs[0]| - 1];
        }
      }
    }
  }

  /** Trimming a join that ends in one space removes exactly that space. */
  lemma TrimTrailingJoin(xs: seq<string>)
    requires forall i :: 0 <= i < |xs| ==> xs[i] != [] && Solid(xs[i])
    ensures Trim(TrailingJoin(xs)) == Join(xs)
  {
    if xs != [] {
      TrailingJoinIsJoin(xs);
      JoinEnds(xs);
      var j := Join(xs);
      assert TrimStart(j + " ") == j + " ";
      assert (j + " ")[..|j|] == j;
      assert TrimEnd(j + " ") == TrimEnd(j);
    }
  }

  /**
   * capitalize, stated word by word: on a string without stray control characters it
   * returns the recased words joined by single spaces, with nothing before or after.
   */
  lemma CapitalizedMeaning(s: string, onlyFirst: bool)
    requires NoStrayControl(s)
    ensures Capitalized(s, onlyFirst) == Join(CapitalizedWords(Words(s), onlyFirst))
  {
    var ws := Words(s);
    var xs := CapitalizedWords(ws, onlyFirst);
    if s == [] {
    } else {
      if IsSpace(s[0]) && ws != [] {
        EmittedSkipsEmpty(ws, onlyFirst);
      }
      assert Emitted(JavaSplit(s), onlyFirst, false) == Emitted(ws, onlyFirst, false);
      WordsAreWords(s);
      EmittedWords(ws, onlyFirst);
      WordsSolid(s);
      forall i | 0 <= i < |xs| ensures xs[i] != [] && Solid(xs[i]) {
        RecaseSolid(ws[i]);
      }
      TrimTrailingJoin(xs);
    }
  }

  /** Every whitespace-separated word of the result is the recased word of the input. */
  lemma CapitalizedWordsOfResult(s: string, onlyFirst: bool)
    requires NoStrayControl(s)
    ensures Words(Capitalized(s, onlyFirst)) == CapitalizedWords(Words(s), onlyFirst)
    ensures |Words(Capitalized(s, onlyFirst))| == |Words(s)|
  {
    CapitalizedMeaning(s, onlyFirst);
    var ws := Words(s);
    var xs := CapitalizedWords(ws, onlyFirst);
    WordsAreWords(s);
    WordsSolid(s);
    forall i | 0 <= i < |xs| ensures xs[i] != [] && NoSpace(xs[i]) {
      RecaseSolid(ws[i]);
    }
    WordsOfJoin(xs);
  }

  /** Capitalising an already capitalised string changes nothing. */
  lemma CapitalizeIdempotent(s: string, onlyFirst: bool)
    requires NoStrayControl(s)
    ensures Capitalized(Capitalized(s, onlyFirst), onlyFirst) == Capitalized(s, onlyFirst)
  {
    var ws := Words(s);
    var xs := CapitalizedWords(ws, onlyFirst);
    var r := Capitalized(s, onlyFirst);
    CapitalizedWordsOfResult(s, onlyFirst);
    assert r == Join(xs) by { CapitalizedMeaning(s, onlyFirst); }
    WordsSolid(s);
    forall i | 0 <= i < |xs| ensures Solid(xs[i]) {
      RecaseSolid(ws[i]);
    }
    JoinNoStrayControl(xs);
    CapitalizedMeaning(r, onlyFirst);
    forall i | 0 <= i < |xs|
      ensures CapitalizedWords(xs, onlyFirst)[i] == xs[i]
    {
      if !onlyFirst || i == 0 {
        RecaseIdempotent(ws[i]);
      }
    }
    assert CapitalizedWords(xs, onlyFirst) == xs;
  }

  // ================================================================ isValidYear

  /** The year pattern ^(18[0-9]{2}|20[0-1][0-9]|202[0-5]|19[0-9]{2})$, alternative by alternative. */
  predicate IsValidYear(s: string) {
    |s| == 4 &&
    (  (s[0] == '1' && s[1] == '8' && IsDigit(s[2]) && IsDigit(s[3]))
    || (s[0] == '2' && s[1] == '0' && '0' <= s[2] <= '1' && IsDigit(s[3]))
    || (s[0] == '2' && s[1] == '0' && s[2] == '2' && '0' <= s[3] <= '5')
    || (s[0] == '1' && s[1] == '9' && IsDigit(s[2]) && IsDigit(s[3])))
  }

  lemma FourDigitsValue(s: string)
    requires |s| == 4 && AllDigits(s)
    ensures DigitsValue(s) == 1000 * DigitValue(s[0]) + 100 * DigitValue(s[1])
                            + 10 * DigitValue(s[2]) + DigitValue(s[3])
  {
    var s3, s2, s1 := s[..3], s[..2], s[..1];
    assert s3[..2] == s2 && s2[..1] == s1 && s1[..0] == [];
    assert DigitsValue(s1) == DigitValue(s[0]);
    assert DigitsValue(s2) == DigitsValue(s1) * 10 + DigitValue(s[1]);
    assert DigitsValue(s3) == DigitsValue(s2) * 10 + DigitValue(s[2]);
    assert DigitsValue(s) == DigitsValue(s3) * 10 + DigitValue(s[3]);
  }

  /** A valid year is exactly four decimal digits whose value lies in 1800..2025. */
  lemma ValidYearRange(s: string)
    ensures IsValidYear(s) <==> |s| == 4 && AllDigits(s) && 1800 <= DigitsValue(s) <= 2025
  {
    if |s| == 4 && AllDigits(s) {
      FourDigitsValue(s);
    }
  }

  /** Integer.parseInt never raises on a string isValidYear accepts. */
  lemma ValidYearParses(s: string)
    requires IsValidYear(s)
    ensures AllDigits(s) && ParseInt(s) == Ok(DigitsValue(s))
    ensures 1800 <= DigitsValue(s) <= 2025
  {
    ValidYearRange(s);
  }

  // ================================================================ extractCountryName

  /** The character class [a-zA-Z_\-%28%29]: letters, '_', '-', '%', '2', '8' and '9'. */
  predicate InNameClass(c: char) {
    IsUpper(c) || IsLower(c) || c == '_' || c == '-' || c == '%' || c == '2' || c == '8' || c == '9'
  }

  const FlagPrefix: string := "Flag_of_"

  /** Length of the longest run of name-class characters starting at index i. */
  function RunLen(s: string, i: nat): (k: nat)
    requires i <= |s|
    ensures i + k <= |s|
    ensures i + k < |s| ==> !InNameClass(s[i + k])
    decreases |s| - i
  {
    if i < |s| && InNameClass(s[i]) then 1 + RunLen(s, i + 1) else 0
  }

  /** Every character of the run is in the name class. */
  lemma {:induction false} RunLenClass(s: string, i: nat)
    requires i <= |s|
    ensures forall j :: i <= j < i + RunLen(s, i) ==> InNameClass(s[j])
    decreases |s| - i
  {
    if i < |s| && InNameClass(s[i]) {
      RunLenClass(s, i + 1);
    }
  }

  /** The pattern Flag_of_([a-zA-Z_\-%28%29]+)\. matches starting at index i (greedy run, then a dot). */
  predicate MatchAt(s: string, i: nat) {
    i + |FlagPrefix| <= |s| && s[i..i + |FlagPrefix|] == FlagPrefix &&
    var k := RunLen(s, i + |FlagPrefix|);
    k > 0 && i + |FlagPrefix| + k < |s| && s[i + |FlagPrefix| + k] == '.'
  }

  /** Matcher.find: the leftmost index at or after i where the pattern matches. */
  function FindFlag(s: string, i: nat): (r: Option<nat>)
    ensures r.Some? ==> i <= r.value && MatchAt(s, r.value)
    decreases |s| - i
  {
    if i >= |s| then None
    else if MatchAt(s, i) then Some(i)
    else FindFlag(s, i + 1)
  }

  /** FindFlag finds the leftmost match at or after i, and finds none only when there is none. */
  lemma {:induction false} FindFlagLeftmost(s: string, i: nat)
    ensures FindFlag(s, i).Some? ==> forall j :: i <= j < FindFlag(s, i).value ==> !MatchAt(s, j)
    ensures FindFlag(s, i).None? ==> forall j :: i <= j ==> !MatchAt(s, j)
    decreases |s| - i
  {
    if i < |s| && !MatchAt(s, i) {
      FindFlagLeftmost(s, i + 1);
    }
  }

  /** The group's clean-up: ' ' and '-' become '_', "%28" and "%29" vanish, letters go lower case. */
  function NormalizeName(g: string): string {
    ToLower(ReplaceAll(ReplaceAll(ReplaceAll(ReplaceAll(g, " ", "_"), "-", "_"), "%28", ""), "%29", ""))
  }

  /** Matcher.group(1) for a match at i: the run of name-class characters after the prefix. */
  function FlagGroup(url: string, i: nat): string
    requires i + |FlagPrefix| <= |url|
  {
    var start := i + |FlagPrefix|;
    url[start..start + RunLen(url, start)]
  }

  /** Helpers.extractCountryName. */
  function ExtractCountryName(url: string): string {
    match FindFlag(url, 0)
    case None => "Unknown"
    case Some(i) => NormalizeName(FlagGroup(url, i))
  }

  /** "Flag_of_" at i, then k >= 1 name-class characters, then a dot: stated without RunLen. */
  predicate FlagAt(s: string, i: nat, k: nat) {
    k >= 1 && i + |FlagPrefix| + k < |s| && s[i..i + |FlagPrefix|] == FlagPrefix &&
    (forall j :: i + |FlagPrefix| <= j < i + |FlagPrefix| + k ==> InNameClass(s[j])) &&
    s[i + |FlagPrefix| + k] == '.'
  }

  lemma {:induction false} RunLenExact(s: string, i: nat, k: nat)
    requires i + k < |s|
    requires forall j :: i <= j < i + k ==> InNameClass(s[j])
    requires !InNameClass(s[i + k])
    ensures RunLen(s, i) == k
    decreases k
  {
    if k > 0 {
      RunLenExact(s, i + 1, k - 1);
    }
  }

  /** The pattern matches at i exactly when some run length makes FlagAt hold there. */
  lemma MatchAtIff(s: string, i: nat)
    ensures MatchAt(s, i) <==> exists k :: FlagAt(s, i, k)
  {
    if MatchAt(s, i) {
      RunLenClass(s, i + |FlagPrefix|);
      assert FlagAt(s, i, RunLen(s, i + |FlagPrefix|));
    }
    if k :| FlagAt(s, i, k) {
      RunLenExact(s, i + |FlagPrefix|, k);
    }
  }

  lemma NormalizedChars(g: string)
    requires forall j :: 0 <= j < |g| ==> InNameClass(g[j])
    ensures forall c :: c in NormalizeName(g) ==> InNameClass(c) && c != '-' && !IsUpper(c)
  {
    var a := ReplaceAll(g, " ", "_");
    var b := ReplaceAll(a, "-", "_");
    var c := ReplaceAll(b, "%28", "");
    var d := ReplaceAll(c, "%29", "");
    ReplaceAllChars(g, " ", "_");
    ReplaceAllChars(a, "-", "_");
    ReplaceAllRemoves(a, '-', "_");
    ReplaceAllChars(b, "%28", "");
    ReplaceAllChars(c, "%29", "");
    assert forall x :: x in d ==> x in b;
    forall x | x in ToLower(d) ensures InNameClass(x) && x != '-' && !IsUpper(x) {
      var j :| 0 <= j < |d| && ToLower(d)[j] == x;
      assert d[j] in d;
    }
  }

  /** extractCountryName gives "Unknown" exactly when no "Flag_of_" is followed by name characters and a dot. */
  lemma ExtractUnknownIff(url: string)
    ensures ExtractCountryName(url) == "Unknown" <==> forall i, k :: !FlagAt(url, i, k)
  {
    if FindFlag(url, 0).None? {
      FindFlagLeftmost(url, 0);
      forall i: nat, k: nat ensures !FlagAt(url, i, k) {
        MatchAtIff(url, i);
      }
    } else {
      var i := FindFlag(url, 0).value;
      KnownName(url);
      MatchAtIff(url, i);
    }
  }

  /** A name that was found is never "Unknown", which starts with an upper-case letter. */
  lemma KnownName(url: string)
    requires FindFlag(url, 0).Some?
    ensures ExtractCountryName(url) != "Unknown"
  {
    ExtractNormalized(url);
    assert 'U' == "Unknown"[0] && IsUpper('U');
  }

  /** A name that was found holds only lower-case letters, '_', '%', '2', '8' and '9'. */
  lemma ExtractNormalized(url: string)
    requires FindFlag(url, 0).Some?
    ensures forall c :: c in ExtractCountryName(url) ==> InNameClass(c) && c != '-' && !IsUpper(c)
  {
    var i := FindFlag(url, 0).value;
    var start := i + |FlagPrefix|;
    var g := FlagGroup(url, i);
    RunLenClass(url, start);
    forall j | 0 <= j < |g| ensures InNameClass(g[j]) {
      assert g[j] == url[start + j];
    }
    NormalizedChars(g);
  }

  /** The name comes from the leftmost "Flag_of_" occurrence that is followed by a run and a dot. */
  lemma ExtractLeftmost(url: string, i: nat, k: nat)
    requires FlagAt(url, i, k)
    requires forall j: nat, k': nat :: j < i ==> !FlagAt(url, j, k')
    ensures ExtractCountryName(url) == NormalizeName(url[i + |FlagPrefix|..i + |FlagPrefix| + k])
  {
    MatchAtIff(url, i);
    forall j | 0 <= j < i ensures !MatchAt(url, j) {
      MatchAtIff(url, j);
    }
    FindFlagFrom(url, 0, i);
    RunLenExact(url, i + |FlagPrefix|, k);
    assert FlagGroup(url, i) == url[i + |FlagPrefix|..i + |FlagPrefix| + k];
  }

  /** A match with none between `from` and it is the one FindFlag finds from `from`. */
  lemma {:induction false} FindFlagFrom(s: string, from: nat, i: nat)
    requires from <= i && MatchAt(s, i)
    requires forall j :: from <= j < i ==> !MatchAt(s, j)
    ensures FindFlag(s, from) == Some(i)
    decreases i - from
  {
    if from < i {
      FindFlagFrom(s, from + 1, i);
    }
  }
}
