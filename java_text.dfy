/**
 * The parts of java.lang.String and java.lang.Integer that the scraper relies on,
 * with case mapping restricted to ASCII letters.
 */
module JavaText {
  import opened Wrappers

  // ---------------------------------------------------------------- characters

  /** The regular-expression class \s: space, tab, newline, vertical tab, form feed, return. */
  predicate IsSpace(c: char) {
    c == ' ' || c == '\t' || c == '\n' || c == '\r' || c as int == 0x0B || c as int == 0x0C
  }

  /** The characters String.trim() strips: everything up to and including the space. */
  predicate IsTrimmable(c: char) {
    c as int <= 0x20
  }

  predicate IsDigit(c: char) {
    '0' <= c <= '9'
  }

  predicate IsUpper(c: char) {
    'A' <= c <= 'Z'
  }

  predicate IsLower(c: char) {
    'a' <= c <= 'z'
  }

  function LowerChar(c: char): (d: char)
    ensures !IsUpper(d)
    ensures IsUpper(c) ==> IsLower(d) && d as int == c as int + 32
    ensures !IsUpper(c) ==> d == c
  {
    if IsUpper(c) then (c as int + 32) as char else c
  }

  function UpperChar(c: char): (d: char)
    ensures !IsLower(d)
    ensures IsLower(c) ==> IsUpper(d) && d as int == c as int - 32
    ensures !IsLower(c) ==> d == c
  {
    if IsLower(c) then (c as int - 32) as char else c
  }

  /** String.toLowerCase over ASCII. */
  function ToLower(s: string): (r: string)
    ensures |r| == |s|
    ensures forall i :: 0 <= i < |s| ==> r[i] == LowerChar(s[i])
  {
    seq(|s|, i requires 0 <= i < |s| => LowerChar(s[i]))
  }

  /** String.equalsIgnoreCase over ASCII. */
  predicate EqIgnoreCase(a: string, b: string) {
    ToLower(a) == ToLower(b)
  }

  // ---------------------------------------------------------------- trimming

  function TrimStart(s: string): (r: string)
    ensures |r| <= |s| && r == s[|s| - |r|..]
    ensures r != [] ==> !IsTrimmable(r[0])
    ensures forall i :: 0 <= i < |s| - |r| ==> IsTrimmable(s[i])
  {
    if s != [] && IsTrimmable(s[0]) then TrimStart(s[1..]) else s
  }

  function TrimEnd(s: string): (r: string)
    ensures |r| <= |s| && r == s[..|r|]
    ensures r != [] ==> !IsTrimmable(r[|r| - 1])
    ensures forall i :: |r| <= i < |s| ==> IsTrimmable(s[i])
  {
    if s != [] && IsTrimmable(s[|s| - 1]) then TrimEnd(s[..|s| - 1]) else s
  }

  /** String.trim: drops every leading and trailing character up to the space. */
  function Trim(s: string): string {
    TrimEnd(TrimStart(s))
  }

  // ---------------------------------------------------------------- searching

  predicate StartsWith(s: string, prefix: string) {
    |prefix| <= |s| && s[..|prefix|] == prefix
  }

  /** String.contains: sub occurs at some position of s. */
  predicate Contains(s: string, sub: string)
    decreases |s|
  {
    StartsWith(s, sub) || (s != [] && Contains(s[1..], sub))
  }

  /** An occurrence at any position is found by contains. */
  lemma {:induction false} ContainsAt(s: string, sub: string, i: nat)
    requires i + |sub| <= |s| && s[i..i + |sub|] == sub
    ensures Contains(s, sub)
    decreases i
  {
    if i > 0 {
      assert s[1..][i - 1..i - 1 + |sub|] == s[i..i + |sub|];
      ContainsAt(s[1..], sub, i - 1);
    }
  }

  /**
   * String.replace(target, replacement): scans left to right and replaces
   * every non-overlapping occurrence of a non-empty target.
   */
  function ReplaceAll(s: string, target: string, replacement: string): string
    requires target != []
    decreases |s|
  {
    if |s| < |target| then s
    else if s[..|target|] == target then replacement + ReplaceAll(s[|target|..], target, replacement)
    else [s[0]] + ReplaceAll(s[1..], target, replacement)
  }

  /** Every character of a replacement result comes from the input or from the replacement. */
  lemma {:induction false} ReplaceAllChars(s: string, target: string, replacement: string)
    requires target != []
    ensures forall c :: c in ReplaceAll(s, target, replacement) ==> c in s || c in replacement
    decreases |s|
  {
    if |s| < |target| {
    } else if s[..|target|] == target {
      var tail := s[|target|..];
      ReplaceAllChars(tail, target, replacement);
      assert forall c :: c in tail ==> c in s;
    } else {
      var tail := s[1..];
      ReplaceAllChars(tail, target, replacement);
      assert forall c :: c in tail ==> c in s;
    }
  }

  /** Replacing a one-character target leaves no occurrence of it unless the replacement has one. */
  lemma {:induction false} ReplaceAllRemoves(s: string, target: char, replacement: string)
    requires target !in replacement
    ensures target !in ReplaceAll(s, [target], replacement)
    decreases |s|
  {
    if |s| >= 1 {
      ReplaceAllRemoves(s[1..], target, replacement);
      if s[..1] == [target] {
        assert ReplaceAll(s, [target], replacement) == replacement + ReplaceAll(s[1..], [target], replacement);
      } else {
        assert s[0] != target by { assert s[..1] == [s[0]]; }
        assert ReplaceAll(s, [target], replacement) == [s[0]] + ReplaceAll(s[1..], [target], replacement);
      }
    }
  }

  // ---------------------------------------------------------------- splitting on \s+

  /** Length of the leading run of non-whitespace characters. */
  function WordLen(s: string): (k: nat)
    ensures k <= |s|
    ensures s != [] && !IsSpace(s[0]) ==> k >= 1
    ensures k < |s| ==> IsSpace(s[k])
  {
    if s == [] || IsSpace(s[0]) then 0 else 1 + WordLen(s[1..])
  }

  /** The leading run has no whitespace in it. */
  lemma {:induction false} WordLenNoSpace(s: string)
    ensures NoSpace(s[..WordLen(s)])
  {
    if s != [] && !IsSpace(s[0]) {
      WordLenNoSpace(s[1..]);
      assert s[..WordLen(s)] == [s[0]] + s[1..][..WordLen(s[1..])];
    }
  }

  /** The non-empty whitespace-separated words of s, in order. */
  function Words(s: string): (ws: seq<string>)
    decreases |s|
  {
    if s == [] then []
    else if IsSpace(s[0]) then Words(s[1..])
    else var k := WordLen(s); [s[..k]] + Words(s[k..])
  }

  /** Every word is non-empty and free of whitespace. */
  lemma {:induction false} WordsAreWords(s: string)
    ensures forall i :: 0 <= i < |Words(s)| ==> Words(s)[i] != [] && NoSpace(Words(s)[i])
    decreases |s|
  {
    if s == [] {
    } else if IsSpace(s[0]) {
      WordsAreWords(s[1..]);
    } else {
      var k := WordLen(s);
      WordLenNoSpace(s);
      WordsAreWords(s[k..]);
    }
  }

  predicate NoSpace(w: string) {
    forall i :: 0 <= i < |w| ==> !IsSpace(w[i])
  }

  /**
   * String.split("\\s+"): the words of s, preceded by an empty string when s starts
   * with whitespace; trailing empty strings are dropped, so an all-whitespace string
   * gives no parts and the empty string gives the single part "".
   */
  function JavaSplit(s: string): (parts: seq<string>)
  {
    if s == [] then [""]
    else if IsSpace(s[0]) && Words(s) != [] then [""] + Words(s)
    else Words(s)
  }

  /** The parts of a split that are not empty are exactly the words. */
  lemma JavaSplitWords(s: string, t: string)
    ensures t in JavaSplit(s) && t != [] <==> t in Words(s)
  {
  }

  /** Words joined by single spaces. */
  function Join(ws: seq<string>): string {
    if ws == [] then ""
    else if |ws| == 1 then ws[0]
    else ws[0] + " " + Join(ws[1..])
  }

  lemma {:induction false} WordLenOfWordThenSpace(w: string, t: string)
    requires NoSpace(w)
    requires t != [] && IsSpace(t[0])
    ensures WordLen(w + t) == |w|
    decreases |w|
  {
    if w != [] {
      assert (w + t)[1..] == w[1..] + t;
      WordLenOfWordThenSpace(w[1..], t);
    }
  }

  lemma {:induction false} WordLenOfWord(w: string)
    requires NoSpace(w)
    ensures WordLen(w) == |w|
    decreases |w|
  {
    if w != [] {
      WordLenOfWord(w[1..]);
    }
  }

  /** Splitting a join of words gives the words back. */
  lemma {:induction false} WordsOfJoin(ws: seq<string>)
    requires forall i :: 0 <= i < |ws| ==> ws[i] != [] && NoSpace(ws[i])
    ensures Words(Join(ws)) == ws
    decreases |ws|
  {
    if ws == [] {
    } else if |ws| == 1 {
      var w := ws[0];
      WordLenOfWord(w);
      assert !IsSpace(w[0]);
      assert w[..|w|] == w && w[|w|..] == [];
      assert Words(w) == [w[..|w|]] + Words(w[|w|..]);
    } else {
      var w, rest := ws[0], Join(ws[1..]);
      WordsOfJoin(ws[1..]);
      var s := w + " " + rest;
      assert Join(ws) == s;
      WordLenOfWordThenSpace(w, " " + rest);
      assert s == w + (" " + rest);
      assert s[..|w|] == w;
      assert s[|w|..] == " " + rest;
      assert (" " + rest)[1..] == rest;
      assert Words(s) == [w] + Words(" " + rest);
    }
  }

  // ---------------------------------------------------------------- integers

  const MinInt32: int := -0x8000_0000
  const MaxInt32: int := 0x7FFF_FFFF

  predicate IsInt32(v: int) {
    MinInt32 <= v <= MaxInt32
  }

  /** Two's-complement wrap-around of a Java int. */
  function Wrap32(v: int): (r: int)
    ensures IsInt32(r)
    ensures IsInt32(v) ==> r == v
  {
    (v - MinInt32) % 0x1_0000_0000 + MinInt32
  }

  /** Adding with wrap-around at every step is wrapping once at the end. */
  lemma AddWrap32(a: int, b: int)
    ensures Wrap32(Wrap32(a) + b) == Wrap32(a + b)
  {
    var q := (a - MinInt32) / 0x1_0000_0000;
    assert Wrap32(a) + b - MinInt32 == (a + b - MinInt32) - q * 0x1_0000_0000;
  }

  function DigitValue(c: char): nat
    requires IsDigit(c)
  {
    c as int - '0' as int
  }

  predicate AllDigits(s: string) {
    forall i :: 0 <= i < |s| ==> IsDigit(s[i])
  }

  /** The value of a string of decimal digits, most significant first. */
  function DigitsValue(s: string): nat
    requires AllDigits(s)
  {
    if s == [] then 0 else DigitsValue(s[..|s| - 1]) * 10 + DigitValue(s[|s| - 1])
  }

  /**
   * Integer.parseInt: an optional sign followed by at least one decimal digit whose
   * value fits in 32 bits; anything else raises NumberFormatException.
   */
  function ParseInt(s: string): (r: Result<int>)
    ensures r.Ok? ==> IsInt32(r.value)
    ensures r.Err? ==> r.error == NumberFormat
  {
    if s == [] then Err(NumberFormat)
    else if s[0] == '-' || s[0] == '+' then
      if |s| == 1 || !AllDigits(s[1..]) then Err(NumberFormat)
      else
        var v: int := if s[0] == '-' then 0 - DigitsValue(s[1..]) else DigitsValue(s[1..]);
        if IsInt32(v) then Ok(v) else Err(NumberFormat)
    else if !AllDigits(s) then Err(NumberFormat)
    else if IsInt32(DigitsValue(s)) then Ok(DigitsValue(s))
    else Err(NumberFormat)
  }

  /** Integer.toString for a non-negative value. */
  function Decimal(n: nat): (s: string)
    ensures s != [] && AllDigits(s)
  {
    if n < 10 then [('0' as int + n) as char]
    else Decimal(n / 10) + [('0' as int + n % 10) as char]
  }

  lemma {:induction false} DigitsValueOfDecimal(n: nat)
    ensures DigitsValue(Decimal(n)) == n
  {
    var s := Decimal(n);
    if n >= 10 {
      DigitsValueOfDecimal(n / 10);
      assert s[..|s| - 1] == Decimal(n / 10);
    }
  }

  /** parseInt reads back what toString writes, for every non-negative int. */
  lemma ParseIntOfDecimal(n: nat)
    requires n <= MaxInt32
    ensures ParseInt(Decimal(n)) == Ok(n)
  {
    DigitsValueOfDecimal(n);
  }

  /** parseInt reads back a minus sign followed by digits, down to the least int. */
  lemma ParseIntOfNegative(n: nat)
    requires n <= -MinInt32
    ensures ParseInt("-" + Decimal(n)) == Ok(-(n as int))
  {
    DigitsValueOfDecimal(n);
    assert ("-" + Decimal(n))[1..] == Decimal(n);
  }
}
