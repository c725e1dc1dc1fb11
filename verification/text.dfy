/** String helpers the client relies on: JavaScript's `trim`, ASCII case
    mapping (standing for `toUpperCase` and the case folding of `ilike`),
    substring search, `split(' ')`, the initials of a display name and the
    decimal rendering of a count. */
module Text {
  import opened Lists

  /** ECMAScript's WhiteSpace and LineTerminator code points, the set that
      `String.prototype.trim` strips. */
  predicate IsWhitespace(c: char) {
    var n := c as int;
    n == 0x09 || n == 0x0A || n == 0x0B || n == 0x0C || n == 0x0D || n == 0x20
    || n == 0xA0 || n == 0x1680 || (0x2000 <= n <= 0x200A)
    || n == 0x2028 || n == 0x2029 || n == 0x202F || n == 0x205F
    || n == 0x3000 || n == 0xFEFF
  }

  /** True when the string has no character other than whitespace. */
  predicate Blank(s: string) {
    forall i :: 0 <= i < |s| ==> IsWhitespace(s[i])
  }

  /** `s` with its leading whitespace removed. */
  function TrimStart(s: string): (r: string)
    ensures |r| <= |s| && r == s[|s| - |r|..]
    ensures forall i :: 0 <= i < |s| - |r| ==> IsWhitespace(s[i])
    ensures |r| > 0 ==> !IsWhitespace(r[0])
  {
    if |s| > 0 && IsWhitespace(s[0]) then TrimStart(s[1..]) else s
  }

  /** `s` with its trailing whitespace removed. */
  function TrimEnd(s: string): (r: string)
    ensures |r| <= |s| && r == s[..|r|]
    ensures forall i :: |r| <= i < |s| ==> IsWhitespace(s[i])
    ensures |r| > 0 ==> !IsWhitespace(r[|r| - 1])
  {
    if |s| > 0 && IsWhitespace(s[|s| - 1]) then TrimEnd(s[..|s| - 1]) else s
  }

  /** JavaScript's `s.trim()`: the longest infix of `s` that neither starts
      nor ends with whitespace, found by cutting whitespace off both ends. */
  function Trim(s: string): (r: string)
    ensures |r| <= |s|
    ensures |r| > 0 ==> !IsWhitespace(r[0]) && !IsWhitespace(r[|r| - 1])
    ensures r == "" <==> Blank(s)
  {
    TrimEndOfSuffix(s, TrimStart(s));
    TrimEnd(TrimStart(s))
  }

  /** What trimming cuts off is whitespace, from both ends only: the result
      sits in `s` at some offset, with only whitespace before and after it. */
  lemma TrimIsInfix(s: string)
    ensures exists k :: 0 <= k && k + |Trim(s)| <= |s| && Trim(s) == s[k..k + |Trim(s)|]
                        && Blank(s[..k]) && Blank(s[k + |Trim(s)|..])
  {
    var k := |s| - |TrimStart(s)|;
    TrimAt(s, k);
  }

  /** `TrimIsInfix` at the offset where the leading whitespace ends. */
  lemma TrimAt(s: string, k: nat)
    requires k == |s| - |TrimStart(s)|
    ensures k + |Trim(s)| <= |s| && Trim(s) == s[k..k + |Trim(s)|]
    ensures Blank(s[..k]) && Blank(s[k + |Trim(s)|..])
  {
    TrimSitsAt(s, k);
    CutBeforeIsBlank(s, k);
    CutAfterIsBlank(s, k);
  }

  /** The trimmed string is the infix of `s` starting at `k`. */
  lemma TrimSitsAt(s: string, k: nat)
    requires k == |s| - |TrimStart(s)|
    ensures k + |Trim(s)| <= |s| && Trim(s) == s[k..k + |Trim(s)|]
  {
    var u := TrimStart(s);
    var t := TrimEnd(u);
    assert t == Trim(s);
    assert u == s[k..];
    assert t == u[..|t|];
    SliceOfSuffix(s, k, |t|);
  }

  /** Everything before `k` is whitespace. */
  lemma CutBeforeIsBlank(s: string, k: nat)
    requires k == |s| - |TrimStart(s)|
    ensures Blank(s[..k])
  {
    forall i | 0 <= i < k ensures IsWhitespace(s[..k][i]) {
      assert s[..k][i] == s[i];
    }
  }

  /** Everything after the trimmed string is whitespace. */
  lemma CutAfterIsBlank(s: string, k: nat)
    requires k == |s| - |TrimStart(s)|
    ensures k + |Trim(s)| <= |s| && Blank(s[k + |Trim(s)|..])
  {
    var u := TrimStart(s);
    var n := |TrimEnd(u)|;
    assert TrimEnd(u) == Trim(s);
    CutAfterIsWhitespace(s, u);
    var rest := s[k + n..];
    forall i | 0 <= i < |rest| ensures IsWhitespace(rest[i]) {
      assert rest[i] == s[k + n + i];
    }
  }

  /** A prefix of a suffix is an infix. */
  lemma SliceOfSuffix(s: string, k: nat, n: nat)
    requires k + n <= |s|
    ensures s[k..][..n] == s[k..k + n]
  {
  }

  /** Trimming the end of a suffix cuts only whitespace. */
  lemma CutAfterIsWhitespace(s: string, t: string)
    requires |t| <= |s| && t == s[|s| - |t|..]
    ensures var r := TrimEnd(t);
            forall i :: |s| - |t| + |r| <= i < |s| ==> IsWhitespace(s[i])
  {
  }

  /** The ends of the trimmed string, and when nothing is left. */
  lemma TrimEndOfSuffix(s: string, t: string)
    requires |t| <= |s| && t == s[|s| - |t|..]
    requires forall i :: 0 <= i < |s| - |t| ==> IsWhitespace(s[i])
    requires |t| > 0 ==> !IsWhitespace(t[0])
    ensures var r := TrimEnd(t);
            (|r| > 0 ==> !IsWhitespace(r[0])) && (r == "" <==> Blank(s))
  {
    var k := |s| - |t|;
    var r := TrimEnd(t);
    if |r| > 0 {
      assert r[0] == t[0] == s[k];
    }
  }

  /** Trimming an already trimmed string changes nothing. */
  lemma TrimIdempotent(s: string)
    ensures Trim(Trim(s)) == Trim(s)
  {
    var r := Trim(s);
    if |r| > 0 {
      assert TrimStart(r) == r;
      assert TrimEnd(r) == r;
    }
  }

  /** ASCII upper case, standing for `toUpperCase`. */
  function Upper(c: char): (u: char)
    ensures 'a' <= c <= 'z' ==> 'A' <= u <= 'Z' && u as int == c as int - 32
    ensures !('a' <= c <= 'z') ==> u == c
  {
    if 'a' <= c <= 'z' then (c as int - 32) as char else c
  }

  /** ASCII lower case, standing for the case folding of `ilike`. */
  function Lower(c: char): (l: char)
    ensures 'A' <= c <= 'Z' ==> 'a' <= l <= 'z' && l as int == c as int + 32
    ensures !('A' <= c <= 'Z') ==> l == c
  {
    if 'A' <= c <= 'Z' then (c as int + 32) as char else c
  }

  function UpperString(s: string): (r: string)
    ensures |r| == |s| && forall i :: 0 <= i < |s| ==> r[i] == Upper(s[i])
  {
    seq(|s|, i requires 0 <= i < |s| => Upper(s[i]))
  }

  function LowerString(s: string): (r: string)
    ensures |r| == |s| && forall i :: 0 <= i < |s| ==> r[i] == Lower(s[i])
  {
    seq(|s|, i requires 0 <= i < |s| => Lower(s[i]))
  }

  /** `needle` occurs in `hay` at offset `k`. */
  predicate OccursAt(hay: string, needle: string, k: int) {
    0 <= k && k + |needle| <= |hay| && hay[k..k + |needle|] == needle
  }

  /** `hay.includes(needle)`. */
  predicate Contains(hay: string, needle: string) {
    exists k :: 0 <= k <= |hay| - |needle| && OccursAt(hay, needle, k)
  }

  /** Case-insensitive substring match, the meaning of `ilike '%q%'` when
      the pattern characters of `q` are read literally. */
  predicate ContainsIgnoringCase(hay: string, needle: string) {
    Contains(LowerString(hay), LowerString(needle))
  }

  /** Two strings that differ only in case contain each other. */
  lemma SameUpToCaseContains(hay: string, needle: string)
    ensures LowerString(hay) == LowerString(needle) ==> ContainsIgnoringCase(hay, needle)
  {
    if LowerString(hay) == LowerString(needle) {
      assert OccursAt(LowerString(hay), LowerString(needle), 0);
    }
  }

  /** Upper-casing the query never changes whether it matches. */
  lemma QueryCaseIrrelevant(hay: string, needle: string)
    ensures ContainsIgnoringCase(hay, UpperString(needle)) <==> ContainsIgnoringCase(hay, needle)
  {
    var u := UpperString(needle);
    forall i | 0 <= i < |needle| ensures Lower(u[i]) == Lower(needle[i]) {
    }
    assert LowerString(u) == LowerString(needle);
  }

  // ---------------------------------------------------------------------
  // split(' ') and the initials of a name

  /** JavaScript's `s.split(' ')`: the pieces between single spaces, empty
      pieces included, so there is always at least one piece. */
  function Split(s: string): (r: seq<string>)
    ensures |r| >= 1
    ensures forall i :: 0 <= i < |r| ==> ' ' !in r[i]
    decreases |s|
  {
    if |s| == 0 then [""]
    else if s[0] == ' ' then [""] + Split(s[1..])
    else
      var rest := Split(s[1..]);
      [[s[0]] + rest[0]] + rest[1..]
  }

  /** `ws.join(sep)`. */
  function Join(ws: seq<string>, sep: char): string
    decreases |ws|
  {
    if |ws| == 0 then ""
    else if |ws| == 1 then ws[0]
    else ws[0] + [sep] + Join(ws[1..], sep)
  }

  /** Splitting on spaces loses nothing: joining the pieces back with a
      space gives the original string. */
  lemma {:induction false} SplitJoin(s: string)
    ensures Join(Split(s), ' ') == s
    decreases |s|
  {
    if |s| == 0 {
    } else if s[0] == ' ' {
      SplitJoin(s[1..]);
      assert s == [' '] + s[1..];
    } else {
      SplitJoin(s[1..]);
      var rest := Split(s[1..]);
      if |rest| == 1 {
        assert s == [s[0]] + rest[0];
      } else {
        assert Join(rest, ' ') == rest[0] + [' '] + Join(rest[1..], ' ');
        assert s == [s[0]] + s[1..];
        assert ([s[0]] + rest[0]) + [' '] + Join(rest[1..], ' ')
            == [s[0]] + (rest[0] + [' '] + Join(rest[1..], ' '));
      }
    }
  }

  /** `ws.map(n => n[0]).join('')`: the first character of each piece; an
      empty piece yields `undefined`, which `join` renders as nothing. */
  function FirstChars(ws: seq<string>): string
    decreases |ws|
  {
    if |ws| == 0 then ""
    else (if |ws[0]| > 0 then [ws[0][0]] else "") + FirstChars(ws[1..])
  }

  /** Position `i` of `s` starts a word: a non-space character at the start
      of the string or right after a space. */
  predicate IsWordStart(s: string, i: int)
    requires 0 <= i < |s|
  {
    s[i] != ' ' && (i == 0 || s[i - 1] == ' ')
  }

  /** Reference definition: the characters of `s` that start a word, read
      left to right; `afterSpace` says whether the previous character was a
      space (or there was none). */
  function WordStarts(s: string, afterSpace: bool): (r: string)
    ensures |r| <= |s|
    decreases |s|
  {
    if |s| == 0 then ""
    else (if afterSpace && s[0] != ' ' then [s[0]] else "")
         + WordStarts(s[1..], s[0] == ' ')
  }

  /** The first characters of the pieces of `split(' ')` are exactly the
      word-start characters of the string (and, past the first piece, the
      word starts that follow a space). */
  lemma {:induction false} FirstCharsOfSplit(s: string)
    ensures FirstChars(Split(s)) == WordStarts(s, true)
    ensures FirstChars(Split(s)[1..]) == WordStarts(s, false)
    decreases |s|
  {
    if |s| == 0 {
    } else {
      var t := s[1..];
      FirstCharsOfSplit(t);
      var rest := Split(t);
      if s[0] == ' ' {
        assert Split(s)[1..] == rest;
      } else {
        assert Split(s) == [[s[0]] + rest[0]] + rest[1..];
        assert Split(s)[1..] == rest[1..];
      }
    }
  }

  /** A word-start character, when the scan starts at position 0, is
      precisely a position with `IsWordStart`: each one is collected. */
  lemma {:induction false} WordStartsCollects(s: string, i: int)
    requires 0 <= i < |s| && IsWordStart(s, i)
    ensures s[i] in WordStarts(s, true)
  {
    WordStartsFrom(s, true, i);
  }

  lemma {:induction false} WordStartsFrom(s: string, afterSpace: bool, i: int)
    requires 0 <= i < |s| && s[i] != ' '
    requires if i == 0 then afterSpace else s[i - 1] == ' '
    ensures s[i] in WordStarts(s, afterSpace)
    decreases |s|
  {
    if i > 0 {
      WordStartsFrom(s[1..], s[0] == ' ', i - 1);
    }
  }

  /** Every character collected by the scan is a non-space character of the
      string. */
  lemma {:induction false} WordStartsAreNonSpace(s: string, afterSpace: bool)
    ensures forall c :: c in WordStarts(s, afterSpace) ==> c in s && c != ' '
    decreases |s|
  {
    if |s| > 0 {
      WordStartsAreNonSpace(s[1..], s[0] == ' ');
    }
  }

  /** `getInitials(name)`: the first character of every space-separated
      piece, upper-cased, cut to two characters. */
  function Initials(name: string): string {
    Take(UpperString(FirstChars(Split(name))), 2)
  }

  /** The initials are at most two characters, and they are the upper-cased
      word-start characters of the name, in order. */
  lemma InitialsSpec(name: string)
    ensures |Initials(name)| <= 2
    ensures Initials(name) <= UpperString(WordStarts(name, true))
    ensures |Initials(name)| == if |WordStarts(name, true)| < 2 then |WordStarts(name, true)| else 2
  {
    FirstCharsOfSplit(name);
  }

  /** A name with no space gives its own first character, upper-cased; a
      name that is empty or all spaces gives no initials. */
  lemma InitialsOfOneWord(name: string)
    requires ' ' !in name
    ensures |name| > 0 ==> Initials(name) == [Upper(name[0])]
    ensures |name| == 0 ==> Initials(name) == ""
  {
    FirstCharsOfSplit(name);
    if |name| > 0 {
      NoWordStartAfterLetter(name[1..], name);
    }
  }

  lemma {:induction false} NoWordStartAfterLetter(s: string, whole: string)
    requires ' ' !in s
    ensures WordStarts(s, false) == ""
    decreases |s|
  {
    if |s| > 0 {
      assert s[0] != ' ';
      NoWordStartAfterLetter(s[1..], whole);
    }
  }

  // ---------------------------------------------------------------------
  // decimal rendering of a count, as React renders a number

  predicate IsDigit(c: char) {
    '0' <= c <= '9'
  }

  function DigitChar(d: nat): (c: char)
    requires d < 10
    ensures IsDigit(c)
  {
    ('0' as int + d) as char
  }

  /** The decimal numeral of `n` without leading zeros. */
  function Decimal(n: nat): (r: string)
    ensures 1 <= |r|
    ensures AllDigits(r)
    ensures |r| > 1 ==> r[0] != '0'
    ensures n < 10 ==> |r| == 1
    ensures n < 100 ==> |r| <= 2
  {
    if n < 10 then [DigitChar(n)] else Decimal(n / 10) + [DigitChar(n % 10)]
  }

  /** Only digits. */
  predicate AllDigits(s: string) {
    forall i :: 0 <= i < |s| ==> IsDigit(s[i])
  }

  /** The number a digit string denotes. */
  function DecimalValue(s: string): nat
    requires AllDigits(s)
  {
    if |s| == 0 then 0
    else
      assert IsDigit(s[|s| - 1]);
      DecimalValue(s[..|s| - 1]) * 10 + (s[|s| - 1] as int - '0' as int)
  }

  /** Reading back a rendered count gives the count. */
  lemma {:induction false} DecimalRoundTrip(n: nat)
    ensures DecimalValue(Decimal(n)) == n
  {
    if n >= 10 {
      DecimalRoundTrip(n / 10);
      var r := Decimal(n);
      assert r[..|r| - 1] == Decimal(n / 10);
    }
  }
}
