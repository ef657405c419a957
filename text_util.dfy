/**
 * The handful of Kotlin/JVM string operations the macro check relies on,
 * written out over `string` (= seq<char>):
 *  - `split("\\s+".toRegex())` followed by `dropLastWhile { it.isEmpty() }`,
 *  - `split(",")`,
 *  - `trim()`, `trim { it <= ' ' }`, `isBlank()`,
 *  - `lowercase()` / `equals(other, ignoreCase = true)` restricted to ASCII,
 *  - `startsWith`, `contains("(")` / `substringBefore('(')`,
 *  - `String.hashCode()` with its 32-bit wrap-around.
 */
module TextUtil {

  // ---------------------------------------------------------------------------
  // Character classes
  // ---------------------------------------------------------------------------

  /** Java's regex class `\s` (no UNICODE_CHARACTER_CLASS flag): [ \t\n\x0B\f\r]. */
  predicate IsRegexSpace(c: char) {
    c == ' ' || c == '\t' || c == '\n' || c == '\U{000B}' || c == '\U{000C}' || c == '\r'
  }

  /**
   * Kotlin's `Char.isWhitespace()` on the JVM, which is
   * `Character.isWhitespace(c) || Character.isSpaceChar(c)`, listed code point by code point.
   */
  predicate IsWhitespace(c: char) {
    ('\t' <= c <= '\r') || ('\U{001C}' <= c <= ' ') ||
    c == '\U{00A0}' || c == '\U{1680}' || ('\U{2000}' <= c <= '\U{200A}') ||
    c == '\U{2028}' || c == '\U{2029}' || c == '\U{202F}' || c == '\U{205F}' || c == '\U{3000}'
  }

  /** The predicate of `trim { it <= ' ' }`: the space and every control character below it. */
  predicate IsAtMostSpace(c: char) {
    c <= ' '
  }

  /** The two character classes the source trims by. */
  datatype TrimClass = Whitespace | AtMostSpace

  predicate InClass(c: char, cls: TrimClass) {
    match cls
    case Whitespace => IsWhitespace(c)
    case AtMostSpace => IsAtMostSpace(c)
  }

  lemma RegexSpaceIsWhitespace(c: char)
    ensures IsRegexSpace(c) ==> IsWhitespace(c) && IsAtMostSpace(c)
  {
  }

  predicate NoRegexSpace(s: string) {
    forall k :: 0 <= k < |s| ==> !IsRegexSpace(s[k])
  }

  predicate AllRegexSpace(s: string) {
    forall k :: 0 <= k < |s| ==> IsRegexSpace(s[k])
  }

  // ---------------------------------------------------------------------------
  // Prefixes
  // ---------------------------------------------------------------------------

  /** Kotlin `s.startsWith(prefix)`. */
  predicate StartsWith(s: string, prefix: string) {
    prefix <= s
  }

  // ---------------------------------------------------------------------------
  // Trimming
  // ---------------------------------------------------------------------------

  /** Removes the longest prefix of characters of class `cls`. */
  function DropLeading(s: string, cls: TrimClass): string {
    if s != [] && InClass(s[0], cls) then DropLeading(s[1..], cls) else s
  }

  /** Removes the longest suffix of characters of class `cls`. */
  function DropTrailing(s: string, cls: TrimClass): string {
    if s != [] && InClass(s[|s| - 1], cls) then DropTrailing(s[..|s| - 1], cls) else s
  }

  /** `DropLeading` removes a prefix of class `cls` and stops at the first other character. */
  lemma {:induction false} DropLeadingShape(s: string, cls: TrimClass)
    ensures var r := DropLeading(s, cls);
            |r| <= |s| && r == s[|s| - |r|..] &&
            (forall k :: 0 <= k < |s| - |r| ==> InClass(s[k], cls)) &&
            (r == [] || !InClass(r[0], cls))
  {
    if s != [] && InClass(s[0], cls) {
      DropLeadingShape(s[1..], cls);
    }
  }

  /** `DropTrailing` removes a suffix of class `cls` and stops at the last other character. */
  lemma {:induction false} DropTrailingShape(s: string, cls: TrimClass)
    ensures var r := DropTrailing(s, cls);
            |r| <= |s| && r == s[..|r|] &&
            (forall k :: |r| <= k < |s| ==> InClass(s[k], cls)) &&
            (r == [] || !InClass(r[|r| - 1], cls))
  {
    if s != [] && InClass(s[|s| - 1], cls) {
      DropTrailingShape(s[..|s| - 1], cls);
    }
  }

  /** Kotlin `trim(predicate)`: both ends stripped of characters of class `cls`. */
  function TrimWith(s: string, cls: TrimClass): string {
    DropTrailing(DropLeading(s, cls), cls)
  }

  /**
   * What is trimmed away is a margin of class `cls` at each end, and what is left
   * neither starts nor ends with a character of that class.
   */
  lemma TrimWithShape(s: string, cls: TrimClass)
    ensures var r := TrimWith(s, cls);
            var o := |s| - |DropLeading(s, cls)|;
            (r == [] || (!InClass(r[0], cls) && !InClass(r[|r| - 1], cls))) &&
            0 <= o && o + |r| <= |s| && r == s[o..o + |r|] &&
            (forall k :: 0 <= k < o ==> InClass(s[k], cls)) &&
            (forall k :: o + |r| <= k < |s| ==> InClass(s[k], cls))
  {
    var d := DropLeading(s, cls);
    DropLeadingShape(s, cls);
    var r := DropTrailing(d, cls);
    DropTrailingShape(d, cls);
    var o := |s| - |d|;
    assert d == s[o..];
    assert r == d[..|r|];
    assert r == s[o..o + |r|];
    forall k | o + |r| <= k < |s|
      ensures InClass(s[k], cls)
    {
      assert s[k] == d[k - o];
    }
  }

  /** Kotlin `String.trim()` (drops `isWhitespace` characters at both ends). */
  function Trim(s: string): string {
    TrimWith(s, Whitespace)
  }

  /** Kotlin `String.trim { it <= ' ' }`. */
  function TrimAtMostSpace(s: string): string {
    TrimWith(s, AtMostSpace)
  }

  /** A string with no whitespace at either end, as `trim()` leaves it. */
  predicate IsTrimmed(s: string) {
    s == [] || (!IsWhitespace(s[0]) && !IsWhitespace(s[|s| - 1]))
  }

  /** Kotlin `CharSequence.isBlank()`: empty or whitespace only. */
  predicate IsBlank(s: string) {
    forall k :: 0 <= k < |s| ==> IsWhitespace(s[k])
  }

  lemma TrimIsTrimmed(s: string)
    ensures IsTrimmed(Trim(s))
  {
    TrimWithShape(s, Whitespace);
  }

  /** A trimmed string is left alone by `trim()`. */
  lemma TrimOfTrimmed(s: string)
    requires IsTrimmed(s)
    ensures Trim(s) == s
  {
  }

  /** `trim()` is idempotent. */
  lemma TrimIdempotent(s: string)
    ensures Trim(Trim(s)) == Trim(s)
  {
    TrimIsTrimmed(s);
    TrimOfTrimmed(Trim(s));
  }

  /** `s.trim().isEmpty()` exactly when `s.isBlank()`. */
  lemma TrimEmptyIffBlank(s: string)
    ensures Trim(s) == [] <==> IsBlank(s)
  {
    TrimWithShape(s, Whitespace);
    var r := Trim(s);
    var o := |s| - |DropLeading(s, Whitespace)|;
    if r != [] {
      assert s[o] == r[0];
    }
  }

  // ---------------------------------------------------------------------------
  // ASCII case folding
  // ---------------------------------------------------------------------------

  function LowerChar(c: char): char {
    if 'A' <= c <= 'Z' then (c as int + 32) as char else c
  }

  /** `lowercase()`, restricted to the ASCII letters. */
  function Lower(s: string): (r: string)
    ensures |r| == |s|
  {
    if s == [] then [] else [LowerChar(s[0])] + Lower(s[1..])
  }

  /** `Lower` works character by character. */
  lemma {:induction false} LowerAt(s: string)
    ensures forall k :: 0 <= k < |s| ==> Lower(s)[k] == LowerChar(s[k])
  {
    if s != [] {
      LowerAt(s[1..]);
    }
  }

  /** Strings of different lengths, or with one position differing after folding, differ ignoring case. */
  lemma LowerDiffers(a: string, b: string, i: nat)
    requires |a| != |b| || (i < |a| && i < |b| && LowerChar(a[i]) != LowerChar(b[i]))
    ensures Lower(a) != Lower(b)
  {
    LowerAt(a);
    LowerAt(b);
    if |a| == |b| {
      assert Lower(a)[i] != Lower(b)[i];
    }
  }

  /** `a.equals(b, ignoreCase = true)`, restricted to the ASCII letters. */
  predicate EqualsIgnoreCase(a: string, b: string) {
    Lower(a) == Lower(b)
  }

  lemma LowerEmpty(s: string)
    ensures Lower(s) == [] <==> s == []
  {
  }

  lemma LowerIdempotent(s: string)
    ensures Lower(Lower(s)) == Lower(s)
  {
    LowerAt(s);
    LowerAt(Lower(s));
  }

  /** Case-insensitive equality is an equivalence relation. */
  lemma EqualsIgnoreCaseIsEquivalence(a: string, b: string, c: string)
    ensures EqualsIgnoreCase(a, a)
    ensures EqualsIgnoreCase(a, b) ==> EqualsIgnoreCase(b, a)
    ensures EqualsIgnoreCase(a, b) && EqualsIgnoreCase(b, c) ==> EqualsIgnoreCase(a, c)
  {
  }

  // ---------------------------------------------------------------------------
  // `substringBefore('(')`
  // ---------------------------------------------------------------------------

  /** Index of the first `c` in `s`, or `|s|` when there is none. */
  function IndexOf(s: string, c: char): (i: nat)
    ensures i <= |s|
    ensures forall k :: 0 <= k < i ==> s[k] != c
    ensures i < |s| ==> s[i] == c
  {
    if s == [] then 0 else if s[0] == c then 0 else 1 + IndexOf(s[1..], c)
  }

  /** Kotlin `s.substringBefore(c)`: the part before the first `c`, or all of `s`. */
  function SubstringBefore(s: string, c: char): (r: string)
    ensures r <= s && c !in r
    ensures r == s || s[|r|] == c
  {
    s[..IndexOf(s, c)]
  }

  // ---------------------------------------------------------------------------
  // Splitting on runs of `\s`
  // ---------------------------------------------------------------------------

  /** Index of the first `\s` character of `s`, or `|s|` when there is none. */
  function FirstRegexSpace(s: string): (i: nat)
    ensures i <= |s| && NoRegexSpace(s[..i])
    ensures i < |s| ==> IsRegexSpace(s[i])
  {
    if s == [] then 0
    else if IsRegexSpace(s[0]) then 0
    else
      var i := 1 + FirstRegexSpace(s[1..]);
      assert s[..i] == [s[0]] + s[1..][..i - 1];
      i
  }

  /** Length of the run of `\s` characters at the start of `s`. */
  function LeadingRegexSpaces(s: string): (n: nat)
    ensures n <= |s| && AllRegexSpace(s[..n])
    ensures n < |s| ==> !IsRegexSpace(s[n])
  {
    if s == [] then 0
    else if !IsRegexSpace(s[0]) then 0
    else
      var n := 1 + LeadingRegexSpaces(s[1..]);
      assert s[..n] == [s[0]] + s[1..][..n - 1];
      n
  }

  /**
   * Kotlin `s.split("\\s+".toRegex())`: the pieces between the maximal runs of `\s`,
   * keeping an empty first piece (when `s` starts with `\s`) and an empty last piece
   * (when `s` ends with `\s`).
   */
  function SplitOnSpaceRuns(s: string): (parts: seq<string>)
    ensures |parts| >= 1
    decreases |s|
  {
    var i := FirstRegexSpace(s);
    if i == |s| then
      assert s[..i] == s;
      [s]
    else
      var rest := s[i..];
      var n := LeadingRegexSpaces(rest);
      assert n >= 1 by { assert rest[0] == s[i]; }
      [s[..i]] + SplitOnSpaceRuns(rest[n..])
  }

  /**
   * The pieces of `SplitOnSpaceRuns` hold no `\s`, every piece between the first and
   * the last is non-empty, and the first is non-empty unless `s` starts with `\s`.
   */
  lemma {:induction false} SplitOnSpaceRunsShape(s: string)
    ensures var parts := SplitOnSpaceRuns(s);
            (forall k :: 0 <= k < |parts| ==> NoRegexSpace(parts[k])) &&
            (forall k :: 0 < k < |parts| - 1 ==> parts[k] != []) &&
            (s != [] && !IsRegexSpace(s[0]) ==> parts[0] != [])
    decreases |s|
  {
    var i := FirstRegexSpace(s);
    if i < |s| {
      var rest := s[i..];
      var n := LeadingRegexSpaces(rest);
      var s2 := rest[n..];
      SplitOnSpaceRunsShape(s2);
      assert s2 != [] ==> s2[0] == rest[n];
    }
  }

  /** Kotlin `dropLastWhile { it.isEmpty() }`. */
  function DropTrailingEmpty(parts: seq<string>): (r: seq<string>)
    ensures r <= parts
    ensures r == [] || r[|r| - 1] != []
    ensures forall k :: |r| <= k < |parts| ==> parts[k] == []
  {
    if parts != [] && parts[|parts| - 1] == [] then DropTrailingEmpty(parts[..|parts| - 1])
    else parts
  }

  /** The token array the collector indexes into. */
  function Tokens(s: string): seq<string> {
    DropTrailingEmpty(SplitOnSpaceRuns(s))
  }

  /** Dropping trailing empties keeps every piece up to a non-empty one. */
  lemma {:induction false} DropTrailingEmptyKeeps(parts: seq<string>, k: nat)
    requires k < |parts| && parts[k] != []
    ensures |DropTrailingEmpty(parts)| > k
  {
  }

  /** A word with no `\s` in it is a single piece. */
  lemma SplitWord(w: string)
    requires NoRegexSpace(w)
    ensures SplitOnSpaceRuns(w) == [w]
  {
    var i := FirstRegexSpace(w);
  }

  /** A word, then a run of `\s`, then something that does not start with `\s`. */
  lemma {:induction false} SplitAfterWord(w: string, sp: string, rest: string)
    requires NoRegexSpace(w)
    requires sp != [] && AllRegexSpace(sp)
    requires rest == [] || !IsRegexSpace(rest[0])
    ensures SplitOnSpaceRuns(w + sp + rest) == [w] + SplitOnSpaceRuns(rest)
  {
    var s := w + sp + rest;
    var i := FirstRegexSpace(s);
    assert s[..|w|] == w;
    assert s[|w|] == sp[0];
    assert forall k :: 0 <= k < |w| ==> s[k] == w[k];
    assert i == |w|;
    var tail := s[i..];
    assert tail == sp + rest;
    var n := LeadingRegexSpaces(tail);
    assert tail[..|sp|] == sp;
    assert forall k :: 0 <= k < |sp| ==> tail[k] == sp[k];
    assert n == |sp|;
    assert tail[n..] == rest;
  }

  /** The first piece of a word followed by nothing or by `\s` is that word. */
  lemma {:induction false} FirstPiece(w: string, t: string)
    requires NoRegexSpace(w)
    requires t == [] || IsRegexSpace(t[0])
    ensures SplitOnSpaceRuns(w + t)[0] == w
  {
    if t == [] {
      assert w + t == w;
      SplitWord(w);
    } else {
      var n := LeadingRegexSpaces(t);
      assert n >= 1 by { assert IsRegexSpace(t[0]); }
      var sp, rest := t[..n], t[n..];
      assert t == sp + rest;
      assert w + t == w + sp + rest;
      assert rest == [] || !IsRegexSpace(rest[0]) by {
        if rest != [] {
          assert rest[0] == t[n];
        }
      }
      SplitAfterWord(w, sp, rest);
    }
  }

  /**
   * The first two tokens of a line `head sep name tail`, where `head` and `name` are
   * non-empty words, `sep` is a non-empty run of `\s` and `tail` is empty or starts with `\s`.
   */
  lemma {:induction false} FirstTwoTokens(head: string, sep: string, name: string, tail: string)
    requires NoRegexSpace(head)
    requires sep != [] && AllRegexSpace(sep)
    requires name != [] && NoRegexSpace(name)
    requires tail == [] || IsRegexSpace(tail[0])
    ensures var t := Tokens(head + sep + name + tail); |t| >= 2 && t[0] == head && t[1] == name
  {
    var rest := name + tail;
    var line := head + sep + rest;
    assert head + sep + name + tail == line;
    SplitAfterWord(head, sep, rest);
    var parts := SplitOnSpaceRuns(line);
    assert parts == [head] + SplitOnSpaceRuns(rest);
    FirstPiece(name, tail);
    assert parts[1] == name;
    DropTrailingEmptyKeeps(parts, 1);
    var t := DropTrailingEmpty(parts);
    assert t[0] == parts[0] && t[1] == parts[1];
  }

  /**
   * A line that is one word followed by nothing but `\s` has at most one token: the
   * word itself, if it is non-empty.
   */
  lemma {:induction false} SingleWordTokens(word: string, spaces: string)
    requires NoRegexSpace(word) && AllRegexSpace(spaces)
    ensures Tokens(word + spaces) == if word == [] then [] else [word]
  {
    if spaces == [] {
      assert word + spaces == word;
      SplitWord(word);
      assert DropTrailingEmpty([word]) == if word == [] then DropTrailingEmpty([]) else [word];
    } else {
      SplitAfterWord(word, spaces, []);
      assert word + spaces + [] == word + spaces;
      SplitWord([]);
      assert DropTrailingEmpty([word, []]) == DropTrailingEmpty([word]);
      assert DropTrailingEmpty([word]) == if word == [] then DropTrailingEmpty([]) else [word];
    }
  }

  // ---------------------------------------------------------------------------
  // Splitting on a literal delimiter
  // ---------------------------------------------------------------------------

  /** Kotlin `s.split(",")` for a one-character delimiter: every piece, empty ones included. */
  function SplitOnChar(s: string, sep: char): (parts: seq<string>)
    ensures |parts| >= 1
    ensures forall k :: 0 <= k < |parts| ==> sep !in parts[k]
    decreases |s|
  {
    var i := IndexOf(s, sep);
    if i == |s| then
      assert s[..i] == s;
      [s]
    else
      [s[..i]] + SplitOnChar(s[i + 1..], sep)
  }

  /** Joins pieces with a separator: the inverse of `SplitOnChar`. */
  function JoinWith(parts: seq<string>, sep: char): string
    requires |parts| >= 1
  {
    if |parts| == 1 then parts[0] else parts[0] + [sep] + JoinWith(parts[1..], sep)
  }

  /** Splitting on `sep` loses nothing: joining the pieces back gives the input. */
  lemma {:induction false} SplitOnCharJoin(s: string, sep: char)
    ensures JoinWith(SplitOnChar(s, sep), sep) == s
    decreases |s|
  {
    var i := IndexOf(s, sep);
    if i < |s| {
      var rest := SplitOnChar(s[i + 1..], sep);
      assert SplitOnChar(s, sep) == [s[..i]] + rest;
      assert JoinWith([s[..i]] + rest, sep) == s[..i] + [sep] + JoinWith(rest, sep) by {
        assert ([s[..i]] + rest)[0] == s[..i];
        assert ([s[..i]] + rest)[1..] == rest;
      }
      SplitOnCharJoin(s[i + 1..], sep);
      assert s == s[..i] + [sep] + s[i + 1..];
    } else {
      assert s[..i] == s;
      assert SplitOnChar(s, sep) == [s];
    }
  }

  /** Pieces free of `sep` are given back by splitting their join. */
  lemma {:induction false} JoinSplitOnChar(parts: seq<string>, sep: char)
    requires |parts| >= 1
    requires forall k :: 0 <= k < |parts| ==> sep !in parts[k]
    ensures SplitOnChar(JoinWith(parts, sep), sep) == parts
    decreases |parts|
  {
    var s := JoinWith(parts, sep);
    if |parts| == 1 {
      assert IndexOf(s, sep) == |s| by {
        assert forall k :: 0 <= k < |s| ==> s[k] in parts[0];
      }
      assert s[..|s|] == s;
    } else {
      var rest := JoinWith(parts[1..], sep);
      assert s == parts[0] + [sep] + rest;
      assert IndexOf(s, sep) == |parts[0]| by {
        assert forall k :: 0 <= k < |parts[0]| ==> s[k] == parts[0][k];
        assert s[|parts[0]|] == sep;
      }
      assert s[..|parts[0]|] == parts[0];
      assert s[|parts[0]| + 1..] == rest;
      JoinSplitOnChar(parts[1..], sep);
    }
  }

  // ---------------------------------------------------------------------------
  // `String.hashCode()`
  // ---------------------------------------------------------------------------

  /** Java's `h = 31 * h + c` over the characters, kept in [0, 2^32). */
  function HashAccumulate(s: string): (h: nat)
    ensures h < 0x1_0000_0000
  {
    if s == [] then 0
    else (31 * HashAccumulate(s[..|s| - 1]) + s[|s| - 1] as int) % 0x1_0000_0000
  }

  /** Java `String.hashCode()`: the accumulated value read as a signed 32-bit integer. */
  function JavaStringHash(s: string): (h: int)
    ensures -0x8000_0000 <= h < 0x8000_0000
  {
    var u := HashAccumulate(s);
    if u < 0x8000_0000 then u else u - 0x1_0000_0000
  }

  /** `31^e`. */
  function Pow31(e: nat): (r: nat)
    ensures r >= 1
  {
    if e == 0 then 1 else 31 * Pow31(e - 1)
  }

  /**
   * The hash as the documented sum `s[0]*31^(n-1) + s[1]*31^(n-2) + ... + s[n-1]`,
   * over unbounded integers.
   */
  function Poly(s: string): nat {
    if s == [] then 0 else s[0] as nat * Pow31(|s| - 1) + Poly(s[1..])
  }

  /** Appending a character multiplies the sum by 31 and adds the character. */
  lemma {:induction false} PolySnoc(s: string, c: char)
    ensures Poly(s + [c]) == 31 * Poly(s) + c as nat
    decreases |s|
  {
    if s == [] {
      assert s + [c] == [c];
      assert [c][1..] == [];
    } else {
      assert (s + [c])[0] == s[0];
      assert (s + [c])[1..] == s[1..] + [c];
      PolySnoc(s[1..], c);
      calc {
        Poly(s + [c]);
        s[0] as nat * Pow31(|s|) + Poly(s[1..] + [c]);
        s[0] as nat * (31 * Pow31(|s| - 1)) + (31 * Poly(s[1..]) + c as nat);
        { assert s[0] as nat * (31 * Pow31(|s| - 1)) == 31 * (s[0] as nat * Pow31(|s| - 1)); }
        31 * (s[0] as nat * Pow31(|s| - 1) + Poly(s[1..])) + c as nat;
      }
    }
  }

  /** Reducing the running value modulo 2^32 before the next step does not change the result modulo 2^32. */
  lemma HashStepMod(p: nat, c: nat)
    ensures (31 * (p % 0x1_0000_0000) + c) % 0x1_0000_0000 == (31 * p + c) % 0x1_0000_0000
  {
    var m := 0x1_0000_0000;
    var q, r := p / m, p % m;
    assert p == q * m + r;
    assert 31 * p + c == (31 * q) * m + (31 * r + c);
    ModAddMultiple(31 * q, 31 * r + c);
  }

  lemma ModAddMultiple(a: nat, b: nat)
    ensures (a * 0x1_0000_0000 + b) % 0x1_0000_0000 == b % 0x1_0000_0000
  {
    var m := 0x1_0000_0000;
    var x := a * m + b;
    assert x == (a + b / m) * m + b % m;
    assert 0 <= b % m < m;
  }

  /** The running hash is the polynomial sum reduced modulo 2^32. */
  lemma {:induction false} HashAccumulateIsPoly(s: string)
    ensures HashAccumulate(s) == Poly(s) % 0x1_0000_0000
    decreases |s|
  {
    if s != [] {
      var init, c := s[..|s| - 1], s[|s| - 1];
      assert s == init + [c];
      HashAccumulateIsPoly(init);
      PolySnoc(init, c);
      HashStepMod(Poly(init), c as nat);
    }
  }

  /**
   * `String.hashCode()` is the polynomial sum wrapped to a signed 32-bit integer:
   * the one value in range that agrees with the sum modulo 2^32.
   */
  lemma JavaStringHashIsWrappedPoly(s: string)
    ensures -0x8000_0000 <= JavaStringHash(s) < 0x8000_0000
    ensures JavaStringHash(s) % 0x1_0000_0000 == Poly(s) % 0x1_0000_0000
  {
    HashAccumulateIsPoly(s);
  }
}
