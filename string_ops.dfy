/**
 * The Python `str` operations the core relies on, written out over `seq<char>`:
 * `isspace`/`strip`, `lower`, `in`, `startswith`, `split`, `join`, `replace`
 * and `rsplit(c, 1)[0]`. Whitespace and case are the ASCII ones.
 */
module StringOps {

  // ---------------------------------------------------------------- whitespace

  /** `c.isspace()` for ASCII characters: space, \t \n \v \f \r and \x1c..\x1f. */
  predicate IsSpace(c: char) {
    c == ' ' || ('\t' <= c <= '\r') || ('\U{1C}' <= c <= '\U{1F}')
  }

  /** No leading and no trailing whitespace. */
  predicate IsStripped(s: string) {
    s == [] || (!IsSpace(s[0]) && !IsSpace(s[|s| - 1]))
  }

  /** `s.lstrip()`: the suffix left after the maximal run of leading whitespace. */
  function TrimStart(s: string): (r: string)
    ensures |r| <= |s|
    ensures r == [] || !IsSpace(r[0])
    ensures forall i :: 0 <= i < |s| - |r| ==> IsSpace(s[i])
    decreases |s|
  {
    if |s| > 0 && IsSpace(s[0]) then TrimStart(s[1..]) else s
  }

  /** `s.rstrip()`: the prefix left after the maximal run of trailing whitespace. */
  function TrimEnd(s: string): (r: string)
    ensures |r| <= |s|
    ensures r == [] || !IsSpace(r[|r| - 1])
    ensures forall i :: |r| <= i < |s| ==> IsSpace(s[i])
    decreases |s|
  {
    if |s| > 0 && IsSpace(s[|s| - 1]) then TrimEnd(s[..|s| - 1]) else s
  }

  /** What `lstrip` leaves is a suffix of the text. */
  lemma {:induction false} TrimStartSuffix(s: string)
    ensures TrimStart(s) == s[|s| - |TrimStart(s)|..]
    decreases |s|
  {
    if |s| > 0 && IsSpace(s[0]) {
      TrimStartSuffix(s[1..]);
      assert s[1..][|s| - 1 - |TrimStart(s)|..] == s[|s| - |TrimStart(s)|..];
    }
  }

  /** What `rstrip` leaves is a prefix of the text. */
  lemma {:induction false} TrimEndPrefix(s: string)
    ensures TrimEnd(s) == s[..|TrimEnd(s)|]
    decreases |s|
  {
    if |s| > 0 && IsSpace(s[|s| - 1]) {
      TrimEndPrefix(s[..|s| - 1]);
      assert s[..|s| - 1][..|TrimEnd(s)|] == s[..|TrimEnd(s)|];
    }
  }

  /** `s.strip()`. */
  function Strip(s: string): (r: string)
    ensures IsStripped(r) && |r| <= |s|
  {
    TrimEndPrefix(TrimStart(s));
    TrimEnd(TrimStart(s))
  }

  /** A string that starts with a non-space character loses only trailing whitespace. */
  lemma StripNonSpaceStart(s: string)
    requires s != [] && !IsSpace(s[0])
    ensures Strip(s) == TrimEnd(s) && Strip(s) == s[..|Strip(s)|]
    ensures Strip(s) != [] && Strip(s)[0] == s[0]
  {
    TrimEndPrefix(s);
  }

  /** Stripping an already stripped string changes nothing. */
  lemma StripStripped(s: string)
    requires IsStripped(s)
    ensures Strip(s) == s
  {
  }

  /** Trailing whitespace is absorbed by `rstrip`. */
  lemma {:induction false} TrimEndSpaces(x: string, w: string)
    requires forall i :: 0 <= i < |w| ==> IsSpace(w[i])
    ensures TrimEnd(x + w) == TrimEnd(x)
    decreases |w|
  {
    if w != [] {
      assert (x + w)[..|x + w| - 1] == x + w[..|w| - 1];
      TrimEndSpaces(x, w[..|w| - 1]);
    } else {
      assert x + w == x;
    }
  }

  /** A character that occurs in the stripped string occurs in the original. */
  lemma StripKeepsChars(s: string, c: char)
    requires c !in s
    ensures c !in Strip(s)
  {
    var t := TrimStart(s);
    TrimStartSuffix(s);
    TrimEndPrefix(t);
  }

  /** Stripping yields a contiguous part of the text. */
  lemma StripIsInfix(s: string) returns (lo: nat)
    ensures lo + |Strip(s)| <= |s| && Strip(s) == s[lo..lo + |Strip(s)|]
  {
    var t := TrimStart(s);
    lo := |s| - |t|;
    var r := TrimEnd(t);
    TrimStartSuffix(s);
    TrimEndPrefix(t);
    assert s[lo..][..|r|] == s[lo..lo + |r|];
  }

  /** A pattern absent from a text is absent from the text stripped. */
  lemma StripKeepsOut(s: string, t: string)
    requires !Contains(s, t)
    ensures !Contains(Strip(s), t)
  {
    var lo := StripIsInfix(s);
    var r := Strip(s);
    if Contains(r, t) {
      ContainsInfix(s, lo, lo + |r|, t);
    }
  }

  /** A leading whitespace character is stripped away. */
  lemma TrimStartSpace(c: char, s: string)
    requires IsSpace(c)
    ensures TrimStart([c] + s) == TrimStart(s) && Strip([c] + s) == Strip(s)
  {
    assert ([c] + s)[1..] == s;
  }

  // ---------------------------------------------------------------- case

  /** ASCII `lower()` of one character. */
  function LowerChar(c: char): char {
    if 'A' <= c <= 'Z' then (c as int + 32) as char else c
  }

  /** ASCII `upper()` of one character. */
  function UpperChar(c: char): char {
    if 'a' <= c <= 'z' then (c as int - 32) as char else c
  }

  /** `s.lower()`, restricted to the ASCII letters. */
  function Lower(s: string): (r: string)
    ensures |r| == |s|
  {
    seq(|s|, i requires 0 <= i < |s| => LowerChar(s[i]))
  }

  /** `s.upper()`, restricted to the ASCII letters. */
  function Upper(s: string): (r: string)
    ensures |r| == |s|
  {
    seq(|s|, i requires 0 <= i < |s| => UpperChar(s[i]))
  }

  lemma LowerAppend(a: string, b: string)
    ensures Lower(a + b) == Lower(a) + Lower(b)
  {
    assert forall i :: 0 <= i < |a + b| ==> Lower(a + b)[i] == (Lower(a) + Lower(b))[i];
  }

  lemma LowerPrefix(s: string, k: nat)
    requires k <= |s|
    ensures Lower(s[..k]) == Lower(s)[..k]
  {
  }

  /** Lower-casing ignores the case the text was written in. */
  lemma LowerUpper(s: string)
    ensures Lower(Upper(s)) == Lower(s) && Lower(Lower(s)) == Lower(s)
  {
    assert forall i :: 0 <= i < |s| ==> Lower(Upper(s))[i] == Lower(s)[i];
  }

  // ---------------------------------------------------------------- substrings

  /** Python's `t in s`: `t` occurs in `s` at some position. */
  predicate Contains(s: string, t: string)
    decreases |s|
  {
    |t| <= |s| && (s[..|t|] == t || (|s| > 0 && Contains(s[1..], t)))
  }

  /** An occurrence at position `i` is an occurrence. */
  lemma {:induction false} ContainsAt(s: string, t: string, i: nat)
    requires i + |t| <= |s| && s[i..i + |t|] == t
    ensures Contains(s, t)
    decreases i
  {
    if i > 0 {
      assert s[1..][i - 1..i - 1 + |t|] == s[i..i + |t|];
      ContainsAt(s[1..], t, i - 1);
    }
  }

  /** Every occurrence sits at some position. */
  lemma {:induction false} ContainsWitness(s: string, t: string) returns (i: nat)
    requires Contains(s, t)
    ensures i + |t| <= |s| && s[i..i + |t|] == t
    decreases |s|
  {
    if s[..|t|] == t {
      i := 0;
    } else {
      var j := ContainsWitness(s[1..], t);
      assert s[1..][j..j + |t|] == s[j + 1..j + 1 + |t|];
      i := j + 1;
    }
  }

  /** An occurrence in a part of a string is an occurrence in the whole. */
  lemma ContainsInfix(s: string, lo: nat, hi: nat, t: string)
    requires lo <= hi <= |s| && Contains(s[lo..hi], t)
    ensures Contains(s, t)
  {
    var j := ContainsWitness(s[lo..hi], t);
    forall k | 0 <= k < |t|
      ensures s[lo + j + k] == t[k]
    {
      assert s[lo..hi][j..j + |t|][k] == t[k];
    }
    assert s[lo + j..lo + j + |t|] == t;
    ContainsAt(s, t, lo + j);
  }

  lemma ContainsAppend(a: string, b: string, t: string)
    requires Contains(a, t) || Contains(b, t)
    ensures Contains(a + b, t)
  {
    if Contains(a, t) {
      assert (a + b)[0..|a|] == a;
      ContainsInfix(a + b, 0, |a|, t);
    } else {
      assert (a + b)[|a|..|a + b|] == b;
      ContainsInfix(a + b, |a|, |a + b|, t);
    }
  }

  /** A one-character pattern occurs exactly when that character does. */
  lemma {:induction false} ContainsChar(s: string, c: char)
    ensures Contains(s, [c]) <==> c in s
    decreases |s|
  {
    if |s| > 0 {
      ContainsChar(s[1..], c);
      assert s == [s[0]] + s[1..];
    }
  }

  /** A pattern holding a character the text lacks cannot occur in it. */
  lemma {:induction false} MissingCharNotContained(s: string, t: string, c: char)
    requires c in t && c !in s
    ensures !Contains(s, t)
    decreases |s|
  {
    if |t| <= |s| {
      assert s[..|t|] != t;
      if |s| > 0 {
        MissingCharNotContained(s[1..], t, c);
      }
    }
  }

  /**
   * Appending a character cannot create an occurrence of a pattern that
   * ends in another character.
   */
  lemma {:induction false} ContainsAppendChar(x: string, c: char, t: string)
    requires t != [] && t[|t| - 1] != c
    requires Contains(x + [c], t)
    ensures Contains(x, t)
    decreases |x|
  {
    var s := x + [c];
    if s[..|t|] == t {
      assert |t| <= |x|;
      assert x[..|t|] == t;
    } else {
      assert |x| > 0;
      assert s[1..] == x[1..] + [c];
      ContainsAppendChar(x[1..], c, t);
      assert x[1..|x|] == x[1..];
      ContainsInfix(x, 1, |x|, t);
    }
  }

  /** Python's `any(n in s for n in needles)`. */
  predicate ContainsAny(s: string, needles: seq<string>)
    ensures ContainsAny(s, needles) <==> exists k :: 0 <= k < |needles| && Contains(s, needles[k])
  {
    |needles| > 0 && (Contains(s, needles[0]) || ContainsAny(s, needles[1..]))
  }

  /** `s.startswith(p)`. */
  predicate StartsWith(s: string, p: string) {
    |p| <= |s| && s[..|p|] == p
  }

  // ---------------------------------------------------------------- split / join

  /**
   * `s.split(sep)` for a non-empty separator: scanning left to right, every
   * non-overlapping occurrence of `sep` ends one piece and starts the next.
   */
  function Split(s: string, sep: string): (parts: seq<string>)
    requires sep != []
    ensures |parts| >= 1 && |parts[0]| <= |s|
    decreases |s|
  {
    if |s| < |sep| then [s]
    else if s[..|sep|] == sep then [[]] + Split(s[|sep|..], sep)
    else
      var rest := Split(s[1..], sep);
      [[s[0]] + rest[0]] + rest[1..]
  }

  /** `sep.join(parts)`. */
  function Join(parts: seq<string>, sep: string): string {
    if |parts| == 0 then []
    else if |parts| == 1 then parts[0]
    else parts[0] + sep + Join(parts[1..], sep)
  }

  /** The first piece of a split is a prefix of the text. */
  lemma {:induction false} SplitHeadPrefix(s: string, sep: string)
    requires sep != []
    ensures Split(s, sep)[0] == s[..|Split(s, sep)[0]|]
    decreases |s|
  {
    if |s| >= |sep| && s[..|sep|] != sep {
      var rest := Split(s[1..], sep);
      SplitHeadPrefix(s[1..], sep);
      var head := Split(s, sep)[0];
      assert head == [s[0]] + rest[0];
      assert rest[0] == s[1..1 + |rest[0]|];
      assert s[..|head|] == [s[0]] + s[1..1 + |rest[0]|];
    }
  }

  /** No piece of `s.split(sep)` contains the separator. */
  lemma {:induction false} SplitPiecesFree(s: string, sep: string)
    requires sep != []
    ensures forall p :: p in Split(s, sep) ==> !Contains(p, sep)
    decreases |s|
  {
    if |s| < |sep| {
    } else if s[..|sep|] == sep {
      SplitPiecesFree(s[|sep|..], sep);
    } else {
      var rest := Split(s[1..], sep);
      SplitPiecesFree(s[1..], sep);
      SplitHeadPrefix(s[1..], sep);
      var first := [s[0]] + rest[0];
      assert first == Split(s, sep)[0];
      if |sep| <= |first| {
        assert first[..|sep|] == s[..|sep|];
      }
      assert first[1..] == rest[0];
      assert forall p :: p in rest[1..] ==> p in rest;
    }
  }

  /** Joining a list that starts with a new piece puts the piece and a separator in front. */
  lemma JoinFront(x: string, parts: seq<string>, sep: string)
    requires |parts| >= 1
    ensures Join([x] + parts, sep) == x + sep + Join(parts, sep)
  {
    assert ([x] + parts)[1..] == parts;
  }

  /** Growing the first piece by one character grows the joined text by it. */
  lemma JoinGrowHead(c: char, parts: seq<string>, sep: string)
    requires |parts| >= 1
    ensures Join([[c] + parts[0]] + parts[1..], sep) == [c] + Join(parts, sep)
  {
    var grown := [[c] + parts[0]] + parts[1..];
    if |parts| > 1 {
      assert grown[1..] == parts[1..];
    }
  }

  /** Joining a list with one more piece at the end puts a separator and the piece behind. */
  lemma {:induction false} JoinSnoc(parts: seq<string>, x: string, sep: string)
    requires |parts| >= 1
    ensures Join(parts + [x], sep) == Join(parts, sep) + sep + x
    decreases |parts|
  {
    if |parts| == 1 {
      assert (parts + [x])[1..] == [x];
    } else {
      assert (parts + [x])[1..] == parts[1..] + [x];
      JoinSnoc(parts[1..], x, sep);
    }
  }

  /** A join starts where its first piece starts. */
  lemma JoinFirstChar(chunks: seq<string>, sep: string)
    requires |chunks| >= 1 && chunks[0] != []
    ensures var j := Join(chunks, sep); j != [] && j[0] == chunks[0][0]
  {
  }

  /** A join ends where its last piece ends. */
  lemma JoinLastChar(chunks: seq<string>, sep: string)
    requires |chunks| >= 1 && chunks[|chunks| - 1] != []
    ensures var j := Join(chunks, sep); var last := chunks[|chunks| - 1];
      j != [] && j[|j| - 1] == last[|last| - 1]
  {
    var n := |chunks| - 1;
    if n > 0 {
      JoinSnoc(chunks[..n], chunks[n], sep);
      assert chunks[..n] + [chunks[n]] == chunks;
    }
  }

  /** Splitting and joining with the same separator gives the text back. */
  lemma {:induction false} JoinSplit(s: string, sep: string)
    requires sep != []
    ensures Join(Split(s, sep), sep) == s
    decreases |s|
  {
    if |s| < |sep| {
    } else if s[..|sep|] == sep {
      var rest := Split(s[|sep|..], sep);
      assert Split(s, sep) == [[]] + rest;
      JoinSplit(s[|sep|..], sep);
      JoinFront([], rest, sep);
      assert s == sep + s[|sep|..];
    } else {
      var rest := Split(s[1..], sep);
      assert Split(s, sep) == [[s[0]] + rest[0]] + rest[1..];
      JoinSplit(s[1..], sep);
      JoinGrowHead(s[0], rest, sep);
      assert s == [s[0]] + s[1..];
    }
  }

  /** Text without the separator is one piece. */
  lemma SplitNoSeparator(s: string, sep: string)
    requires sep != [] && !Contains(s, sep)
    ensures Split(s, sep) == [s]
  {
    SplitPiecesFree(s, sep);
    JoinSplit(s, sep);
    var parts := Split(s, sep);
    if |parts| > 1 {
      assert s == parts[0] + sep + Join(parts[1..], sep);
      assert s[|parts[0]|..|parts[0]| + |sep|] == sep;
      ContainsAt(s, sep, |parts[0]|);
    }
  }

  /** A piece free of a one-character separator, followed by it, is split off whole. */
  lemma {:induction false} SplitAfterPiece(a: string, c: char, b: string)
    requires c !in a
    ensures Split(a + [c] + b, [c]) == [a] + Split(b, [c])
    decreases |a|
  {
    var s := a + [c] + b;
    if a == [] {
      assert s[..1] == [c] && s[1..] == b;
    } else {
      assert s[0] == a[0] && a[0] != c;
      assert s[..1] != [c];
      assert s[1..] == a[1..] + [c] + b;
      SplitAfterPiece(a[1..], c, b);
      assert [s[0]] + a[1..] == a;
    }
  }

  /** Joining pieces free of a one-character separator and splitting again gives the pieces back. */
  lemma {:induction false} SplitJoin(parts: seq<string>, c: char)
    requires |parts| >= 1
    requires forall k :: 0 <= k < |parts| ==> c !in parts[k]
    ensures Split(Join(parts, [c]), [c]) == parts
    decreases |parts|
  {
    if |parts| == 1 {
      ContainsChar(parts[0], c);
      SplitNoSeparator(parts[0], [c]);
    } else {
      SplitJoin(parts[1..], c);
      SplitAfterPiece(parts[0], c, Join(parts[1..], [c]));
      assert parts == [parts[0]] + parts[1..];
    }
  }

  /**
   * When the first character of `sep` does not recur in it, occurrences of
   * `sep` cannot overlap, and the last piece of the split is exactly the text
   * after the last occurrence.
   */
  lemma {:induction false} SplitLastPiece(p: string, sep: string, rest: string)
    requires sep != [] && forall j :: 0 < j < |sep| ==> sep[j] != sep[0]
    requires !Contains(rest, sep)
    ensures |Split(p + sep + rest, sep)| >= 2
    ensures Split(p + sep + rest, sep)[|Split(p + sep + rest, sep)| - 1] == rest
    decreases |p|
  {
    var s := p + sep + rest;
    if p == [] {
      assert s[..|sep|] == sep && s[|sep|..] == rest;
      SplitNoSeparator(rest, sep);
    } else if s[..|sep|] == sep {
      // an occurrence at 0 overlapping the one at |p| would repeat sep[0] inside sep
      assert forall j :: 1 <= j < |sep| ==> s[j] != sep[0];
      assert s[|p|] == sep[0];
      assert s[|sep|..] == p[|sep|..] + sep + rest;
      SplitLastPiece(p[|sep|..], sep, rest);
    } else {
      assert s[1..] == p[1..] + sep + rest;
      SplitLastPiece(p[1..], sep, rest);
    }
  }

  // ---------------------------------------------------------------- replace

  /** `s.replace(target, repl)`: every non-overlapping occurrence, left to right. */
  function Replace(s: string, target: string, repl: string): string
    requires target != []
    decreases |s|
  {
    if |s| < |target| then s
    else if s[..|target|] == target then repl + Replace(s[|target|..], target, repl)
    else [s[0]] + Replace(s[1..], target, repl)
  }

  /** Text without the pattern is left as it is. */
  lemma {:induction false} ReplaceAbsent(s: string, target: string, repl: string)
    requires target != [] && !Contains(s, target)
    ensures Replace(s, target, repl) == s
    decreases |s|
  {
    if |s| >= |target| {
      ReplaceAbsent(s[1..], target, repl);
    }
  }

  /** Replacing a pattern by one that starts alike keeps the first character. */
  lemma ReplaceKeepsHead(s: string, target: string, repl: string)
    requires target != [] && repl != [] && repl[0] == target[0] && s != []
    ensures Replace(s, target, repl) != [] && Replace(s, target, repl)[0] == s[0]
  {
  }

  /** Replacement introduces no character that neither the text nor the replacement has. */
  lemma {:induction false} ReplaceKeepsOut(s: string, target: string, repl: string, c: char)
    requires target != [] && c !in s && c !in repl
    ensures c !in Replace(s, target, repl)
    decreases |s|
  {
    if |s| < |target| {
    } else if s[..|target|] == target {
      ReplaceKeepsOut(s[|target|..], target, repl, c);
    } else {
      ReplaceKeepsOut(s[1..], target, repl, c);
    }
  }

  // ---------------------------------------------------------------- rsplit

  /** `s.rsplit(c, 1)[0]`: the text before the last `c`, or all of `s` when there is none. */
  function BeforeLast(s: string, c: char): (r: string)
    ensures c !in s ==> r == s
    ensures c in s ==> |r| < |s| && r == s[..|r|] && s[|r|] == c && c !in s[|r| + 1..]
  {
    if c !in s then s
    else if s[|s| - 1] == c then s[..|s| - 1]
    else
      assert c in s[..|s| - 1] by { assert s == s[..|s| - 1] + [s[|s| - 1]]; }
      BeforeLast(s[..|s| - 1], c)
  }
}
