/** The few Python `str` operations the analyzer relies on, with the
    semantics CPython gives them: `isspace`, `strip`/`lstrip`/`rstrip`,
    `lstrip(chars)`, `startswith`, `in`, `lower`, `replace`, `split` on one
    separator character and `join`. */
module Text {

  /** `str.isspace()` for one character: the characters CPython treats as
      whitespace when `strip()` is called without arguments. */
  predicate IsSpace(c: char) {
    || c == ' '
    || ('\t' <= c <= '\r')
    || ('\U{1C}' <= c <= '\U{1F}')
    || c == '\U{85}' || c == '\U{A0}' || c == '\U{1680}'
    || ('\U{2000}' <= c <= '\U{200A}')
    || c == '\U{2028}' || c == '\U{2029}' || c == '\U{202F}'
    || c == '\U{205F}' || c == '\U{3000}'
  }

  /** `s.lstrip()`: `s` without its leading whitespace. */
  function LStrip(s: string): (r: string)
    ensures |r| <= |s|
    ensures r == [] || !IsSpace(r[0])
    decreases |s|
  {
    if |s| > 0 && IsSpace(s[0]) then LStrip(s[1..]) else s
  }

  /** `s.rstrip()`: `s` without its trailing whitespace. */
  function RStrip(s: string): (r: string)
    ensures |r| <= |s|
    ensures r == [] || !IsSpace(r[|r| - 1])
    ensures r == [] || r[0] == s[0]
    decreases |s|
  {
    if |s| > 0 && IsSpace(s[|s| - 1]) then RStrip(s[..|s| - 1]) else s
  }

  /** `s.strip()`: whitespace removed at both ends. */
  function Strip(s: string): (r: string)
    ensures |r| <= |s|
    ensures r == [] || (!IsSpace(r[0]) && !IsSpace(r[|r| - 1]))
    decreases |s|
  {
    if |s| > 0 && IsSpace(s[0]) then Strip(s[1..])
    else if |s| > 0 && IsSpace(s[|s| - 1]) then Strip(s[..|s| - 1])
    else s
  }

  /** `lstrip()` keeps a suffix and removes only whitespace. */
  lemma {:induction false} LStripSuffix(s: string)
    ensures LStrip(s) == s[|s| - |LStrip(s)|..]
    ensures forall i :: 0 <= i < |s| - |LStrip(s)| ==> IsSpace(s[i])
    decreases |s|
  {
    if |s| > 0 && IsSpace(s[0]) {
      LStripSuffix(s[1..]);
    }
  }

  /** `rstrip()` keeps a prefix and removes only whitespace. */
  lemma {:induction false} RStripPrefix(s: string)
    ensures RStrip(s) == s[..|RStrip(s)|]
    ensures forall i :: |RStrip(s)| <= i < |s| ==> IsSpace(s[i])
    decreases |s|
  {
    if |s| > 0 && IsSpace(s[|s| - 1]) {
      RStripPrefix(s[..|s| - 1]);
    }
  }

  /** `strip()` is `lstrip()` followed by `rstrip()`. */
  lemma {:induction false} StripIsBoth(s: string)
    ensures Strip(s) == RStrip(LStrip(s))
    decreases |s|
  {
    if |s| > 0 && IsSpace(s[0]) {
      StripIsBoth(s[1..]);
    } else if |s| > 0 && IsSpace(s[|s| - 1]) {
      StripIsBoth(s[..|s| - 1]);
      assert LStrip(s[..|s| - 1]) == s[..|s| - 1];
    }
  }

  /** `strip()` keeps a contiguous piece of `s`. */
  lemma StripIsSlice(s: string)
    ensures exists i :: OccursAt(s, Strip(s), i)
  {
    var l := LStrip(s);
    var r := RStrip(l);
    StripIsBoth(s);
    LStripSuffix(s);
    RStripPrefix(l);
    var off := |s| - |l|;
    assert s[off..off + |r|] == l[..|r|];
    assert OccursAt(s, Strip(s), off);
  }

  /** `strip()` is empty exactly when `s` is all whitespace. */
  lemma {:induction false} StripEmpty(s: string)
    ensures Strip(s) == [] <==> forall i :: 0 <= i < |s| ==> IsSpace(s[i])
    decreases |s|
  {
    if |s| > 0 && IsSpace(s[0]) {
      StripEmpty(s[1..]);
      assert forall i :: 1 <= i < |s| ==> s[i] == s[1..][i - 1];
    } else if |s| > 0 && IsSpace(s[|s| - 1]) {
      StripEmpty(s[..|s| - 1]);
      assert forall i :: 0 <= i < |s| - 1 ==> s[i] == s[..|s| - 1][i];
    }
  }

  /** `s.lstrip(chars)`: leading characters that occur in `chars` removed. */
  function LStripChars(s: string, chars: string): (r: string)
    ensures |r| <= |s|
    ensures r == [] || r[0] !in chars
    decreases |s|
  {
    if |s| > 0 && s[0] in chars then LStripChars(s[1..], chars) else s
  }

  /** `lstrip(chars)` keeps a suffix and removes only characters of `chars`. */
  lemma {:induction false} LStripCharsSuffix(s: string, chars: string)
    ensures LStripChars(s, chars) == s[|s| - |LStripChars(s, chars)|..]
    ensures forall i :: 0 <= i < |s| - |LStripChars(s, chars)| ==> s[i] in chars
    decreases |s|
  {
    if |s| > 0 && s[0] in chars {
      LStripCharsSuffix(s[1..], chars);
    }
  }

  /** `s.startswith(p)`. */
  predicate StartsWith(s: string, p: string) {
    |p| <= |s| && s[..|p|] == p
  }

  /** `p` occurs in `s` starting at index `i`. */
  predicate OccursAt(s: string, p: string, i: int) {
    0 <= i <= |s| - |p| && s[i..i + |p|] == p
  }

  /** `p in s` for strings: `p` occurs in `s` as a contiguous piece. */
  predicate Contains(s: string, p: string)
    decreases |s|
  {
    StartsWith(s, p) || (|s| > 0 && Contains(s[1..], p))
  }

  /** `Contains` means what it says: some slice of `s` equals `p`. */
  lemma {:induction false} ContainsAt(s: string, p: string)
    ensures Contains(s, p) <==> exists i :: OccursAt(s, p, i)
    decreases |s|
  {
    if StartsWith(s, p) {
      assert OccursAt(s, p, 0);
    } else if |s| > 0 {
      ContainsAt(s[1..], p);
      if Contains(s[1..], p) {
        var i :| OccursAt(s[1..], p, i);
        assert s[1..][i..i + |p|] == s[i + 1..i + 1 + |p|];
        assert OccursAt(s, p, i + 1);
      }
      if exists i :: OccursAt(s, p, i) {
        var i :| OccursAt(s, p, i);
        assert i != 0;
        assert s[1..][i - 1..i - 1 + |p|] == s[i..i + |p|];
        assert OccursAt(s[1..], p, i - 1);
      }
    }
  }

  /** A piece found in `b` is found in `a + b + c`. */
  lemma ContainsInside(a: string, b: string, c: string, p: string)
    requires Contains(b, p)
    ensures Contains(a + b + c, p)
  {
    ContainsAt(b, p);
    var i :| OccursAt(b, p, i);
    assert (a + b + c)[|a| + i..|a| + i + |p|] == b[i..i + |p|];
    assert OccursAt(a + b + c, p, |a| + i);
    ContainsAt(a + b + c, p);
  }

  /** A piece whose first character does not occur in `s` is not in `s`. */
  lemma {:induction false} NoFirstChar(s: string, p: string)
    requires |p| > 0 && p[0] !in s
    ensures !Contains(s, p)
    decreases |s|
  {
    if |s| > 0 {
      assert s[0] != p[0];
      NoFirstChar(s[1..], p);
    }
  }

  /** A piece none of whose characters is in `t` is found in `a + t + b`
      exactly when it is found in `a` or in `b`. */
  lemma CutAt(a: string, t: string, b: string, p: string)
    requires |p| > 0 && |t| > 0
    requires forall i :: 0 <= i < |t| ==> t[i] !in p
    ensures Contains(a + t + b, p) <==> Contains(a, p) || Contains(b, p)
  {
    var s := a + t + b;
    if Contains(a, p) {
      assert s[0..|a|] == a;
      ContainsWithin(s, a, p, 0);
    }
    if Contains(b, p) {
      assert s[|a| + |t|..|a| + |t| + |b|] == b;
      ContainsWithin(s, b, p, |a| + |t|);
    }
    if Contains(s, p) {
      CutAtFound(a, t, b, p);
    }
  }

  /** A piece found in a part of `s` is found in `s`. */
  lemma ContainsWithin(s: string, part: string, p: string, lo: int)
    requires 0 <= lo && lo + |part| <= |s| && s[lo..lo + |part|] == part
    requires Contains(part, p)
    ensures Contains(s, p)
  {
    ContainsAt(part, p);
    var i :| OccursAt(part, p, i);
    forall k | 0 <= k < |p|
      ensures s[lo + i + k] == p[k]
    {
      assert s[lo + i + k] == s[lo..lo + |part|][i + k] == part[i + k];
      assert part[i + k] == part[i..i + |p|][k];
    }
    assert s[lo + i..lo + i + |p|] == p;
    assert OccursAt(s, p, lo + i);
    ContainsAt(s, p);
  }

  lemma CutAtFound(a: string, t: string, b: string, p: string)
    requires |p| > 0 && |t| > 0
    requires forall i :: 0 <= i < |t| ==> t[i] !in p
    requires Contains(a + t + b, p)
    ensures Contains(a, p) || Contains(b, p)
  {
    var s := a + t + b;
    ContainsAt(s, p);
    var i :| OccursAt(s, p, i);
    Outside(a, t, b, p, i);
    if i + |p| <= |a| {
      OccursInPart(s, a, p, i, 0);
      ContainsAt(a, p);
    } else {
      OccursInPart(s, b, p, i, |a| + |t|);
      ContainsAt(b, p);
    }
  }

  /** An occurrence inside the part `s[lo..lo + |part|]` of `s` is an
      occurrence in that part. */
  lemma OccursInPart(s: string, part: string, p: string, i: int, lo: int)
    requires 0 <= lo && lo + |part| <= |s| && s[lo..lo + |part|] == part
    requires OccursAt(s, p, i) && lo <= i && i + |p| <= lo + |part|
    ensures OccursAt(part, p, i - lo)
  {
    forall k | 0 <= k < |p|
      ensures part[i - lo + k] == p[k]
    {
      assert part[i - lo + k] == s[lo..lo + |part|][i - lo + k] == s[i + k];
      assert s[i + k] == s[i..i + |p|][k];
    }
    assert part[i - lo..i - lo + |p|] == p;
  }

  /** An occurrence of `p` in `a + t + b` lies wholly before `t`, wholly
      after it, or shares a character with it. */
  lemma Outside(a: string, t: string, b: string, p: string, i: int)
    requires |p| > 0 && |t| > 0 && OccursAt(a + t + b, p, i)
    ensures i + |p| <= |a| || i >= |a| + |t| || exists k :: 0 <= k < |t| && t[k] in p
  {
    var s := a + t + b;
    if i + |p| > |a| && i < |a| + |t| {
      var j := if i < |a| then |a| else i;
      assert s[j] == t[j - |a|];
      assert s[j] == s[i..i + |p|][j - i];
      assert t[j - |a|] == p[j - i];
    }
  }

  /** ASCII case folding of one character. */
  function LowerChar(c: char): char {
    if 'A' <= c <= 'Z' then (c as int - 'A' as int + 'a' as int) as char else c
  }

  /** `s.lower()` restricted to ASCII letters. */
  function Lower(s: string): (r: string)
    ensures |r| == |s|
  {
    seq(|s|, i requires 0 <= i < |s| => LowerChar(s[i]))
  }

  /** `s.replace(pat, sub)`: every non-overlapping occurrence of `pat`,
      scanning left to right, replaced by `sub`. */
  function Replace(s: string, pat: string, sub: string): string
    requires |pat| > 0
    decreases |s|
  {
    if |s| < |pat| then s
    else if s[..|pat|] == pat then sub + Replace(s[|pat|..], pat, sub)
    else [s[0]] + Replace(s[1..], pat, sub)
  }

  /** Replacing a piece by itself changes nothing. */
  lemma {:induction false} ReplaceByItself(s: string, p: string)
    requires |p| > 0
    ensures Replace(s, p, p) == s
    decreases |s|
  {
    if |s| >= |p| {
      if s[..|p|] == p {
        ReplaceByItself(s[|p|..], p);
        assert s == s[..|p|] + s[|p|..];
      } else {
        ReplaceByItself(s[1..], p);
        assert s == [s[0]] + s[1..];
      }
    }
  }

  /** `Replace` introduces no character that is neither in `s` nor in `sub`. */
  lemma {:induction false} ReplaceKeepsOut(s: string, pat: string, sub: string, c: char)
    requires |pat| > 0 && c !in s && c !in sub
    ensures c !in Replace(s, pat, sub)
    decreases |s|
  {
    if |s| >= |pat| {
      if s[..|pat|] == pat {
        ReplaceKeepsOut(s[|pat|..], pat, sub, c);
      } else {
        ReplaceKeepsOut(s[1..], pat, sub, c);
      }
    }
  }

  /** A stretch without the (one-character) pattern passes through unchanged. */
  lemma {:induction false} ReplaceSkip(a: string, rest: string, c: char, sub: string)
    requires c !in a
    ensures Replace(a + rest, [c], sub) == a + Replace(rest, [c], sub)
    decreases |a|
  {
    if a != [] {
      var s := a + rest;
      assert a[0] in a;
      assert s[..|[c]|] == [a[0]] != [c];
      assert Replace(s, [c], sub) == [s[0]] + Replace(s[1..], [c], sub);
      assert s[1..] == a[1..] + rest;
      ReplaceSkip(a[1..], rest, c, sub);
      var tail := Replace(rest, [c], sub);
      assert [s[0]] + (a[1..] + tail) == a + tail;
    } else {
      assert a + rest == rest;
    }
  }

  /** The only occurrence of a one-character pattern is replaced. */
  lemma ReplaceSingle(a: string, b: string, c: char, sub: string)
    requires c !in a && c !in b
    ensures Replace(a + [c] + b, [c], sub) == a + sub + b
  {
    assert a + [c] + b == a + ([c] + b);
    ReplaceSkip(a, [c] + b, c, sub);
    var s := [c] + b;
    assert s[..1] == [c] && s[1..] == b;
    ReplaceSkip(b, [], c, sub);
    assert b + [] == b;
  }

  /** A text in which the pattern does not occur is left unchanged. */
  lemma {:induction false} ReplaceAbsent(s: string, pat: string, sub: string)
    requires |pat| > 0 && !Contains(s, pat)
    ensures Replace(s, pat, sub) == s
    decreases |s|
  {
    if |s| >= |pat| {
      ReplaceAbsent(s[1..], pat, sub);
      assert s == [s[0]] + s[1..];
    }
  }

  /** `s.split(sep)` for a one-character separator: the pieces between
      separators, always at least one, none holding the separator. */
  function Split(s: string, sep: char): (parts: seq<string>)
    ensures |parts| >= 1
    ensures forall k :: 0 <= k < |parts| ==> sep !in parts[k]
    decreases |s|
  {
    if s == [] then [[]]
    else
      var rest := Split(s[1..], sep);
      if s[0] == sep then [[]] + rest
      else [[s[0]] + rest[0]] + rest[1..]
  }

  /** `sep.join(parts)`. */
  function Join(parts: seq<string>, sep: string): string
    decreases |parts|
  {
    if |parts| == 0 then []
    else if |parts| == 1 then parts[0]
    else parts[0] + sep + Join(parts[1..], sep)
  }

  /** Joining the pieces of a split gives the text back. */
  lemma {:induction false} JoinSplit(s: string, sep: char)
    ensures Join(Split(s, sep), [sep]) == s
    decreases |s|
  {
    if s != [] {
      var rest := Split(s[1..], sep);
      JoinSplit(s[1..], sep);
      if s[0] == sep {
        assert Join([[]] + rest, [sep]) == [] + [sep] + Join(rest, [sep]);
        assert s == [s[0]] + s[1..];
      } else if |rest| == 1 {
        assert s == [s[0]] + s[1..];
      } else {
        var parts := [[s[0]] + rest[0]] + rest[1..];
        assert parts[1..] == rest[1..];
        assert Join(rest, [sep]) == rest[0] + [sep] + Join(rest[1..], [sep]);
        assert Join(parts, [sep]) == ([s[0]] + rest[0]) + [sep] + Join(rest[1..], [sep]);
        assert s == [s[0]] + s[1..];
      }
    }
  }

  /** Splitting a join gives the pieces back, when there is at least one
      piece and no piece holds the separator. */
  lemma {:induction false} SplitJoin(parts: seq<string>, sep: char)
    requires |parts| >= 1
    requires forall k :: 0 <= k < |parts| ==> sep !in parts[k]
    ensures Split(Join(parts, [sep]), sep) == parts
    decreases |parts|, |parts[0]|
  {
    var p := parts[0];
    if |parts| == 1 {
      SplitPiece(p, sep);
    } else {
      var tail := Join(parts[1..], [sep]);
      SplitJoin(parts[1..], sep);
      SplitPieceThen(p, tail, sep);
      assert [p] + parts[1..] == parts;
    }
  }

  /** A piece without the separator splits into itself. */
  lemma {:induction false} SplitPiece(p: string, sep: char)
    requires sep !in p
    ensures Split(p, sep) == [p]
    decreases |p|
  {
    if p != [] {
      SplitPiece(p[1..], sep);
      assert p == [p[0]] + p[1..];
    }
  }

  /** A piece without the separator, then the separator, then `t`: the
      piece comes first, then the pieces of `t`. */
  lemma {:induction false} SplitPieceThen(p: string, t: string, sep: char)
    requires sep !in p
    ensures Split(p + [sep] + t, sep) == [p] + Split(t, sep)
    decreases |p|
  {
    var s := p + [sep] + t;
    if p == [] {
      assert s[1..] == t;
    } else {
      assert s[1..] == p[1..] + [sep] + t;
      SplitPieceThen(p[1..], t, sep);
      assert p == [p[0]] + p[1..];
    }
  }

  /** How many times `c` occurs in `s`. */
  function Occurrences(s: string, c: char): nat
    decreases |s|
  {
    if s == [] then 0 else (if s[0] == c then 1 else 0) + Occurrences(s[1..], c)
  }

  /** `s.split(sep)` has one piece more than `s` has separators. */
  lemma {:induction false} SplitCount(s: string, sep: char)
    ensures |Split(s, sep)| == 1 + Occurrences(s, sep)
    decreases |s|
  {
    if s != [] {
      SplitCount(s[1..], sep);
    }
  }

  /** A slice has no more occurrences of a character than the whole. */
  lemma {:induction false} OccurrencesSlice(s: string, c: char, i: int, j: int)
    requires 0 <= i <= j <= |s|
    ensures Occurrences(s[i..j], c) <= Occurrences(s, c)
    decreases |s|
  {
    if i > 0 {
      assert s[i..j] == s[1..][i - 1..j - 1];
      OccurrencesSlice(s[1..], c, i - 1, j - 1);
    } else if j > 0 {
      assert s[i..j][1..] == s[1..][0..j - 1];
      OccurrencesSlice(s[1..], c, 0, j - 1);
    }
  }

  /** Every character of a piece of a split comes from the split text. */
  lemma {:induction false} SplitChars(s: string, sep: char)
    ensures forall k, c :: 0 <= k < |Split(s, sep)| && c in Split(s, sep)[k] ==> c in s
    decreases |s|
  {
    if s != [] {
      SplitChars(s[1..], sep);
      var rest := Split(s[1..], sep);
      assert forall c :: c in s[1..] ==> c in s;
      if s[0] != sep {
        var parts := Split(s, sep);
        assert parts[0] == [s[0]] + rest[0];
        assert forall k :: 1 <= k < |parts| ==> parts[k] == rest[k];
      }
    }
  }

  /** Every character of `s.strip()` comes from `s`. */
  lemma StripChars(s: string)
    ensures forall c :: c in Strip(s) ==> c in s
  {
    var r := Strip(s);
    StripIsSlice(s);
    var i :| OccursAt(s, r, i);
    forall c | c in r
      ensures c in s
    {
      var m :| 0 <= m < |r| && r[m] == c;
      assert s[i + m] == c;
    }
  }

  /** The number of `split("\n")` pieces of `s.strip()` is at most the
      number of lines of `s`. */
  lemma StripSplitCount(s: string)
    ensures |Split(Strip(s), '\n')| <= 1 + Occurrences(s, '\n')
  {
    var r := Strip(s);
    StripIsSlice(s);
    var i :| OccursAt(s, r, i);
    SplitCount(r, '\n');
    OccurrencesOfPiece(s, r, i, '\n');
  }

  /** A piece of `s` has no more occurrences of `c` than `s`. */
  lemma OccurrencesOfPiece(s: string, r: string, i: int, c: char)
    requires OccursAt(s, r, i)
    ensures Occurrences(r, c) <= Occurrences(s, c)
  {
    OccurrencesSlice(s, c, i, i + |r|);
  }

  /** When none of a piece's characters is in the separator, the piece is
      found in a join exactly when it is found in one of the parts. */
  lemma {:induction false} JoinContains(parts: seq<string>, sep: string, p: string)
    requires |p| > 0 && |sep| > 0
    requires forall i :: 0 <= i < |sep| ==> sep[i] !in p
    ensures Contains(Join(parts, sep), p) <==> exists k :: 0 <= k < |parts| && Contains(parts[k], p)
    decreases |parts|
  {
    if |parts| == 0 {
      assert !StartsWith([], p);
    } else if |parts| > 1 {
      var rest := parts[1..];
      JoinContains(rest, sep, p);
      CutAt(parts[0], sep, Join(rest, sep), p);
      if exists k :: 0 <= k < |rest| && Contains(rest[k], p) {
        var k :| 0 <= k < |rest| && Contains(rest[k], p);
        assert parts[k + 1] == rest[k];
      }
      if exists k :: 0 <= k < |parts| && Contains(parts[k], p) {
        var k :| 0 <= k < |parts| && Contains(parts[k], p);
        if k > 0 {
          assert rest[k - 1] == parts[k];
        }
      }
    }
  }
}
