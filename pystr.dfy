/**
 * The Python string operations the report parsers are written with, with
 * Python's own semantics: slice bounds may be negative (counted from the
 * end) and are clamped to the string, `find` answers -1 when the text is
 * absent, `strip` removes ASCII whitespace at both ends, and `split` on a
 * one-character separator always yields at least one piece.
 */
module PyStr {

  /** Python's normalisation of one slice bound for a string of length n. */
  function SliceBound(i: int, n: nat): (k: nat)
    ensures k <= n
  {
    if i < 0 then (if i + n < 0 then 0 else i + n)
    else if i > n then n
    else i
  }

  /** `s[i:j]` in Python. */
  function Slice(s: string, i: int, j: int): (r: string)
    ensures |r| == if SliceBound(i, |s|) < SliceBound(j, |s|) then SliceBound(j, |s|) - SliceBound(i, |s|) else 0
    ensures SliceBound(i, |s|) + |r| <= |s|
    ensures r == s[SliceBound(i, |s|)..SliceBound(i, |s|) + |r|]
    ensures 0 <= i <= j <= |s| ==> r == s[i..j]
  {
    var a, b := SliceBound(i, |s|), SliceBound(j, |s|);
    if a < b then s[a..b] else []
  }

  /** `s[i:-k]` for a non-negative start: everything from i up to the k last characters. */
  lemma SliceDropLast(s: string, i: nat, k: nat)
    requires 0 < k
    ensures Slice(s, i, -(k as int)) == if i + k <= |s| then s[i..|s| - k] else []
  {
  }

  /** `sub` occurs in `s` starting at index i. */
  predicate OccursAt(s: string, sub: string, i: int)
  {
    0 <= i && i + |sub| <= |s| && s[i..i + |sub|] == sub
  }

  /** Python's `sub in s`. */
  predicate Contains(s: string, sub: string)
  {
    exists i | 0 <= i <= |s| - |sub| :: OccursAt(s, sub, i)
  }

  /** The first occurrence of `sub` in `s` at or after index i, or -1. */
  function FindFrom(s: string, sub: string, i: nat): (r: int)
    ensures r == -1 || (i <= r && OccursAt(s, sub, r))
    ensures forall k | i <= k && (r == -1 || k < r) :: !OccursAt(s, sub, k)
    decreases |s| - i
  {
    if i + |sub| > |s| then -1
    else if s[i..i + |sub|] == sub then i
    else FindFrom(s, sub, i + 1)
  }

  /** Python's normalisation of the start argument of `find`: a negative
      start counts from the end; a start past the end is kept (nothing is
      found there). */
  function FindStart(start: int, n: nat): (k: nat)
    ensures 0 <= start ==> k == start
  {
    if start < 0 then (if start + n < 0 then 0 else start + n) else start
  }

  /** `s.find(sub, start)` in Python: the lowest index at or after the
      (normalised) start where `sub` occurs, or -1 when there is none. */
  function Find(s: string, sub: string, start: int): (r: int)
    ensures r == -1 <==> forall k | FindStart(start, |s|) <= k :: !OccursAt(s, sub, k)
    ensures r != -1 ==> FindStart(start, |s|) <= r && OccursAt(s, sub, r)
    ensures r != -1 ==> forall k | FindStart(start, |s|) <= k < r :: !OccursAt(s, sub, k)
    ensures -1 <= r <= |s|
  {
    FindFrom(s, sub, FindStart(start, |s|))
  }

  /** `sub in s` holds exactly when `s.find(sub)` is not -1. */
  lemma ContainsIffFound(s: string, sub: string)
    ensures Contains(s, sub) <==> Find(s, sub, 0) != -1
  {
    if Find(s, sub, 0) != -1 {
      assert OccursAt(s, sub, Find(s, sub, 0));
    }
  }

  /** Finding a one-character string at a known position: the character is
      there and not earlier at or after the start. */
  lemma FindCharAt(s: string, c: char, start: nat, x: nat)
    requires start <= x < |s| && s[x] == c
    requires forall k | start <= k < x :: s[k] != c
    ensures Find(s, [c], start) == x
  {
    assert OccursAt(s, [c], x);
    forall k | start <= k < x
      ensures !OccursAt(s, [c], k)
    {
      assert s[k..k + 1] == [s[k]];
    }
  }

  /** In `a + [c] + b`, the first c at or after a start inside `a` is the one
      after `a` when `a` has none from the start on. */
  lemma FindCharAfter(a: string, c: char, b: string, start: nat)
    requires start <= |a|
    requires forall k | start <= k < |a| :: a[k] != c
    ensures Find(a + [c] + b, [c], start) == |a|
  {
    var s := a + [c] + b;
    assert forall k | start <= k < |a| :: s[k] == a[k];
    FindCharAt(s, c, start, |a|);
  }

  /** A field that runs from the end of `head` up to the first c at or
      after the start: `find` stops just after it and the slice gives it back. */
  lemma FieldUpTo(head: string, field: string, c: char, tail: string, start: nat)
    requires start <= |head|
    requires forall k | start <= k < |head| :: head[k] != c
    requires c !in field
    ensures var s := head + field + [c] + tail;
      Find(s, [c], start) == |head| + |field| && Slice(s, |head|, |head| + |field|) == field
  {
    var a := head + field;
    assert forall k | |head| <= k < |a| :: a[k] == field[k - |head|];
    FindCharAfter(a, c, tail, start);
    assert (a + [c] + tail)[|head|..|a|] == field;
  }

  /** `sub` right after `before`, and nowhere earlier: `find` answers |before|. */
  lemma FindFirstAt(before: string, sub: string, after: string)
    requires forall j | 0 <= j < |before| :: !OccursAt(before + sub + after, sub, j)
    ensures Find(before + sub + after, sub, 0) == |before|
  {
    var s := before + sub + after;
    assert s[|before|..|before| + |sub|] == sub;
    assert OccursAt(s, sub, |before|);
    var r := Find(s, sub, 0);
    assert r != -1 && r <= |before|;
  }

  /** Finding a one-character string that does not occur at or after the start. */
  lemma FindCharAbsent(s: string, c: char, start: nat)
    requires forall k | start <= k < |s| :: s[k] != c
    ensures Find(s, [c], start) == -1
  {
    forall k | start <= k
      ensures !OccursAt(s, [c], k)
    {
      if k < |s| {
        assert s[k..k + 1] == [s[k]];
      }
    }
  }

  /** A string that ends in `sub` contains it. */
  lemma ContainsAt(s: string, sub: string, i: nat)
    requires OccursAt(s, sub, i)
    ensures Contains(s, sub)
  {
  }

  /** `sub in (a + sub + b)` whatever surrounds it. */
  lemma ContainsInside(a: string, sub: string, b: string)
    ensures Contains(a + sub + b, sub)
  {
    var s := a + sub + b;
    assert s[|a|..|a| + |sub|] == sub;
    assert OccursAt(s, sub, |a|);
  }

  /** A string that contains `sub` still does when text is added on either side. */
  lemma ContainsExtend(a: string, s: string, b: string, sub: string)
    requires Contains(s, sub)
    ensures Contains(a + s + b, sub)
  {
    var i :| 0 <= i <= |s| - |sub| && OccursAt(s, sub, i);
    var t := a + s + b;
    assert t[|a| + i..|a| + i + |sub|] == s[i..i + |sub|];
    assert OccursAt(t, sub, |a| + i);
  }

  /** Text found in one of the pieces is found in the joined string. */
  lemma {:induction false} ContainsInJoin(parts: seq<string>, sep: char, i: nat, sub: string)
    requires i < |parts| && Contains(parts[i], sub)
    ensures Contains(Join(parts, sep), sub)
    decreases |parts|
  {
    if |parts| > 1 {
      if i == 0 {
        ContainsExtend([], parts[0], [sep] + Join(parts[1..], sep), sub);
        assert [] + parts[0] + ([sep] + Join(parts[1..], sep)) == Join(parts, sep);
      } else {
        ContainsInJoin(parts[1..], sep, i - 1, sub);
        ContainsExtend(parts[0] + [sep], Join(parts[1..], sep), [], sub);
        assert parts[0] + [sep] + Join(parts[1..], sep) + [] == Join(parts, sep);
      }
    }
  }

  /** A string that contains `sub` contains every character of it. */
  lemma ContainsChar(s: string, sub: string, k: nat)
    requires Contains(s, sub) && k < |sub|
    ensures sub[k] in s
  {
    var i :| 0 <= i <= |s| - |sub| && OccursAt(s, sub, i);
    assert s[i + k] == sub[k];
  }

  /** The characters Python 2's `string.strip` removes. */
  predicate IsSpace(c: char)
  {
    c == ' ' || c == '\t' || c == '\n' || c == '\r' || c == 11 as char || c == 12 as char
  }

  /** `s.lstrip()`: the longest suffix of `s` that does not start with whitespace. */
  function StripLeading(s: string): (r: string)
    ensures |r| <= |s| && r == s[|s| - |r|..]
    ensures forall k | 0 <= k < |s| - |r| :: IsSpace(s[k])
    ensures r != [] ==> !IsSpace(r[0])
  {
    if s != [] && IsSpace(s[0]) then StripLeading(s[1..]) else s
  }

  /** `s.rstrip()`: the longest prefix of `s` that does not end with whitespace. */
  function StripTrailing(s: string): (r: string)
    ensures |r| <= |s| && r == s[..|r|]
    ensures forall k | |r| <= k < |s| :: IsSpace(s[k])
    ensures r != [] ==> !IsSpace(r[|r| - 1])
  {
    if s != [] && IsSpace(s[|s| - 1]) then StripTrailing(s[..|s| - 1]) else s
  }

  /** `string.strip(s)`. */
  function Strip(s: string): string
  {
    StripTrailing(StripLeading(s))
  }

  /** `r` is the piece of `s` starting at index a, and everything of `s`
      around it is whitespace. */
  predicate IsTrimmedPiece(s: string, r: string, a: int)
  {
    0 <= a && a + |r| <= |s| && r == s[a..a + |r|]
    && (forall k | 0 <= k < a :: IsSpace(s[k]))
    && (forall k | a + |r| <= k < |s| :: IsSpace(s[k]))
  }

  /** Strip keeps exactly the middle of `s` between its leading and trailing
      whitespace: the result is a contiguous piece of `s`, everything cut off
      is whitespace, and the result neither starts nor ends with whitespace. */
  lemma StripSpec(s: string)
    ensures exists a :: IsTrimmedPiece(s, Strip(s), a)
    ensures Strip(s) != [] ==> !IsSpace(Strip(s)[0]) && !IsSpace(Strip(s)[|Strip(s)| - 1])
  {
    var l := StripLeading(s);
    var r := StripTrailing(l);
    TrimmedPieceOf(s, l, r);
    assert r == Strip(s);
    assert IsTrimmedPiece(s, Strip(s), |s| - |l|);
    if r != [] {
      assert r[0] == l[0];
    }
  }

  /** Whitespace cut off the front, then off the back, leaves a trimmed piece. */
  lemma TrimmedPieceOf(s: string, l: string, r: string)
    requires |l| <= |s| && l == s[|s| - |l|..] && forall k | 0 <= k < |s| - |l| :: IsSpace(s[k])
    requires |r| <= |l| && r == l[..|r|] && forall k | |r| <= k < |l| :: IsSpace(l[k])
    ensures IsTrimmedPiece(s, r, |s| - |l|)
  {
    var a := |s| - |l|;
    assert r == s[a..a + |r|];
    forall k | a + |r| <= k < |s|
      ensures IsSpace(s[k])
    {
      assert s[k] == l[k - a];
    }
  }

  /** A string with no whitespace at either end is its own strip. */
  lemma StripIdentity(s: string)
    requires s == [] || (!IsSpace(s[0]) && !IsSpace(s[|s| - 1]))
    ensures Strip(s) == s
  {
  }

  /** Stripping twice is stripping once. */
  lemma StripIdempotent(s: string)
    ensures Strip(Strip(s)) == Strip(s)
  {
    StripSpec(s);
    StripIdentity(Strip(s));
  }

  /** `s.split(sep)` for a one-character separator. */
  function Split(s: string, sep: char): (parts: seq<string>)
    ensures |parts| >= 1
    ensures forall p <- parts :: sep !in p
  {
    if s == [] then [""]
    else
      var rest := Split(s[1..], sep);
      assert s == [s[0]] + s[1..];
      if s[0] == sep then [""] + rest
      else [[s[0]] + rest[0]] + rest[1..]
  }

  /** The text splits into a single piece exactly when it has no separator. */
  lemma {:induction false} SplitOnePiece(s: string, sep: char)
    ensures |Split(s, sep)| == 1 <==> sep !in s
  {
    if s != [] {
      SplitOnePiece(s[1..], sep);
      assert s == [s[0]] + s[1..];
    }
  }

  /** `sep.join(parts)`. */
  function Join(parts: seq<string>, sep: char): string
    requires |parts| >= 1
  {
    if |parts| == 1 then parts[0] else parts[0] + [sep] + Join(parts[1..], sep)
  }

  /** Joining one more piece puts a separator and that piece at the end. */
  lemma {:induction false} JoinAppend(parts: seq<string>, sep: char, p: string)
    requires |parts| >= 1
    ensures Join(parts + [p], sep) == Join(parts, sep) + [sep] + p
  {
    if |parts| == 1 {
      assert (parts + [p])[1..] == [p];
    } else {
      assert (parts + [p])[1..] == parts[1..] + [p];
      JoinAppend(parts[1..], sep, p);
    }
  }

  /** Splitting and joining again gives back the text. */
  lemma {:induction false} JoinSplit(s: string, sep: char)
    ensures Join(Split(s, sep), sep) == s
  {
    if s != [] {
      var rest := Split(s[1..], sep);
      JoinSplit(s[1..], sep);
      if s[0] == sep {
        assert Split(s, sep) == [""] + rest;
      } else {
        var parts := Split(s, sep);
        assert parts == [[s[0]] + rest[0]] + rest[1..];
        if |rest| == 1 {
          assert Join(parts, sep) == [s[0]] + rest[0];
        } else {
          assert parts[1..] == rest[1..];
          assert Join(parts, sep) == [s[0]] + (rest[0] + [sep] + Join(rest[1..], sep));
        }
      }
    }
  }

  /** Splitting a piece without the separator, followed by the separator and
      more text, peels that piece off. */
  lemma {:induction false} SplitAfterPiece(p: string, sep: char, t: string)
    requires sep !in p
    ensures Split(p + [sep] + t, sep) == [p] + Split(t, sep)
  {
    if p != [] {
      var s := p + [sep] + t;
      assert s[1..] == p[1..] + [sep] + t;
      assert s[0] == p[0] && p[0] != sep;
      SplitAfterPiece(p[1..], sep, t);
      assert Split(s, sep) == [[p[0]] + Split(s[1..], sep)[0]] + Split(s[1..], sep)[1..];
      assert [p[0]] + p[1..] == p;
    } else {
      assert (p + [sep] + t)[1..] == t;
    }
  }

  /** Splitting text without the separator gives that text alone. */
  lemma {:induction false} SplitNoSeparator(p: string, sep: char)
    requires sep !in p
    ensures Split(p, sep) == [p]
  {
    if p != [] {
      SplitNoSeparator(p[1..], sep);
      assert p[0] != sep;
      assert [p[0]] + p[1..] == p;
    }
  }

  /** Joining pieces without the separator and splitting again gives back the pieces. */
  lemma {:induction false} SplitJoin(parts: seq<string>, sep: char)
    requires |parts| >= 1
    requires forall p <- parts :: sep !in p
    ensures Split(Join(parts, sep), sep) == parts
  {
    if |parts| == 1 {
      SplitNoSeparator(parts[0], sep);
    } else {
      SplitJoin(parts[1..], sep);
      SplitAfterPiece(parts[0], sep, Join(parts[1..], sep));
    }
  }
}
