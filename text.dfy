/** Option and Result, the error-carrying wrappers used by the other modules. */
module Wrappers {

  datatype Option<+T> = None | Some(value: T)

  datatype Result<+R, +E> = Success(value: R) | Failure(error: E)
}

/** The Python 2 string operations the pipeline relies on. Python 2 `str` is a
    byte string, so case mapping and whitespace are the ASCII ones. */
module Text {

  /** `pat` occurs in `s` starting at index `i`. */
  predicate OccursAt(s: string, pat: string, i: int) {
    0 <= i <= |s| - |pat| && s[i..i + |pat|] == pat
  }

  /** `pat in s` for strings. */
  predicate Contains(s: string, pat: string) {
    exists i | 0 <= i <= |s| :: OccursAt(s, pat, i)
  }

  /** `s.startswith(p)`. */
  predicate StartsWith(s: string, p: string) {
    |p| <= |s| && s[..|p|] == p
  }

  /** `s.replace(pat, '')`: scans left to right and drops every
      non-overlapping occurrence of `pat` found on the way. */
  function DeleteAll(s: string, pat: string): (r: string)
    requires pat != []
    ensures |r| <= |s|
    decreases |s|
  {
    if |s| < |pat| then s
    else if s[..|pat|] == pat then
      assert s == s[..|pat|] + s[|pat|..];
      DeleteAll(s[|pat|..], pat)
    else
      assert s == [s[0]] + s[1..];
      [s[0]] + DeleteAll(s[1..], pat)
  }

  /** `replace` finds the first occurrence of the pattern, keeps what comes
      before it, drops the occurrence, and goes on after it. */
  lemma {:induction false} DeleteAllFirst(s: string, pat: string, p: nat)
    requires pat != [] && OccursAt(s, pat, p)
    requires forall q :: 0 <= q < p ==> !OccursAt(s, pat, q)
    ensures DeleteAll(s, pat) == s[..p] + DeleteAll(s[p + |pat|..], pat)
    decreases p
  {
    var rest := DeleteAll(s[p + |pat|..], pat);
    if p == 0 {
      DeleteAllHits(s, pat);
      assert s[..p] + rest == rest;
    } else {
      var t := s[1..];
      assert DeleteAll(t, pat) == t[..p - 1] + rest by {
        ShiftOccurrence(s, pat, p);
        DeleteAllFirst(t, pat, p - 1);
        assert t[p - 1 + |pat|..] == s[p + |pat|..];
      }
      assert DeleteAll(s, pat) == [s[0]] + DeleteAll(t, pat) by {
        assert !OccursAt(s, pat, 0);
        DeleteAllSkips(s, pat);
      }
      ConsPrefix(s, p, DeleteAll(s, pat), DeleteAll(t, pat), rest);
    }
  }

  /** Putting a string's first character back in front of a prefix of the
      rest gives a prefix of the string. */
  lemma ConsPrefix(s: string, p: nat, whole: string, tail: string, rest: string)
    requires 0 < p <= |s|
    requires whole == [s[0]] + tail && tail == s[1..][..p - 1] + rest
    ensures whole == s[..p] + rest
  {
    assert [s[0]] + s[1..][..p - 1] == s[..p];
  }

  /** An occurrence at the start is dropped. */
  lemma DeleteAllHits(s: string, pat: string)
    requires pat != [] && OccursAt(s, pat, 0)
    ensures DeleteAll(s, pat) == DeleteAll(s[|pat|..], pat)
  {
  }

  /** With no occurrence at the start, the first character is kept. */
  lemma DeleteAllSkips(s: string, pat: string)
    requires pat != [] && |s| >= |pat| && !OccursAt(s, pat, 0)
    ensures DeleteAll(s, pat) == [s[0]] + DeleteAll(s[1..], pat)
  {
  }

  /** Dropping the first character moves every later occurrence one place
      to the left. */
  lemma ShiftOccurrence(s: string, pat: string, p: nat)
    requires 0 < p && OccursAt(s, pat, p)
    requires forall q :: 0 <= q < p ==> !OccursAt(s, pat, q)
    ensures OccursAt(s[1..], pat, p - 1)
    ensures forall q :: 0 <= q < p - 1 ==> !OccursAt(s[1..], pat, q)
  {
    var t := s[1..];
    assert t[p - 1..p - 1 + |pat|] == s[p..p + |pat|];
    forall q | 0 <= q < p - 1 ensures !OccursAt(t, pat, q) {
      assert !OccursAt(s, pat, q + 1);
      if q <= |t| - |pat| {
        assert t[q..q + |pat|] == s[q + 1..q + 1 + |pat|];
      }
    }
  }

  /** A pattern holding a character that `s` lacks does not occur in `s`. */
  lemma MissingChar(s: string, pat: string, c: char)
    requires c in pat && c !in s
    ensures !Contains(s, pat)
  {
  }

  /** Deleting a pattern that does not occur leaves the string as it was. */
  lemma {:induction false} DeleteAbsent(s: string, pat: string)
    requires pat != [] && !Contains(s, pat)
    ensures DeleteAll(s, pat) == s
    decreases |s|
  {
    if |s| >= |pat| {
      assert !OccursAt(s, pat, 0);
      assert !Contains(s[1..], pat) by {
        forall i | OccursAt(s[1..], pat, i)
          ensures false
        {
          assert s[1..][i..i + |pat|] == s[i + 1..i + 1 + |pat|];
          assert OccursAt(s, pat, i + 1);
        }
      }
      DeleteAbsent(s[1..], pat);
      assert s == [s[0]] + s[1..];
    }
  }

  /** A character the pattern does not contain is never deleted. */
  lemma {:induction false} DeleteKeeps(s: string, pat: string, c: char)
    requires pat != [] && c !in pat
    ensures c in DeleteAll(s, pat) <==> c in s
    decreases |s|
  {
    if |s| >= |pat| {
      if s[..|pat|] == pat {
        assert s == s[..|pat|] + s[|pat|..];
        DeleteKeeps(s[|pat|..], pat, c);
      } else {
        assert s == [s[0]] + s[1..];
        DeleteKeeps(s[1..], pat, c);
      }
    }
  }

  predicate IsUpper(c: char) {
    'A' <= c <= 'Z'
  }

  predicate NoUpper(s: string) {
    forall i :: 0 <= i < |s| ==> !IsUpper(s[i])
  }

  /** `str.lower()` on one byte. */
  function LowerChar(c: char): (r: char)
    ensures !IsUpper(r)
    ensures IsUpper(c) ==> r as int == c as int + 32
    ensures !IsUpper(c) ==> r == c
  {
    if IsUpper(c) then (c as int + 32) as char else c
  }

  /** `s.lower()`. */
  function Lower(s: string): (r: string)
    ensures |r| == |s| && NoUpper(r)
    ensures forall i :: 0 <= i < |s| ==> r[i] == LowerChar(s[i])
  {
    seq(|s|, i requires 0 <= i < |s| => LowerChar(s[i]))
  }

  /** Lowering keeps exactly the characters that are not letters: in
      particular, a space is in the result exactly when it was in `s`. */
  lemma LowerKeepsSpace(s: string)
    ensures ' ' in Lower(s) <==> ' ' in s
  {
    if ' ' in s {
      var i :| 0 <= i < |s| && s[i] == ' ';
      assert Lower(s)[i] == ' ';
    }
    if ' ' in Lower(s) {
      var i :| 0 <= i < |s| && Lower(s)[i] == ' ';
      assert s[i] == ' ';
    }
  }

  /** A string without upper-case letters is its own lower-case form. */
  lemma {:induction false} LowerOfLower(s: string)
    requires NoUpper(s)
    ensures Lower(s) == s
  {
    assert forall i :: 0 <= i < |s| ==> Lower(s)[i] == s[i];
  }

  /** The bytes `str.strip()` removes: space, tab, line feed, vertical tab,
      form feed and carriage return. */
  predicate IsSpace(c: char) {
    c == ' ' || '\t' <= c <= '\r'
  }

  predicate NoSpace(s: string) {
    forall i :: 0 <= i < |s| ==> !IsSpace(s[i])
  }

  lemma NoSpaceConcat(a: string, b: string)
    requires NoSpace(a) && NoSpace(b)
    ensures NoSpace(a + b)
  {
    forall i | 0 <= i < |a + b| ensures !IsSpace((a + b)[i]) {
      if i >= |a| { assert (a + b)[i] == b[i - |a|]; }
    }
  }

  function TrimLeft(s: string): (r: string)
    ensures |r| <= |s| && r == s[|s| - |r|..]
    ensures forall i :: 0 <= i < |s| - |r| ==> IsSpace(s[i])
    ensures r == [] || !IsSpace(r[0])
  {
    if s != [] && IsSpace(s[0]) then TrimLeft(s[1..]) else s
  }

  function TrimRight(s: string): (r: string)
    ensures |r| <= |s| && r == s[..|r|]
    ensures forall i :: |r| <= i < |s| ==> IsSpace(s[i])
    ensures r == [] || !IsSpace(r[|r| - 1])
  {
    if s != [] && IsSpace(s[|s| - 1]) then TrimRight(s[..|s| - 1]) else s
  }

  /** `s.strip()`: the string without its leading and trailing whitespace. */
  function Strip(s: string): (r: string)
    ensures r == [] || (!IsSpace(r[0]) && !IsSpace(r[|r| - 1]))
    ensures |r| <= |s|
  {
    TrimRight(TrimLeft(s))
  }

  /** What `strip()` keeps is a slice of the string, and everything it
      drops before and after that slice is whitespace. */
  lemma StripKeepsInner(s: string)
    ensures exists i, j :: 0 <= i <= j <= |s| && Strip(s) == s[i..j]
                           && (forall k :: 0 <= k < i ==> IsSpace(s[k]))
                           && (forall k :: j <= k < |s| ==> IsSpace(s[k]))
  {
    var left := TrimLeft(s);
    var i := |s| - |left|;
    var r := TrimRight(left);
    assert r == s[i..i + |r|];
    forall k | i + |r| <= k < |s| ensures IsSpace(s[k]) {
      assert s[k] == left[k - i];
    }
  }

  /** A string with no whitespace at all is unchanged by `strip()`. */
  lemma StripNoSpace(s: string)
    requires NoSpace(s)
    ensures Strip(s) == s
  {
    var l := TrimLeft(s);
    assert l == s;
  }

  /** `s.split(sep)` with an explicit one-character separator: the pieces
      between separators, empty pieces included. */
  function Split(s: string, sep: char): (r: seq<string>)
    ensures |r| >= 1
    ensures forall k :: 0 <= k < |r| ==> sep !in r[k]
  {
    if s == [] then [[]]
    else
      var rest := Split(s[1..], sep);
      if s[0] == sep then [[]] + rest
      else [[s[0]] + rest[0]] + rest[1..]
  }

  /** `sep.join(parts)`. */
  function Join(parts: seq<string>, sep: char): string
    requires |parts| >= 1
  {
    if |parts| == 1 then parts[0] else parts[0] + [sep] + Join(parts[1..], sep)
  }

  /** Splitting loses nothing: joining the pieces gives the string back. */
  lemma {:induction false} JoinSplit(s: string, sep: char)
    ensures Join(Split(s, sep), sep) == s
  {
    if s != [] {
      var rest := Split(s[1..], sep);
      JoinSplit(s[1..], sep);
      if s[0] != sep && |rest| > 1 {
        assert ([[s[0]] + rest[0]] + rest[1..])[1..] == rest[1..];
      }
      if s[0] == sep {
        assert ([[]] + rest)[1..] == rest;
      }
    }
  }

  /** There is one more piece than there are separators. */
  lemma {:induction false} SplitCount(s: string, sep: char)
    ensures |Split(s, sep)| == multiset(s)[sep] + 1
  {
    if s != [] {
      SplitCount(s[1..], sep);
      assert s == [s[0]] + s[1..];
    }
  }
}
