/**
 * The few Python string operations the protocol relies on: `sep.join(parts)`,
 * `s.split(d)` and the substring test `p in s`.
 */
module Strings {

  /** Number of occurrences of `d` in `s`. */
  function Count(s: string, d: char): nat
    decreases |s|
  {
    if s == [] then 0 else (if s[0] == d then 1 else 0) + Count(s[1..], d)
  }

  /** Python's `sep.join(parts)`. */
  function Join(parts: seq<string>, sep: string): string
    decreases |parts|
  {
    if |parts| == 0 then ""
    else if |parts| == 1 then parts[0]
    else parts[0] + sep + Join(parts[1..], sep)
  }

  /** The pieces of a sequence of chunks laid end to end. */
  function Concat(chunks: seq<string>): string
    decreases |chunks|
  {
    if chunks == [] then "" else chunks[0] + Concat(chunks[1..])
  }

  /**
   * Python's `s.split(d)` for a one-character separator: one part more than
   * there are separators, no part holds the separator, and joining the parts
   * back with the separator gives `s` again.
   */
  function Split(s: string, d: char): (parts: seq<string>)
    ensures |parts| == Count(s, d) + 1
    ensures forall i :: 0 <= i < |parts| ==> d !in parts[i]
    ensures Join(parts, [d]) == s
    decreases |s|
  {
    if s == [] then [""]
    else
      var rest := Split(s[1..], d);
      if s[0] == d then
        assert s == [d] + s[1..];
        [""] + rest
      else
        var first := [s[0]] + rest[0];
        assert first[1..] == rest[0];
        var parts := [first] + rest[1..];
        assert parts[1..] == rest[1..];
        if |rest| == 1 then
          assert s == [s[0]] + s[1..];
          parts
        else
          assert Join(rest, [d]) == rest[0] + [d] + Join(rest[1..], [d]);
          assert s == [s[0]] + s[1..];
          parts
  }

  /** Python's `p in s` on strings: `p` occurs somewhere in `s`. */
  predicate Contains(s: string, p: string)
    decreases |s|
  {
    p <= s || (s != [] && Contains(s[1..], p))
  }

  /** `p` occurs in `s` starting at offset `i`. */
  predicate OccursAt(s: string, p: string, i: int)
  {
    0 <= i <= |s| - |p| && s[i..i + |p|] == p
  }

  /** `Contains` holds exactly when `p` sits at some offset of `s`. */
  lemma {:induction false} ContainsIffOccurs(s: string, p: string)
    ensures Contains(s, p) <==> exists i :: OccursAt(s, p, i)
    decreases |s|
  {
    if p <= s {
      assert OccursAt(s, p, 0);
    } else if s == [] {
      assert forall i :: !OccursAt(s, p, i);
    } else {
      ContainsIffOccurs(s[1..], p);
      forall i | 0 < i && OccursAt(s, p, i)
        ensures OccursAt(s[1..], p, i - 1)
      {
        assert s[1..][i - 1..i - 1 + |p|] == s[i..i + |p|];
      }
      assert !OccursAt(s, p, 0);
      if Contains(s[1..], p) {
        var i :| OccursAt(s[1..], p, i);
        assert s[i + 1..i + 1 + |p|] == s[1..][i..i + |p|];
        assert OccursAt(s, p, i + 1);
      }
    }
  }

  /** The text at offset `i` of `s` differs from `p` at position `k`. */
  predicate MismatchAt(s: string, p: string, k: nat, i: int)
    requires 0 <= i && i + |p| <= |s| && k < |p|
  {
    s[i + k] != p[k]
  }

  /** `p` is absent from `s` when every placement of `p` in `s` mismatches at one fixed position. */
  lemma Absent(s: string, p: string, k: nat)
    requires k < |p|
    requires forall i :: 0 <= i <= |s| - |p| ==> MismatchAt(s, p, k, i)
    ensures !Contains(s, p)
  {
    ContainsIffOccurs(s, p);
    forall i | 0 <= i <= |s| - |p|
      ensures !OccursAt(s, p, i)
    {
      assert MismatchAt(s, p, k, i);
      assert s[i..i + |p|][k] == s[i + k];
    }
  }

  /** A string shorter than `p` does not contain it. */
  lemma {:induction false} TooShort(s: string, p: string)
    requires |s| < |p|
    ensures !Contains(s, p)
    decreases |s|
  {
    if s != [] {
      TooShort(s[1..], p);
    }
  }

  /** A string contains each of its suffixes. */
  lemma {:induction false} ContainsSuffix(a: string, p: string)
    ensures Contains(a + p, p)
    decreases |a|
  {
    if a != [] {
      assert (a + p)[1..] == a[1..] + p;
      ContainsSuffix(a[1..], p);
    } else {
      assert a + p == p;
    }
  }

  /** Counting distributes over concatenation. */
  lemma {:induction false} CountAppend(a: string, b: string, d: char)
    ensures Count(a + b, d) == Count(a, d) + Count(b, d)
    decreases |a|
  {
    if a == [] {
      assert a + b == b;
    } else {
      assert (a + b)[1..] == a[1..] + b;
      CountAppend(a[1..], b, d);
    }
  }

  /** A character that occurs nowhere has count zero, and conversely. */
  lemma {:induction false} CountZero(s: string, d: char)
    ensures Count(s, d) == 0 <==> d !in s
    decreases |s|
  {
    if s != [] {
      CountZero(s[1..], d);
      assert s == [s[0]] + s[1..];
    }
  }

  /** A joined string holds a character only if a part or the separator does. */
  lemma {:induction false} JoinAvoids(parts: seq<string>, sep: string, c: char)
    requires c !in sep
    requires forall i :: 0 <= i < |parts| ==> c !in parts[i]
    ensures c !in Join(parts, sep)
    decreases |parts|
  {
    if |parts| > 1 {
      JoinAvoids(parts[1..], sep, c);
    }
  }

  /** Splitting a separator-joined list of separator-free parts gives the parts back. */
  lemma {:induction false} SplitJoin(parts: seq<string>, d: char)
    requires |parts| > 0
    requires forall i :: 0 <= i < |parts| ==> d !in parts[i]
    ensures Split(Join(parts, [d]), d) == parts
    decreases |parts|
  {
    var head := parts[0];
    if |parts| == 1 {
      SplitPlain(head, [], d);
      assert head + [] == head && head + "" == head;
    } else {
      var tail := Join(parts[1..], [d]);
      SplitJoin(parts[1..], d);
      SplitDelim(tail, d);
      SplitPlain(head, [d] + tail, d);
      assert Join(parts, [d]) == head + ([d] + tail);
      assert head + "" == head;
      assert parts == [head] + parts[1..];
    }
  }

  /** A leading separator splits off an empty first part. */
  lemma SplitDelim(s: string, d: char)
    ensures Split([d] + s, d) == [""] + Split(s, d)
  {
    assert ([d] + s)[1..] == s;
  }

  /** A separator-free head glues onto the first part of the split of what follows. */
  lemma {:induction false} SplitPlain(a: string, b: string, d: char)
    requires d !in a
    ensures Split(a + b, d) == [a + Split(b, d)[0]] + Split(b, d)[1..]
    decreases |a|
  {
    if a == [] {
      assert a + b == b;
      assert a + Split(b, d)[0] == Split(b, d)[0];
      assert Split(b, d) == [Split(b, d)[0]] + Split(b, d)[1..];
    } else {
      assert (a + b)[1..] == a[1..] + b;
      assert (a + b)[0] == a[0];
      SplitPlain(a[1..], b, d);
      var rest := Split(a[1..] + b, d);
      assert rest[0] == a[1..] + Split(b, d)[0];
      assert rest[1..] == Split(b, d)[1..];
      assert [a[0]] + rest[0] == a + Split(b, d)[0];
    }
  }
}
