/** The few .NET string operations the descriptor policies and lookups rely on, with ordinal semantics. */
module Strings {
  import opened Wrappers

  /** p occurs in s starting at position i. */
  predicate OccursAt(s: string, p: string, i: int)
  {
    0 <= i && i + |p| <= |s| && s[i..i + |p|] == p
  }

  /** No character of a is a character of b. */
  predicate SharesNoChar(a: string, b: string)
  {
    forall i, j :: 0 <= i < |a| && 0 <= j < |b| ==> a[i] != b[j]
  }

  /** Ordinal IndexOf: the first position at which a non-empty p occurs in s; None stands for -1. */
  function IndexOf(s: string, p: string): (r: Option<nat>)
    requires |p| > 0
    ensures r.Some? ==> OccursAt(s, p, r.value) && forall j :: 0 <= j < r.value ==> !OccursAt(s, p, j)
    ensures r.None? ==> forall j :: !OccursAt(s, p, j)
    decreases |s|
  {
    if |s| < |p| then None
    else if s[..|p|] == p then Some(0)
    else
      var rest := IndexOf(s[1..], p);
      assert forall j :: 1 <= j && OccursAt(s, p, j) ==> OccursAt(s[1..], p, j - 1) by {
        forall j | 1 <= j && OccursAt(s, p, j) ensures OccursAt(s[1..], p, j - 1) {
          assert s[1..][j - 1..j - 1 + |p|] == s[j..j + |p|];
        }
      }
      assert forall j :: 0 <= j && OccursAt(s[1..], p, j) ==> OccursAt(s, p, j + 1) by {
        forall j | 0 <= j && OccursAt(s[1..], p, j) ensures OccursAt(s, p, j + 1) {
          assert s[1..][j..j + |p|] == s[j + 1..j + 1 + |p|];
        }
      }
      assert !OccursAt(s, p, 0);
      match rest
      case None => None
      case Some(k) => Some(k + 1)
  }

  /** Ordinal LastIndexOf: the last position at which a non-empty p occurs in s; None stands for -1. */
  function LastIndexOf(s: string, p: string): (r: Option<nat>)
    requires |p| > 0
    ensures r.Some? ==> OccursAt(s, p, r.value) && forall j :: r.value < j ==> !OccursAt(s, p, j)
    ensures r.None? ==> forall j :: !OccursAt(s, p, j)
    decreases |s|
  {
    if |s| < |p| then None
    else if s[|s| - |p|..] == p then Some(|s| - |p|)
    else
      var init := s[..|s| - 1];
      assert forall j :: OccursAt(s, p, j) && j + |p| < |s| ==> OccursAt(init, p, j) by {
        forall j | OccursAt(s, p, j) && j + |p| < |s| ensures OccursAt(init, p, j) {
          assert init[j..j + |p|] == s[j..j + |p|];
        }
      }
      assert forall j :: OccursAt(init, p, j) ==> OccursAt(s, p, j) by {
        forall j | OccursAt(init, p, j) ensures OccursAt(s, p, j) {
          assert init[j..j + |p|] == s[j..j + |p|];
        }
      }
      LastIndexOf(init, p)
  }

  /** string.Join: the parts with sep between consecutive ones. */
  function Join(sep: string, parts: seq<string>): string
  {
    if |parts| == 0 then ""
    else if |parts| == 1 then parts[0]
    else parts[0] + sep + Join(sep, parts[1..])
  }

  /** Joining a part in front of at least one other adds that part and the separator. */
  lemma JoinCons(sep: string, x: string, parts: seq<string>)
    requires |parts| > 0
    ensures Join(sep, [x] + parts) == x + sep + Join(sep, parts)
  {
    assert ([x] + parts)[1..] == parts;
  }

  /** Joining one more part at the end appends the separator and that part. */
  lemma {:induction false} JoinSnoc(sep: string, parts: seq<string>, x: string)
    requires |parts| > 0
    ensures Join(sep, parts + [x]) == Join(sep, parts) + sep + x
    decreases |parts|
  {
    if |parts| == 1 {
      assert parts + [x] == [parts[0], x];
      assert (parts + [x])[1..] == [x];
    } else {
      assert (parts + [x])[1..] == parts[1..] + [x];
      JoinSnoc(sep, parts[1..], x);
    }
  }

  /** The elements of s in the opposite order. */
  function Reverse<T>(s: seq<T>): (r: seq<T>)
    ensures |r| == |s|
  {
    if s == [] then [] else Reverse(s[1..]) + [s[0]]
  }

  /** Reversing after prepending puts the new element last. */
  lemma ReverseCons<T>(x: T, s: seq<T>)
    ensures Reverse([x] + s) == Reverse(s) + [x]
  {
    assert ([x] + s)[1..] == s;
  }

  /** Reversing after appending puts the new element first. */
  lemma {:induction false} ReverseSnoc<T>(s: seq<T>, x: T)
    ensures Reverse(s + [x]) == [x] + Reverse(s)
  {
    if s == [] {
      assert [] + [x] == [x] + [];
      ReverseCons(x, []);
    } else {
      assert s + [x] == [s[0]] + (s[1..] + [x]);
      ReverseCons(s[0], s[1..] + [x]);
      ReverseSnoc(s[1..], x);
      ReverseCons(s[0], s[1..]);
      assert s == [s[0]] + s[1..];
    }
  }

  /** A separator sharing no character with the first part is found right after that part. */
  lemma IndexOfAfterFirst(a: string, sep: string, rest: string)
    requires |sep| > 0 && SharesNoChar(a, sep)
    ensures IndexOf(a + sep + rest, sep) == Some(|a|)
  {
    var s := a + sep + rest;
    assert OccursAt(s, sep, |a|) by { assert s[|a|..|a| + |sep|] == sep; }
    forall j | 0 <= j < |a| ensures !OccursAt(s, sep, j) {
      assert s[j..j + |sep|][0] == a[j];
    }
  }

  /** A separator sharing no character with the last part is found right before that part. */
  lemma LastIndexOfBeforeLast(pre: string, sep: string, b: string)
    requires |sep| > 0 && SharesNoChar(b, sep)
    ensures LastIndexOf(pre + sep + b, sep) == Some(|pre|)
  {
    var s := pre + sep + b;
    assert OccursAt(s, sep, |pre|) by { assert s[|pre|..|pre| + |sep|] == sep; }
    forall j | |pre| < j ensures !OccursAt(s, sep, j) {
      // an occurrence there would end inside b, making its last character a character of b
      if j + |sep| <= |s| {
        var e := j + |sep| - 1;
        assert s[j..j + |sep|][|sep| - 1] == b[e - |pre| - |sep|];
      }
    }
  }

  /** A string sharing no character with a non-empty separator does not contain it. */
  lemma NoOccurrence(a: string, sep: string)
    requires |sep| > 0 && SharesNoChar(a, sep)
    ensures IndexOf(a, sep) == None && LastIndexOf(a, sep) == None
  {
    forall j ensures !OccursAt(a, sep, j) {
      if 0 <= j && j + |sep| <= |a| {
        assert a[j..j + |sep|][0] == a[j];
      }
    }
  }

  /** Invariant-culture case folding, restricted to ASCII letters. */
  function FoldChar(c: char): char
  {
    if 'A' <= c <= 'Z' then (c as int - 'A' as int + 'a' as int) as char else c
  }

  function Fold(s: string): (r: string)
    ensures |r| == |s| && forall i :: 0 <= i < |s| ==> r[i] == FoldChar(s[i])
  {
    seq(|s|, i requires 0 <= i < |s| => FoldChar(s[i]))
  }

  /** string.Equals with StringComparison.InvariantCultureIgnoreCase. */
  predicate EqualsIgnoreCase(a: string, b: string)
  {
    Fold(a) == Fold(b)
  }

  /** char.IsWhiteSpace: the Unicode White_Space characters. */
  predicate IsWhiteSpace(c: char)
  {
    || ('\U{0009}' <= c <= '\U{000D}') || c == '\U{0020}' || c == '\U{0085}' || c == '\U{00A0}' || c == '\U{1680}'
    || ('\U{2000}' <= c <= '\U{200A}') || c == '\U{2028}' || c == '\U{2029}' || c == '\U{202F}' || c == '\U{205F}'
    || c == '\U{3000}'
  }

  /** string.IsNullOrWhiteSpace, with null as None. */
  predicate IsNullOrWhiteSpace(s: Option<string>)
  {
    s.None? || forall i :: 0 <= i < |s.value| ==> IsWhiteSpace(s.value[i])
  }
}
