/**
 * The few JavaScript string operations the application relies on, over
 * `string` = `seq<char>`; a `char` is a Unicode scalar value, so lengths count characters.
 */
module JsString {
  import opened Wrappers

  /** The code points `String.prototype.trim` strips: ECMAScript WhiteSpace and LineTerminator. */
  predicate IsTrimSpace(c: char) {
    || c == '\t' || c == '\n' || c == '\U{000B}' || c == '\U{000C}' || c == '\r' || c == ' '
    || c == '\U{00A0}' || c == '\U{1680}' || ('\U{2000}' <= c <= '\U{200A}')
    || c == '\U{2028}' || c == '\U{2029}' || c == '\U{202F}' || c == '\U{205F}'
    || c == '\U{3000}' || c == '\U{FEFF}'
  }

  /** The strippable set as a predicate value. */
  function TrimSpace(): char -> bool {
    c => IsTrimSpace(c)
  }

  /** `s` has no strippable code point at either end. */
  predicate IsTrimmed(s: string) {
    s == [] || (!IsTrimSpace(s[0]) && !IsTrimSpace(s[|s| - 1]))
  }

  /** `r` is the infix of `s` at offset `i`, and everything around it satisfies `p`. */
  ghost predicate SurroundedAt<T>(s: seq<T>, r: seq<T>, i: int, p: T -> bool) {
    && 0 <= i <= |s| - |r| && (forall k :: 0 <= k < |r| ==> r[k] == s[i + k])
    && (forall k :: 0 <= k < i ==> p(s[k]))
    && (forall k :: i + |r| <= k < |s| ==> p(s[k]))
  }

  /** How many leading elements of `s` satisfy `p`. */
  function LeadingCount<T>(s: seq<T>, p: T -> bool): (n: nat)
    ensures n <= |s| && (forall k :: 0 <= k < n ==> p(s[k])) && (n == |s| || !p(s[n]))
    decreases |s|
  {
    if s != [] && p(s[0]) then
      var n := LeadingCount(s[1..], p);
      assert forall k :: 1 <= k < n + 1 ==> s[k] == s[1..][k - 1];
      n + 1
    else
      0
  }

  /** Where the run of trailing elements of `s` that satisfy `p` begins. */
  function TrailingStart<T>(s: seq<T>, p: T -> bool): (n: nat)
    ensures n <= |s| && (forall k :: n <= k < |s| ==> p(s[k])) && (n == 0 || !p(s[n - 1]))
    decreases |s|
  {
    if s != [] && p(s[|s| - 1]) then TrailingStart(s[..|s| - 1], p) else |s|
  }

  /** `String.prototype.trim`. */
  function Trim(s: string): (r: string)
    ensures IsTrimmed(r) && |r| <= |s|
  {
    var i := LeadingCount(s, TrimSpace());
    var j := TrailingStart(s, TrimSpace());
    if i == |s| then "" else assert i < j; s[i..j]
  }

  /** What `trim` removes: a strippable run at each end and nothing else. */
  lemma TrimIsInfix(s: string) returns (i: nat)
    ensures SurroundedAt(s, Trim(s), i, TrimSpace())
  {
    i := LeadingCount(s, TrimSpace());
  }

  lemma TrimOfTrimmed(s: string)
    requires IsTrimmed(s)
    ensures Trim(s) == s
  {
    if s != [] {
      assert LeadingCount(s, TrimSpace()) == 0;
      assert TrailingStart(s, TrimSpace()) == |s|;
    }
  }

  lemma TrimIdempotent(s: string)
    ensures Trim(Trim(s)) == Trim(s)
  {
    TrimOfTrimmed(Trim(s));
  }

  /** ASCII-only `toLowerCase` on one character. */
  function LowerChar(c: char): char {
    if 'A' <= c <= 'Z' then (c as int + 32) as char else c
  }

  /** ASCII-only `String.prototype.toLowerCase`. */
  function Lower(s: string): (r: string)
    ensures |r| == |s|
    ensures forall k :: 0 <= k < |s| ==> r[k] == LowerChar(s[k])
  {
    if s == [] then [] else [LowerChar(s[0])] + Lower(s[1..])
  }

  lemma LowerIdempotent(s: string)
    ensures Lower(Lower(s)) == Lower(s)
  {
  }

  /** JavaScript `startsWith`: `p` is a prefix of `s`. */
  predicate StartsWith(s: string, p: string) {
    |p| <= |s| && s[..|p|] == p
  }

  /** `sub` occurs in `s` at offset `i`. */
  ghost predicate OccursAt(s: string, sub: string, i: int) {
    0 <= i && i + |sub| <= |s| && s[i..i + |sub|] == sub
  }

  /** JavaScript `includes`, computed by trying every offset from the left. */
  function Contains(s: string, sub: string): (r: bool)
    ensures r <==> exists i :: OccursAt(s, sub, i)
    decreases |s|
  {
    if StartsWith(s, sub) then
      assert OccursAt(s, sub, 0);
      true
    else if |s| == 0 then
      false
    else
      OccursShift(s, sub);
      Contains(s[1..], sub)
  }

  /** Occurrences in `s[1..]` are the occurrences in `s` past offset 0, shifted by one. */
  lemma OccursShift(s: string, sub: string)
    requires |s| > 0
    ensures forall i :: OccursAt(s[1..], sub, i) ==> OccursAt(s, sub, i + 1)
    ensures forall i :: OccursAt(s, sub, i) ==> i == 0 || OccursAt(s[1..], sub, i - 1)
  {
    forall i | OccursAt(s[1..], sub, i)
      ensures OccursAt(s, sub, i + 1)
    {
      SliceOfTail(s, i + 1, i + 1 + |sub|);
    }
    forall i | OccursAt(s, sub, i) && i > 0
      ensures OccursAt(s[1..], sub, i - 1)
    {
      SliceOfTail(s, i, i + |sub|);
    }
  }

  /** A slice of the tail is the slice of the whole shifted by one. */
  lemma SliceOfTail<T>(s: seq<T>, i: int, j: int)
    requires 1 <= i <= j <= |s|
    ensures s[1..][i - 1..j - 1] == s[i..j]
  {
    var a, b := s[1..][i - 1..j - 1], s[i..j];
    forall k | 0 <= k < |a|
      ensures a[k] == b[k]
    {
    }
  }

  /** Some string of `subs` occurs in `s`. */
  predicate ContainsAny(s: string, subs: seq<string>)
    decreases |subs|
  {
    subs != [] && (Contains(s, subs[0]) || ContainsAny(s, subs[1..]))
  }

  /** `ContainsAny` holds exactly when one of the candidates occurs somewhere in `s`. */
  lemma {:induction false} ContainsAnyMeans(s: string, subs: seq<string>)
    ensures ContainsAny(s, subs) <==> exists k, i :: 0 <= k < |subs| && OccursAt(s, subs[k], i)
    decreases |subs|
  {
    if subs != [] {
      ContainsAnyMeans(s, subs[1..]);
      assert forall k :: 1 <= k < |subs| ==> subs[1..][k - 1] == subs[k];
      if exists k, i :: 0 <= k < |subs| && OccursAt(s, subs[k], i) {
        var k, i :| 0 <= k < |subs| && OccursAt(s, subs[k], i);
        if k > 0 {
          assert OccursAt(s, subs[1..][k - 1], i);
        }
      }
    }
  }

  /** JavaScript truthiness of an optional string: present and non-empty. */
  predicate Truthy(o: Option<string>) {
    o.Some? && o.value != ""
  }

  /** JavaScript `||` on optional strings: `a` when it is present and non-empty, else `b`. */
  function Or(a: Option<string>, b: Option<string>): (r: Option<string>)
    ensures Truthy(r) <==> Truthy(a) || Truthy(b)
    ensures Truthy(a) ==> r == a
    ensures !Truthy(a) ==> r == b
  {
    if Truthy(a) then a else b
  }

  /** JavaScript `||` on strings: the first one when it is non-empty, else the second. */
  function OrElse(s: string, d: string): string {
    if s != "" then s else d
  }

  /** JavaScript `split` with a one-character separator. */
  function Split(s: string, sep: char): (r: seq<string>)
    ensures |r| >= 1
    ensures forall k :: 0 <= k < |r| ==> sep !in r[k]
    decreases |s|
  {
    if s == [] then [""]
    else
      var rest := Split(s[1..], sep);
      if s[0] == sep then [""] + rest else [[s[0]] + rest[0]] + rest[1..]
  }

  /** The first piece of a split is the input up to the first separator. */
  lemma {:induction false} SplitHead(s: string, sep: char)
    ensures StartsWith(s, Split(s, sep)[0])
    ensures sep !in s ==> Split(s, sep)[0] == s
    ensures forall k :: 0 <= k < |s| && s[k] == sep ==> |Split(s, sep)[0]| <= k
    ensures |Split(s, sep)[0]| < |s| ==> s[|Split(s, sep)[0]|] == sep
    decreases |s|
  {
    if s != [] {
      SplitHead(s[1..], sep);
      if s[0] != sep && |Split(s, sep)[0]| < |s| {
        var h := Split(s[1..], sep)[0];
        assert Split(s, sep)[0] == [s[0]] + h;
        assert s[1..][|h|] == sep;
      }
      forall k | 1 <= k < |s| && s[k] == sep
        ensures |Split(s, sep)[0]| <= k
      {
        assert s[1..][k - 1] == sep;
      }
      if s[0] != sep {
        assert s == [s[0]] + s[1..];
      }
    }
  }

  /** JavaScript `join`: the pieces with `sep` between neighbours. */
  function Join(xs: seq<string>, sep: string): string
    decreases |xs|
  {
    if |xs| == 0 then ""
    else if |xs| == 1 then xs[0]
    else xs[0] + sep + Join(xs[1..], sep)
  }

  /** JavaScript `split` with a separator of any non-zero length: cut at each leftmost occurrence. */
  function SplitOn(s: string, sep: string): (r: seq<string>)
    requires |sep| > 0
    ensures |r| >= 1
    decreases |s|
  {
    if |s| < |sep| then [s]
    else if s[..|sep|] == sep then [""] + SplitOn(s[|sep|..], sep)
    else
      var rest := SplitOn(s[1..], sep);
      [[s[0]] + rest[0]] + rest[1..]
  }

  /** Splitting on a character and joining with it again gives back the input. */
  lemma {:induction false} JoinSplit(s: string, sep: char)
    ensures Join(Split(s, sep), [sep]) == s
    decreases |s|
  {
    if s != [] {
      var rest := Split(s[1..], sep);
      JoinSplit(s[1..], sep);
      if s[0] == sep {
        assert Split(s, sep) == [""] + rest;
      } else {
        var r := Split(s, sep);
        assert r == [[s[0]] + rest[0]] + rest[1..];
        if |rest| == 1 {
          assert Join(r, [sep]) == [s[0]] + rest[0];
        } else {
          assert r[1..] == rest[1..];
          assert Join(r, [sep]) == [s[0]] + rest[0] + [sep] + Join(rest[1..], [sep]);
        }
      }
    }
  }

  /** A piece free of the separator's first character passes through `Split` whole. */
  lemma {:induction false} SplitPrefix(x: string, t: string, sep: char)
    requires sep !in x
    ensures Split(x + t, sep) == [x + Split(t, sep)[0]] + Split(t, sep)[1..]
    decreases |x|
  {
    if x != [] {
      SplitPrefix(x[1..], t, sep);
      var s := x + t;
      assert s[1..] == x[1..] + t;
      assert s[0] == x[0] != sep;
      var rest := Split(s[1..], sep);
      assert Split(s, sep) == [[s[0]] + rest[0]] + rest[1..];
      assert [x[0]] + (x[1..] + Split(t, sep)[0]) == x + Split(t, sep)[0];
    } else {
      assert x + t == t;
      assert x + Split(t, sep)[0] == Split(t, sep)[0];
      assert Split(t, sep) == [Split(t, sep)[0]] + Split(t, sep)[1..];
    }
  }

  lemma {:induction false} SplitOnPrefix(x: string, t: string, sep: string)
    requires |sep| > 0 && sep[0] !in x
    ensures SplitOn(x + t, sep) == [x + SplitOn(t, sep)[0]] + SplitOn(t, sep)[1..]
    decreases |x|
  {
    if x != [] {
      var s := x + t;
      SplitOnPrefix(x[1..], t, sep);
      assert s[1..] == x[1..] + t;
      var rest := SplitOn(s[1..], sep);
      if |s| >= |sep| {
        assert s[0] == x[0] != sep[0];
        assert s[..|sep|] != sep;
        assert SplitOn(s, sep) == [[s[0]] + rest[0]] + rest[1..];
        assert [x[0]] + (x[1..] + SplitOn(t, sep)[0]) == x + SplitOn(t, sep)[0];
      } else {
        assert |t| < |sep|;
        assert SplitOn(t, sep) == [t];
        assert SplitOn(s, sep) == [s];
      }
    } else {
      assert x + t == t;
      assert x + SplitOn(t, sep)[0] == SplitOn(t, sep)[0];
      assert SplitOn(t, sep) == [SplitOn(t, sep)[0]] + SplitOn(t, sep)[1..];
    }
  }

  /**
   * Joining pieces that are free of the separator's first character and
   * splitting the result on the same separator gives the pieces back.
   */
  lemma {:induction false} SplitOnJoin(xs: seq<string>, sep: string)
    requires |sep| > 0 && |xs| > 0
    requires forall k :: 0 <= k < |xs| ==> sep[0] !in xs[k]
    ensures SplitOn(Join(xs, sep), sep) == xs
    decreases |xs|
  {
    if |xs| == 1 {
      SplitOnPrefix(xs[0], "", sep);
      assert SplitOn("", sep) == [""];
      assert xs[0] + "" == xs[0];
      assert Join(xs, sep) == xs[0];
      assert xs == [xs[0]];
    } else {
      var j := Join(xs[1..], sep);
      SplitOnJoin(xs[1..], sep);
      assert (sep + j)[..|sep|] == sep;
      assert (sep + j)[|sep|..] == j;
      assert SplitOn(sep + j, sep) == [""] + xs[1..];
      SplitOnPrefix(xs[0], sep + j, sep);
      assert Join(xs, sep) == xs[0] + (sep + j);
      assert xs[0] + "" == xs[0];
      assert ([""] + xs[1..])[0] == "" && ([""] + xs[1..])[1..] == xs[1..];
      assert xs == [xs[0]] + xs[1..];
    }
  }

  lemma OccursInLeft(a: string, b: string, sub: string, i: int)
    requires OccursAt(a, sub, i)
    ensures OccursAt(a + b, sub, i)
  {
    assert (a + b)[i..i + |sub|] == a[i..i + |sub|];
  }

  lemma OccursInRight(a: string, b: string, sub: string, i: int)
    requires OccursAt(b, sub, i)
    ensures OccursAt(a + b, sub, |a| + i)
  {
    assert (a + b)[|a| + i..|a| + i + |sub|] == b[i..i + |sub|];
  }

  /** Every piece of a join occurs in the joined string. */
  lemma {:induction false} JoinContainsPieces(xs: seq<string>, sep: string)
    ensures forall k :: 0 <= k < |xs| ==> Contains(Join(xs, sep), xs[k])
    decreases |xs|
  {
    if |xs| == 1 {
      assert OccursAt(xs[0], xs[0], 0);
    } else if |xs| > 1 {
      var rest := Join(xs[1..], sep);
      JoinContainsPieces(xs[1..], sep);
      assert Join(xs, sep) == xs[0] + (sep + rest);
      assert OccursAt(xs[0], xs[0], 0);
      OccursInLeft(xs[0], sep + rest, xs[0], 0);
      forall k | 1 <= k < |xs|
        ensures Contains(Join(xs, sep), xs[k])
      {
        assert xs[1..][k - 1] == xs[k];
        var i :| OccursAt(rest, xs[k], i);
        OccursInRight(sep, rest, xs[k], i);
        OccursInRight(xs[0], sep + rest, xs[k], |sep| + i);
      }
    }
  }
}
