/** Python's `str.strip()`, `str.split(sep)` and `sep.join(pieces)` on strings of code points. */
module Text {
  import opened Wrappers

  /** The code points for which Python's `str.isspace()` holds; `str.strip()` with no argument removes them. */
  predicate IsSpace(c: char) {
    || ('\t' <= c <= '\r')
    || ('\U{1C}' <= c <= ' ')
    || c == '\U{85}' || c == '\U{A0}' || c == '\U{1680}'
    || ('\U{2000}' <= c <= '\U{200A}')
    || c == '\U{2028}' || c == '\U{2029}' || c == '\U{202F}' || c == '\U{205F}' || c == '\U{3000}'
  }

  predicate AllSpace(s: string) {
    forall i :: 0 <= i < |s| ==> IsSpace(s[i])
  }

  /** `s.lstrip()`: the longest suffix of `s` that does not start with whitespace. */
  function StripLeft(s: string): (r: string)
    ensures |r| <= |s| && r == s[|s| - |r|..]
    ensures AllSpace(s[..|s| - |r|])
    ensures r == [] || !IsSpace(r[0])
  {
    if s != [] && IsSpace(s[0]) then
      var r := StripLeft(s[1..]);
      DropFirstSpace(s, r);
      r
    else
      assert s[..0] == [];
      s
  }

  /** A suffix of `s[1..]` with only whitespace before it is a suffix of `s` with only whitespace before it. */
  lemma DropFirstSpace(s: string, r: string)
    requires s != [] && IsSpace(s[0])
    requires |r| <= |s| - 1 && r == s[1..][|s| - 1 - |r|..] && AllSpace(s[1..][..|s| - 1 - |r|])
    ensures r == s[|s| - |r|..] && AllSpace(s[..|s| - |r|])
  {
    assert s[1..][|s| - 1 - |r|..] == s[|s| - |r|..];
    assert s[..|s| - |r|] == [s[0]] + s[1..][..|s| - 1 - |r|];
  }

  /** `s.rstrip()`: the longest prefix of `s` that does not end with whitespace. */
  function StripRight(s: string): (r: string)
    ensures |r| <= |s| && r == s[..|r|]
    ensures AllSpace(s[|r|..])
    ensures r == [] || !IsSpace(r[|r| - 1])
  {
    if s != [] && IsSpace(s[|s| - 1]) then
      var r := StripRight(s[..|s| - 1]);
      DropLastSpace(s, r);
      r
    else
      assert s[|s|..] == [];
      s
  }

  /** A prefix of `s` without its last character, with only whitespace after it, is such a prefix of `s`. */
  lemma DropLastSpace(s: string, r: string)
    requires s != [] && IsSpace(s[|s| - 1])
    requires |r| <= |s| - 1 && r == s[..|s| - 1][..|r|] && AllSpace(s[..|s| - 1][|r|..])
    ensures r == s[..|r|] && AllSpace(s[|r|..])
  {
    assert s[..|s| - 1][..|r|] == s[..|r|];
    assert s[|r|..] == s[..|s| - 1][|r|..] + [s[|s| - 1]];
  }

  /** `s.strip()`: `s` without its leading and trailing whitespace. */
  function Strip(s: string): (r: string)
    ensures |r| <= |s|
    ensures r == [] || (!IsSpace(r[0]) && !IsSpace(r[|r| - 1]))
  {
    StripRight(StripLeft(s))
  }

  /** What `strip()` keeps is a slice of `s` with only whitespace before and after it. */
  lemma StripIsSlice(s: string)
    ensures var r := Strip(s);
      exists a :: 0 <= a <= |s| - |r| && r == s[a..a + |r|] && AllSpace(s[..a]) && AllSpace(s[a + |r|..])
  {
    var left := StripLeft(s);
    assert Strip(s) == StripRight(left);
    TwoSidedSlice(s, left, Strip(s));
  }

  /** A prefix of a suffix, each with only whitespace cut away, is a slice with only whitespace around it. */
  lemma TwoSidedSlice(s: string, left: string, r: string)
    requires |left| <= |s| && left == s[|s| - |left|..] && AllSpace(s[..|s| - |left|])
    requires |r| <= |left| && r == left[..|r|] && AllSpace(left[|r|..])
    ensures exists a :: 0 <= a <= |s| - |r| && r == s[a..a + |r|] && AllSpace(s[..a]) && AllSpace(s[a + |r|..])
  {
    var a := |s| - |left|;
    SliceOfSlice(s, a, left, r);
    assert 0 <= a <= |s| - |r| && r == s[a..a + |r|] && AllSpace(s[..a]) && AllSpace(s[a + |r|..]);
  }

  /** A prefix of a suffix of `s` is a slice of `s`, and what follows it in the suffix follows it in `s`. */
  lemma SliceOfSlice(s: string, a: nat, left: string, r: string)
    requires a <= |s| && left == s[a..] && |r| <= |left| && r == left[..|r|]
    requires AllSpace(left[|r|..])
    ensures r == s[a..a + |r|] && AllSpace(s[a + |r|..])
  {
    assert s[a + |r|..] == left[|r|..];
  }

  lemma {:induction false} StripLeftPadded(u: string, s: string)
    requires AllSpace(u)
    ensures StripLeft(u + s) == StripLeft(s)
    decreases |u|
  {
    if u != [] {
      assert IsSpace(u[0]) && (u + s)[0] == u[0];
      assert (u + s)[1..] == u[1..] + s;
      assert StripLeft(u + s) == StripLeft(u[1..] + s);
      assert AllSpace(u[1..]);
      StripLeftPadded(u[1..], s);
    } else {
      assert u + s == s;
    }
  }

  lemma {:induction false} StripRightPadded(s: string, v: string)
    requires AllSpace(v)
    ensures StripRight(s + v) == StripRight(s)
    decreases |v|
  {
    if v != [] {
      assert IsSpace(v[|v| - 1]) && (s + v)[|s + v| - 1] == v[|v| - 1];
      assert (s + v)[..|s + v| - 1] == s + v[..|v| - 1];
      assert StripRight(s + v) == StripRight(s + v[..|v| - 1]);
      assert AllSpace(v[..|v| - 1]);
      StripRightPadded(s, v[..|v| - 1]);
    } else {
      assert s + v == s;
    }
  }

  /** Removing whitespace padding changes nothing that `strip()` keeps. */
  lemma StripPadded(u: string, s: string, v: string)
    requires AllSpace(u) && AllSpace(v)
    ensures Strip(u + s + v) == Strip(s)
  {
    var sv := s + v;
    assert u + s + v == u + sv;
    StripLeftPadded(u, sv);
    StripTrailingPad(s, v);
  }

  /** Whitespace after `s` is gone once both ends of `s + v` are stripped. */
  lemma StripTrailingPad(s: string, v: string)
    requires AllSpace(v)
    ensures StripRight(StripLeft(s + v)) == StripRight(StripLeft(s))
  {
    var left := StripLeft(s);
    if left == [] {
      assert AllSpace(s) by { assert s[..|s| - |left|] == s; }
      StripLeftPadded(s, v);
      StripLeftAllSpace(v);
    } else {
      StripLeftKeepsTail(s, v);
      StripRightPadded(left, v);
    }
  }

  lemma {:induction false} StripLeftAllSpace(s: string)
    requires AllSpace(s)
    ensures StripLeft(s) == []
    decreases |s|
  {
    if s != [] {
      StripLeftAllSpace(s[1..]);
    }
  }

  lemma {:induction false} StripLeftKeepsTail(s: string, v: string)
    requires StripLeft(s) != []
    ensures StripLeft(s + v) == StripLeft(s) + v
    decreases |s|
  {
    assert s != [] && (s + v)[0] == s[0];
    if IsSpace(s[0]) {
      assert (s + v)[1..] == s[1..] + v;
      assert StripLeft(s) == StripLeft(s[1..]);
      StripLeftKeepsTail(s[1..], v);
    } else {
      assert StripLeft(s) == s;
    }
  }

  /** `p` occurs in `s` starting at position `k`. */
  predicate OccursAt(s: string, p: string, k: nat) {
    k + |p| <= |s| && s[k..k + |p|] == p
  }

  /** Python's `p in s`. */
  ghost predicate Contains(s: string, p: string) {
    exists k: nat :: OccursAt(s, p, k)
  }

  /** `s.find(p)`, with `None` for -1: the first position at which `p` occurs in `s`. */
  function Find(s: string, p: string): (r: Option<nat>)
    ensures r.Some? ==> OccursAt(s, p, r.value)
    ensures r.Some? ==> forall k: nat :: k < r.value ==> !OccursAt(s, p, k)
    ensures r.None? ==> forall k: nat :: !OccursAt(s, p, k)
    decreases |s|
  {
    if |s| < |p| then None
    else if s[..|p|] == p then Some(0)
    else
      var rest := Find(s[1..], p);
      ShiftOccurrence(s, p);
      assert !OccursAt(s, p, 0) by { assert s[0..|p|] == s[..|p|]; }
      match rest
      case None => None
      case Some(k) => Some(k + 1)
  }

  lemma ShiftOccurrence(s: string, p: string)
    requires s != []
    ensures forall k: nat :: 1 <= k ==> (OccursAt(s, p, k) <==> OccursAt(s[1..], p, k - 1))
  {
    forall k: nat | 1 <= k ensures OccursAt(s, p, k) <==> OccursAt(s[1..], p, k - 1) {
      if k + |p| <= |s| {
        assert s[1..][k - 1..k - 1 + |p|] == s[k..k + |p|];
      }
    }
  }

  /** `s.split(sep)`: the pieces between the non-overlapping occurrences of `sep`, found left to right. */
  function Split(s: string, sep: string): (pieces: seq<string>)
    requires sep != []
    ensures |pieces| >= 1
    ensures forall i :: 0 <= i < |pieces| ==> !Contains(pieces[i], sep)
    decreases |s|
  {
    match Find(s, sep)
    case None => [s]
    case Some(k) =>
      NoOccurrenceInPrefix(s, sep, k);
      [s[..k]] + Split(s[k + |sep|..], sep)
  }

  /**
   * `s.split(sep)[0]`: `s` up to the first occurrence of `sep`, or all of `s` when `sep` does not
   * occur; `sep` starts right after it and nowhere before.
   */
  function FirstPiece(s: string, sep: string): (r: string)
    ensures |r| <= |s| && r == s[..|r|]
    ensures !Contains(s, sep) ==> r == s
    ensures Contains(s, sep) ==> OccursAt(s, sep, |r|) && forall k: nat :: k < |r| ==> !OccursAt(s, sep, k)
  {
    match Find(s, sep)
    case None => s
    case Some(k) => s[..k]
  }

  /** The text after the first occurrence of `sep` in `s`; `sep` must occur. */
  function AfterFirst(s: string, sep: string): (r: string)
    requires Contains(s, sep)
    ensures |r| + |sep| <= |s| && s[..|s| - |r|] == FirstPiece(s, sep) + sep && r == s[|s| - |r|..]
  {
    var k := Find(s, sep).value;
    assert s[..k + |sep|] == s[..k] + s[k..k + |sep|];
    s[k + |sep|..]
  }

  /** The first two pieces of `s.split(sep)` are the text before the first `sep` and the text between the first two. */
  lemma SplitPieces(s: string, sep: string)
    requires sep != []
    ensures Split(s, sep)[0] == FirstPiece(s, sep)
    ensures |Split(s, sep)| >= 2 ==> Contains(s, sep) && Split(s, sep)[1] == FirstPiece(AfterFirst(s, sep), sep)
  {
    match Find(s, sep)
    case None =>
      SplitUnfold(s, sep);
    case Some(k) =>
      var rest := s[k + |sep|..];
      SplitUnfold(s, sep);
      assert Contains(s, sep) by { assert OccursAt(s, sep, k); }
      assert AfterFirst(s, sep) == rest;
      SplitUnfold(rest, sep);
  }

  /** One step of `split`: the piece before the first separator, then the split of what follows it. */
  lemma SplitUnfold(s: string, sep: string)
    requires sep != []
    ensures Find(s, sep).None? ==> Split(s, sep) == [s]
    ensures Find(s, sep).Some? ==>
      var k := Find(s, sep).value;
      Split(s, sep) == [s[..k]] + Split(s[k + |sep|..], sep)
  {
  }

  lemma NoOccurrenceInPrefix(s: string, p: string, k: nat)
    requires p != [] && k <= |s|
    requires forall j: nat :: j < k ==> !OccursAt(s, p, j)
    ensures !Contains(s[..k], p)
  {
    forall j: nat ensures !OccursAt(s[..k], p, j) {
      if j + |p| <= k {
        assert s[..k][j..j + |p|] == s[j..j + |p|];
        assert !OccursAt(s, p, j);
      }
    }
  }

  /** `sep.join(pieces)`. */
  function Join(pieces: seq<string>, sep: string): string {
    if pieces == [] then ""
    else if |pieces| == 1 then pieces[0]
    else pieces[0] + sep + Join(pieces[1..], sep)
  }

  /** Splitting loses nothing: joining the pieces with the separator gives the string back. */
  lemma {:induction false} SplitJoin(s: string, sep: string)
    requires sep != []
    ensures Join(Split(s, sep), sep) == s
    decreases |s|
  {
    var f := Find(s, sep);
    if f.Some? {
      var k := f.value;
      var rest := s[k + |sep|..];
      SplitJoin(rest, sep);
      assert Split(s, sep) == [s[..k]] + Split(rest, sep);
      JoinCons(s[..k], Split(rest, sep), sep);
      assert OccursAt(s, sep, k);
      Reassemble(s, k, k + |sep|);
    } else {
      assert Split(s, sep) == [s];
    }
  }

  lemma Reassemble(s: string, i: nat, j: nat)
    requires i <= j <= |s|
    ensures s == s[..i] + s[i..j] + s[j..]
  {
  }

  lemma JoinCons(head: string, tail: seq<string>, sep: string)
    requires tail != []
    ensures Join([head] + tail, sep) == head + sep + Join(tail, sep)
  {
    assert ([head] + tail)[1..] == tail;
  }

  /** When `a + sep` holds `sep` only at its end, `sep` splits off exactly `a`. */
  lemma SplitAtFirst(a: string, sep: string, b: string)
    requires sep != []
    requires forall k: nat :: k < |a| ==> !OccursAt(a + sep + b, sep, k)
    ensures Split(a + sep + b, sep) == [a] + Split(b, sep)
  {
    var s := a + sep + b;
    assert OccursAt(s, sep, |a|) by {
      assert s[|a|..|a| + |sep|] == sep;
    }
    var f := Find(s, sep);
    assert f == Some(|a|);
    assert s[..|a|] == a;
    assert s[|a| + |sep|..] == b;
  }

  /** `s.split(sep)` has a second piece exactly when `sep` occurs in `s`, and otherwise it is `[s]`. */
  lemma SplitHasSecondPiece(s: string, sep: string)
    requires sep != []
    ensures |Split(s, sep)| >= 2 <==> Contains(s, sep)
    ensures !Contains(s, sep) ==> Split(s, sep) == [s]
  {
    var f := Find(s, sep);
    if f.Some? {
      assert OccursAt(s, sep, f.value);
      assert |Split(s, sep)| == 1 + |Split(s[f.value + |sep|..], sep)|;
    } else {
      assert Split(s, sep) == [s];
    }
  }

  /** A window of `s` that covers a character that `p` does not contain is not an occurrence of `p`. */
  lemma BlockedBy(s: string, p: string, j: nat, k: nat)
    requires j < |s| && s[j] !in p
    requires k <= j < k + |p|
    ensures !OccursAt(s, p, k)
  {
    if k + |p| <= |s| {
      assert s[k..k + |p|][j - k] == s[j];
      assert p[j - k] in p;
    }
  }

  /** No occurrence of `p` in `a + b` crosses the seam when `b` starts with a character `p` does not contain. */
  lemma NoneAcrossSeam(a: string, b: string, p: string)
    requires !Contains(a, p) && !Contains(b, p)
    requires b != [] && b[0] !in p
    ensures !Contains(a + b, p)
  {
    var s := a + b;
    forall k: nat ensures !OccursAt(s, p, k) {
      if k + |p| <= |a| {
        assert s[k..k + |p|] == a[k..k + |p|];
        assert !OccursAt(a, p, k);
      } else if k >= |a| {
        if k + |p| <= |s| {
          assert s[k..k + |p|] == b[k - |a|..k - |a| + |p|];
          assert !OccursAt(b, p, k - |a|);
        }
      } else {
        BlockedBy(s, p, |a|, k);
      }
    }
  }

  /** The same, when `a` ends with a character `p` does not contain. */
  lemma NoneAcrossSeamLeft(a: string, b: string, p: string)
    requires !Contains(a, p) && !Contains(b, p)
    requires a != [] && a[|a| - 1] !in p
    ensures !Contains(a + b, p)
  {
    var s := a + b;
    forall k: nat ensures !OccursAt(s, p, k) {
      if k + |p| <= |a| {
        assert s[k..k + |p|] == a[k..k + |p|];
        assert !OccursAt(a, p, k);
      } else if k >= |a| {
        if k + |p| <= |s| {
          assert s[k..k + |p|] == b[k - |a|..k - |a| + |p|];
          assert !OccursAt(b, p, k - |a|);
        }
      } else {
        BlockedBy(s, p, |a| - 1, k);
      }
    }
  }

  /** A string none of whose characters occur in `p` does not contain a non-empty `p`. */
  lemma NoSharedChar(s: string, p: string)
    requires p != []
    requires forall i :: 0 <= i < |s| ==> s[i] !in p
    ensures !Contains(s, p)
  {
    forall k: nat ensures !OccursAt(s, p, k) {
      if k < |s| {
        BlockedBy(s, p, k, k);
      }
    }
  }
  /**
   * A string with a character `p` lacks, early enough that every window over it starting at or
   * before it covers it, and no `p[0]` after it, does not contain `p`.
   */
  lemma LiteralFree(s: string, p: string, j: nat)
    requires p != [] && j < |s| && j < |p|
    requires s[j] !in p && p[0] !in s[j + 1..]
    ensures !Contains(s, p)
  {
    forall k: nat ensures !OccursAt(s, p, k) {
      if k <= j {
        BlockedBy(s, p, j, k);
      } else if k + |p| <= |s| {
        assert s[k] == s[j + 1..][k - j - 1];
        assert s[k..k + |p|][0] == s[k];
      }
    }
  }

  /**
   * `x + y` does not contain `p` when neither part does and `x` has a character `p` lacks with no
   * `p[0]` after it: a window across the seam would have to start after that character.
   */
  lemma SeamFree(x: string, y: string, p: string, j: nat)
    requires p != [] && !Contains(x, p) && !Contains(y, p)
    requires j < |x| && x[j] !in p && p[0] !in x[j + 1..]
    ensures !Contains(x + y, p)
  {
    var s := x + y;
    forall k: nat ensures !OccursAt(s, p, k) {
      if k + |p| <= |x| {
        assert s[k..k + |p|] == x[k..k + |p|];
        assert !OccursAt(x, p, k);
      } else if k >= |x| {
        if k + |p| <= |s| {
          assert s[k..k + |p|] == y[k - |x|..k - |x| + |p|];
          assert !OccursAt(y, p, k - |x|);
        }
      } else if k <= j {
        BlockedBy(s, p, j, k);
      } else if k + |p| <= |s| {
        assert s[k] == x[j + 1..][k - j - 1];
        assert s[k..k + |p|][0] == s[k];
      }
    }
  }

  /**
   * In `a + sep + b`, the first occurrence of `sep` is the one after `a` when `a` does not contain
   * `sep` and its last `|sep| - 1` characters hold no `sep[0]`.
   */
  lemma NoEarlyOccurrence(a: string, sep: string, b: string, j: nat)
    requires sep != [] && !Contains(a, sep)
    requires j <= |a| && |a| - j >= |sep| - 1 && sep[0] !in a[j..]
    ensures forall k: nat :: k < |a| ==> !OccursAt(a + sep + b, sep, k)
  {
    var s := a + sep + b;
    forall k: nat | k < |a| ensures !OccursAt(s, sep, k) {
      if k + |sep| <= |a| {
        assert s[k..k + |sep|] == a[k..k + |sep|];
        assert !OccursAt(a, sep, k);
      } else {
        assert s[k] == a[j..][k - j];
        assert s[k..k + |sep|][0] == s[k];
      }
    }
  }

  /**
   * In `a + sep + b`, the first occurrence of `sep` is the one after `a` when `a` does not contain
   * `sep` and the first character of `sep` does not recur in it, so no occurrence straddles the seam.
   */
  lemma NoEarlyOccurrenceOfUniqueHead(a: string, sep: string, b: string)
    requires sep != [] && !Contains(a, sep)
    requires forall i :: 0 < i < |sep| ==> sep[i] != sep[0]
    ensures forall k: nat :: k < |a| ==> !OccursAt(a + sep + b, sep, k)
  {
    var s := a + sep + b;
    forall k: nat | k < |a| ensures !OccursAt(s, sep, k) {
      if k + |sep| <= |a| {
        assert s[k..k + |sep|] == a[k..k + |sep|];
        assert !OccursAt(a, sep, k);
      } else if k + |sep| <= |s| {
        assert s[k..k + |sep|][|a| - k] == s[|a|] == sep[0];
      }
    }
  }

  /** A string that lacks a prefix `q` of `p` lacks `p` too. */
  lemma PrefixFree(s: string, p: string, q: string)
    requires |q| <= |p| && q == p[..|q|] && !Contains(s, q)
    ensures !Contains(s, p)
  {
    forall k: nat ensures !OccursAt(s, p, k) {
      if k + |p| <= |s| {
        assert s[k..k + |q|] == s[k..k + |p|][..|q|];
        assert !OccursAt(s, q, k);
      }
    }
  }

  /** A slice of a string that does not contain `p` does not contain it either. */
  lemma SliceFree(s: string, p: string, a: nat, b: nat)
    requires a <= b <= |s| && !Contains(s, p)
    ensures !Contains(s[a..b], p)
  {
    forall k: nat ensures !OccursAt(s[a..b], p, k) {
      if k + |p| <= b - a {
        var x, y := s[a..b][k..k + |p|], s[a + k..a + k + |p|];
        assert forall i :: 0 <= i < |x| ==> x[i] == y[i];
        assert x == y;
        assert !OccursAt(s, p, a + k);
      }
    }
  }

  /** Stripping a string that does not contain `p` leaves a string that does not contain `p`. */
  lemma StripFree(s: string, p: string)
    requires !Contains(s, p)
    ensures !Contains(Strip(s), p)
  {
    var left := StripLeft(s);
    SliceFree(s, p, |s| - |left|, |s|);
    assert s[|s| - |left|..|s|] == left;
    SliceFree(left, p, 0, |StripRight(left)|);
    assert left[0..|StripRight(left)|] == StripRight(left);
  }

  /**
   * `x + lit + y` does not contain `p` when none of the three does, `lit` starts with a character
   * `p` lacks, and `lit` has a later character `p` lacks with no `p[0]` after it.
   */
  lemma LiteralBetween(x: string, lit: string, y: string, p: string, j: nat)
    requires p != [] && !Contains(x, p) && !Contains(lit, p) && !Contains(y, p)
    requires lit != [] && lit[0] !in p
    requires j < |lit| && lit[j] !in p && p[0] !in lit[j + 1..]
    ensures !Contains(x + lit + y, p)
  {
    NoneAcrossSeam(x, lit, p);
    var s := x + lit;
    assert s[|x| + j] == lit[j] && s[|x| + j + 1..] == lit[j + 1..];
    SeamFree(s, y, p, |x| + j);
  }

  /** A string shorter than `p` does not contain it. */
  lemma ShortFree(s: string, p: string)
    requires |s| < |p|
    ensures !Contains(s, p)
  {
    forall k: nat ensures !OccursAt(s, p, k) {
    }
  }

  /** Every occurrence of `p` starts with `p[0]`, so a string without that character lacks `p`. */
  lemma FirstCharAbsent(s: string, p: string)
    requires p != [] && p[0] !in s
    ensures !Contains(s, p)
  {
    forall k: nat ensures !OccursAt(s, p, k) {
      if k + |p| <= |s| {
        assert s[k..k + |p|][0] == s[k];
      }
    }
  }
}
