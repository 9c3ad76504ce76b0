/** The string operations of the source, on sequences of Unicode characters. */
module Text {

  datatype Option<+T> = None | Some(value: T)

  /** `str.isspace` of one character; also what `\s` matches in a pattern. */
  predicate IsSpace(c: char) {
    || '\t' <= c <= '\r' || '\U{1C}' <= c <= ' ' || c == '\U{85}' || c == '\U{A0}'
    || c == '\U{1680}' || '\U{2000}' <= c <= '\U{200A}' || c == '\U{2028}' || c == '\U{2029}'
    || c == '\U{202F}' || c == '\U{205F}' || c == '\U{3000}'
  }

  function LStrip(s: string): string {
    if s != [] && IsSpace(s[0]) then LStrip(s[1..]) else s
  }

  function RStrip(s: string): string {
    if s != [] && IsSpace(s[|s| - 1]) then RStrip(s[..|s| - 1]) else s
  }

  function Strip(s: string): string {
    RStrip(LStrip(s))
  }

  predicate EndsWith(s: string, suffix: string) {
    |suffix| <= |s| && s[|s| - |suffix|..] == suffix
  }

  /** `s[:n]`. */
  function Take(s: string, n: nat): string {
    if |s| <= n then s else s[..n]
  }

  function Join(parts: seq<string>): string {
    if parts == [] then [] else parts[0] + Join(parts[1..])
  }

  function ToLower(c: char): char {
    if 'A' <= c <= 'Z' then c - 'A' + 'a' else c
  }

  function ToUpper(c: char): char {
    if 'a' <= c <= 'z' then c - 'a' + 'A' else c
  }

  function Lower(s: string): (r: string)
    ensures |r| == |s| && forall i :: 0 <= i < |s| ==> r[i] == ToLower(s[i])
  {
    if s == [] then [] else [ToLower(s[0])] + Lower(s[1..])
  }

  /** No whitespace at either end. */
  predicate Trimmed(s: string) {
    s == [] || (!IsSpace(s[0]) && !IsSpace(s[|s| - 1]))
  }

  ghost predicate IsPiece(p: string, s: string) {
    exists i, j :: 0 <= i <= j <= |s| && p == s[i..j]
  }

  lemma SliceOfSlice(s: string, k: nat, l: nat, i: nat, j: nat)
    requires i <= j <= l - k && k <= l <= |s|
    ensures s[k..l][i..j] == s[k + i..k + j]
  {
    var a, b := s[k..l][i..j], s[k + i..k + j];
    assert |a| == |b|;
    assert forall x :: 0 <= x < |a| ==> a[x] == s[k..l][i + x] == s[k + i + x] == b[x];
  }

  lemma PieceOfPiece(a: string, b: string, c: string)
    requires IsPiece(a, b) && IsPiece(b, c)
    ensures IsPiece(a, c)
  {
    var i, j :| 0 <= i <= j <= |b| && a == b[i..j];
    var k, l :| 0 <= k <= l <= |c| && b == c[k..l];
    SliceOfSlice(c, k, l, i, j);
    SlicePiece(c, k + i, k + j);
  }

  lemma SlicePiece(s: string, i: nat, j: nat)
    requires i <= j <= |s|
    ensures IsPiece(s[i..j], s)
  {
  }

  lemma {:induction false} LStripPiece(s: string)
    ensures IsPiece(LStrip(s), s)
    ensures LStrip(s) == [] || !IsSpace(LStrip(s)[0])
  {
    if s != [] && IsSpace(s[0]) {
      LStripPiece(s[1..]);
      SlicePiece(s, 1, |s|);
      PieceOfPiece(LStrip(s), s[1..], s);
    } else {
      SlicePiece(s, 0, |s|);
      assert s == s[0..|s|];
    }
  }

  lemma {:induction false} RStripPiece(s: string)
    ensures RStrip(s) <= s && IsPiece(RStrip(s), s)
    ensures RStrip(s) == [] || !IsSpace(RStrip(s)[|RStrip(s)| - 1])
  {
    if s != [] && IsSpace(s[|s| - 1]) {
      RStripPiece(s[..|s| - 1]);
      assert s[..|s| - 1] <= s;
      SlicePiece(s, 0, |RStrip(s)|);
      assert RStrip(s) == s[0..|RStrip(s)|];
    } else {
      SlicePiece(s, 0, |s|);
      assert s == s[0..|s|];
    }
  }

  /** Stripping leaves a piece with no outer whitespace, and a second strip changes nothing. */
  lemma StripTrims(s: string)
    ensures Trimmed(Strip(s)) && IsPiece(Strip(s), s)
    ensures Strip(Strip(s)) == Strip(s)
  {
    LStripPiece(s);
    RStripPiece(LStrip(s));
    PieceOfPiece(Strip(s), LStrip(s), s);
  }

  lemma {:induction false} JoinAppend(parts: seq<string>, last: string)
    ensures Join(parts + [last]) == Join(parts) + last
  {
    if parts == [] {
      assert parts + [last] == [last];
    } else {
      assert (parts + [last])[1..] == parts[1..] + [last];
      JoinAppend(parts[1..], last);
    }
  }

  // ---------------------------------------------------------------------------
  // sorted(...) of a set of strings.

  /** Code-point order, shorter first among prefixes. */
  predicate Less(a: string, b: string) {
    b != [] && (a == [] || a[0] < b[0] || (a[0] == b[0] && Less(a[1..], b[1..])))
  }

  lemma {:induction false} LessTotal(a: string, b: string)
    ensures Less(a, b) || a == b || Less(b, a)
    ensures !(Less(a, b) && Less(b, a)) && !Less(a, a)
  {
    if a != [] && b != [] {
      LessTotal(a[1..], b[1..]);
      LessTotal(a[1..], a[1..]);
      if a[0] == b[0] && a[1..] == b[1..] {
        assert a == [a[0]] + a[1..] && b == [b[0]] + b[1..];
      }
    } else if a != [] {
      LessTotal(a[1..], a[1..]);
    }
  }

  lemma {:induction false} LessTransitive(a: string, b: string, c: string)
    requires Less(a, b) && Less(b, c)
    ensures Less(a, c)
  {
    if a != [] && a[0] == b[0] && b[0] == c[0] {
      LessTransitive(a[1..], b[1..], c[1..]);
    }
  }

  ghost predicate StrictlySorted(s: seq<string>) {
    forall i, j :: 0 <= i < j < |s| ==> Less(s[i], s[j])
  }

  ghost function Members(s: seq<string>): set<string> {
    set x | x in s
  }

  /** Put `x` into its place in a sorted list that does not hold it. */
  method InsertSorted(s: seq<string>, x: string) returns (r: seq<string>)
    requires StrictlySorted(s) && x !in s
    ensures StrictlySorted(r) && Members(r) == Members(s) + {x}
  {
    var i := 0;
    while i < |s| && Less(s[i], x)
      invariant i <= |s|
      invariant forall j :: 0 <= j < i ==> Less(s[j], x)
    {
      i := i + 1;
    }
    forall j | i <= j < |s| ensures Less(x, s[j]) {
      LessTotal(s[i], x);
      if i < j {
        LessTransitive(x, s[i], s[j]);
      }
    }
    r := s[..i] + [x] + s[i..];
    assert s == s[..i] + s[i..];
  }

  method Sorted(names: set<string>) returns (r: seq<string>)
    ensures StrictlySorted(r) && Members(r) == names
  {
    r := [];
    var rest := names;
    while rest != {}
      invariant StrictlySorted(r) && Members(r) == names - rest && rest <= names
      decreases rest
    {
      var x :| x in rest;
      assert x !in Members(r);
      r := InsertSorted(r, x);
      rest := rest - {x};
    }
  }

  lemma MinimumExists(names: set<string>) returns (m: string)
    requires names != {}
    ensures m in names && forall x :: x in names && x != m ==> Less(m, x)
    decreases names
  {
    var some :| some in names;
    m := some;
    var rest := names - {some};
    if rest != {} {
      var n := MinimumExists(rest);
      LessTotal(some, n);
      if Less(n, some) {
        m := n;
        assert names == rest + {some};
      } else {
        forall x | x in names && x != some ensures Less(some, x) {
          if x != n {
            LessTransitive(some, n, x);
          }
        }
      }
    } else {
      assert names == {some};
    }
  }

  lemma {:induction false} SortedExists(names: set<string>)
    ensures exists s :: StrictlySorted(s) && Members(s) == names
    decreases names
  {
    if names == {} {
      assert StrictlySorted([]) && Members([]) == names;
    } else {
      var m := MinimumExists(names);
      SortedExists(names - {m});
      var t :| StrictlySorted(t) && Members(t) == names - {m};
      forall i | 0 <= i < |t| ensures Less(m, t[i]) {
        assert t[i] in Members(t);
      }
      assert Members([m] + t) == {m} + Members(t);
      assert StrictlySorted([m] + t);
    }
  }

  /** A set has one strictly sorted listing, so `sorted` is a function of it. */
  lemma {:induction false} SortedUnique(a: seq<string>, b: seq<string>)
    requires StrictlySorted(a) && StrictlySorted(b) && Members(a) == Members(b)
    ensures a == b
    decreases |a|
  {
    assert forall i :: 0 <= i < |a| ==> a[i] in Members(b);
    assert forall i :: 0 <= i < |b| ==> b[i] in Members(a);
    if a != [] && b != [] {
      LessTotal(a[0], b[0]);
      assert a[0] == b[0];
      forall x ensures x in Members(a[1..]) <==> x in Members(b[1..]) {
        LessTotal(a[0], a[0]);
        assert x in Members(a) <==> x == a[0] || x in a[1..];
        assert x in Members(b) <==> x == b[0] || x in b[1..];
      }
      SortedUnique(a[1..], b[1..]);
      assert a == [a[0]] + a[1..] && b == [b[0]] + b[1..];
    }
  }
}
