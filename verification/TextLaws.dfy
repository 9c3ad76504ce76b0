/** The string operations, said without their definitions: the characters they are about written out, and
    what they remove or keep. */
module TextLaws {
  import opened Text

  const UPPER_LETTERS := "ABCDEFGHIJKLMNOPQRSTUVWXYZ"
  const LOWER_LETTERS := "abcdefghijklmnopqrstuvwxyz"

  /** All whitespace of Unicode, as `str.isspace` and `\s` know it. */
  const WHITESPACE := "\t\n\U{B}\U{C}\r\U{1C}\U{1D}\U{1E}\U{1F} \U{85}\U{A0}\U{1680}"
                      + "\U{2000}\U{2001}\U{2002}\U{2003}\U{2004}\U{2005}\U{2006}\U{2007}\U{2008}\U{2009}\U{200A}"
                      + "\U{2028}\U{2029}\U{202F}\U{205F}\U{3000}"

  lemma SpacesExactly(c: char)
    ensures IsSpace(c) <==> c in WHITESPACE
  {
    var w := WHITESPACE;
    assert |w| == 29;
    if IsSpace(c) {
      if '\t' <= c <= '\r' {
        assert w[(c - '\t') as int] == c;
      } else if '\U{1C}' <= c <= ' ' {
        assert w[5 + (c - '\U{1C}') as int] == c;
      } else if '\U{2000}' <= c <= '\U{200A}' {
        assert w[13 + (c - '\U{2000}') as int] == c;
      } else {
        assert w[10] == '\U{85}' && w[11] == '\U{A0}' && w[12] == '\U{1680}' && w[24] == '\U{2028}';
        assert w[25] == '\U{2029}' && w[26] == '\U{202F}' && w[27] == '\U{205F}' && w[28] == '\U{3000}';
      }
    }
  }

  lemma UpperLetterExactly(c: char)
    ensures 'A' <= c <= 'Z' <==> c in UPPER_LETTERS
  {
    if 'A' <= c <= 'Z' {
      assert UPPER_LETTERS[(c - 'A') as int] == c;
    }
  }

  lemma LowerLetterExactly(c: char)
    ensures 'a' <= c <= 'z' <==> c in LOWER_LETTERS
  {
    if 'a' <= c <= 'z' {
      assert LOWER_LETTERS[(c - 'a') as int] == c;
    }
  }

  lemma DigitExactly(c: char)
    ensures '0' <= c <= '9' <==> c in "0123456789"
  {
    if '0' <= c <= '9' {
      assert "0123456789"[(c - '0') as int] == c;
    }
  }

  /** Case mapping letter by letter; nothing else is mapped. */
  lemma LowerExactly(c: char)
    ensures forall i :: 0 <= i < 26 ==> ToLower(UPPER_LETTERS[i]) == LOWER_LETTERS[i]
    ensures c !in UPPER_LETTERS ==> ToLower(c) == c
  {
    UpperLetterExactly(c);
  }

  lemma UpperExactly(c: char)
    ensures forall i :: 0 <= i < 26 ==> ToUpper(LOWER_LETTERS[i]) == UPPER_LETTERS[i]
    ensures c !in LOWER_LETTERS ==> ToUpper(c) == c
  {
    LowerLetterExactly(c);
  }

  predicate AllSpace(s: string) {
    forall c :: c in s ==> c in WHITESPACE
  }

  /** `s[i..j]` is `s` without the whitespace at its ends. */
  predicate CoreAt(s: string, i: nat, j: nat) {
    && i <= j <= |s| && AllSpace(s[..i]) && AllSpace(s[j..])
    && (i < j ==> s[i] !in WHITESPACE && s[j - 1] !in WHITESPACE)
  }

  ghost predicate Core(s: string, r: string) {
    exists i: nat, j: nat :: CoreAt(s, i, j) && r == s[i..j]
  }

  lemma {:induction false} LStripCut(s: string) returns (i: nat)
    ensures i <= |s| && LStrip(s) == s[i..] && AllSpace(s[..i])
    ensures i < |s| ==> !IsSpace(s[i])
  {
    hide IsSpace, WHITESPACE;
    if s != [] && IsSpace(s[0]) {
      SpacesExactly(s[0]);
      var n := LStripCut(s[1..]);
      i := n + 1;
      assert s[..i] == [s[0]] + s[1..][..n];
    } else {
      i := 0;
    }
  }

  lemma {:induction false} RStripCut(s: string) returns (j: nat)
    ensures j <= |s| && RStrip(s) == s[..j] && AllSpace(s[j..])
    ensures j > 0 ==> !IsSpace(s[j - 1])
  {
    hide IsSpace, WHITESPACE;
    var n := |s|;
    if s != [] && IsSpace(s[n - 1]) {
      SpacesExactly(s[n - 1]);
      j := RStripCut(s[..n - 1]);
      assert s[j..] == s[..n - 1][j..] + [s[n - 1]];
    } else {
      j := n;
      assert s[..n] == s;
    }
  }

  lemma SpaceBefore(s: string, i: nat, x: nat)
    requires x < i <= |s| && AllSpace(s[..i])
    ensures s[x] in WHITESPACE
  {
    hide WHITESPACE;
    assert s[..i][x] == s[x];
  }

  lemma SpaceAround(s: string, i: nat, j: nat, x: nat)
    requires i <= j <= |s| && AllSpace(s[..i]) && AllSpace(s[j..]) && x < |s| && !(i <= x < j)
    ensures s[x] in WHITESPACE
  {
    hide WHITESPACE;
    if x >= j {
      assert s[j..][x - j] == s[x];
    } else {
      SpaceBefore(s, i, x);
    }
  }

  lemma FirstNonSpace(s: string, i: nat, k: nat)
    requires i < |s| && AllSpace(s[..i]) && s[i] !in WHITESPACE
    requires k < |s| && AllSpace(s[..k]) && s[k] !in WHITESPACE
    ensures i == k
  {
    hide WHITESPACE, AllSpace;
    if i < k {
      SpaceBefore(s, k, i);
    } else if k < i {
      SpaceBefore(s, i, k);
    }
  }

  /** Two cuts of one text at its whitespace agree. */
  lemma CutUnique(s: string, i: nat, j: nat, k: nat, l: nat)
    requires i < j <= |s| && k <= l <= |s| && s[i] !in WHITESPACE && s[j - 1] !in WHITESPACE
    requires AllSpace(s[..k]) && AllSpace(s[l..])
    ensures k <= i && j <= l
  {
    hide WHITESPACE, AllSpace;
    if !(k <= i) {
      SpaceAround(s, k, l, i);
    }
    if !(j <= l) {
      SpaceAround(s, k, l, j - 1);
    }
  }

  lemma CoreUnique(s: string, i: nat, j: nat, k: nat, l: nat)
    requires CoreAt(s, i, j) && CoreAt(s, k, l)
    ensures s[i..j] == s[k..l]
  {
    hide WHITESPACE, AllSpace;
    if i < j {
      CutUnique(s, i, j, k, l);
    }
    if k < l {
      CutUnique(s, k, l, i, j);
    }
  }

  /** `str.strip`, exactly. */
  lemma StripExactly(s: string, r: string)
    ensures Strip(s) == r <==> Core(s, r)
  {
    hide WHITESPACE, AllSpace;
    var i := LStripCut(s);
    var n := RStripCut(s[i..]);
    var j := i + n;
    assert Strip(s) == s[i..][..n] == s[i..j];
    assert s[i..][n..] == s[j..];
    if n > 0 {
      SpacesExactly(s[i]);
      SpacesExactly(s[j - 1]);
      assert s[i..][n - 1] == s[j - 1];
    }
    assert CoreAt(s, i, j);
    hide CoreAt;
    if Core(s, r) {
      var k: nat, l: nat :| CoreAt(s, k, l) && r == s[k..l];
      CoreUnique(s, i, j, k, l);
    }
  }

  /** The order of `sorted`: by the first character that differs, a shorter text before its extensions. */
  lemma {:induction false} LessExactly(a: string, b: string)
    ensures Less(a, b) <==>
            exists n :: 0 <= n <= |a| && n < |b| && a[..n] == b[..n] && (n < |a| ==> a[n] < b[n])
  {
    if a != [] && b != [] && a[0] == b[0] {
      var a', b' := a[1..], b[1..];
      LessExactly(a', b');
      if Less(a', b') {
        var n :| 0 <= n <= |a'| && n < |b'| && a'[..n] == b'[..n] && (n < |a'| ==> a'[n] < b'[n]);
        assert a[..n + 1] == [a[0]] + a'[..n] && b[..n + 1] == [b[0]] + b'[..n];
      }
      if n :| 0 <= n <= |a| && n < |b| && a[..n] == b[..n] && (n < |a| ==> a[n] < b[n]) {
        assert n > 0;
        assert a'[..n - 1] == a[..n][1..] && b'[..n - 1] == b[..n][1..];
      }
    } else {
      assert b != [] ==> a[..0] == b[..0];
      forall n | 0 < n <= |a| && n < |b| ensures a[..n] != b[..n] {
        assert a[..n][0] == a[0] && b[..n][0] == b[0];
      }
    }
  }
}
