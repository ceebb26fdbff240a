/** The Python string operations the router and the prompt loop rely on:
    str.strip(), str.lower(), the substring test `w in s` and str.split(sep),
    modelled on ASCII text. */
module Text {

  /** Python's str.isspace() on an ASCII character: the space, the controls
      \t \n \v \f \r (9..13) and the separators 0x1C..0x1F. */
  predicate IsSpace(c: char) {
    c == ' ' || 9 <= c as int <= 13 || 28 <= c as int <= 31
  }

  predicate AllSpace(s: string) {
    forall i :: 0 <= i < |s| ==> IsSpace(s[i])
  }

  // ---------------------------------------------------------------- strip

  /** s without its leading whitespace. */
  function TrimStart(s: string): (r: string)
    ensures |r| <= |s|
    decreases |s|
  {
    if s != [] && IsSpace(s[0]) then TrimStart(s[1..]) else s
  }

  /** TrimStart removes exactly the leading whitespace. */
  lemma {:induction false} TrimStartSpec(s: string)
    ensures var r := TrimStart(s);
            r == s[|s| - |r|..] &&
            (forall i :: 0 <= i < |s| - |r| ==> IsSpace(s[i])) &&
            (r == [] || !IsSpace(r[0]))
    decreases |s|
  {
    if s != [] && IsSpace(s[0]) {
      TrimStartSpec(s[1..]);
    }
  }

  /** s without its trailing whitespace. */
  function TrimEnd(s: string): (r: string)
    ensures |r| <= |s|
    decreases |s|
  {
    if s != [] && IsSpace(s[|s| - 1]) then TrimEnd(s[..|s| - 1]) else s
  }

  /** TrimEnd removes exactly the trailing whitespace. */
  lemma {:induction false} TrimEndSpec(s: string)
    ensures var r := TrimEnd(s);
            r == s[..|r|] &&
            (forall i :: |r| <= i < |s| ==> IsSpace(s[i])) &&
            (r == [] || !IsSpace(r[|r| - 1]))
    decreases |s|
  {
    if s != [] && IsSpace(s[|s| - 1]) {
      TrimEndSpec(s[..|s| - 1]);
    }
  }

  /** How many whitespace characters s starts with. */
  function Indent(s: string): nat {
    |s| - |TrimStart(s)|
  }

  /** Python's s.strip(): s without its leading and trailing whitespace. */
  function Strip(s: string): (r: string)
    ensures |r| <= |s|
  {
    TrimEnd(TrimStart(s))
  }

  /** Strip(s) is the window of s that starts after the leading whitespace,
      has only whitespace after it, and neither starts nor ends with
      whitespace. */
  lemma StripSpec(s: string)
    ensures var r, k := Strip(s), Indent(s);
            k + |r| <= |s| &&
            r == s[k..k + |r|] &&
            (forall i :: 0 <= i < k ==> IsSpace(s[i])) &&
            (forall i :: k + |r| <= i < |s| ==> IsSpace(s[i])) &&
            (r == [] || (!IsSpace(r[0]) && !IsSpace(r[|r| - 1])))
  {
    var t := TrimStart(s);
    TrimStartSpec(s);
    TrimEndSpec(t);
    var r, k := TrimEnd(t), Indent(s);
    assert r == s[k..k + |r|];
    forall i | k + |r| <= i < |s| ensures IsSpace(s[i]) {
      assert s[i] == t[i - k];
    }
  }

  /** Any window of s with only whitespace outside it and no whitespace at
      its ends is Strip(s). */
  lemma StripUnique(s: string, k: nat, r: string)
    requires k + |r| <= |s| && r == s[k..k + |r|]
    requires forall i :: 0 <= i < k ==> IsSpace(s[i])
    requires forall i :: k + |r| <= i < |s| ==> IsSpace(s[i])
    requires r == [] || (!IsSpace(r[0]) && !IsSpace(r[|r| - 1]))
    ensures Strip(s) == r
  {
    StripSpec(s);
    var t, m := Strip(s), Indent(s);
    assert r != [] ==> r[0] == s[k] && r[|r| - 1] == s[k + |r| - 1];
    assert t != [] ==> t[0] == s[m] && t[|t| - 1] == s[m + |t| - 1];
    assert r != [] ==> m <= k && k + |r| <= m + |t|;
    assert t != [] ==> k <= m && m + |t| <= k + |r|;
  }

  /** A string strips to nothing exactly when it is all whitespace. */
  lemma StripBlank(s: string)
    ensures Strip(s) == [] <==> AllSpace(s)
  {
    StripSpec(s);
    var t, m := Strip(s), Indent(s);
    assert t != [] ==> t[0] == s[m];
  }

  /** Text with no whitespace in it strips to itself. */
  lemma StripSolid(s: string)
    requires forall i :: 0 <= i < |s| ==> !IsSpace(s[i])
    ensures Strip(s) == s
  {
    StripUnique(s, 0, s);
  }

  /** Whitespace padding on either side does not change the stripped text. */
  lemma StripPadded(pre: string, p: string, post: string)
    requires AllSpace(pre) && AllSpace(post)
    ensures Strip(pre + p + post) == Strip(p)
  {
    StripSpec(p);
    var s, k, r := pre + p + post, |pre| + Indent(p), Strip(p);
    assert s[k..k + |r|] == p[Indent(p)..Indent(p) + |r|];
    forall i | 0 <= i < k ensures IsSpace(s[i]) {
      if i >= |pre| { assert s[i] == p[i - |pre|]; }
    }
    forall i | k + |r| <= i < |s| ensures IsSpace(s[i]) {
      if i < |pre| + |p| { assert s[i] == p[i - |pre|]; } else { assert s[i] == post[i - |pre| - |p|]; }
    }
    StripUnique(s, k, r);
  }

  /** Stripping twice is stripping once. */
  lemma StripIdempotent(s: string)
    ensures Strip(Strip(s)) == Strip(s)
  {
    var r := Strip(s);
    StripSpec(s);
    assert r[0..|r|] == r;
    StripUnique(r, 0, r);
  }

  // ---------------------------------------------------------------- lower

  /** Python's str.lower() on one ASCII character. */
  function LowerChar(c: char): char {
    if 'A' <= c <= 'Z' then (c as int + 32) as char else c
  }

  /** Python's s.lower(), character by character. */
  function Lower(s: string): string {
    seq(|s|, i requires 0 <= i < |s| => LowerChar(s[i]))
  }

  lemma LowerConcat(a: string, b: string)
    ensures Lower(a + b) == Lower(a) + Lower(b)
  {
    assert forall i :: 0 <= i < |a + b| ==> Lower(a + b)[i] == (Lower(a) + Lower(b))[i];
  }

  lemma LowerSlice(s: string, i: nat, j: nat)
    requires i <= j <= |s|
    ensures Lower(s[i..j]) == Lower(s)[i..j]
  {
  }

  /** Lower-casing never creates or removes whitespace. */
  lemma LowerKeepsSpace(s: string)
    ensures AllSpace(Lower(s)) <==> AllSpace(s)
  {
    assert forall i :: 0 <= i < |s| ==> (IsSpace(Lower(s)[i]) <==> IsSpace(s[i]));
  }

  lemma LowerSpaces(s: string, i: nat, j: nat)
    requires i <= j <= |s|
    requires forall k :: i <= k < j ==> IsSpace(s[k])
    ensures AllSpace(Lower(s)[i..j])
  {
    assert forall k :: 0 <= k < j - i ==> Lower(s)[i..j][k] == LowerChar(s[i + k]);
  }

  /** Text with no upper-case letter is its own lower case. */
  lemma LowerFixed(s: string)
    requires forall i :: 0 <= i < |s| ==> !('A' <= s[i] <= 'Z')
    ensures Lower(s) == s
  {
  }

  /** Lower-casing twice is lower-casing once. */
  lemma LowerIdempotent(s: string)
    ensures Lower(Lower(s)) == Lower(s)
  {
  }

  // ------------------------------------------------------------ substring

  /** Python's `w in s`: w occurs somewhere in s as a contiguous run. */
  predicate Contains(s: string, w: string)
    decreases |s|
  {
    |w| <= |s| && (s[..|w|] == w || (s != [] && Contains(s[1..], w)))
  }

  /** w occurs in s starting at index k. */
  ghost predicate OccursAt(s: string, w: string, k: int) {
    0 <= k && k + |w| <= |s| && s[k..k + |w|] == w
  }

  /** The left-to-right search finds w exactly when w occurs somewhere in s. */
  lemma {:induction false} ContainsIff(s: string, w: string)
    ensures Contains(s, w) <==> exists k :: OccursAt(s, w, k)
    decreases |s|
  {
    if |w| <= |s| && s[..|w|] == w {
      assert OccursAt(s, w, 0);
    } else if |w| <= |s| && s != [] {
      ContainsIff(s[1..], w);
      forall k | OccursAt(s[1..], w, k) ensures OccursAt(s, w, k + 1) {
        assert s[1..][k..k + |w|] == s[k + 1..k + 1 + |w|];
      }
      forall k | OccursAt(s, w, k) ensures OccursAt(s[1..], w, k - 1) {
        assert s[1..][k - 1..k - 1 + |w|] == s[k..k + |w|];
      }
    } else {
      assert forall k :: !OccursAt(s, w, k);
    }
  }

  /** Whatever occurs in y occurs in any string that has y inside it. */
  lemma ContainsWithin(x: string, y: string, z: string, w: string)
    ensures Contains(y, w) ==> Contains(x + y + z, w)
  {
    ContainsIff(y, w);
    ContainsIff(x + y + z, w);
    if Contains(y, w) {
      var k :| OccursAt(y, w, k);
      assert (x + y + z)[|x| + k..|x| + k + |w|] == y[k..k + |w|];
      assert OccursAt(x + y + z, w, |x| + k);
    }
  }

  /** Every character of a word that occurs in s is a character of s. */
  lemma ContainsChars(s: string, w: string, c: char)
    requires c in w
    ensures Contains(s, w) ==> c in s
  {
    ContainsIff(s, w);
    if Contains(s, w) {
      var k :| OccursAt(s, w, k);
      var j :| 0 <= j < |w| && w[j] == c;
      assert s[k + j] == w[j];
    }
  }

  /** An occurrence of a word without sep in it, in text around a sep, lies
      on one side of the sep. */
  lemma OccursAcrossSep(x: string, sep: char, y: string, w: string, k: int)
    requires sep !in w && OccursAt(x + [sep] + y, w, k)
    ensures OccursAt(x, w, k) || OccursAt(y, w, k - |x| - 1)
  {
    var s := x + [sep] + y;
    assert k + |w| <= |x| || |x| < k by {
      assert forall j :: 0 <= j < |w| ==> s[k + j] == w[j] && w[j] != sep;
      assert s[|x|] == sep;
    }
    if k + |w| <= |x| {
      assert s[k..k + |w|] == x[k..k + |w|];
    } else {
      assert s[k..k + |w|] == y[k - |x| - 1..k - |x| - 1 + |w|];
    }
  }

  /** A word without sep in it that occurs around a sep occurs on one side. */
  lemma ContainsAcrossSep(x: string, sep: char, y: string, w: string)
    requires sep !in w
    ensures Contains(x + [sep] + y, w) ==> Contains(x, w) || Contains(y, w)
  {
    var s := x + [sep] + y;
    ContainsIff(s, w);
    ContainsIff(x, w);
    ContainsIff(y, w);
    if Contains(s, w) {
      var k :| OccursAt(s, w, k);
      OccursAcrossSep(x, sep, y, w, k);
    }
  }

  /** An occurrence of a word with no whitespace in it, in a
      whitespace-padded string, lies inside the unpadded part. */
  lemma OccursInPadded(pre: string, mid: string, post: string, w: string, k: int)
    requires AllSpace(pre) && AllSpace(post)
    requires w != [] && forall i :: 0 <= i < |w| ==> !IsSpace(w[i])
    requires OccursAt(pre + mid + post, w, k)
    ensures OccursAt(mid, w, k - |pre|)
  {
    var s := pre + mid + post;
    assert s[k] == w[0] && s[k + |w| - 1] == w[|w| - 1];
    assert forall i :: 0 <= i < |pre| ==> s[i] == pre[i];
    assert forall i :: |pre| + |mid| <= i < |s| ==> s[i] == post[i - |pre| - |mid|];
    assert s[k..k + |w|] == mid[k - |pre|..k - |pre| + |w|];
  }

  /** A word with no whitespace in it occurs in a whitespace-padded string
      exactly when it occurs in the unpadded part. */
  lemma ContainsPadded(pre: string, mid: string, post: string, w: string)
    requires AllSpace(pre) && AllSpace(post)
    requires w != [] && forall i :: 0 <= i < |w| ==> !IsSpace(w[i])
    ensures Contains(pre + mid + post, w) <==> Contains(mid, w)
  {
    ContainsIff(pre + mid + post, w);
    ContainsIff(mid, w);
    if Contains(pre + mid + post, w) {
      var k :| OccursAt(pre + mid + post, w, k);
      OccursInPadded(pre, mid, post, w, k);
    }
    if Contains(mid, w) {
      ContainsWithin(pre, mid, post, w);
    }
  }

  // ---------------------------------------------------------------- split

  /** Python's s.split(sep) for a one-character separator: the pieces
      between separators, always at least one, none holding sep. */
  function Split(s: string, sep: char): (pieces: seq<string>)
    ensures |pieces| >= 1
    ensures forall i :: 0 <= i < |pieces| ==> sep !in pieces[i]
    decreases |s|
  {
    if s == [] then [[]]
    else
      var rest := Split(s[1..], sep);
      if s[0] == sep then [[]] + rest
      else [[s[0]] + rest[0]] + rest[1..]
  }

  /** Python's sep.join(pieces), the inverse of Split. */
  function Join(pieces: seq<string>, sep: char): string
    requires |pieces| >= 1
    decreases |pieces|
  {
    if |pieces| == 1 then pieces[0] else pieces[0] + [sep] + Join(pieces[1..], sep)
  }

  /** Joining the pieces of s gives back s. */
  lemma {:induction false} SplitJoin(s: string, sep: char)
    ensures Join(Split(s, sep), sep) == s
    decreases |s|
  {
    if s != [] {
      var rest := Split(s[1..], sep);
      SplitJoin(s[1..], sep);
      if s[0] == sep {
        assert ([[]] + rest)[1..] == rest;
      } else if |rest| == 1 {
        assert s == [s[0]] + rest[0];
      } else {
        assert ([[s[0]] + rest[0]] + rest[1..])[1..] == rest[1..];
        assert Join(rest, sep) == rest[0] + [sep] + Join(rest[1..], sep);
      }
    }
  }

  /** Text without sep in front of y joins y's first piece. */
  lemma {:induction false} SplitLeading(x: string, y: string, sep: char)
    requires sep !in x
    ensures Split(x + y, sep) == [x + Split(y, sep)[0]] + Split(y, sep)[1..]
    decreases |x|
  {
    if x == [] {
      var p := Split(y, sep);
      assert x + y == y && x + p[0] == p[0];
      assert p == [p[0]] + p[1..];
    } else {
      assert (x + y)[1..] == x[1..] + y;
      SplitLeading(x[1..], y, sep);
      assert [x[0]] + (x[1..] + Split(y, sep)[0]) == x + Split(y, sep)[0];
    }
  }

  /** Appending y to the last of the pieces q, then putting a new first
      piece h in front or extending the first piece with h, commute. */
  lemma AppendToLast(h: string, q: seq<string>, y: string)
    requires |q| >= 1
    ensures var r := q[..|q| - 1] + [q[|q| - 1] + y];
            var p := [h] + q;
            [h] + r == p[..|p| - 1] + [p[|p| - 1] + y]
    ensures var r := q[..|q| - 1] + [q[|q| - 1] + y];
            var p := [h + q[0]] + q[1..];
            [h + r[0]] + r[1..] == p[..|p| - 1] + [p[|p| - 1] + y]
  {
    var r := q[..|q| - 1] + [q[|q| - 1] + y];
    if |q| == 1 {
      assert r == [q[0] + y] && r[1..] == [];
      assert h + r[0] == h + q[0] + y;
    } else {
      assert r[0] == q[0];
      assert r[1..] == q[1..|q| - 1] + [q[|q| - 1] + y];
    }
  }

  /** Text without sep is a single piece. */
  lemma SplitNoSep(s: string, sep: char)
    requires sep !in s
    ensures Split(s, sep) == [s]
  {
    SplitLeading(s, [], sep);
    assert s + [] == s;
  }

  /** Text without sep behind x joins x's last piece. */
  lemma {:induction false} SplitTrailing(x: string, y: string, sep: char)
    requires sep !in y
    ensures var p := Split(x, sep);
            Split(x + y, sep) == p[..|p| - 1] + [p[|p| - 1] + y]
    decreases |x|
  {
    if x == [] {
      SplitLeading(y, [], sep);
      assert x + y == y + [] == y && [] + y == y;
      assert Split(x, sep) == [[]];
    } else {
      var q := Split(x[1..], sep);
      assert (x + y)[1..] == x[1..] + y;
      SplitTrailing(x[1..], y, sep);
      AppendToLast(if x[0] == sep then [] else [x[0]], q, y);
    }
  }

  /** Text padded on both sides with separator-free text splits into the same
      tokens, the first one carrying the left padding and the last one the
      right padding. */
  lemma SplitPadded(pre: string, mid: string, post: string, sep: char)
    requires sep !in pre && sep !in post
    ensures var p, f := Split(mid, sep), Split(pre + mid + post, sep);
            |f| == |p| &&
            (forall i :: 0 < i < |p| - 1 ==> f[i] == p[i]) &&
            (|p| == 1 ==> f[0] == pre + p[0] + post) &&
            (|p| > 1 ==> f[0] == pre + p[0] && f[|p| - 1] == p[|p| - 1] + post)
  {
    var p := Split(mid, sep);
    var n := |p|;
    SplitTrailing(mid, post, sep);
    var q := Split(mid + post, sep);
    assert q == p[..n - 1] + [p[n - 1] + post];
    SplitLeading(pre, mid + post, sep);
    assert pre + mid + post == pre + (mid + post);
  }

  /** Splitting gives back any pieces free of sep that were joined. */
  lemma {:induction false} JoinSplit(pieces: seq<string>, sep: char)
    requires |pieces| >= 1
    requires forall i :: 0 <= i < |pieces| ==> sep !in pieces[i]
    ensures Split(Join(pieces, sep), sep) == pieces
    decreases |pieces|
  {
    SplitLeading(pieces[0], [], sep);
    assert pieces[0] + [] == pieces[0];
    if |pieces| > 1 {
      var tail := Join(pieces[1..], sep);
      JoinSplit(pieces[1..], sep);
      SplitLeading(pieces[0], [sep] + tail, sep);
      assert ([sep] + tail)[1..] == tail;
      assert pieces[0] + [sep] + tail == pieces[0] + ([sep] + tail);
      assert pieces == [pieces[0]] + pieces[1..];
    }
  }

  lemma {:induction false} JoinAppend(p: seq<string>, q: seq<string>, sep: char)
    requires |p| >= 1 && |q| >= 1
    ensures Join(p + q, sep) == Join(p, sep) + [sep] + Join(q, sep)
    decreases |p|
  {
    if |p| == 1 {
      assert (p + q)[1..] == q;
    } else {
      assert (p + q)[1..] == p[1..] + q;
      JoinAppend(p[1..], q, sep);
    }
  }

  /** Splitting at a separator splits each side on its own. */
  lemma SplitConcat(a: string, b: string, sep: char)
    ensures Split(a + [sep] + b, sep) == Split(a, sep) + Split(b, sep)
  {
    var p, q := Split(a, sep), Split(b, sep);
    SplitJoin(a, sep);
    SplitJoin(b, sep);
    JoinAppend(p, q, sep);
    JoinSplit(p + q, sep);
  }
}
