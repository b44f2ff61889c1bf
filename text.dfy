/** String operations the application borrows from JavaScript and
    PostgreSQL: `trim`, `split` on one separator, joining, lower-casing
    and substring search. Strings are sequences of code points. */
module Text {

  /** The characters `String.prototype.trim` removes: ECMAScript WhiteSpace
      (tab, vertical tab, form feed, space, no-break space, BOM and the Zs
      spaces) and LineTerminator (LF, CR, U+2028, U+2029). */
  predicate IsWhitespace(c: char) {
    var n := c as int;
    n == 0x09 || n == 0x0A || n == 0x0B || n == 0x0C || n == 0x0D || n == 0x20
    || n == 0xA0 || n == 0x1680 || (0x2000 <= n <= 0x200A) || n == 0x2028
    || n == 0x2029 || n == 0x202F || n == 0x205F || n == 0x3000 || n == 0xFEFF
  }

  /** No whitespace at either end. */
  predicate Trimmed(s: string) {
    |s| == 0 || (!IsWhitespace(s[0]) && !IsWhitespace(s[|s| - 1]))
  }

  predicate AllWhitespace(s: string) {
    forall k :: 0 <= k < |s| ==> IsWhitespace(s[k])
  }

  lemma BlankConcat(a: string, b: string)
    requires AllWhitespace(a) && AllWhitespace(b)
    ensures AllWhitespace(a + b)
  {
    forall k | 0 <= k < |a + b| ensures IsWhitespace((a + b)[k]) {
      if k >= |a| {
        assert (a + b)[k] == b[k - |a|];
      }
    }
  }

  function TrimStart(s: string): (r: string)
    ensures |r| <= |s| && r == s[|s| - |r|..]
    ensures |r| == 0 || !IsWhitespace(r[0])
    ensures AllWhitespace(s[..|s| - |r|])
  {
    if |s| > 0 && IsWhitespace(s[0]) then
      var r := TrimStart(s[1..]);
      assert s[..|s| - |r|] == [s[0]] + s[1..][..|s| - 1 - |r|];
      BlankConcat([s[0]], s[1..][..|s| - 1 - |r|]);
      r
    else s
  }

  function TrimEnd(s: string): (r: string)
    ensures |r| <= |s| && r == s[..|r|]
    ensures |r| == 0 || !IsWhitespace(r[|r| - 1])
    ensures AllWhitespace(s[|r|..])
  {
    if |s| > 0 && IsWhitespace(s[|s| - 1]) then
      var r := TrimEnd(s[..|s| - 1]);
      assert s[|r|..] == s[..|s| - 1][|r|..] + [s[|s| - 1]];
      BlankConcat(s[..|s| - 1][|r|..], [s[|s| - 1]]);
      r
    else s
  }

  /** `s.trim()`: the slice of `s` left when the whitespace at both ends is
      removed. */
  function Trim(s: string): (r: string)
    ensures Trimmed(r)
    ensures SliceAt(r, s, |s| - |TrimStart(s)|)
    ensures Trimmed(s) ==> r == s
    ensures r == "" <==> AllWhitespace(s)
    ensures exists i :: BlankAround(r, s, i)
  {
    var a := TrimStart(s);
    var r := TrimEnd(a);
    TrimEndsClean(s, a, r);
    TrimSlice(s, a, r);
    TrimKeepsTrimmed(s, a, r);
    TrimEmptyIffBlank(s, a, r);
    TrimBlankAround(s, a, r);
    r
  }

  /** `q` sits at index `i` of `s` with nothing but white space before and
      after it. */
  predicate BlankAround(q: string, s: string, i: int) {
    SliceAt(q, s, i) && AllWhitespace(s[..i]) && AllWhitespace(s[i + |q|..])
  }

  lemma TrimBlankAround(s: string, a: string, r: string)
    requires |a| <= |s| && a == s[|s| - |a|..] && AllWhitespace(s[..|s| - |a|])
    requires |r| <= |a| && r == a[..|r|] && AllWhitespace(a[|r|..])
    ensures BlankAround(r, s, |s| - |a|)
  {
    TrimSlice(s, a, r);
    SuffixOfSuffix(s, |s| - |a|, |r|);
  }

  lemma SuffixOfSuffix(s: string, i: nat, n: nat)
    requires i + n <= |s|
    ensures s[i..][n..] == s[i + n..]
  {
  }

  /** `Trim(s)` is the only trimmed slice of `s` with nothing but white
      space around it, so the ensures of `Trim` determine its result. */
  lemma TrimUnique(s: string, t: string, i: int)
    requires Trimmed(t) && BlankAround(t, s, i)
    ensures t == Trim(s)
  {
    var r := Trim(s);
    var j :| BlankAround(r, s, j);
    if t == "" {
      BlankAroundEmpty(s, i);
    } else {
      NotAllWhitespace(t, s, i);
      BlankAroundSame(t, s, i, r, j);
    }
  }

  lemma BlankAroundEmpty(s: string, i: int)
    requires BlankAround("", s, i)
    ensures AllWhitespace(s)
  {
    forall k | 0 <= k < |s| ensures IsWhitespace(s[k]) {
      if k < i {
        assert s[..i][k] == s[k];
      } else {
        assert s[i..][k - i] == s[k];
      }
    }
  }

  lemma NotAllWhitespace(t: string, s: string, i: int)
    requires Trimmed(t) && t != "" && SliceAt(t, s, i)
    ensures !AllWhitespace(s)
  {
    assert s[i..i + |t|][0] == s[i];
  }

  lemma BlankAroundSame(q: string, s: string, i: int, p: string, j: int)
    requires Trimmed(q) && q != "" && BlankAround(q, s, i)
    requires Trimmed(p) && p != "" && BlankAround(p, s, j)
    ensures q == p
  {
    BlankAroundStart(q, s, i, p, j);
    BlankAroundStart(p, s, j, q, i);
    BlankAroundEnd(q, p, s, i);
    BlankAroundEnd(p, q, s, i);
  }

  /** Two non-empty trimmed slices with white space before them start at
      the same index. */
  lemma BlankAroundStart(q: string, s: string, i: int, p: string, j: int)
    requires Trimmed(q) && q != "" && BlankAround(q, s, i)
    requires Trimmed(p) && p != "" && BlankAround(p, s, j)
    ensures i <= j
  {
    assert s[j..j + |p|][0] == s[j];
  }

  /** Two non-empty trimmed slices at the same index with white space after
      them end at the same index. */
  lemma BlankAroundEnd(q: string, p: string, s: string, i: int)
    requires Trimmed(q) && q != "" && BlankAround(q, s, i)
    requires Trimmed(p) && p != "" && BlankAround(p, s, i)
    ensures |q| <= |p|
  {
    assert s[i..i + |q|][|q| - 1] == s[i + |q| - 1];
  }

  /** A space in front of a trimmed string is trimmed away. */
  lemma TrimLeadingSpace(t: string)
    requires Trimmed(t)
    ensures Trim(" " + t) == t
  {
    var s := " " + t;
    assert s[1..] == t;
    assert TrimStart(s) == TrimStart(t) == t;
    assert TrimEnd(t) == t;
  }

  /** Every character of a trimmed string comes from the original. */
  lemma TrimChars(s: string, c: char)
    ensures c in Trim(s) ==> c in s
  {
    SliceMembers(Trim(s), s, |s| - |TrimStart(s)|, c);
  }

  /** A character of a slice is a character of the whole. */
  lemma SliceMembers(q: string, s: string, i: int, c: char)
    requires SliceAt(q, s, i)
    ensures c in q ==> c in s
  {
    if c in q {
      var k :| 0 <= k < |q| && q[k] == c;
      assert s[i..i + |q|][k] == s[i + k];
    }
  }

  lemma TrimEndsClean(s: string, a: string, r: string)
    requires a == TrimStart(s) && r == TrimEnd(a)
    ensures Trimmed(r)
  {
    if r != "" {
      assert r[0] == a[0];
    }
  }

  lemma TrimKeepsTrimmed(s: string, a: string, r: string)
    requires a == TrimStart(s) && r == TrimEnd(a)
    ensures Trimmed(s) ==> r == s
  {
  }

  lemma TrimEmptyIffBlank(s: string, a: string, r: string)
    requires a == TrimStart(s) && r == TrimEnd(a)
    ensures r == "" <==> AllWhitespace(s)
  {
    TrimSlice(s, a, r);
    if r == "" {
      TrimEmpty(s, a);
    }
  }

  lemma TrimSlice(s: string, a: string, r: string)
    requires |a| <= |s| && a == s[|s| - |a|..]
    requires |r| <= |a| && r == a[..|r|]
    ensures SliceAt(r, s, |s| - |a|)
    ensures r != "" ==> r[0] == s[|s| - |a|]
  {
    var off := |s| - |a|;
    forall k | 0 <= k < |r| ensures s[off + k] == r[k] {
      assert r[k] == a[k];
      assert a[k] == s[off + k];
    }
    assert s[off..off + |r|] == r;
  }

  lemma TrimEmpty(s: string, a: string)
    requires a == TrimStart(s) && TrimEnd(a) == ""
    ensures AllWhitespace(s)
  {
    assert a[0..] == a;
    assert |a| == 0;
    assert s[..|s|] == s;
  }

  /** `s.split(sep)` for a one-character separator: the pieces between
      separators, including empty ones, in order. */
  function Split(s: string, sep: char): (pieces: seq<string>)
    ensures |pieces| >= 1
    ensures forall i :: 0 <= i < |pieces| ==> sep !in pieces[i]
    decreases |s|
  {
    if |s| == 0 then [""]
    else
      var rest := Split(s[1..], sep);
      if s[0] == sep then [""] + rest
      else [[s[0]] + rest[0]] + rest[1..]
  }

  /** `pieces.join(sep)`. */
  function JoinWith(pieces: seq<string>, sep: string): string
  {
    if |pieces| == 0 then ""
    else if |pieces| == 1 then pieces[0]
    else pieces[0] + sep + JoinWith(pieces[1..], sep)
  }

  /** A separator at the end adds one empty piece. */
  lemma {:induction false} SplitTrailingSeparator(s: string, sep: char)
    ensures Split(s + [sep], sep) == Split(s, sep) + [""]
    decreases |s|
  {
    var t := s + [sep];
    if |s| == 0 {
      assert t[1..] == [];
    } else {
      assert t[1..] == s[1..] + [sep];
      SplitTrailingSeparator(s[1..], sep);
      var rest := Split(s[1..], sep);
      if s[0] != sep {
        assert (rest + [""])[0] == rest[0];
        assert (rest + [""])[1..] == rest[1..] + [""];
      }
    }
  }

  /** Joining the pieces of a split with the separator gives back the string. */
  lemma {:induction false} JoinSplit(s: string, sep: char)
    ensures JoinWith(Split(s, sep), [sep]) == s
    decreases |s|
  {
    if |s| > 0 {
      var rest := Split(s[1..], sep);
      JoinSplit(s[1..], sep);
      if s[0] == sep {
        assert s == [sep] + s[1..];
      } else if |rest| == 1 {
        assert s == [s[0]] + s[1..];
      } else {
        assert JoinWith(rest, [sep]) == rest[0] + [sep] + JoinWith(rest[1..], [sep]);
        assert s == [s[0]] + s[1..];
      }
    }
  }

  /** Splitting a string with no separator in it gives that string alone. */
  lemma {:induction false} SplitNoSeparator(s: string, sep: char)
    requires sep !in s
    ensures Split(s, sep) == [s]
    decreases |s|
  {
    if |s| > 0 {
      SplitNoSeparator(s[1..], sep);
      assert s == [s[0]] + s[1..];
    }
  }

  /** Splitting at the first separator. */
  lemma {:induction false} SplitAtSeparator(a: string, sep: char, b: string)
    requires sep !in a
    ensures Split(a + [sep] + b, sep) == [a] + Split(b, sep)
    decreases |a|
  {
    var s := a + [sep] + b;
    if |a| == 0 {
      assert s[1..] == b;
    } else {
      assert s[1..] == a[1..] + [sep] + b;
      SplitAtSeparator(a[1..], sep, b);
      assert [a[0]] + a[1..] == a;
    }
  }

  /** Splitting the join of separator-free pieces gives the pieces back. */
  lemma {:induction false} SplitJoin(pieces: seq<string>, sep: char)
    requires |pieces| >= 1
    requires forall i :: 0 <= i < |pieces| ==> sep !in pieces[i]
    ensures Split(JoinWith(pieces, [sep]), sep) == pieces
    decreases |pieces|
  {
    if |pieces| == 1 {
      SplitNoSeparator(pieces[0], sep);
    } else {
      SplitJoin(pieces[1..], sep);
      SplitAtSeparator(pieces[0], sep, JoinWith(pieces[1..], [sep]));
    }
  }

  // ---- lower-casing and substring search ----

  /** Lower-casing of one character; only the ASCII letters are folded. */
  function LowerChar(c: char): char {
    if 'A' <= c <= 'Z' then (c as int + 32) as char else c
  }

  function Lower(s: string): (r: string)
    ensures |r| == |s|
    ensures forall i :: 0 <= i < |s| ==> r[i] == LowerChar(s[i])
  {
    seq(|s|, i requires 0 <= i < |s| => LowerChar(s[i]))
  }

  lemma LowerConcat(a: string, b: string)
    ensures Lower(a + b) == Lower(a) + Lower(b)
  {
    assert forall i :: 0 <= i < |a + b| ==> Lower(a + b)[i] == (Lower(a) + Lower(b))[i];
  }

  /** `q` occurs in `s` as a contiguous substring. */
  predicate Occurs(q: string, s: string)
    decreases |s|
  {
    q <= s || (|s| > 0 && Occurs(q, s[1..]))
  }

  /** Position `i` of `s` starts a copy of `q`. */
  predicate SliceAt(q: string, s: string, i: int) {
    0 <= i <= |s| - |q| && s[i..i + |q|] == q
  }

  /** `Occurs` means: some position of `s` starts a copy of `q`. */
  lemma {:induction false} OccursAt(q: string, s: string)
    ensures Occurs(q, s) <==> exists i :: SliceAt(q, s, i)
    decreases |s|
  {
    PrefixSlice(q, s);
    if !(q <= s) && |s| > 0 {
      OccursAt(q, s[1..]);
      if Occurs(q, s[1..]) {
        var i :| SliceAt(q, s[1..], i);
        SliceShift(q, s, i);
      }
      if exists i :: SliceAt(q, s, i) {
        var i :| SliceAt(q, s, i);
        SliceShift(q, s, i - 1);
      }
    } else if !(q <= s) {
      assert forall i :: !SliceAt(q, s, i);
    }
  }

  /** A prefix is a slice at position 0. */
  lemma PrefixSlice(q: string, s: string)
    ensures q <= s <==> SliceAt(q, s, 0)
  {
    if |q| <= |s| {
      assert s[0..|q|] == s[..|q|];
    }
  }

  /** A slice of the tail is a slice one position further on. */
  lemma SliceShift(q: string, s: string, i: int)
    requires |s| > 0 && i >= 0
    ensures SliceAt(q, s[1..], i) <==> SliceAt(q, s, i + 1)
  {
    if 0 <= i <= |s| - 1 - |q| {
      assert s[1..][i..i + |q|] == s[i + 1..i + 1 + |q|];
    }
  }

  /** A substring of a substring is a substring. */
  lemma OccursTransitive(a: string, b: string, c: string)
    requires Occurs(a, b) && Occurs(b, c)
    ensures Occurs(a, c)
  {
    OccursAt(a, b);
    OccursAt(b, c);
    var i :| SliceAt(a, b, i);
    var j :| SliceAt(b, c, j);
    forall k | 0 <= k < |a| ensures c[j + i + k] == a[k] {
      assert a[k] == b[i + k];
      assert b[i + k] == c[j + i + k];
    }
    assert c[j + i..j + i + |a|] == a;
    assert SliceAt(a, c, j + i);
    OccursAt(a, c);
  }

  /** Whatever occurs in a string still occurs after lower-casing both. */
  lemma OccursLower(q: string, s: string)
    requires Occurs(q, s)
    ensures Occurs(Lower(q), Lower(s))
  {
    OccursAt(q, s);
    var i :| SliceAt(q, s, i);
    assert Lower(s)[i..i + |q|] == Lower(q);
    assert SliceAt(Lower(q), Lower(s), i);
    OccursAt(Lower(q), Lower(s));
  }

  /** The middle part of a concatenation occurs in it. */
  lemma OccursInConcat(a: string, b: string, c: string)
    ensures Occurs(b, a + b + c)
  {
    var s := a + b + c;
    assert s[|a|..|a| + |b|] == b;
    assert SliceAt(b, s, |a|);
    OccursAt(b, s);
  }

  /** A one-character string occurs exactly where the character does. */
  lemma OccursSingle(c: char, s: string)
    ensures Occurs([c], s) <==> c in s
  {
    OccursAt([c], s);
    if c in s {
      var i :| 0 <= i < |s| && s[i] == c;
      assert s[i..i + 1] == [c];
      assert SliceAt([c], s, i);
    }
    if exists i :: SliceAt([c], s, i) {
      var i :| SliceAt([c], s, i);
      assert s[i..i + 1][0] == s[i];
    }
  }

  /** Case-insensitive substring test. */
  predicate ContainsIgnoringCase(text: string, query: string) {
    Occurs(Lower(query), Lower(text))
  }
}
