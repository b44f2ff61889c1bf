/** SQL `ILIKE` as the search handler uses it: the pattern `%query%` with the
    query pasted in unescaped. In a LIKE pattern `%` stands for any run of
    characters, `_` for any one character, and `\` (the default escape)
    makes the next character literal; a pattern that ends in a lone escape
    is an error. PostgreSQL raises that error only when the matcher reaches
    the lone escape; the model compiles the whole pattern first, so its
    error is eager. The difference cannot show in the search, whose pattern
    always compiles (`SearchPatternCompiles`). Case is ignored by
    lower-casing both sides. */
module Ilike {
  import opened NoteTypes
  import opened Text

  datatype PatternElem = AnyRun | AnyOne | Literal(c: char)

  function Prepend(e: PatternElem, rest: Option<seq<PatternElem>>): (r: Option<seq<PatternElem>>)
    ensures r.Some? <==> rest.Some?
    ensures r.Some? ==> r.value == [e] + rest.value
  {
    if rest.Some? then Some([e] + rest.value) else None
  }

  /** The number of `\` characters at the end of `p`. */
  function TrailingEscapes(p: string): (n: nat)
    ensures n <= |p|
    decreases |p|
  {
    if |p| == 0 || p[|p| - 1] != '\\' then 0 else 1 + TrailingEscapes(p[..|p| - 1])
  }

  /** How the trailing run changes when a character is put in front. */
  lemma {:induction false} TrailingEscapesCons(c: char, p: string)
    ensures TrailingEscapes([c] + p)
         == if c == '\\' && TrailingEscapes(p) == |p| then |p| + 1 else TrailingEscapes(p)
    decreases |p|
  {
    var q := [c] + p;
    if |p| == 0 {
      assert q[..|q| - 1] == [];
    } else {
      assert q[|q| - 1] == p[|p| - 1];
      assert q[..|q| - 1] == [c] + p[..|p| - 1];
      TrailingEscapesCons(c, p[..|p| - 1]);
    }
  }

  /** `CompileLike` rejects a pattern exactly when it ends in an odd number
      of `\`: an even run is pairs of escaped backslashes, an odd one leaves the
      last escape with nothing to escape. */
  lemma {:induction false} CompileFailsIff(p: string)
    ensures CompileLike(p).None? <==> TrailingEscapes(p) % 2 == 1
    decreases |p|
  {
    if |p| == 0 {
    } else if p[0] == '\\' && |p| == 1 {
      assert p[..0] == [];
    } else if p[0] == '\\' {
      var r := p[2..];
      CompileFailsIff(r);
      assert p == [p[0]] + ([p[1]] + r);
      TrailingEscapesCons(p[1], r);
      TrailingEscapesCons(p[0], [p[1]] + r);
    } else {
      CompileFailsIff(p[1..]);
      assert p == [p[0]] + p[1..];
      TrailingEscapesCons(p[0], p[1..]);
    }
  }

  /** The elements of a LIKE pattern, or `None` when it ends in a lone escape. */
  function CompileLike(p: string): (r: Option<seq<PatternElem>>)
    ensures r.None? ==> |p| > 0
    decreases |p|
  {
    if |p| == 0 then Some([])
    else if p[0] == '\\' then
      if |p| == 1 then None else Prepend(Literal(p[1]), CompileLike(p[2..]))
    else if p[0] == '%' then Prepend(AnyRun, CompileLike(p[1..]))
    else if p[0] == '_' then Prepend(AnyOne, CompileLike(p[1..]))
    else Prepend(Literal(p[0]), CompileLike(p[1..]))
  }

  /** The whole of `t` matches the pattern. */
  predicate LikeMatches(pat: seq<PatternElem>, t: string)
    decreases |pat| + |t|
  {
    if |pat| == 0 then |t| == 0
    else match pat[0]
      case AnyRun => LikeMatches(pat[1..], t) || (|t| > 0 && LikeMatches(pat, t[1..]))
      case AnyOne => |t| > 0 && LikeMatches(pat[1..], t[1..])
      case Literal(c) => |t| > 0 && t[0] == c && LikeMatches(pat[1..], t[1..])
  }

  /** `text ILIKE '%' || query || '%'`; a pattern that does not compile
      matches nothing (the statement would fail). */
  predicate IlikeContains(text: string, query: string) {
    var compiled := CompileLike(Lower("%" + query + "%"));
    compiled.Some? && LikeMatches(compiled.value, Lower(text))
  }

  /** A character that means something in a LIKE pattern. */
  predicate Special(c: char) {
    c == '%' || c == '_' || c == '\\'
  }

  /** A query in which no character means anything to LIKE. */
  predicate PlainQuery(q: string) {
    forall i :: 0 <= i < |q| ==> !Special(q[i])
  }

  /** The pattern that matches exactly the string `q`. */
  function Literals(q: string): (r: seq<PatternElem>)
    ensures |r| == |q|
    ensures forall i :: 0 <= i < |q| ==> r[i] == Literal(q[i])
  {
    seq(|q|, i requires 0 <= i < |q| => Literal(q[i]))
  }

  /** A pattern whose last character is not the escape always compiles. */
  lemma {:induction false} CompilesWithoutTrailingEscape(s: string, c: char)
    requires c != '\\'
    ensures CompileLike(s + [c]).Some?
    decreases |s|
  {
    var p := s + [c];
    if |s| == 0 {
      assert p[1..] == [];
    } else if s[0] == '\\' {
      if |s| == 1 {
        assert p[2..] == [];
      } else {
        assert p[2..] == s[2..] + [c];
        CompilesWithoutTrailingEscape(s[2..], c);
      }
    } else {
      assert p[1..] == s[1..] + [c];
      CompilesWithoutTrailingEscape(s[1..], c);
    }
  }

  /** Whatever the query, the search pattern `%query%` compiles: a trailing
      `\` in the query escapes the closing `%` instead of failing. */
  lemma SearchPatternCompiles(q: string)
    ensures CompileLike(Lower("%" + q + "%")).Some?
  {
    var l := Lower("%" + q + "%");
    var body := l[..|l| - 1];
    assert l == body + ['%'];
    CompilesWithoutTrailingEscape(body, '%');
  }

  lemma {:induction false} CompilePlain(q: string)
    requires PlainQuery(q)
    ensures CompileLike(q + "%") == Some(Literals(q) + [AnyRun])
    decreases |q|
  {
    var p := q + "%";
    if |q| == 0 {
      assert p == "%";
      CompileRun();
      assert Literals(q) + [AnyRun] == [AnyRun];
    } else {
      assert p[0] == q[0] && !Special(q[0]);
      assert p[1..] == q[1..] + "%";
      assert PlainQuery(q[1..]) by {
        forall i | 0 <= i < |q[1..]| ensures !Special(q[1..][i]) {
          assert q[1..][i] == q[i + 1];
        }
      }
      CompilePlain(q[1..]);
      assert CompileLike(p) == Prepend(Literal(q[0]), CompileLike(q[1..] + "%"));
      assert Literals(q) == [Literal(q[0])] + Literals(q[1..]);
      assert [Literal(q[0])] + (Literals(q[1..]) + [AnyRun]) == Literals(q) + [AnyRun];
    }
  }

  lemma CompileRun()
    ensures CompileLike("%") == Some([AnyRun])
  {
    var p := "%";
    assert p[1..] == [];
    assert CompileLike([]) == Some([]);
    assert CompileLike(p) == Prepend(AnyRun, CompileLike(p[1..]));
    assert [AnyRun] + [] == [AnyRun];
  }

  /** A trailing run matches anything. */
  lemma {:induction false} AnyRunMatchesAll(t: string)
    ensures LikeMatches([AnyRun], t)
    decreases |t|
  {
    if |t| > 0 {
      AnyRunMatchesAll(t[1..]);
    } else {
      assert [AnyRun][1..] == [];
    }
  }

  /** `q%` matches exactly the strings that start with `q`. */
  lemma {:induction false} PrefixPattern(q: string, t: string)
    ensures LikeMatches(Literals(q) + [AnyRun], t) <==> q <= t
    decreases |q|
  {
    var pat := Literals(q) + [AnyRun];
    if |q| == 0 {
      assert pat == [AnyRun];
      AnyRunMatchesAll(t);
    } else {
      assert pat[1..] == Literals(q[1..]) + [AnyRun];
      if |t| > 0 {
        PrefixPattern(q[1..], t[1..]);
        assert q <= t <==> q[0] == t[0] && q[1..] <= t[1..];
      }
    }
  }

  /** `%q%` matches exactly the strings in which `q` occurs. */
  lemma {:induction false} InfixPattern(q: string, t: string)
    ensures LikeMatches([AnyRun] + Literals(q) + [AnyRun], t) <==> Occurs(q, t)
    decreases |t|
  {
    var pat := [AnyRun] + Literals(q) + [AnyRun];
    assert pat[1..] == Literals(q) + [AnyRun];
    PrefixPattern(q, t);
    if |t| > 0 {
      InfixPattern(q, t[1..]);
    }
  }

  /** For a query without `%`, `_` or `\`, ILIKE is the case-insensitive
      substring test. */
  lemma IlikePlain(text: string, q: string)
    requires PlainQuery(q)
    ensures IlikeContains(text, q) <==> ContainsIgnoringCase(text, q)
  {
    var lq := Lower(q);
    assert PlainQuery(lq);
    LowerConcat("%", q);
    LowerConcat("%" + q, "%");
    assert Lower("%" + q + "%") == ['%'] + (lq + "%");
    CompilePlain(lq);
    assert ['%'] + (lq + "%") == "%" + lq + "%";
    assert CompileLike(['%'] + (lq + "%")) == Some([AnyRun] + (Literals(lq) + [AnyRun]));
    assert [AnyRun] + (Literals(lq) + [AnyRun]) == [AnyRun] + Literals(lq) + [AnyRun];
    InfixPattern(lq, Lower(text));
  }

  /** The query `_` matches exactly the non-empty texts, though no `_`
      occurs in "abc", say. */
  lemma UnderscoreMatchesAnyChar(text: string)
    ensures IlikeContains(text, "_") <==> |text| > 0
    ensures !ContainsIgnoringCase("abc", "_")
  {
    UnderscorePattern();
    var t := Lower(text);
    UnderscoreMatchesIff(t);
    assert Lower("_") == "_";
    assert !Occurs("_", "abc") by {
      assert "_" == ['_'];
      OccursSingle('_', "abc");
    }
  }

  lemma UnderscorePattern()
    ensures CompileLike(Lower("%" + "_" + "%")) == Some([AnyRun, AnyOne, AnyRun])
  {
    var p := "%_%";
    assert "%" + "_" + "%" == p;
    assert Lower(p) == p;
    assert p[1..] == "_%" && p[1..][1..] == "%";
    CompileRun();
    assert CompileLike(p[1..]) == Prepend(AnyOne, CompileLike("%"));
    assert [AnyOne] + [AnyRun] == [AnyOne, AnyRun];
    assert CompileLike(p) == Prepend(AnyRun, CompileLike(p[1..]));
    assert [AnyRun] + [AnyOne, AnyRun] == [AnyRun, AnyOne, AnyRun];
  }

  /** `%_%` matches exactly the non-empty texts. */
  lemma UnderscoreMatchesIff(t: string)
    ensures LikeMatches([AnyRun, AnyOne, AnyRun], t) <==> |t| > 0
  {
    assert [AnyRun, AnyOne, AnyRun][1..] == [AnyOne, AnyRun];
    assert [AnyOne, AnyRun][1..] == [AnyRun];
    if |t| > 0 {
      AnyRunMatchesAll(t[1..]);
    }
  }

  /** The query `%` matches every text, even the empty one. */
  lemma PercentMatchesEverything(text: string)
    ensures IlikeContains(text, "%")
    ensures !ContainsIgnoringCase("", "%")
  {
    var p := "%%%";
    assert "%" + "%" + "%" == p;
    assert Lower(p) == p;
    assert p[1..] == "%%" && p[1..][1..] == "%";
    CompileRun();
    assert CompileLike(p[1..]) == Prepend(AnyRun, CompileLike("%"));
    assert [AnyRun] + [AnyRun] == [AnyRun, AnyRun];
    assert CompileLike(p) == Prepend(AnyRun, CompileLike(p[1..]));
    assert [AnyRun] + [AnyRun, AnyRun] == [AnyRun, AnyRun, AnyRun];
    assert CompileLike("%%%") == Some([AnyRun, AnyRun, AnyRun]);
    assert [AnyRun, AnyRun, AnyRun][1..][1..] == [AnyRun];
    AnyRunMatchesAll(Lower(text));
    assert Lower("%") == "%";
  }
}
