/** The tags field of the note forms: the list is shown joined with `", "`,
    and whatever is typed is split on `,`, each piece trimmed and the empty
    pieces dropped. */
module TagText {
  import opened Text

  /** What the parse can produce: non-empty, without a comma, and with no
      white space at either end. */
  predicate WellFormedTag(t: string) {
    t != "" && ',' !in t && Trimmed(t)
  }

  predicate WellFormedTags(tags: seq<string>) {
    forall i :: 0 <= i < |tags| ==> WellFormedTag(tags[i])
  }

  /** `.map(tag => tag.trim()).filter(Boolean)`. */
  function Clean(pieces: seq<string>): (r: seq<string>)
    ensures |r| <= |pieces|
    ensures forall i :: 0 <= i < |r| ==> r[i] != "" && Trimmed(r[i])
  {
    if |pieces| == 0 then []
    else
      var t := Trim(pieces[0]);
      var rest := Clean(pieces[1..]);
      if t == "" then rest
      else
        var r := [t] + rest;
        assert forall i :: 0 < i < |r| ==> r[i] == rest[i - 1];
        r
  }

  /** Cleaning pieces without a comma gives well-formed tags. */
  lemma {:induction false} CleanWellFormed(pieces: seq<string>)
    requires forall i :: 0 <= i < |pieces| ==> ',' !in pieces[i]
    ensures WellFormedTags(Clean(pieces))
    decreases |pieces|
  {
    if |pieces| > 0 {
      TrimChars(pieces[0], ',');
      CleanWellFormed(pieces[1..]);
    }
  }

  /** A piece whose trimmed text is `s`, at index `i` or later. */
  predicate TrimsTo(pieces: seq<string>, s: string) {
    exists i :: 0 <= i < |pieces| && Trim(pieces[i]) == s
  }

  lemma TrimsToCons(pieces: seq<string>, s: string)
    requires |pieces| > 0
    ensures TrimsTo(pieces, s) <==> Trim(pieces[0]) == s || TrimsTo(pieces[1..], s)
  {
    if TrimsTo(pieces, s) {
      var i :| 0 <= i < |pieces| && Trim(pieces[i]) == s;
      if i > 0 {
        assert pieces[1..][i - 1] == pieces[i];
      }
    }
    if TrimsTo(pieces[1..], s) {
      var j :| 0 <= j < |pieces[1..]| && Trim(pieces[1..][j]) == s;
      assert pieces[j + 1] == pieces[1..][j];
    }
  }

  lemma {:induction false} CleanMember(pieces: seq<string>, s: string)
    ensures s in Clean(pieces) <==> s != "" && TrimsTo(pieces, s)
    decreases |pieces|
  {
    if |pieces| > 0 {
      CleanMember(pieces[1..], s);
      TrimsToCons(pieces, s);
    }
  }

  /** `Clean` keeps exactly the pieces that are not blank, each trimmed. */
  lemma CleanMembers(pieces: seq<string>)
    ensures forall s :: s in Clean(pieces) <==>
      s != "" && exists i :: 0 <= i < |pieces| && Trim(pieces[i]) == s
  {
    forall s ensures s in Clean(pieces) <==>
      s != "" && exists i :: 0 <= i < |pieces| && Trim(pieces[i]) == s
    {
      CleanMember(pieces, s);
    }
  }

  /** One piece is kept, trimmed, exactly when it is not blank. */
  lemma CleanSingle(piece: string)
    ensures Clean([piece]) == if Trim(piece) == "" then [] else [Trim(piece)]
  {
    assert [piece][1..] == [];
  }

  /** `Clean` keeps the order of the pieces: it distributes over
      concatenation, so with `CleanSingle` it is determined piece by piece. */
  lemma {:induction false} CleanConcat(a: seq<string>, b: seq<string>)
    ensures Clean(a + b) == Clean(a) + Clean(b)
    decreases |a|
  {
    if |a| == 0 {
      assert a + b == b;
    } else {
      assert (a + b)[0] == a[0] && (a + b)[1..] == a[1..] + b;
      CleanConcat(a[1..], b);
      var t := Trim(a[0]);
      if t != "" {
        assert [t] + (Clean(a[1..]) + Clean(b)) == ([t] + Clean(a[1..])) + Clean(b);
      }
    }
  }

  /** The tags parsed from the text of the field. */
  function ParseTags(text: string): (tags: seq<string>)
    ensures WellFormedTags(tags)
  {
    CleanWellFormed(Split(text, ','));
    Clean(Split(text, ','))
  }

  /** The text the field shows for a list of tags. */
  function JoinTags(tags: seq<string>): string {
    JoinWith(tags, ", ")
  }

  /** Each piece after the first preceded by a space. */
  function Spaced(tags: seq<string>): (r: seq<string>)
    ensures |r| == |tags|
    ensures forall i :: 0 <= i < |tags| ==> r[i] == " " + tags[i]
  {
    seq(|tags|, i requires 0 <= i < |tags| => " " + tags[i])
  }

  lemma {:induction false} JoinSpaced(tags: seq<string>)
    requires |tags| >= 1
    ensures JoinWith(Spaced(tags), ",") == " " + JoinWith(tags, ", ")
    decreases |tags|
  {
    if |tags| > 1 {
      JoinSpaced(tags[1..]);
      assert Spaced(tags)[1..] == Spaced(tags[1..]);
    }
  }

  /** The shown text, split on `,`, is the first tag and then each further
      tag behind a space. */
  lemma SplitJoined(tags: seq<string>)
    requires |tags| >= 1 && WellFormedTags(tags)
    ensures Split(JoinTags(tags), ',') == [tags[0]] + Spaced(tags[1..])
  {
    var pieces := [tags[0]] + Spaced(tags[1..]);
    if |tags| > 1 {
      JoinSpaced(tags[1..]);
      assert JoinWith(pieces, [',']) == JoinTags(tags) by {
        assert pieces[1..] == Spaced(tags[1..]);
      }
    } else {
      assert pieces == [tags[0]];
    }
    forall i | 0 <= i < |pieces| ensures ',' !in pieces[i] {
      if i > 0 {
        assert pieces[i] == " " + tags[i];
      }
    }
    SplitJoin(pieces, ',');
  }

  /** The pieces after the first one of a spaced list are the spaced rest. */
  lemma SpacedTail(tags: seq<string>)
    requires |tags| > 0 && WellFormedTags(tags)
    ensures tags == [tags[0]] + tags[1..]
    ensures Spaced(tags)[0] == " " + tags[0] && Spaced(tags)[1..] == Spaced(tags[1..])
    ensures WellFormedTag(tags[0]) && WellFormedTags(tags[1..])
  {
    assert Spaced(tags)[1..] == Spaced(tags[1..]);
  }

  /** `Clean` keeps a first piece that is not blank, trimmed. */
  lemma CleanCons(pieces: seq<string>)
    requires |pieces| > 0 && Trim(pieces[0]) != ""
    ensures Clean(pieces) == [Trim(pieces[0])] + Clean(pieces[1..])
  {
  }

  lemma {:induction false} CleanSpaced(tags: seq<string>)
    requires WellFormedTags(tags)
    ensures Clean(Spaced(tags)) == tags
    decreases |tags|
  {
    if |tags| > 0 {
      var spaced, rest := Spaced(tags), tags[1..];
      SpacedTail(tags);
      CleanSpaced(rest);
      TrimLeadingSpace(tags[0]);
      CleanCons(spaced);
    }
  }

  /** Parsing the text shown for well-formed tags gives the same tags back. */
  lemma ParseJoinRoundTrip(tags: seq<string>)
    requires WellFormedTags(tags)
    ensures ParseTags(JoinTags(tags)) == tags
  {
    if |tags| == 0 {
      assert Split("", ',') == [""];
    } else {
      SplitJoined(tags);
      var pieces := [tags[0]] + Spaced(tags[1..]);
      assert pieces[0] == tags[0] && pieces[1..] == Spaced(tags[1..]);
      SpacedTail(tags);
      CleanSpaced(tags[1..]);
      CleanCons(pieces);
    }
  }

  /** Parsing is a normal form: showing a parsed list and parsing it again
      changes nothing. */
  lemma ParseIdempotent(text: string)
    ensures ParseTags(JoinTags(ParseTags(text))) == ParseTags(text)
  {
    ParseJoinRoundTrip(ParseTags(text));
  }

  /** A comma typed at the end of the field is parsed away, so the field,
      which shows the parsed list, shows what it showed before the key. */
  lemma TrailingCommaErased(tags: seq<string>)
    requires WellFormedTags(tags)
    ensures JoinTags(ParseTags(JoinTags(tags) + ",")) == JoinTags(tags)
  {
    SplitTrailingSeparator(JoinTags(tags), ',');
    CleanDropsEmptyTail(Split(JoinTags(tags), ','));
    ParseJoinRoundTrip(tags);
  }

  /** A single well-formed tag is its own text, and parses to itself. */
  lemma ParseOne(t: string)
    requires WellFormedTag(t)
    ensures JoinTags([t]) == t && ParseTags(t) == [t]
  {
    ParseJoinRoundTrip([t]);
  }

  /** A space typed after a well-formed tag is trimmed away. */
  lemma TrailingSpaceErased(t: string)
    requires WellFormedTag(t)
    ensures ParseTags(t + " ") == [t]
  {
    var s := t + " ";
    assert ',' !in s;
    SplitJoin([s], ',');
    assert Split(s, ',') == [s];
    assert s[0..|t|] == t && s[..0] == "" && s[|t|..] == " ";
    TrimUnique(s, t, 0);
    CleanSingle(s);
  }

  /** The text the tags field shows once each of `keys` has been typed at
      its end, as the field is written: every change is parsed, and the
      field shows the parsed list joined again. After a key, the field is
      always in that normal form. */
  function ShownAfterTyping(shown: string, keys: string): string
    decreases |keys|
  {
    if |keys| == 0 then shown
    else ShownAfterTyping(JoinTags(ParseTags(shown + [keys[0]])), keys[1..])
  }

  lemma {:induction false} ShownIsNormal(shown: string, keys: string)
    requires |keys| > 0
    ensures JoinTags(ParseTags(ShownAfterTyping(shown, keys))) == ShownAfterTyping(shown, keys)
    decreases |keys|
  {
    var next := JoinTags(ParseTags(shown + [keys[0]]));
    if |keys| == 1 {
      ParseIdempotent(shown + [keys[0]]);
      assert keys[1..] == "";
    } else {
      ShownIsNormal(next, keys[1..]);
    }
  }

  /** A character that can stand in a tag on its own. */
  predicate TagChar(c: char) {
    c != ',' && !IsWhitespace(c)
  }

  /** As written, typing the two one-letter tags `a, b` into the empty
      field leaves it showing the one tag `ab`: the comma and the space
      are erased as they are typed. */
  lemma TypingTwoTagsAsWritten(a: char, b: char)
    requires TagChar(a) && TagChar(b)
    ensures JoinTags([[a], [b]]) == [a, ',', ' ', b]
    ensures ShownAfterTyping("", [a, ',', ' ', b]) == [a, b]
    ensures ParseTags(ShownAfterTyping("", [a, ',', ' ', b])) == [[a, b]]
  {
    JoinTwo(a, b);
    TypeFirst(a, b);
    TypeComma(a, b);
    TypeSpace(a, b);
    TypeSecond(a, b);
  }

  lemma JoinTwo(a: char, b: char)
    ensures JoinTags([[a], [b]]) == [a, ',', ' ', b]
  {
    assert [[a], [b]][1..] == [[b]];
    assert JoinTags([[b]]) == [b];
  }

  lemma TypeFirst(a: char, b: char)
    requires TagChar(a)
    ensures ShownAfterTyping("", [a, ',', ' ', b]) == ShownAfterTyping([a], [',', ' ', b])
  {
    assert [a, ',', ' ', b][1..] == [',', ' ', b];
    assert "" + [a] == [a];
    ParseOne([a]);
  }

  lemma TypeComma(a: char, b: char)
    requires TagChar(a)
    ensures ShownAfterTyping([a], [',', ' ', b]) == ShownAfterTyping([a], [' ', b])
  {
    assert [',', ' ', b][1..] == [' ', b];
    ParseOne([a]);
    TrailingCommaErased([[a]]);
    assert [a] + [','] == JoinTags([[a]]) + ",";
  }

  lemma TypeSpace(a: char, b: char)
    requires TagChar(a)
    ensures ShownAfterTyping([a], [' ', b]) == ShownAfterTyping([a], [b])
  {
    assert [' ', b][1..] == [b];
    ParseOne([a]);
    TrailingSpaceErased([a]);
    assert [a] + [' '] == [a] + " ";
  }

  lemma TypeSecond(a: char, b: char)
    requires TagChar(a) && TagChar(b)
    ensures ShownAfterTyping([a], [b]) == [a, b]
    ensures ParseTags([a, b]) == [[a, b]]
  {
    assert [b][1..] == [];
    assert [a] + [b] == [a, b];
    ParseOne([a, b]);
  }

  /** Corrected: the field keeps the text as typed, and the tags are
      parsed from it once, when the form is submitted. */
  function TypedText(shown: string, keys: string): (r: string)
    ensures r == shown + keys
    decreases |keys|
  {
    if |keys| == 0 then shown
    else
      assert (shown + [keys[0]]) + keys[1..] == shown + keys;
      TypedText(shown + [keys[0]], keys[1..])
  }

  /** With the corrected field, typing a list the way the field shows
      lists and then submitting gives that list. */
  lemma TypedListParsedOnSubmit(tags: seq<string>)
    requires WellFormedTags(tags)
    ensures ParseTags(TypedText("", JoinTags(tags))) == tags
  {
    assert "" + JoinTags(tags) == JoinTags(tags);
    ParseJoinRoundTrip(tags);
  }

  lemma {:induction false} CleanDropsEmptyTail(pieces: seq<string>)
    ensures Clean(pieces + [""]) == Clean(pieces)
    decreases |pieces|
  {
    if |pieces| == 0 {
      assert Trim("") == "";
      assert ([] + [""])[1..] == [];
    } else {
      assert (pieces + [""])[1..] == pieces[1..] + [""];
      CleanDropsEmptyTail(pieces[1..]);
    }
  }
}
