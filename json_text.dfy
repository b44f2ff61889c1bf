/** `JSON.stringify` on a list of strings, as the edit card uses it to
    compare tag lists, and the proof that it tells different lists apart:
    comparing the texts is comparing the lists. */
module JsonText {
  import opened NoteTypes

  /** Lower-case hexadecimal digit of `n`. */
  function HexDigit(n: int): char
    requires 0 <= n < 16
  {
    if n < 10 then ('0' as int + n) as char else ('a' as int + n - 10) as char
  }

  /** The value of a lower-case hexadecimal digit. */
  function HexValue(c: char): (v: int)
    ensures 0 <= v < 16
  {
    if '0' <= c <= '9' then c as int - '0' as int
    else if 'a' <= c <= 'f' then c as int - 'a' as int + 10
    else 0
  }

  /** How one character is written inside a JSON string: quote and backslash
      behind a backslash, the five control characters with short escapes as
      `\b \t \n \f \r`, the other control characters as `\u00xx`, and every
      other character as itself. */
  function EscapeChar(c: char): (r: string)
    ensures 1 <= |r| <= 6 && r[0] != '"'
  {
    var n := c as int;
    if n == 0x22 then ['\\', '"']
    else if n == 0x5C then ['\\', '\\']
    else if n == 0x08 then ['\\', 'b']
    else if n == 0x09 then ['\\', 't']
    else if n == 0x0A then ['\\', 'n']
    else if n == 0x0C then ['\\', 'f']
    else if n == 0x0D then ['\\', 'r']
    else if n < 0x20 then ['\\', 'u', '0', '0', HexDigit(n / 16), HexDigit(n % 16)]
    else [c]
  }

  /** Reads the first escaped character off `s`: the character and the
      length of its escape. */
  function DecodeFirst(s: string): (r: (char, int))
    requires |s| >= 1
  {
    if s[0] != '\\' || |s| < 2 then (s[0], 1)
    else if s[1] == 'u' && |s| >= 6 then ((HexValue(s[4]) * 16 + HexValue(s[5])) as char, 6)
    else
      var c := s[1];
      (if c == 'b' then 8 as char
       else if c == 't' then 9 as char
       else if c == 'n' then 10 as char
       else if c == 'f' then 12 as char
       else if c == 'r' then 13 as char
       else c, 2)
  }

  /** An escape is read back as the character it stands for, whatever follows it. */
  lemma EscapeCharDecodes(c: char, s: string)
    ensures DecodeFirst(EscapeChar(c) + s) == (c, |EscapeChar(c)|)
  {
    var n := c as int;
    var e := EscapeChar(c);
    var t := e + s;
    assert t[..|e|] == e;
    if 0x20 > n && n != 0x08 && n != 0x09 && n != 0x0A && n != 0x0C && n != 0x0D {
      assert HexValue(HexDigit(n / 16)) == n / 16;
      assert HexValue(HexDigit(n % 16)) == n % 16;
      assert t[4] == HexDigit(n / 16) && t[5] == HexDigit(n % 16);
    }
  }

  /** The characters of `s`, each escaped. */
  function Escape(s: string): string
    decreases |s|
  {
    if |s| == 0 then "" else EscapeChar(s[0]) + Escape(s[1..])
  }

  /** An escaped text followed by more text starts with its first escape. */
  lemma EscapeCons(x: string, u: string)
    requires |x| > 0
    ensures Escape(x) + "\"" + u == EscapeChar(x[0]) + (Escape(x[1..]) + "\"" + u)
  {
    var e, t, q := EscapeChar(x[0]), Escape(x[1..]), "\"";
    assert Escape(x) == e + t;
    ConcatAssoc(e, t, q);
    ConcatAssoc(e, t + q, u);
  }

  /** Regrouping a concatenation, stated apart from `EscapeCons` so that
      the solver does not see the escapes while it regroups. */
  lemma ConcatAssoc(e: string, t: string, w: string)
    ensures (e + t) + w == e + (t + w)
  {
  }

  /** A closing quote ends an escaped text unambiguously: what precedes it
      and what follows it are both determined. */
  lemma {:induction false} EscapeUnique(x: string, u: string, y: string, v: string)
    ensures Escape(x) + "\"" + u == Escape(y) + "\"" + v ==> x == y && u == v
    decreases |x|
  {
    var l := Escape(x) + "\"" + u;
    var r := Escape(y) + "\"" + v;
    if |x| == 0 && |y| == 0 {
      assert l == "\"" + u && r == "\"" + v;
      assert l[1..] == u && r[1..] == v;
    } else if |x| == 0 {
      EscapeCons(y, v);
      assert l[0] == '"' && r[0] != '"';
    } else if |y| == 0 {
      EscapeCons(x, u);
      assert r[0] == '"' && l[0] != '"';
    } else if l == r {
      EscapeCons(x, u);
      EscapeCons(y, v);
      var lt := Escape(x[1..]) + "\"" + u;
      var rt := Escape(y[1..]) + "\"" + v;
      EscapeCharDecodes(x[0], lt);
      EscapeCharDecodes(y[0], rt);
      assert x[0] == y[0];
      var k := |EscapeChar(x[0])|;
      assert lt == l[k..] && rt == r[k..];
      EscapeUnique(x[1..], u, y[1..], v);
      assert x == [x[0]] + x[1..] && y == [y[0]] + y[1..];
    }
  }

  /** `"` + the escaped text + `"`. */
  function Quote(s: string): (r: string)
    ensures |r| >= 2 && r[0] == '"' && r[|r| - 1] == '"'
  {
    "\"" + Escape(s) + "\""
  }

  /** A quoted text followed by more text, seen from its opening quote. */
  lemma QuoteCons(x: string, u: string)
    ensures |Quote(x) + u| >= 1 && (Quote(x) + u)[1..] == Escape(x) + "\"" + u
  {
    var q, e := "\"", Escape(x);
    assert (q + e) + q == q + (e + q);
    assert (q + (e + q)) + u == q + ((e + q) + u);
    assert (q + (e + q + u))[1..] == e + q + u;
  }

  lemma QuoteUnique(x: string, u: string, y: string, v: string)
    ensures Quote(x) + u == Quote(y) + v ==> x == y && u == v
  {
    QuoteCons(x, u);
    QuoteCons(y, v);
    EscapeUnique(x, u, y, v);
  }

  /** The text after `[`: the quoted items separated by `,`, then `]`. */
  function ItemsText(items: seq<string>): (r: string)
    ensures |r| >= 1 && (r[0] == ']' <==> |items| == 0) && r[|r| - 1] == ']'
    decreases |items|
  {
    if |items| == 0 then "]"
    else Quote(items[0]) + (if |items| == 1 then "]" else "," + ItemsText(items[1..]))
  }

  /** `JSON.stringify(items)` for a list of strings. */
  function StringifyStrings(items: seq<string>): (r: string)
    ensures |r| >= 2 && r[0] == '[' && r[|r| - 1] == ']'
  {
    "[" + ItemsText(items)
  }

  /** What follows the first quoted item: `]`, or `,` and the other items. */
  function ItemsTail(items: seq<string>): (r: string)
    requires |items| > 0
    ensures |r| >= 1 && (r[0] == ']' <==> |items| == 1)
  {
    if |items| == 1 then "]" else "," + ItemsText(items[1..])
  }

  /** The items text is the first quoted item and then the tail. */
  lemma ItemsCons(a: seq<string>)
    requires |a| > 0
    ensures a == [a[0]] + a[1..]
    ensures ItemsText(a) == Quote(a[0]) + ItemsTail(a)
    ensures |a| > 1 ==> ItemsTail(a)[1..] == ItemsText(a[1..])
  {
  }

  lemma {:induction false} ItemsUnique(a: seq<string>, b: seq<string>)
    ensures ItemsText(a) == ItemsText(b) ==> a == b
    decreases |a|
  {
    if |a| > 0 && |b| > 0 && ItemsText(a) == ItemsText(b) {
      var ra, rb := ItemsTail(a), ItemsTail(b);
      ItemsCons(a);
      ItemsCons(b);
      QuoteUnique(a[0], ra, b[0], rb);
      if |a| > 1 && |b| > 1 {
        ItemsUnique(a[1..], b[1..]);
      }
    } else if |a| > 0 {
      assert ItemsText(a)[0] == '"';
    } else if |b| > 0 {
      assert ItemsText(b)[0] == '"';
    }
  }

  /** Two lists of strings have the same JSON text exactly when they are
      the same list. */
  lemma StringifyInjective(a: seq<string>, b: seq<string>)
    ensures StringifyStrings(a) == StringifyStrings(b) <==> a == b
  {
    ItemsUnique(a, b);
    if StringifyStrings(a) == StringifyStrings(b) {
      assert StringifyStrings(a)[1..] == ItemsText(a);
      assert StringifyStrings(b)[1..] == ItemsText(b);
    }
  }
}
