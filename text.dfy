/**
 * The string operations the console and the solver's output rely on:
 * splitting on whitespace (`str.split()`), splitting on one separator
 * character (`str.split('&')`), joining, and decimal integers.
 */
module Text {

  /** The characters a whitespace split treats as separators (str.isspace). */
  predicate IsSpace(c: char) {
    || c == ' ' || c == '\t' || c == '\n' || c == '\r' || c == '\U{000B}' || c == '\U{000C}'
    || ('\U{001C}' <= c <= '\U{001F}') || c == '\U{0085}' || c == '\U{00A0}' || c == '\U{1680}'
    || ('\U{2000}' <= c <= '\U{200A}') || c == '\U{2028}' || c == '\U{2029}'
    || c == '\U{202F}' || c == '\U{205F}' || c == '\U{3000}'
  }

  predicate NoSpace(w: string) {
    forall i :: 0 <= i < |w| ==> !IsSpace(w[i])
  }

  // ---------------------------------------------------------------------------
  // Whitespace split

  /** `s` without its leading whitespace. */
  function DropSpaces(s: string): (r: string)
    ensures |r| <= |s|
    ensures r == [] || !IsSpace(r[0])
    decreases |s|
  {
    if s != [] && IsSpace(s[0]) then DropSpaces(s[1..]) else s
  }

  /** The longest prefix of `s` free of whitespace. */
  function WordLength(s: string): (n: nat)
    ensures n <= |s| && NoSpace(s[..n])
    ensures n < |s| ==> IsSpace(s[n])
    decreases |s|
  {
    if s == [] || IsSpace(s[0]) then 0
    else
      var n := WordLength(s[1..]);
      assert s[..n + 1] == [s[0]] + s[1..][..n];
      n + 1
  }

  /** The words of `s`: maximal whitespace-free runs, in order (str.split()). */
  function Words(s: string): (r: seq<string>)
    ensures forall i :: 0 <= i < |r| ==> r[i] != [] && NoSpace(r[i])
    decreases |s|
  {
    var t := DropSpaces(s);
    if t == [] then []
    else
      var n := WordLength(t);
      [t[..n]] + Words(t[n..])
  }

  /** Joins the pieces with `sep` between consecutive pieces (str.join). */
  function JoinWith(ws: seq<string>, sep: string): string
    decreases |ws|
  {
    if ws == [] then "" else if |ws| == 1 then ws[0] else ws[0] + sep + JoinWith(ws[1..], sep)
  }

  /** One more piece adds the separator and the piece. */
  lemma {:induction false} JoinAppend(ws: seq<string>, y: string, sep: string)
    requires ws != []
    ensures JoinWith(ws + [y], sep) == JoinWith(ws, sep) + sep + y
    decreases |ws|
  {
    if |ws| == 1 {
      assert ws + [y] == [ws[0], y];
      assert [y][1..] == [];
    } else {
      assert (ws + [y])[1..] == ws[1..] + [y];
      JoinAppend(ws[1..], y, sep);
    }
  }

  /** Extending the last piece extends the joined string. */
  lemma {:induction false} JoinExtendLast(ws: seq<string>, z: string, sep: string)
    requires ws != []
    ensures JoinWith(ws[..|ws| - 1] + [ws[|ws| - 1] + z], sep) == JoinWith(ws, sep) + z
    decreases |ws|
  {
    var vs := ws[..|ws| - 1] + [ws[|ws| - 1] + z];
    if |ws| > 1 {
      assert vs[1..] == ws[1..][..|ws| - 2] + [ws[1..][|ws| - 2] + z];
      JoinExtendLast(ws[1..], z, sep);
    }
  }

  /** Whitespace in front of a string does not change its words. */
  lemma {:induction false} WordsDropSpaces(s: string)
    ensures Words(s) == Words(DropSpaces(s))
  {
    var t := DropSpaces(s);
    assert DropSpaces(t) == t;
  }

  /** The word taken from the front of `w + rest` is `w` when `rest` starts with a space. */
  lemma {:induction false} WordLengthOf(w: string, rest: string)
    requires NoSpace(w)
    requires rest == [] || IsSpace(rest[0])
    ensures WordLength(w + rest) == |w|
    decreases |w|
  {
    if w != [] {
      assert (w + rest)[1..] == w[1..] + rest;
      WordLengthOf(w[1..], rest);
    } else {
      assert w + rest == rest;
    }
  }

  /** A word followed by whitespace (or by nothing) is the first word. */
  lemma WordsCons(w: string, rest: string)
    requires w != [] && NoSpace(w)
    requires rest == [] || IsSpace(rest[0])
    ensures Words(w + rest) == [w] + Words(rest)
  {
    var s := w + rest;
    WordLengthOf(w, rest);
    assert DropSpaces(s) == s;
    assert s[..|w|] == w;
    assert s[|w|..] == rest;
  }

  lemma WordsSpace(s: string)
    ensures Words(" " + s) == Words(s)
  {
    assert DropSpaces(" " + s) == DropSpaces(s) by {
      assert (" " + s)[1..] == s;
    }
  }

  /** A word, a space, then the rest: the word comes first, then the words of the rest. */
  lemma WordsPrepend(w: string, rest: string)
    requires w != [] && NoSpace(w)
    ensures Words(w + " " + rest) == [w] + Words(rest)
  {
    assert w + " " + rest == w + (" " + rest);
    WordsCons(w, " " + rest);
    WordsSpace(rest);
  }

  /** Splitting words joined by single spaces gives the words back. */
  lemma {:induction false} WordsOfJoin(ws: seq<string>)
    requires forall i :: 0 <= i < |ws| ==> ws[i] != [] && NoSpace(ws[i])
    ensures Words(JoinWith(ws, " ")) == ws
    decreases |ws|
  {
    if |ws| == 1 {
      WordsCons(ws[0], []);
      assert ws[0] + [] == ws[0];
    } else if |ws| > 1 {
      WordsOfJoin(ws[1..]);
      WordsPrepend(ws[0], JoinWith(ws[1..], " "));
      assert [ws[0]] + ws[1..] == ws;
    }
  }

  // ---------------------------------------------------------------------------
  // Splitting on one character

  /** The pieces of `s` between occurrences of `sep`, empty pieces kept (str.split(sep)). */
  function SplitOn(s: string, sep: char): (r: seq<string>)
    ensures |r| >= 1
    ensures forall i :: 0 <= i < |r| ==> sep !in r[i]
    decreases |s|
  {
    if s == [] then [""]
    else
      var rest := SplitOn(s[1..], sep);
      if s[0] == sep then [""] + rest
      else [[s[0]] + rest[0]] + rest[1..]
  }

  /** Number of occurrences of `c` in `s`. */
  function Count(s: string, c: char): nat
    decreases |s|
  {
    if s == [] then 0 else (if s[0] == c then 1 else 0) + Count(s[1..], c)
  }

  /** Joining the pieces back with the separator restores the string. */
  lemma {:induction false} JoinSplitOn(s: string, sep: char)
    ensures JoinWith(SplitOn(s, sep), [sep]) == s
    decreases |s|
  {
    if s != [] {
      var rest := SplitOn(s[1..], sep);
      JoinSplitOn(s[1..], sep);
      if s[0] == sep {
        assert SplitOn(s, sep)[1..] == rest;
      } else {
        var r := SplitOn(s, sep);
        assert r[1..] == rest[1..];
        if |rest| == 1 {
          assert s == [s[0]] + rest[0];
        } else {
          assert rest[1..][1..] == rest[2..];
          assert JoinWith(rest, [sep]) == rest[0] + [sep] + JoinWith(rest[1..], [sep]);
          assert s == [s[0]] + s[1..];
        }
      }
    }
  }

  /** There is one more piece than there are separators. */
  lemma {:induction false} SplitOnCount(s: string, sep: char)
    ensures |SplitOn(s, sep)| == Count(s, sep) + 1
    decreases |s|
  {
    if s != [] {
      SplitOnCount(s[1..], sep);
    }
  }

  /** A string without the separator is a single piece. */
  lemma SplitOnNone(s: string, sep: char)
    requires sep !in s
    ensures SplitOn(s, sep) == [s]
  {
    SplitOnCount(s, sep);
    CountZero(s, sep);
    JoinSplitOn(s, sep);
  }

  lemma {:induction false} CountZero(s: string, c: char)
    requires c !in s
    ensures Count(s, c) == 0
    decreases |s|
  {
    if s != [] {
      assert c !in s[1..];
      CountZero(s[1..], c);
    }
  }

  lemma {:induction false} CountAppend(a: string, b: string, c: char)
    ensures Count(a + b, c) == Count(a, c) + Count(b, c)
    decreases |a|
  {
    if a == [] {
      assert a + b == b;
    } else {
      assert (a + b)[1..] == a[1..] + b;
      CountAppend(a[1..], b, c);
    }
  }

  /** A separator splits the string into the pieces of each side. */
  lemma {:induction false} SplitOnAppend(x: string, y: string, sep: char)
    ensures SplitOn(x + [sep] + y, sep) == SplitOn(x, sep) + SplitOn(y, sep)
    decreases |x|
  {
    var s := x + [sep] + y;
    if x == [] {
      assert s == [sep] + y;
      assert s[1..] == y;
    } else {
      assert s[1..] == x[1..] + [sep] + y;
      SplitOnAppend(x[1..], y, sep);
    }
  }

  /** Pieces without the separator, joined by it, split back into themselves. */
  lemma {:induction false} SplitOnJoin(ps: seq<string>, sep: char)
    requires |ps| >= 1
    requires forall i :: 0 <= i < |ps| ==> sep !in ps[i]
    ensures SplitOn(JoinWith(ps, [sep]), sep) == ps
    decreases |ps|
  {
    if |ps| == 1 {
      SplitOnNone(ps[0], sep);
    } else {
      SplitOnJoin(ps[1..], sep);
      SplitOnNone(ps[0], sep);
      SplitOnAppend(ps[0], JoinWith(ps[1..], [sep]), sep);
      assert [ps[0]] + ps[1..] == ps;
    }
  }

  // ---------------------------------------------------------------------------
  // Decimal integers

  function DigitChar(d: nat): (c: char)
    requires d < 10
    ensures '0' <= c <= '9'
  {
    "0123456789"[d]
  }

  function DigitValue(c: char): nat
    requires '0' <= c <= '9'
  {
    (c as int - '0' as int) as nat
  }

  predicate AllDigits(s: string) {
    forall i :: 0 <= i < |s| ==> '0' <= s[i] <= '9'
  }

  /** The decimal digits of n, most significant first, without leading zeros. */
  function NatToString(n: nat): (r: string)
    ensures |r| >= 1 && AllDigits(r)
    ensures r[0] == '0' ==> n == 0
    decreases n
  {
    if n < 10 then [DigitChar(n)] else NatToString(n / 10) + [DigitChar(n % 10)]
  }

  /** The value of a string of decimal digits. */
  function ParseNat(s: string): nat
    requires AllDigits(s)
    decreases |s|
  {
    if s == [] then 0 else ParseNat(s[..|s| - 1]) * 10 + DigitValue(s[|s| - 1])
  }

  lemma {:induction false} ParseNatToString(n: nat)
    ensures ParseNat(NatToString(n)) == n
    decreases n
  {
    var r := NatToString(n);
    if n < 10 {
      assert r[..0] == [];
    } else {
      ParseNatToString(n / 10);
      assert r[..|r| - 1] == NatToString(n / 10);
    }
  }

  /** How Python prints an int: a minus sign for negatives, then the digits. */
  function IntToString(i: int): (r: string)
    ensures |r| >= 1
  {
    if i < 0 then "-" + NatToString(-i) else NatToString(i)
  }

  function ParseInt(s: string): int
    requires s != [] && (s[0] == '-' ==> AllDigits(s[1..])) && (s[0] != '-' ==> AllDigits(s))
  {
    if s[0] == '-' then -(ParseNat(s[1..]) as int) else ParseNat(s)
  }

  /** Printed integers read back as themselves. */
  lemma IntRoundTrip(i: int)
    ensures var r := IntToString(i);
      && (r[0] == '-' ==> AllDigits(r[1..])) && (r[0] != '-' ==> AllDigits(r))
      && ParseInt(r) == i
  {
    var d := NatToString(if i < 0 then -i else i);
    ParseNatToString(if i < 0 then -i else i);
    if i < 0 {
      assert ("-" + d)[1..] == d;
    }
  }
}
