/** The Python string operations the solver and the clue loaders use:
    `str.strip()`, `str.split()` on whitespace and on one separator,
    `sep.join`, `str(int)` and `int(str)`. Strings are sequences of
    characters; `int` is modelled for ASCII digits. */
module Text {
  import opened Wrappers

  /** The characters Python's `str.isspace` accepts: the control characters
      tab to carriage return and file to unit separator, the space, NEL,
      no-break space, ogham space mark, the spaces U+2000 to U+200A, the line
      and paragraph separators, narrow no-break space, medium mathematical
      space and ideographic space. */
  predicate IsSpace(c: char)
  {
    || '\U{9}' <= c <= '\U{D}'
    || '\U{1C}' <= c <= '\U{20}'
    || c == '\U{85}' || c == '\U{A0}' || c == '\U{1680}'
    || '\U{2000}' <= c <= '\U{200A}'
    || c == '\U{2028}' || c == '\U{2029}' || c == '\U{202F}' || c == '\U{205F}' || c == '\U{3000}'
  }

  predicate NoSpace(s: string) { forall i | 0 <= i < |s| :: !IsSpace(s[i]) }

  /** `s.lstrip()`. */
  function TrimLeft(s: string): (r: string)
    ensures |r| <= |s|
  {
    if s != [] && IsSpace(s[0]) then TrimLeft(s[1..]) else s
  }

  /** lstrip removes a prefix of whitespace and stops at the first other
      character. */
  lemma {:induction false} TrimLeftFacts(s: string)
    ensures var r := TrimLeft(s);
      && r == s[|s| - |r|..]
      && (r == [] || !IsSpace(r[0]))
      && (forall i | 0 <= i < |s| - |r| :: IsSpace(s[i]))
  {
    if s != [] && IsSpace(s[0]) {
      TrimLeftFacts(s[1..]);
      var r := TrimLeft(s[1..]);
      assert s[1..][|s| - 1 - |r|..] == s[|s| - |r|..];
    }
  }

  /** `s.rstrip()`. */
  function TrimRight(s: string): (r: string)
    ensures |r| <= |s|
  {
    if s != [] && IsSpace(s[|s| - 1]) then TrimRight(s[..|s| - 1]) else s
  }

  /** rstrip removes a suffix of whitespace and stops at the last other
      character. */
  lemma {:induction false} TrimRightFacts(s: string)
    ensures var r := TrimRight(s);
      && r == s[..|r|]
      && (r == [] || !IsSpace(r[|r| - 1]))
      && (forall i | |r| <= i < |s| :: IsSpace(s[i]))
  {
    if s != [] && IsSpace(s[|s| - 1]) {
      TrimRightFacts(s[..|s| - 1]);
      var r := TrimRight(s[..|s| - 1]);
      assert s[..|s| - 1][..|r|] == s[..|r|];
    }
  }

  /** `s.strip()`. */
  function Strip(s: string): (r: string)
  {
    TrimRight(TrimLeft(s))
  }

  /** A string of whitespace strips to nothing, and a stripped string has no
      whitespace at either end. */
  lemma StripFacts(s: string)
    ensures Strip(s) == [] <==> forall i | 0 <= i < |s| :: IsSpace(s[i])
    ensures Strip(s) != [] ==> !IsSpace(Strip(s)[0]) && !IsSpace(Strip(s)[|Strip(s)| - 1])
  {
    var l := TrimLeft(s);
    var r := TrimRight(l);
    TrimLeftFacts(s);
    TrimRightFacts(l);
    if r != [] {
      assert r[0] == l[0];
    }
  }

  /** The length of the run of non-space characters that starts s. */
  function RunLength(s: string): (n: nat)
    requires s != [] && !IsSpace(s[0])
    ensures 1 <= n <= |s|
    ensures NoSpace(s[..n]) && (n < |s| ==> IsSpace(s[n]))
    ensures forall i | 0 <= i < n :: !IsSpace(s[i])
  {
    if |s| == 1 || IsSpace(s[1]) then 1
    else
      var n := 1 + RunLength(s[1..]);
      assert forall i | 1 <= i < n :: s[..n][i] == s[1..][..n - 1][i - 1];
      n
  }

  /** `s.split()`: the maximal runs of non-space characters, in order. */
  function Words(s: string): (ws: seq<string>)
    ensures forall i | 0 <= i < |ws| :: ws[i] != [] && NoSpace(ws[i])
    decreases |s|
  {
    if s == [] then []
    else if IsSpace(s[0]) then Words(s[1..])
    else
      var n := RunLength(s);
      [s[..n]] + Words(s[n..])
  }

  /** `sep.join(parts)`. */
  function Join(parts: seq<string>, sep: string): string
  {
    if parts == [] then []
    else if |parts| == 1 then parts[0]
    else parts[0] + sep + Join(parts[1..], sep)
  }

  /** `s.split(c)` for a one-character separator: the pieces between the
      occurrences of c (there is always at least one piece). */
  function Split(s: string, c: char): (ps: seq<string>)
    ensures ps != []
    ensures forall i | 0 <= i < |ps| :: c !in ps[i]
    decreases |s|
  {
    if c !in s then [s]
    else
      var i := FirstIndex(s, c);
      [s[..i]] + Split(s[i + 1..], c)
  }

  function FirstIndex(s: string, c: char): (i: nat)
    requires c in s
    ensures i < |s| && s[i] == c && c !in s[..i]
    ensures forall j | 0 <= j < i :: s[j] != c
  {
    if s[0] == c then 0
    else
      var i := 1 + FirstIndex(s[1..], c);
      assert s[..i] == [s[0]] + s[1..][..i - 1];
      i
  }

  /** Splitting undoes joining on a separator no piece contains. */
  lemma {:induction false} SplitJoin(ps: seq<string>, c: char)
    requires ps != [] && forall i | 0 <= i < |ps| :: c !in ps[i]
    ensures Split(Join(ps, [c]), c) == ps
  {
    if |ps| > 1 {
      var rest := Join(ps[1..], [c]);
      assert Split(rest, c) == ps[1..] by { SplitJoin(ps[1..], c); }
      assert Join(ps, [c]) == ps[0] + [c] + rest;
      SplitAfter(ps[0], rest, c);
      assert ps == [ps[0]] + ps[1..];
    }
  }

  /** A piece without the separator, the separator, then more text: the
      piece comes first. */
  lemma SplitAfter(x: string, rest: string, c: char)
    requires c !in x
    ensures Split(x + [c] + rest, c) == [x] + Split(rest, c)
  {
    var s := x + [c] + rest;
    assert s[|x|] == c;
    assert forall j | 0 <= j < |x| :: s[j] == x[j];
    assert FirstIndex(s, c) == |x|;
    assert s[..|x|] == x && s[|x| + 1..] == rest;
  }

  /** The words of a line written as single-space-separated words are those
      words. */
  lemma {:induction false} WordsJoin(ws: seq<string>)
    requires forall i | 0 <= i < |ws| :: ws[i] != [] && NoSpace(ws[i])
    ensures Words(Join(ws, " ")) == ws
    decreases |ws|
  {
    if ws == [] {
    } else if |ws| == 1 {
      WordsOfWord(ws[0], []);
      assert ws[0] + [] == ws[0];
    } else {
      var rest := Join(ws[1..], " ");
      assert Words(rest) == ws[1..] by { WordsJoin(ws[1..]); }
      assert Join(ws, " ") == ws[0] + (" " + rest);
      WordsBeforeSpace(ws[0], rest);
      assert ws == [ws[0]] + ws[1..];
    }
  }

  /** A word, a space, then more text: the word comes first. */
  lemma WordsBeforeSpace(w: string, rest: string)
    requires w != [] && NoSpace(w)
    ensures Words(w + (" " + rest)) == [w] + Words(rest)
  {
    WordsOfWord(w, " " + rest);
    assert (" " + rest)[1..] == rest;
  }

  lemma WordsOfWord(w: string, t: string)
    requires w != [] && NoSpace(w) && (t == [] || IsSpace(t[0]))
    ensures Words(w + t) == [w] + Words(t)
  {
    var s := w + t;
    var n := RunLength(s);
    assert forall i | 0 <= i < |w| :: s[i] == w[i];
    assert t != [] ==> s[|w|] == t[0];
    assert n == |w|;
    assert s[..n] == w && s[n..] == t;
  }

  // ---------------------------------------------------------------------
  // Integers.

  predicate IsDigit(c: char) { '0' <= c <= '9' }

  function DigitValue(c: char): nat
    requires IsDigit(c)
  {
    (c as int - '0' as int) as nat
  }

  function DigitChar(d: nat): (c: char)
    requires d < 10
    ensures IsDigit(c) && DigitValue(c) == d
  {
    ('0' as int + d) as char
  }

  /** The shape `int` accepts after the sign: digits, with single
      underscores allowed between two digits. */
  predicate DigitString(s: string)
  {
    && s != [] && IsDigit(s[0]) && IsDigit(s[|s| - 1])
    && (forall i | 0 <= i < |s| :: IsDigit(s[i]) || s[i] == '_')
    && (forall i | 0 <= i < |s| - 1 :: !(s[i] == '_' && s[i + 1] == '_'))
  }

  /** The number the digits of s spell, underscores ignored. */
  function DigitsValue(s: string): nat
    requires forall i | 0 <= i < |s| :: IsDigit(s[i]) || s[i] == '_'
  {
    if s == [] then 0
    else if s[|s| - 1] == '_' then DigitsValue(s[..|s| - 1])
    else 10 * DigitsValue(s[..|s| - 1]) + DigitValue(s[|s| - 1])
  }

  /** `int(s)`: the text after stripping whitespace is an optional sign and a
      digit string; anything else raises ValueError (None). */
  function ParseInt(s: string): (r: Option<int>)
  {
    var t := Strip(s);
    if t != [] && (t[0] == '-' || t[0] == '+') then
      if DigitString(t[1..]) then
        var n: int := DigitsValue(t[1..]);
        Some(if t[0] == '-' then -n else n)
      else None
    else if DigitString(t) then Some(DigitsValue(t))
    else None
  }

  /** `str(n)` for a natural number: decimal, no leading zeros. */
  function NatToString(n: nat): (s: string)
    ensures s != [] && forall i | 0 <= i < |s| :: IsDigit(s[i])
  {
    if n < 10 then [DigitChar(n)] else NatToString(n / 10) + [DigitChar(n % 10)]
  }

  /** `str(v)`. */
  function IntToString(v: int): (s: string)
  {
    if v < 0 then "-" + NatToString(-v) else NatToString(v)
  }

  lemma {:induction false} NatToStringValue(n: nat)
    ensures DigitString(NatToString(n)) && DigitsValue(NatToString(n)) == n
  {
    if n >= 10 {
      NatToStringValue(n / 10);
      var s := NatToString(n);
      assert s[..|s| - 1] == NatToString(n / 10);
    }
  }

  /** A string with no whitespace at either end strips to itself. */
  lemma StripPlain(s: string)
    requires s != [] && !IsSpace(s[0]) && !IsSpace(s[|s| - 1])
    ensures Strip(s) == s
  {
  }

  lemma ParseUnsigned(d: string)
    requires DigitString(d)
    ensures ParseInt(d) == Some(DigitsValue(d))
  {
    StripPlain(d);
  }

  lemma ParseNegative(s: string)
    requires |s| >= 2 && s[0] == '-' && DigitString(s[1..])
    ensures ParseInt(s) == Some(-(DigitsValue(s[1..]) as int))
  {
    assert s[|s| - 1] == s[1..][|s| - 2];
    StripPlain(s);
  }

  lemma ParseNatString(n: nat)
    ensures ParseInt(NatToString(n)) == Some(n)
  {
    NatToStringValue(n);
    ParseUnsigned(NatToString(n));
  }

  /** `int(str(v)) == v`: printed integers read back. */
  lemma ParseIntToString(v: int)
    ensures ParseInt(IntToString(v)) == Some(v)
  {
    if v < 0 {
      var n: nat := -v;
      var d := NatToString(n);
      var s := IntToString(v);
      assert s == "-" + d;
      assert s[1..] == d;
      NatToStringValue(n);
      ParseNegative(s);
    } else {
      ParseNatString(v);
    }
  }

  /** A printed integer contains no separator the board text uses. */
  lemma IntToStringPlain(v: int)
    ensures IntToString(v) != [] && NoSpace(IntToString(v))
    ensures ',' !in IntToString(v) && '\n' !in IntToString(v)
    ensures forall i | 0 <= i < |IntToString(v)| :: IsDigit(IntToString(v)[i]) || IntToString(v)[i] == '-'
  {
    var s := IntToString(v);
    assert forall i | 0 <= i < |s| :: IsDigit(s[i]) || s[i] == '-';
  }

  /** A character in neither the parts nor the separator is not in the join. */
  lemma {:induction false} JoinExcludes(parts: seq<string>, sep: string, c: char)
    requires c !in sep && forall i | 0 <= i < |parts| :: c !in parts[i]
    ensures c !in Join(parts, sep)
  {
    if |parts| > 1 {
      JoinExcludes(parts[1..], sep, c);
    }
  }
}
