/** The string helpers of Weather3.py: `clean` (whitespace normalisation),
    `str.split(' ')` on a day label, `int()` of its day-of-month token, and
    the elevation taken from a forecast URL. */
module Text {
  import opened Wrappers

  type String = seq<char>

  // ---------------------------------------------------------------------
  // Whitespace, as Python's `str.isspace` and the `\s` class of `re` on
  // `str` patterns see it (both use the same Unicode table).
  // ---------------------------------------------------------------------

  /** \t \n \v \f \r, the file, group, record and unit separators, the
      space, NEL, NBSP, the Ogham space mark, the spaces U+2000-U+200A,
      the line and paragraph separators, NNBSP, MMSP and the ideographic
      space. */
  const Whitespace: set<char> := {
    '\t', '\n', '\U{B}', '\U{C}', '\r', '\U{1C}', '\U{1D}', '\U{1E}', '\U{1F}',
    ' ', '\U{85}', '\U{A0}', '\U{1680}',
    '\U{2000}', '\U{2001}', '\U{2002}', '\U{2003}', '\U{2004}', '\U{2005}',
    '\U{2006}', '\U{2007}', '\U{2008}', '\U{2009}', '\U{200A}',
    '\U{2028}', '\U{2029}', '\U{202F}', '\U{205F}', '\U{3000}'}

  predicate IsSpace(c: char) {
    c in Whitespace
  }

  /** No whitespace at either end. */
  predicate NoEdgeSpace(s: String) {
    s == [] || (!IsSpace(s[0]) && !IsSpace(s[|s| - 1]))
  }

  /** No two adjacent whitespace characters. */
  predicate NoSpaceRuns(s: String) {
    forall i :: 0 < i < |s| ==> !(IsSpace(s[i - 1]) && IsSpace(s[i]))
  }

  /** The only whitespace character present is the plain space. */
  predicate PlainSpacesOnly(s: String) {
    forall i :: 0 <= i < |s| && IsSpace(s[i]) ==> s[i] == ' '
  }

  /** The shape `clean` gives its result. */
  predicate Normalized(s: String) {
    NoEdgeSpace(s) && NoSpaceRuns(s) && PlainSpacesOnly(s)
  }

  /** The characters of `s` that are not whitespace, in order. */
  function NonSpace(s: String): (r: String)
    ensures |r| <= |s|
  {
    if s == [] then []
    else if IsSpace(s[0]) then NonSpace(s[1..])
    else [s[0]] + NonSpace(s[1..])
  }

  // ---------------------------------------------------------------------
  // str.strip() with no argument
  // ---------------------------------------------------------------------

  /** `s` without its leading whitespace (`str.lstrip()`). */
  function TrimLeft(s: String): (r: String)
    ensures |r| <= |s|
  {
    if s != [] && IsSpace(s[0]) then TrimLeft(s[1..]) else s
  }

  /** `s` without its trailing whitespace (`str.rstrip()`). */
  function TrimRight(s: String): (r: String)
    ensures |r| <= |s|
  {
    if s != [] && IsSpace(s[|s| - 1]) then TrimRight(s[..|s| - 1]) else s
  }

  /** What `lstrip` removes is whitespace, and what it keeps starts with a
      non-whitespace character. */
  lemma {:induction false} TrimLeftSpec(s: String)
    ensures TrimLeft(s) == s[|s| - |TrimLeft(s)|..]
    ensures TrimLeft(s) == [] || !IsSpace(TrimLeft(s)[0])
    ensures forall i :: 0 <= i < |s| - |TrimLeft(s)| ==> IsSpace(s[i])
  {
    if s != [] && IsSpace(s[0]) {
      TrimLeftSpec(s[1..]);
    }
  }

  /** The same for `rstrip`, at the other end. */
  lemma {:induction false} TrimRightSpec(s: String)
    ensures TrimRight(s) == s[..|TrimRight(s)|]
    ensures TrimRight(s) == [] || !IsSpace(TrimRight(s)[|TrimRight(s)| - 1])
    ensures forall i :: |TrimRight(s)| <= i < |s| ==> IsSpace(s[i])
  {
    if s != [] && IsSpace(s[|s| - 1]) {
      TrimRightSpec(s[..|s| - 1]);
    }
  }

  function Strip(s: String): String {
    TrimRight(TrimLeft(s))
  }

  // ---------------------------------------------------------------------
  // clean(text) = re.sub('\s+', ' ', text).strip()    (Weather3.py:77-80)
  // ---------------------------------------------------------------------

  /** `re.sub('\s+', ' ', s)`: every maximal run of whitespace becomes one
      plain space. */
  function Collapse(s: String): (r: String)
    decreases |s|
  {
    if s == [] then []
    else if IsSpace(s[0]) then [' '] + Collapse(TrimLeft(s[1..]))
    else [s[0]] + Collapse(s[1..])
  }

  /** `clean(s)`, computed in one pass: leading whitespace is dropped, and a
      whitespace run after a character becomes one ' ' when more
      non-whitespace follows.  `CleanMatchesSource` proves it equal to
      `Strip(Collapse(s))`, the expression the source evaluates. */
  function Clean(s: String): String
  {
    if s == [] then []
    else if IsSpace(s[0]) then Clean(s[1..])
    else
      var rest := Clean(s[1..]);
      [s[0]] + (if |s| > 1 && IsSpace(s[1]) && rest != [] then [' '] + rest else rest)
  }

  // ---------------------------------------------------------------------
  // Properties of Collapse and Strip
  // ---------------------------------------------------------------------

  lemma {:induction false} CollapseHead(s: String)
    ensures s == [] <==> Collapse(s) == []
    ensures s != [] ==> (IsSpace(Collapse(s)[0]) <==> IsSpace(s[0]))
  {
  }

  lemma {:induction false} CollapseShape(s: String)
    ensures NoSpaceRuns(Collapse(s)) && PlainSpacesOnly(Collapse(s))
    decreases |s|
  {
    if s == [] {
    } else if IsSpace(s[0]) {
      var t := TrimLeft(s[1..]);
      TrimLeftSpec(s[1..]);
      CollapseShape(t);
      CollapseHead(t);
    } else {
      CollapseShape(s[1..]);
    }
  }

  lemma {:induction false} NonSpaceConcat(a: String, b: String)
    ensures NonSpace(a + b) == NonSpace(a) + NonSpace(b)
  {
    if a == [] {
      assert a + b == b;
    } else {
      assert (a + b)[1..] == a[1..] + b;
      NonSpaceConcat(a[1..], b);
    }
  }

  lemma {:induction false} NonSpaceAllSpace(s: String)
    requires forall i :: 0 <= i < |s| ==> IsSpace(s[i])
    ensures NonSpace(s) == []
  {
    if s != [] {
      NonSpaceAllSpace(s[1..]);
    }
  }

  lemma {:induction false} NonSpaceTrimLeft(s: String)
    ensures NonSpace(TrimLeft(s)) == NonSpace(s)
  {
    var r := TrimLeft(s);
    TrimLeftSpec(s);
    assert s == s[..|s| - |r|] + r;
    NonSpaceConcat(s[..|s| - |r|], r);
    NonSpaceAllSpace(s[..|s| - |r|]);
  }

  lemma {:induction false} NonSpaceTrimRight(s: String)
    ensures NonSpace(TrimRight(s)) == NonSpace(s)
  {
    var r := TrimRight(s);
    TrimRightSpec(s);
    assert s == r + s[|r|..];
    NonSpaceConcat(r, s[|r|..]);
    NonSpaceAllSpace(s[|r|..]);
  }

  lemma {:induction false} NonSpaceCollapse(s: String)
    ensures NonSpace(Collapse(s)) == NonSpace(s)
    decreases |s|
  {
    if s == [] {
    } else if IsSpace(s[0]) {
      NonSpaceCollapse(TrimLeft(s[1..]));
      NonSpaceTrimLeft(s[1..]);
      NonSpaceConcat([' '], Collapse(TrimLeft(s[1..])));
    } else {
      NonSpaceCollapse(s[1..]);
      NonSpaceConcat([s[0]], Collapse(s[1..]));
    }
  }

  /** Taking a slice keeps the absence of runs and of other whitespace. */
  lemma SliceKeepsShape(s: String, lo: nat, hi: nat)
    requires lo <= hi <= |s|
    requires NoSpaceRuns(s) && PlainSpacesOnly(s)
    ensures NoSpaceRuns(s[lo..hi]) && PlainSpacesOnly(s[lo..hi])
  {
    var t := s[lo..hi];
    forall i | 0 < i < |t| ensures !(IsSpace(t[i - 1]) && IsSpace(t[i])) {
      assert t[i - 1] == s[lo + i - 1] && t[i] == s[lo + i];
    }
  }

  lemma StripShape(s: String)
    ensures NoEdgeSpace(Strip(s))
  {
    var l := TrimLeft(s);
    var r := TrimRight(l);
    TrimLeftSpec(s);
    TrimRightSpec(l);
    if r != [] {
      assert l != [] && r[0] == l[0];
    }
  }

  /** `rstrip` keeps exactly a prefix that ends in non-whitespace and is
      followed only by whitespace. */
  lemma {:induction false} TrimRightUnique(p: String, q: String)
    requires p == [] || !IsSpace(p[|p| - 1])
    requires forall i :: 0 <= i < |q| ==> IsSpace(q[i])
    ensures TrimRight(p + q) == p
    decreases |q|
  {
    if q == [] {
      assert p + q == p;
    } else {
      var q' := q[..|q| - 1];
      assert (p + q)[..|p + q| - 1] == p + q';
      assert (p + q)[|p + q| - 1] == q[|q| - 1];
      TrimRightUnique(p, q');
    }
  }

  lemma TrimRightAfter(a: String, c: String)
    requires TrimRight(c) != []
    ensures TrimRight(a + c) == a + TrimRight(c)
  {
    TrimRightSpec(c);
    var r := TrimRight(c);
    assert c == r + c[|r|..];
    assert a + c == (a + r) + c[|r|..];
    TrimRightUnique(a + r, c[|r|..]);
  }

  /** Collapsing commutes with `lstrip`. */
  lemma CollapseTrimLeft(t: String)
    ensures TrimLeft(Collapse(t)) == Collapse(TrimLeft(t))
  {
    if t != [] && IsSpace(t[0]) {
      var u := TrimLeft(t[1..]);
      TrimLeftSpec(t[1..]);
      CollapseHead(u);
      assert Collapse(t) == [' '] + Collapse(u);
    } else {
      CollapseHead(t);
    }
  }

  /** Leading whitespace does not change what `sub` then `strip` give. */
  lemma SourceSkipsSpace(s: String)
    requires s != [] && IsSpace(s[0])
    ensures Strip(Collapse(s)) == Strip(Collapse(s[1..]))
  {
    var u := TrimLeft(s[1..]);
    TrimLeftSpec(s[1..]);
    CollapseHead(u);
    CollapseTrimLeft(s[1..]);
    assert Collapse(s) == [' '] + Collapse(u);
  }

  /** After a non-whitespace character followed by another one. */
  lemma SourceWordChar(s: String)
    requires |s| > 1 && !IsSpace(s[0]) && !IsSpace(s[1])
    ensures Strip(Collapse(s)) == [s[0]] + Strip(Collapse(s[1..]))
  {
    var c := Collapse(s[1..]);
    assert Collapse(s) == [s[0]] + c;
    CollapseHead(s[1..]);
    TrimRightSpec(c);
    assert c[0] == s[1];
    TrimRightAfter([s[0]], c);
  }

  /** A whitespace run collapses to one ' ' before the collapse of what
      follows it, which starts with non-whitespace. */
  lemma CollapseAfterSpace(t: String)
    requires t != [] && IsSpace(t[0])
    ensures Collapse(t) == [' '] + Collapse(TrimLeft(t))
    ensures Collapse(TrimLeft(t)) == [] || !IsSpace(Collapse(TrimLeft(t))[0])
    ensures Strip(Collapse(t)) == TrimRight(Collapse(TrimLeft(t)))
  {
    assert TrimLeft(t) == TrimLeft(t[1..]);
    var d := Collapse(TrimLeft(t));
    TrimLeftSpec(t);
    CollapseHead(TrimLeft(t));
    assert Collapse(t) == [' '] + d;
    assert TrimLeft(Collapse(t)) == d by {
      assert IsSpace(' ');
      assert TrimLeft(Collapse(t)) == TrimLeft(d);
    }
  }

  /** A leading non-whitespace character survives `sub` and `lstrip`. */
  lemma SourceWordStart(s: String)
    requires s != [] && !IsSpace(s[0])
    ensures Strip(Collapse(s)) == TrimRight([s[0]] + Collapse(s[1..]))
  {
    var x := Collapse(s);
    assert x == [s[0]] + Collapse(s[1..]);
    assert TrimLeft(x) == x;
  }

  /** `rstrip` of a character, one ' ' and a tail: the ' ' stays exactly
      when something of the tail does. */
  lemma TrimRightWordSpace(c: char, d: String)
    requires !IsSpace(c)
    ensures var t := TrimRight(d);
            TrimRight([c] + ([' '] + d)) == [c] + (if t != [] then [' '] + t else t)
  {
    var t := TrimRight(d);
    TrimRightSpec(d);
    if t == [] {
      assert [c] + ([' '] + d) == [c] + ([' '] + d[|t|..]);
      TrimRightUnique([c], [' '] + d);
    } else {
      assert [c] + ([' '] + d) == ([c] + [' ']) + d;
      TrimRightAfter([c] + [' '], d);
    }
  }

  /** After a non-whitespace character followed by whitespace. */
  lemma SourceWordEnd(s: String)
    requires |s| > 1 && !IsSpace(s[0]) && IsSpace(s[1])
    ensures var rest := Strip(Collapse(s[1..]));
            Strip(Collapse(s)) == [s[0]] + (if rest != [] then [' '] + rest else rest)
  {
    SourceWordStart(s);
    CollapseAfterSpace(s[1..]);
    TrimRightWordSpace(s[0], Collapse(TrimLeft(s[1..])));
  }

  /** The one-pass `Clean` is `re.sub('\s+', ' ', s).strip()`. */
  lemma {:induction false} CleanMatchesSource(s: String)
    ensures Clean(s) == Strip(Collapse(s))
    decreases |s|
  {
    if s != [] {
      CleanMatchesSource(s[1..]);
      if IsSpace(s[0]) {
        SourceSkipsSpace(s);
      } else if |s| == 1 {
        assert Collapse(s) == [s[0]];
      } else if !IsSpace(s[1]) {
        SourceWordChar(s);
      } else {
        SourceWordEnd(s);
      }
    }
  }

  // ---------------------------------------------------------------------
  // What clean promises
  // ---------------------------------------------------------------------

  /** `clean` leaves no whitespace at either end, no two whitespace
      characters side by side, no whitespace other than ' ', and loses no
      other character: the non-whitespace characters are those of the
      input, in order. */
  lemma CleanSpec(s: String)
    ensures Normalized(Clean(s))
    ensures NonSpace(Clean(s)) == NonSpace(s)
  {
    CleanMatchesSource(s);
    var c := Collapse(s);
    CollapseShape(s);
    var l := TrimLeft(c);
    TrimLeftSpec(c);
    TrimRightSpec(l);
    SliceKeepsShape(c, |c| - |l|, |c|);
    SliceKeepsShape(l, 0, |TrimRight(l)|);
    StripShape(c);
    NonSpaceCollapse(s);
    NonSpaceTrimLeft(c);
    NonSpaceTrimRight(l);
  }

  lemma {:induction false} CollapseNormalized(s: String)
    requires NoSpaceRuns(s) && PlainSpacesOnly(s)
    ensures Collapse(s) == s
    decreases |s|
  {
    if s != [] {
      SliceKeepsShape(s, 1, |s|);
      if IsSpace(s[0]) {
        assert |s| > 1 ==> !IsSpace(s[1]);
        assert TrimLeft(s[1..]) == s[1..];
      }
      CollapseNormalized(s[1..]);
    }
  }

  /** A string already in `clean`'s shape is left as it is. */
  lemma CleanFixesNormalized(s: String)
    requires Normalized(s)
    ensures Clean(s) == s
  {
    CleanMatchesSource(s);
    CollapseNormalized(s);
    assert TrimLeft(s) == s;
    assert TrimRight(s) == s;
  }

  /** Applying `clean` twice is the same as applying it once. */
  lemma CleanIdempotent(s: String)
    ensures Clean(Clean(s)) == Clean(s)
  {
    CleanSpec(s);
    CleanFixesNormalized(Clean(s));
  }

  /** A label cleans to the empty string exactly when it is all whitespace. */
  lemma CleanEmptyIff(s: String)
    ensures Clean(s) == [] <==> forall i :: 0 <= i < |s| ==> IsSpace(s[i])
  {
    CleanSpec(s);
    if forall i :: 0 <= i < |s| ==> IsSpace(s[i]) {
      NonSpaceAllSpace(s);
    } else {
      var i :| 0 <= i < |s| && !IsSpace(s[i]);
      assert s == s[..i] + s[i..];
      NonSpaceConcat(s[..i], s[i..]);
      assert NonSpace(s[i..]) != [];
    }
  }
  // ---------------------------------------------------------------------
  // str.split(sep) with an explicit one-character separator
  // ---------------------------------------------------------------------

  /** `s.split(sep)`: the pieces between separators, empty pieces kept, so
      there is always at least one piece. */
  function Split(s: String, sep: char): (r: seq<String>)
    ensures |r| >= 1
    ensures forall k :: 0 <= k < |r| ==> sep !in r[k]
  {
    if s == [] then [[]]
    else
      var rest := Split(s[1..], sep);
      if s[0] == sep then [[]] + rest else [[s[0]] + rest[0]] + rest[1..]
  }

  /** The first piece of a split is the text before the first separator:
      a prefix of `s`, followed by `sep` unless it is all of `s`. */
  lemma {:induction false} SplitFirst(s: String, sep: char)
    ensures var w := Split(s, sep)[0];
            w <= s && (|w| < |s| ==> s[|w|] == sep)
  {
    if s != [] && s[0] != sep {
      SplitFirst(s[1..], sep);
      var w := Split(s[1..], sep)[0];
      assert Split(s, sep)[0] == [s[0]] + w;
      assert s == [s[0]] + s[1..];
    }
  }

  /** `sep.join(pieces)`. */
  function Join(pieces: seq<String>, sep: char): String
    requires |pieces| >= 1
  {
    if |pieces| == 1 then pieces[0] else pieces[0] + [sep] + Join(pieces[1..], sep)
  }

  /** Two whitespace-free words joined by one ' ' are already in the shape
      `clean` gives. */
  lemma WordsNormalized(a: String, b: String)
    requires a != [] && forall i :: 0 <= i < |a| ==> !IsSpace(a[i])
    requires b != [] && forall i :: 0 <= i < |b| ==> !IsSpace(b[i])
    ensures Normalized(a + [' '] + b)
  {
    var s := a + [' '] + b;
    assert s[0] == a[0] && s[|s| - 1] == b[|b| - 1];
    forall i | 0 <= i < |s| && i != |a|
      ensures !IsSpace(s[i])
    {
      if i < |a| {
        assert s[i] == a[i];
      } else {
        assert s[i] == b[i - |a| - 1];
      }
    }
  }

  /** Joining the pieces of a split gives the original string back. */
  lemma {:induction false} JoinSplit(s: String, sep: char)
    ensures Join(Split(s, sep), sep) == s
  {
    if s != [] {
      var rest := Split(s[1..], sep);
      JoinSplit(s[1..], sep);
      if s[0] != sep && |rest| > 1 {
        assert Split(s, sep)[1..] == rest[1..];
      }
    }
  }

  lemma {:induction false} SplitNoSep(a: String, sep: char)
    requires sep !in a
    ensures Split(a, sep) == [a]
  {
    if a != [] {
      SplitNoSep(a[1..], sep);
      assert a == [a[0]] + a[1..];
    }
  }

  lemma {:induction false} SplitAtSep(a: String, sep: char, b: String)
    requires sep !in a
    ensures Split(a + [sep] + b, sep) == [a] + Split(b, sep)
  {
    if a != [] {
      assert (a + [sep] + b)[1..] == a[1..] + [sep] + b;
      SplitAtSep(a[1..], sep, b);
      assert a == [a[0]] + a[1..];
    } else {
      assert (a + [sep] + b)[1..] == b;
    }
  }

  /** Splitting a join of separator-free pieces gives the pieces back. */
  lemma {:induction false} SplitJoin(pieces: seq<String>, sep: char)
    requires |pieces| >= 1
    requires forall k :: 0 <= k < |pieces| ==> sep !in pieces[k]
    ensures Split(Join(pieces, sep), sep) == pieces
  {
    if |pieces| == 1 {
      SplitNoSep(pieces[0], sep);
    } else {
      SplitJoin(pieces[1..], sep);
      SplitAtSep(pieces[0], sep, Join(pieces[1..], sep));
    }
  }

  // ---------------------------------------------------------------------
  // int(token) on a str: surrounding whitespace, an optional sign, then
  // decimal digits, with single underscores allowed between digits
  // ---------------------------------------------------------------------

  predicate IsDigit(c: char) {
    '0' <= c <= '9'
  }

  function DigitValue(c: char): nat {
    if IsDigit(c) then c as int - '0' as int else 0
  }

  /** The digit-and-underscore strings `int()` accepts after the sign. */
  predicate DigitString(d: String) {
    && |d| > 0
    && IsDigit(d[0]) && IsDigit(d[|d| - 1])
    && (forall i :: 0 <= i < |d| ==> IsDigit(d[i]) || d[i] == '_')
    && (forall i :: 0 < i < |d| && d[i] == '_' ==> d[i - 1] != '_')
  }

  /** The value of the digits of `d`, underscores skipped. */
  function DigitsValue(d: String): nat {
    if d == [] then 0
    else if d[|d| - 1] == '_' then DigitsValue(d[..|d| - 1])
    else 10 * DigitsValue(d[..|d| - 1]) + DigitValue(d[|d| - 1])
  }

  /** `int(t)`: None where Python raises ValueError. */
  function IntOf(t: String): (r: Option<int>)
  {
    var u := Strip(t);
    if |u| > 0 && (u[0] == '+' || u[0] == '-') then
      if DigitString(u[1..]) then
        var v: int := DigitsValue(u[1..]);
        Some(if u[0] == '-' then -v else v)
      else None
    else if DigitString(u) then Some(DigitsValue(u))
    else None
  }

  function DigitChar(n: nat): char
    requires n < 10
  {
    ('0' as int + n) as char
  }

  /** The decimal numeral of `n`, no sign, no leading zeros. */
  function Decimal(n: nat): (r: String)
    ensures |r| > 0 && forall i :: 0 <= i < |r| ==> IsDigit(r[i])
  {
    if n < 10 then [DigitChar(n)] else Decimal(n / 10) + [DigitChar(n % 10)]
  }

  lemma {:induction false} DecimalValue(n: nat)
    ensures DigitsValue(Decimal(n)) == n
  {
    var r := Decimal(n);
    if n >= 10 {
      assert r[..|r| - 1] == Decimal(n / 10);
      DecimalValue(n / 10);
    }
  }

  /** `strip` leaves a string that has no whitespace at either end alone. */
  lemma EdgeStrip(s: String)
    requires NoEdgeSpace(s)
    ensures Strip(s) == s
  {
  }

  /** A string of digits only is one `int()` accepts. */
  lemma AllDigits(d: String)
    requires |d| > 0 && forall i :: 0 <= i < |d| ==> IsDigit(d[i])
    ensures DigitString(d) && NoEdgeSpace(d) && d[0] != '+' && d[0] != '-'
  {
    assert IsDigit(d[0]) && IsDigit(d[|d| - 1]);
  }

  /** `int()` of a signed digit string with no whitespace at its ends. */
  lemma IntOfSigned(u: String)
    requires |u| > 1 && (u[0] == '+' || u[0] == '-') && DigitString(u[1..]) && NoEdgeSpace(u)
    ensures IntOf(u) == Some(if u[0] == '-' then -(DigitsValue(u[1..]) as int) else DigitsValue(u[1..]))
  {
    EdgeStrip(u);
  }

  /** `int()` of a digit string with no whitespace at its ends. */
  lemma IntOfUnsigned(u: String)
    requires DigitString(u) && NoEdgeSpace(u) && u[0] != '+' && u[0] != '-'
    ensures IntOf(u) == Some(DigitsValue(u))
  {
    EdgeStrip(u);
  }

  /** `int()` reads back every decimal numeral. */
  lemma IntOfDecimal(n: nat)
    ensures IntOf(Decimal(n)) == Some(n)
  {
    var d := Decimal(n);
    DecimalValue(n);
    AllDigits(d);
    IntOfUnsigned(d);
  }

  /** ... and every numeral preceded by a minus sign. */
  lemma IntOfNegative(n: nat)
    ensures IntOf("-" + Decimal(n)) == Some(-(n as int))
  {
    var d := Decimal(n);
    var u := "-" + d;
    DecimalValue(n);
    AllDigits(d);
    assert u[1..] == d;
    assert u[|u| - 1] == d[|d| - 1];
    IntOfSigned(u);
  }

  // ---------------------------------------------------------------------
  // url.rsplit('/', 1)[-1]                              (Weather3.py:125)
  // ---------------------------------------------------------------------

  /** The text after the last '/' of `url`, or all of `url` when it holds
      no '/'. */
  function LastSegment(url: String): (r: String)
    ensures |r| <= |url| && r == url[|url| - |r|..]
    ensures '/' !in r
    ensures |r| == |url| || url[|url| - |r| - 1] == '/'
  {
    if url == [] || url[|url| - 1] == '/' then []
    else LastSegment(url[..|url| - 1]) + [url[|url| - 1]]
  }

  /** A URL ending in "/" + seg, with no '/' in seg, yields seg. */
  lemma LastSegmentOf(prefix: String, seg: String)
    requires '/' !in seg
    ensures LastSegment(prefix + "/" + seg) == seg
  {
    var url := prefix + "/" + seg;
    assert url[|url| - |seg| - 1] == '/';
    assert url[|url| - |seg|..] == seg;
  }
}
