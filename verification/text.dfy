/** The Python string and bytes primitives that the GEDCOM scanner relies on:
    `split` with an explicit separator, `" ".join`, `strip`, `startswith`,
    `endswith`, slicing with negative indices, and `int()` on a level token. */
module Text {
  import opened Wrappers

  // ---------------------------------------------------------------------
  // split / join
  // ---------------------------------------------------------------------

  /** Python's `s.split(sep)` for a non-empty separator: the occurrences of
      `sep` are found greedily from the left and never overlap, and there is
      always one more piece than there are occurrences. */
  function Split<T(==)>(s: seq<T>, sep: seq<T>): (parts: seq<seq<T>>)
    requires |sep| > 0
    ensures |parts| >= 1
    decreases |s|
  {
    if |s| < |sep| then [s]
    else if s[..|sep|] == sep then [[]] + Split(s[|sep|..], sep)
    else
      var rest := Split(s[1..], sep);
      [[s[0]] + rest[0]] + rest[1..]
  }

  /** Python's `sep.join(parts)`. */
  function Join<T>(sep: seq<T>, parts: seq<seq<T>>): seq<T>
    decreases |parts|
  {
    if |parts| == 0 then []
    else if |parts| == 1 then parts[0]
    else parts[0] + sep + Join(sep, parts[1..])
  }

  /** `sep` occurs in `p` starting at index `i`. */
  predicate SepAt<T(==)>(p: seq<T>, sep: seq<T>, i: int) {
    0 <= i && i + |sep| <= |p| && p[i..i + |sep|] == sep
  }

  ghost predicate SepFree<T>(p: seq<T>, sep: seq<T>) {
    forall i :: !SepAt(p, sep, i)
  }

  /** Joining the pieces with the separator gives back the original text. */
  lemma {:induction false} JoinSplit<T>(s: seq<T>, sep: seq<T>)
    requires |sep| > 0
    ensures Join(sep, Split(s, sep)) == s
    decreases |s|
  {
    if |s| < |sep| {
    } else if s[..|sep|] == sep {
      JoinSplit(s[|sep|..], sep);
      JoinSplitAtSep(s, sep);
    } else {
      JoinSplit(s[1..], sep);
      JoinSplitPastFirst(s, sep);
    }
  }

  /** The inductive step of `JoinSplit` when `s` starts with the separator. */
  lemma JoinSplitAtSep<T>(s: seq<T>, sep: seq<T>)
    requires |sep| > 0 && |sep| <= |s| && s[..|sep|] == sep
    requires Join(sep, Split(s[|sep|..], sep)) == s[|sep|..]
    ensures Join(sep, Split(s, sep)) == s
  {
    var rest := Split(s[|sep|..], sep);
    assert Split(s, sep) == [[]] + rest;
    JoinCons(sep, [], rest);
    assert [] + sep + Join(sep, rest) == s[..|sep|] + s[|sep|..];
    assert s == s[..|sep|] + s[|sep|..];
  }

  /** The inductive step of `JoinSplit` when `s` does not start with it. */
  lemma JoinSplitPastFirst<T>(s: seq<T>, sep: seq<T>)
    requires |sep| > 0 && |sep| <= |s| && s[..|sep|] != sep
    requires Join(sep, Split(s[1..], sep)) == s[1..]
    ensures Join(sep, Split(s, sep)) == s
  {
    JoinExtendFirst(sep, s[0], Split(s[1..], sep));
    assert s == [s[0]] + s[1..];
  }

  lemma JoinCons<T>(sep: seq<T>, first: seq<T>, rest: seq<seq<T>>)
    requires |rest| >= 1
    ensures Join(sep, [first] + rest) == first + sep + Join(sep, rest)
  {
    assert ([first] + rest)[1..] == rest;
  }

  /** Prefixing the first piece prefixes the joined text. */
  lemma JoinExtendFirst<T>(sep: seq<T>, c: T, parts: seq<seq<T>>)
    requires |parts| >= 1
    ensures Join(sep, [[c] + parts[0]] + parts[1..]) == [c] + Join(sep, parts)
  {
    var extended := [[c] + parts[0]] + parts[1..];
    if |parts| > 1 {
      assert extended[1..] == parts[1..];
      assert Join(sep, extended) == [c] + parts[0] + sep + Join(sep, parts[1..]);
    }
  }

  lemma {:induction false} SplitFirstIsPrefix<T>(s: seq<T>, sep: seq<T>)
    requires |sep| > 0
    ensures |Split(s, sep)[0]| <= |s| && Split(s, sep)[0] == s[..|Split(s, sep)[0]|]
    decreases |s|
  {
    if |s| < |sep| {
      assert Split(s, sep) == [s];
    } else if s[..|sep|] == sep {
      assert Split(s, sep)[0] == [];
    } else {
      SplitFirstIsPrefix(s[1..], sep);
      var rest := Split(s[1..], sep);
      assert Split(s, sep)[0] == [s[0]] + rest[0];
      assert s[..|rest[0]| + 1] == [s[0]] + s[1..][..|rest[0]|];
    }
  }

  /** No piece of a split contains the separator. */
  lemma {:induction false} SplitPiecesSepFree<T>(s: seq<T>, sep: seq<T>)
    requires |sep| > 0
    ensures forall k | 0 <= k < |Split(s, sep)| :: SepFree(Split(s, sep)[k], sep)
    decreases |s|
  {
    var parts := Split(s, sep);
    if |s| < |sep| {
      forall i ensures !SepAt(s, sep, i) {
      }
    } else if s[..|sep|] == sep {
      SplitPiecesSepFree(s[|sep|..], sep);
      var rest := Split(s[|sep|..], sep);
      assert parts == [[]] + rest;
      forall k | 0 <= k < |parts| ensures SepFree(parts[k], sep) {
        if k == 0 {
          forall i ensures !SepAt(parts[0], sep, i) {
          }
        } else {
          assert parts[k] == rest[k - 1];
        }
      }
    } else {
      SplitPiecesSepFree(s[1..], sep);
      SplitFirstIsPrefix(s[1..], sep);
      var rest := Split(s[1..], sep);
      var first := [s[0]] + rest[0];
      assert parts == [first] + rest[1..];
      assert first == s[..|first|];
      forall i ensures !SepAt(first, sep, i) {
        if SepAt(first, sep, i) {
          if i == 0 {
            assert false;
          } else {
            assert first[i..i + |sep|] == rest[0][i - 1..i - 1 + |sep|];
            assert SepAt(rest[0], sep, i - 1);
            assert false;
          }
        }
      }
      forall k | 0 <= k < |parts| ensures SepFree(parts[k], sep) {
        if k > 0 {
          assert parts[k] == rest[k];
        }
      }
    }
  }

  /** A text without the one-character separator is a single piece. */
  lemma {:induction false} SplitNoSep<T>(t: seq<T>, c: T)
    requires c !in t
    ensures Split(t, [c]) == [t]
    decreases |t|
  {
    if |t| >= 1 {
      assert t[..1] != [c] by {
        assert t[..1][0] == t[0];
      }
      SplitNoSep(t[1..], c);
      assert [t[0]] + t[1..] == t;
    }
  }

  /** Splitting on a one-character separator cuts at its first occurrence. */
  lemma {:induction false} SplitAtFirst<T>(t: seq<T>, u: seq<T>, c: T)
    requires c !in t
    ensures Split(t + [c] + u, [c]) == [t] + Split(u, [c])
    decreases |t|
  {
    var s := t + [c] + u;
    if |t| == 0 {
      assert s[..1] == [c];
      assert s[1..] == u;
    } else {
      assert s[..1] != [c] by {
        assert s[..1][0] == t[0];
      }
      assert s[1..] == t[1..] + [c] + u;
      SplitAtFirst(t[1..], u, c);
      assert [t[0]] + t[1..] == t;
    }
  }

  // ---------------------------------------------------------------------
  // strip
  // ---------------------------------------------------------------------

  /** Drops the leading elements that satisfy `ws`. */
  function LStrip<T>(s: seq<T>, ws: T -> bool): (r: seq<T>)
    ensures |r| <= |s| && r == s[|s| - |r|..]
    ensures forall i | 0 <= i < |s| - |r| :: ws(s[i])
    ensures |r| > 0 ==> !ws(r[0])
    decreases |s|
  {
    if |s| > 0 && ws(s[0]) then LStrip(s[1..], ws) else s
  }

  /** Drops the trailing elements that satisfy `ws`. */
  function RStrip<T>(s: seq<T>, ws: T -> bool): (r: seq<T>)
    ensures |r| <= |s| && r == s[..|r|]
    ensures forall i | |r| <= i < |s| :: ws(s[i])
    ensures |r| > 0 ==> !ws(r[|r| - 1])
    decreases |s|
  {
    if |s| > 0 && ws(s[|s| - 1]) then RStrip(s[..|s| - 1], ws) else s
  }

  /** Python's `strip()`: the text between the leading and the trailing run
      of whitespace, where `ws` says what counts as whitespace. */
  function Strip<T>(s: seq<T>, ws: T -> bool): (r: seq<T>)
    ensures |r| <= |s|
    ensures |r| == 0 || (!ws(r[0]) && !ws(r[|r| - 1]))
  {
    var l := LStrip(s, ws);
    var r := RStrip(l, ws);
    assert |r| > 0 ==> r[0] == l[0];
    r
  }

  /** What `Strip` removes is whitespace on both sides of one contiguous
      slice, and the slice starts where the leading whitespace ends. */
  lemma StripSlice<T>(s: seq<T>, ws: T -> bool)
    ensures var a, r := |s| - |LStrip(s, ws)|, Strip(s, ws);
      && a + |r| <= |s|
      && r == s[a..a + |r|]
      && (forall i | 0 <= i < a :: ws(s[i]))
      && (forall i | a + |r| <= i < |s| :: ws(s[i]))
  {
    var l := LStrip(s, ws);
    var a := |s| - |l|;
    var r := RStrip(l, ws);
    assert l == s[a..];
    assert r == l[..|r|];
    forall i | a + |r| <= i < |s| ensures ws(s[i]) {
      assert s[i] == l[i - a];
    }
  }

  /** Stripping twice strips nothing more. */
  lemma StripIdempotent<T>(s: seq<T>, ws: T -> bool)
    ensures Strip(Strip(s, ws), ws) == Strip(s, ws)
  {
    var r := Strip(s, ws);
    if |r| > 0 {
      assert LStrip(r, ws) == r;
      assert RStrip(r, ws) == r;
    }
  }

  /** Stripping removes everything exactly when everything is whitespace. */
  lemma StripEmpty<T>(s: seq<T>, ws: T -> bool)
    ensures Strip(s, ws) == [] <==> forall i | 0 <= i < |s| :: ws(s[i])
  {
    StripSlice(s, ws);
    var a := |s| - |LStrip(s, ws)|;
    var r := Strip(s, ws);
    if r != [] {
      assert !ws(s[a]);
    }
  }

  /** The bytes that Python's `bytes.strip()` removes. */
  predicate IsAsciiWhitespace(c: char) {
    c == ' ' || c == '\t' || c == '\n' || c == '\r' || c == '\U{000B}' || c == '\U{000C}'
  }

  /** The characters for which Python's `str.isspace()` holds, which is what
      `str.strip()` removes. */
  predicate IsPyWhitespace(c: char) {
    || ('\t' <= c <= '\r')
    || ('\U{001C}' <= c <= ' ')
    || c == '\U{0085}' || c == '\U{00A0}' || c == '\U{1680}'
    || ('\U{2000}' <= c <= '\U{200A}')
    || c == '\U{2028}' || c == '\U{2029}' || c == '\U{202F}' || c == '\U{205F}'
    || c == '\U{3000}'
  }

  /** Python's `str.strip()`. */
  function PyStrip(s: string): string {
    Strip(s, IsPyWhitespace)
  }

  // ---------------------------------------------------------------------
  // prefixes, suffixes and slices
  // ---------------------------------------------------------------------

  predicate StartsWith<T(==)>(s: seq<T>, p: seq<T>) {
    |p| <= |s| && s[..|p|] == p
  }

  predicate EndsWith<T(==)>(s: seq<T>, p: seq<T>) {
    |p| <= |s| && s[|s| - |p|..] == p
  }

  /** How Python turns a slice bound into a position: negative bounds count
      from the end, and the result is clamped to `0..n`. */
  function PyIndex(i: int, n: nat): (k: nat)
    ensures k <= n
  {
    if i < 0 then (if i + n < 0 then 0 else i + n)
    else if i > n then n
    else i
  }

  /** Python's `s[lo:hi]`, which never fails. */
  function PySlice<T>(s: seq<T>, lo: int, hi: int): seq<T> {
    var a := PyIndex(lo, |s|);
    var b := PyIndex(hi, |s|);
    if a < b then s[a..b] else []
  }

  /** Python's `s[lo:]`. */
  function PySliceFrom<T>(s: seq<T>, lo: int): seq<T> {
    PySlice(s, lo, |s|)
  }

  /** Slicing a known prefix length off the front and a known suffix length
      off the back gives the middle back. */
  lemma SliceMiddle<T>(pre: seq<T>, x: seq<T>, post: seq<T>)
    requires |post| > 0
    ensures PySlice(pre + x + post, |pre|, -|post|) == x
  {
    var s := pre + x + post;
    assert PyIndex(-|post|, |s|) == |pre| + |x|;
    assert s[|pre|..|pre| + |x|] == x;
  }

  // ---------------------------------------------------------------------
  // int()
  // ---------------------------------------------------------------------

  predicate IsDigit(c: char) {
    '0' <= c <= '9'
  }

  predicate AllDigits(s: string) {
    forall i | 0 <= i < |s| :: IsDigit(s[i])
  }

  function DigitValue(c: char): (d: nat)
    requires IsDigit(c)
    ensures d < 10
  {
    (c as int) - ('0' as int)
  }

  function DigitChar(d: nat): (c: char)
    requires d < 10
    ensures IsDigit(c) && DigitValue(c) == d
  {
    (('0' as int) + d) as char
  }

  /** The value of a decimal digit string, read most significant first. */
  function DigitsValue(s: string): nat
    requires AllDigits(s)
    decreases |s|
  {
    if |s| == 0 then 0 else 10 * DigitsValue(s[..|s| - 1]) + DigitValue(s[|s| - 1])
  }

  /** A run of ASCII digits in which a single underscore may separate two
      digits, as in "1_000". */
  predicate IsDigitGroup(s: string) {
    && |s| > 0 && IsDigit(s[0]) && IsDigit(s[|s| - 1])
    && (forall i | 0 <= i < |s| :: IsDigit(s[i]) || s[i] == '_')
    && forall i | 0 <= i < |s| - 1 :: !DoubleUnderscoreAt(s, i)
  }

  predicate DoubleUnderscoreAt(s: string, i: nat)
    requires i + 1 < |s|
  {
    s[i] == '_' && s[i + 1] == '_'
  }

  /** The digits of a digit group, its underscores dropped. */
  function DropUnderscores(s: string): (d: string)
    ensures |d| <= |s|
    ensures (forall i | 0 <= i < |s| :: IsDigit(s[i]) || s[i] == '_') ==> AllDigits(d)
    ensures AllDigits(s) ==> d == s
  {
    if |s| == 0 then []
    else (if s[0] == '_' then [] else [s[0]]) + DropUnderscores(s[1..])
  }

  /** The text after an optional leading sign. */
  function Unsigned(s: string): (u: string)
    ensures u == s || (|s| > 0 && (s[0] == '+' || s[0] == '-') && u == s[1..])
  {
    if |s| > 0 && (s[0] == '+' || s[0] == '-') then s[1..] else s
  }

  /** The decimal-literal grammar of `int()`: an optional sign followed by
      a digit group. */
  predicate IsIntLiteral(s: string) {
    IsDigitGroup(Unsigned(s))
  }

  /** How many digits `int()` converts from text before it refuses the
      conversion (`sys.get_int_max_str_digits()` by default, since Python
      3.11). */
  const MaxStrDigits: nat := 4300

  /** The texts `int()` accepts: once stripped of whitespace, a literal of
      at most `MaxStrDigits` digits. */
  predicate ReadsAsInt(s: string) {
    var t := PyStrip(s);
    IsIntLiteral(t) && |DropUnderscores(Unsigned(t))| <= MaxStrDigits
  }

  /** Python's `int(s)` on a level token: `None` is the `ValueError` the
      source converts into its own exception. Leading zeros are allowed. */
  function ParseInt(s: string): (r: Option<int>)
    ensures r.Some? <==> ReadsAsInt(s)
    ensures r.Some? ==> |PyStrip(s)| > 0
    ensures r.Some? && PyStrip(s)[0] == '-' ==> r.value <= 0
    ensures r.Some? && PyStrip(s)[0] != '-' ==> r.value >= 0
  {
    ReadLiteral(PyStrip(s))
  }

  /** `int()` after the strip: the sign and the digits of a literal. */
  function ReadLiteral(t: string): (r: Option<int>)
    ensures r.Some? <==> IsIntLiteral(t) && |DropUnderscores(Unsigned(t))| <= MaxStrDigits
    ensures r.Some? ==> |t| > 0
    ensures r.Some? && t[0] == '-' ==> r.value <= 0
    ensures r.Some? && t[0] != '-' ==> r.value >= 0
  {
    var u := Unsigned(t);
    if IsDigitGroup(u) && |DropUnderscores(u)| <= MaxStrDigits then
      var magnitude: int := DigitsValue(DropUnderscores(u));
      Some(if t[0] == '-' then -magnitude else magnitude)
    else None
  }

  /** Python's `str(n)` for a natural number. */
  function NatToString(n: nat): (s: string)
    ensures |s| > 0 && AllDigits(s)
  {
    if n < 10 then [DigitChar(n)] else NatToString(n / 10) + [DigitChar(n % 10)]
  }

  /** Python's `str(n)`. */
  function IntToString(n: int): (s: string)
    ensures |s| > 0
  {
    if n < 0 then "-" + NatToString(-n) else NatToString(n)
  }

  lemma {:induction false} NatToStringValue(n: nat)
    ensures DigitsValue(NatToString(n)) == n
  {
    if n >= 10 {
      NatToStringValue(n / 10);
      var s := NatToString(n);
      assert s[..|s| - 1] == NatToString(n / 10);
    }
  }

  /** A sequence whose ends are not whitespace, padded on both sides with
      whitespace only, strips back to itself. */
  lemma StripPadded<T>(pre: seq<T>, t: seq<T>, post: seq<T>, ws: T -> bool)
    requires forall i | 0 <= i < |pre| :: ws(pre[i])
    requires forall i | 0 <= i < |post| :: ws(post[i])
    requires |t| > 0 && !ws(t[0]) && !ws(t[|t| - 1])
    ensures Strip(pre + t + post, ws) == t
  {
    var s := pre + t + post;
    var l := LStrip(s, ws);
    assert s[|pre|] == t[0];
    assert l == t + post;
    var r := RStrip(l, ws);
    assert l[|t| - 1] == t[|t| - 1];
    assert r == t;
  }

  /** A literal is its own strip. */
  lemma StripLiteral(t: string)
    requires IsIntLiteral(t)
    ensures PyStrip(t) == t
  {
    LiteralEnds(t);
    StripPadded([], t, [], IsPyWhitespace);
    assert [] + t + [] == t;
  }

  /** The first element of a sequence is whitespace or survives the strip. */
  lemma StripHead<T>(s: seq<T>, ws: T -> bool)
    requires |Strip(s, ws)| > 0
    ensures ws(s[0]) || s[0] == Strip(s, ws)[0]
  {
    var l := LStrip(s, ws);
    if |s| - |l| == 0 {
      assert l == s;
    }
  }

  /** A literal starts with a sign or a digit and ends with a digit. */
  lemma LiteralEnds(t: string)
    requires IsIntLiteral(t)
    ensures |t| > 0
    ensures t[0] == '+' || t[0] == '-' || IsDigit(t[0])
    ensures IsDigit(t[|t| - 1])
  {
    var u := Unsigned(t);
    assert IsDigit(u[|u| - 1]);
    assert t[|t| - 1] == u[|u| - 1];
  }

  /** `int()` ignores whitespace around the literal: `int("1\t")` is 1. */
  lemma ParseIntPadded(pre: string, t: string, post: string)
    requires forall i | 0 <= i < |pre| :: IsPyWhitespace(pre[i])
    requires forall i | 0 <= i < |post| :: IsPyWhitespace(post[i])
    requires IsIntLiteral(t)
    ensures ParseInt(pre + t + post) == ParseInt(t)
  {
    LiteralEnds(t);
    StripPadded(pre, t, post, IsPyWhitespace);
    StripPadded([], t, [], IsPyWhitespace);
    assert [] + t + [] == t;
  }

  /** The first character of a text `int()` accepts is whitespace, a sign
      or a digit. */
  lemma ReadsAsIntHead(s: string)
    requires ReadsAsInt(s)
    ensures |s| > 0 && (IsPyWhitespace(s[0]) || s[0] == '+' || s[0] == '-' || IsDigit(s[0]))
  {
    LiteralEnds(PyStrip(s));
    StripHead(s, IsPyWhitespace);
  }

  /** Underscores between digits are dropped: `int("1_000")` is 1000. */
  lemma UnderscoreDropped(a: string, b: string)
    requires |a| > 0 && |b| > 0 && AllDigits(a) && AllDigits(b)
    ensures IsIntLiteral(a + "_" + b)
    ensures ParseInt(a + "_" + b) == ParseInt(a + b)
  {
    var s := a + "_" + b;
    var s' := a + b;
    UnderscoreGroup(a, b);
    DropUnderscoresAround(a, b);
    StripLiteral(s);
    assert ParseInt(s) == ReadLiteral(s);
    assert AllDigits(s') && IsDigit(s'[0]);
    DigitsAreGroup(s');
    assert Unsigned(s') == s';
    StripLiteral(s');
    assert ParseInt(s') == ReadLiteral(s');
  }

  lemma UnderscoreGroup(a: string, b: string)
    requires |a| > 0 && |b| > 0 && AllDigits(a) && AllDigits(b)
    ensures Unsigned(a + "_" + b) == a + "_" + b && IsDigitGroup(a + "_" + b)
  {
    var s := a + "_" + b;
    assert IsDigit(s[0]) && s[|s| - 1] == b[|b| - 1];
    forall i | 0 <= i < |s|
      ensures IsDigit(s[i]) || s[i] == '_'
    {
      if i < |a| {
        assert s[i] == a[i];
      } else if i > |a| {
        assert s[i] == b[i - |a| - 1];
      }
    }
    forall i | 0 <= i < |s| - 1
      ensures !DoubleUnderscoreAt(s, i)
    {
      if i < |a| {
        assert s[i] == a[i];
      } else {
        assert s[i + 1] == b[i - |a|];
      }
    }
  }

  /** A non-empty run of digits is a digit group. */
  lemma DigitsAreGroup(s: string)
    requires |s| > 0 && AllDigits(s)
    ensures IsDigitGroup(s)
  {
    forall i | 0 <= i < |s| - 1
      ensures !DoubleUnderscoreAt(s, i)
    {
      assert IsDigit(s[i]);
    }
  }

  lemma {:induction false} DropUnderscoresAround(a: string, b: string)
    requires AllDigits(a) && AllDigits(b)
    ensures DropUnderscores(a + "_" + b) == a + b
    decreases |a|
  {
    if |a| == 0 {
      assert ("_" + b)[1..] == b;
    } else {
      assert (a + "_" + b)[1..] == a[1..] + "_" + b;
      DropUnderscoresAround(a[1..], b);
      assert a + b == [a[0]] + (a[1..] + b);
    }
  }

  /** `int()` refuses a text of more than `MaxStrDigits` digits, and reads
      any shorter run of digits, leading zeros included, as its value. */
  lemma DigitLimit(s: string)
    requires |s| > 0 && AllDigits(s)
    ensures ParseInt(s).Some? <==> |s| <= MaxStrDigits
    ensures |s| <= MaxStrDigits ==> ParseInt(s) == Some(DigitsValue(s))
  {
    assert IsDigit(s[0]);
    DigitsAreGroup(s);
    assert Unsigned(s) == s;
    assert DropUnderscores(s) == s;
    StripLiteral(s);
    assert ParseInt(s) == ReadLiteral(s);
  }

  /** Parsing what `str` prints gives the number back; beyond
      `MaxStrDigits` digits Python refuses both conversions. */
  lemma ParseIntToString(n: int)
    requires |NatToString(if n < 0 then -n else n)| <= MaxStrDigits
    ensures ParseInt(IntToString(n)) == Some(n)
  {
    if n < 0 {
      var digits := NatToString(-n);
      NatToStringValue(-n);
      NegativeLiteral(digits);
      assert IntToString(n) == "-" + digits;
    } else {
      NatToStringValue(n);
      DigitLimit(NatToString(n));
      assert IntToString(n) == NatToString(n);
    }
  }

  /** A minus sign before a run of digits reads as the negated value. */
  lemma NegativeLiteral(digits: string)
    requires |digits| > 0 && AllDigits(digits) && |digits| <= MaxStrDigits
    ensures ParseInt("-" + digits) == Some(-(DigitsValue(digits) as int))
  {
    var s := "-" + digits;
    assert s[0] == '-' && s[1..] == digits;
    DigitsAreGroup(digits);
    NegativeRead(s, digits);
    StripLiteral(s);
  }

  lemma NegativeRead(s: string, digits: string)
    requires |digits| > 0 && AllDigits(digits) && |digits| <= MaxStrDigits && IsDigitGroup(digits)
    requires |s| > 0 && s[0] == '-' && s[1..] == digits
    ensures IsIntLiteral(s)
    ensures ReadLiteral(s) == Some(-(DigitsValue(digits) as int))
  {
    assert Unsigned(s) == digits;
    assert DropUnderscores(digits) == digits;
  }
}
