/** The optional value shared by the modules of this model. */
module Wrappers {

  datatype Option<+T> = None | Some(value: T)
}

/**
 * The parts of Python's `str` behaviour that the scripts rely on: the
 * whitespace set of `str.isspace` (also what `str.strip()` removes and what
 * the regular-expression class `\s` matches), the line boundaries of
 * `str.splitlines`, `str.split` on one character, `" ".join`, substring
 * tests, ASCII lower-casing, code-point ordering of strings and lists of
 * integers, and the two `os.path` helpers the scripts use.
 */
module Text {
  import opened Wrappers

  /** The characters for which Python's `str.isspace()` is true. */
  predicate IsSpace(c: char) {
    || ('\t' <= c <= '\r')
    || ('\U{1C}' <= c <= '\U{1F}')
    || c == ' ' || c == '\U{85}' || c == '\U{A0}' || c == '\U{1680}'
    || ('\U{2000}' <= c <= '\U{200A}')
    || c == '\U{2028}' || c == '\U{2029}' || c == '\U{202F}' || c == '\U{205F}' || c == '\U{3000}'
  }

  /** The line boundaries of Python's `str.splitlines()` ("\r\n" is one boundary). */
  predicate IsLineBreak(c: char) {
    || c == '\n' || c == '\r' || c == '\U{0B}' || c == '\U{0C}'
    || c == '\U{1C}' || c == '\U{1D}' || c == '\U{1E}' || c == '\U{85}'
    || c == '\U{2028}' || c == '\U{2029}'
  }

  predicate IsDigit(c: char) {
    '0' <= c <= '9'
  }

  predicate AllDigits(s: string) {
    forall i :: 0 <= i < |s| ==> IsDigit(s[i])
  }

  /** The value of a string of ASCII decimal digits. */
  function DigitsValue(s: string): nat
    requires AllDigits(s)
  {
    if s == [] then 0 else 10 * DigitsValue(s[..|s| - 1]) + (s[|s| - 1] as int - '0' as int)
  }

  /** The ASCII digit of a value below ten. */
  function DigitChar(d: nat): (c: char)
    requires d < 10
    ensures IsDigit(c) && c as int - '0' as int == d
  {
    ('0' as int + d) as char
  }

  /** Python's `str(n)` for a non-negative integer. */
  function NatToString(n: nat): (r: string)
    ensures r != [] && AllDigits(r)
    ensures r[0] == '0' ==> n == 0
  {
    if n < 10 then [DigitChar(n)] else NatToString(n / 10) + [DigitChar(n % 10)]
  }

  /** Reading back what `NatToString` writes gives the number. */
  lemma {:induction false} NatToStringValue(n: nat)
    ensures DigitsValue(NatToString(n)) == n
  {
    var r := NatToString(n);
    if n >= 10 {
      NatToStringValue(n / 10);
      assert r[..|r| - 1] == NatToString(n / 10);
    } else {
      assert r[..|r| - 1] == [];
    }
  }

  predicate IsSlash(c: char) {
    c == '/'
  }

  predicate StartsWith(s: string, prefix: string) {
    |prefix| <= |s| && s[..|prefix|] == prefix
  }

  predicate OccursAt(s: string, sub: string, i: int) {
    0 <= i && i + |sub| <= |s| && s[i..i + |sub|] == sub
  }

  /** A one-character string occurs exactly where that character stands. */
  lemma OccursAtChar(s: string, c: char, i: int)
    ensures OccursAt(s, [c], i) <==> 0 <= i < |s| && s[i] == c
  {
    if 0 <= i < |s| {
      assert s[i..i + 1] == [s[i]];
    }
  }

  /** Python's `sub in s`. */
  predicate Contains(s: string, sub: string) {
    exists i | 0 <= i <= |s| - |sub| :: OccursAt(s, sub, i)
  }

  /** The index of the first occurrence of `sub` in `s` (`str.find`), if any. */
  function IndexOf(s: string, sub: string): (r: Option<nat>)
    ensures r.Some? ==> OccursAt(s, sub, r.value)
    ensures r.Some? ==> forall j :: 0 <= j < r.value ==> !OccursAt(s, sub, j)
    ensures r.None? <==> !Contains(s, sub)
    decreases |s|
  {
    if StartsWith(s, sub) then
      assert OccursAt(s, sub, 0);
      Some(0)
    else if s == [] then
      None
    else
      var rest := IndexOf(s[1..], sub);
      assert forall j :: 0 <= j < |s| - 1 ==> (OccursAt(s[1..], sub, j) <==> OccursAt(s, sub, j + 1)) by {
        forall j | 0 <= j < |s| - 1
          ensures OccursAt(s[1..], sub, j) <==> OccursAt(s, sub, j + 1)
        {
          if j + |sub| <= |s| - 1 {
            assert s[1..][j..j + |sub|] == s[j + 1..j + 1 + |sub|];
          }
        }
      }
      assert !OccursAt(s, sub, 0) by {
        if |sub| <= |s| {
          assert s[0..|sub|] == s[..|sub|];
        }
      }
      match rest
      case Some(k) =>
        assert forall j :: 0 < j < k + 1 ==> !OccursAt(s, sub, j) by {
          forall j | 0 < j < k + 1 ensures !OccursAt(s, sub, j) {
            assert !OccursAt(s[1..], sub, j - 1);
          }
        }
        Some(k + 1)
      case None =>
        assert !Contains(s, sub) by {
          forall i | 0 < i <= |s| - |sub| ensures !OccursAt(s, sub, i) {
            assert !OccursAt(s[1..], sub, i - 1);
          }
        }
        None
  }

  /** The index of the last occurrence of `sub` in `s` (`str.rfind`), if any. */
  function LastIndexOf(s: string, sub: string): (r: Option<nat>)
    ensures r.Some? ==> OccursAt(s, sub, r.value)
    ensures r.Some? ==> forall j :: r.value < j ==> !OccursAt(s, sub, j)
    ensures r.None? ==> forall j :: !OccursAt(s, sub, j)
    decreases |s|
  {
    if |s| < |sub| then None
    else if s[|s| - |sub|..] == sub then Some(|s| - |sub|)
    else
      assert forall j :: OccursAt(s, sub, j) ==> j < |s| - |sub| && OccursAt(s[..|s| - 1], sub, j) by {
        forall j | OccursAt(s, sub, j) ensures j < |s| - |sub| && OccursAt(s[..|s| - 1], sub, j) {
          if j + |sub| <= |s| - 1 {
            assert s[..|s| - 1][j..j + |sub|] == s[j..j + |sub|];
          }
        }
      }
      var r := LastIndexOf(s[..|s| - 1], sub);
      if r.Some? then
        assert s[..|s| - 1][r.value..r.value + |sub|] == s[r.value..r.value + |sub|];
        r
      else r
  }

  /** `s` with the longest prefix of characters satisfying `drop` removed (`str.lstrip`). */
  function TrimLeft(s: string, drop: char -> bool): string {
    if s != [] && drop(s[0]) then TrimLeft(s[1..], drop) else s
  }

  /** `s` with the longest suffix of characters satisfying `drop` removed (`str.rstrip`). */
  function TrimRight(s: string, drop: char -> bool): string {
    if s != [] && drop(s[|s| - 1]) then TrimRight(s[..|s| - 1], drop) else s
  }

  /** What `lstrip` removes is the longest prefix of dropped characters. */
  lemma {:induction false} TrimLeftSpec(s: string, drop: char -> bool)
    ensures var r := TrimLeft(s, drop);
      && |r| <= |s| && r == s[|s| - |r|..]
      && (forall i :: 0 <= i < |s| - |r| ==> drop(s[i]))
      && (r == [] || !drop(r[0]))
  {
    if s != [] && drop(s[0]) {
      var t := s[1..];
      TrimLeftSpec(t, drop);
      var r := TrimLeft(t, drop);
      assert TrimLeft(s, drop) == r;
      assert s[|s| - |r|..] == t[|t| - |r|..];
      forall i | 0 <= i < |s| - |r| ensures drop(s[i]) {
        if i > 0 {
          assert s[i] == t[i - 1];
        }
      }
    }
  }

  /** `lstrip("/")` removes exactly the leading slashes. */
  lemma LeadingSlashesDropped(path: string)
    ensures var rel := TrimLeft(path, IsSlash);
      && |rel| <= |path| && path == path[..|path| - |rel|] + rel
      && (rel == [] || rel[0] != '/')
      && forall i :: 0 <= i < |path| - |rel| ==> path[i] == '/'
  {
    TrimLeftSpec(path, IsSlash);
  }


  /** What `rstrip` removes is the longest suffix of dropped characters. */
  lemma {:induction false} TrimRightSpec(s: string, drop: char -> bool)
    ensures var r := TrimRight(s, drop);
      && |r| <= |s| && r == s[..|r|]
      && (forall i :: |r| <= i < |s| ==> drop(s[i]))
      && (r == [] || !drop(r[|r| - 1]))
  {
    if s != [] && drop(s[|s| - 1]) {
      var t := s[..|s| - 1];
      TrimRightSpec(t, drop);
      var r := TrimRight(t, drop);
      assert TrimRight(s, drop) == r;
      assert s[..|r|] == t[..|r|];
      forall i | |r| <= i < |s| ensures drop(s[i]) {
        if i < |t| {
          assert s[i] == t[i];
        }
      }
    }
  }

  /** Python's `str.strip()` with no argument. */
  function Strip(s: string): string {
    TrimRight(TrimLeft(s, IsSpace), IsSpace)
  }

  /** `s` up to its first `\n`: all that a regular-expression `.*` can span. */
  function FirstLine(s: string): (r: string)
    ensures |r| <= |s| && r == s[..|r|]
    ensures '\n' !in r
    ensures |r| < |s| ==> s[|r|] == '\n'
    ensures '\n' !in s ==> r == s
  {
    if s == [] || s[0] == '\n' then [] else [s[0]] + FirstLine(s[1..])
  }

  predicate IsNonSpace(c: char) {
    !IsSpace(c)
  }

  /** The end of the longest run of characters satisfying `p` that starts at index `i` of `s`. */
  function SpanEnd(s: string, i: nat, p: char -> bool): (r: nat)
    requires i <= |s|
    ensures i <= r <= |s|
    ensures forall k :: i <= k < r ==> p(s[k])
    ensures r < |s| ==> !p(s[r])
    decreases |s| - i
  {
    if i < |s| && p(s[i]) then SpanEnd(s, i + 1, p) else i
  }

  /** A run is determined by where it stops. */
  lemma {:induction false} SpanEndAt(s: string, i: nat, p: char -> bool, r: nat)
    requires i <= r <= |s|
    requires forall k :: i <= k < r ==> p(s[k])
    requires r < |s| ==> !p(s[r])
    ensures SpanEnd(s, i, p) == r
    decreases r - i
  {
    if i < r {
      SpanEndAt(s, i + 1, p, r);
    }
  }

  /** The index of the first line boundary of `s`, or `|s|` when there is none. */
  function LineEnd(s: string): (k: nat)
    ensures k <= |s|
    ensures k < |s| ==> IsLineBreak(s[k])
    ensures forall i :: 0 <= i < k ==> !IsLineBreak(s[i])
  {
    if s == [] || IsLineBreak(s[0]) then 0 else 1 + LineEnd(s[1..])
  }

  /** `t` holds no line boundary. */
  predicate WithoutLineBreak(t: string) {
    forall i :: 0 <= i < |t| ==> !IsLineBreak(t[i])
  }

  /** Python's `str.splitlines()`: no final empty line, "\r\n" counts once. */
  function SplitLines(s: string): (lines: seq<string>)
    ensures forall k :: 0 <= k < |lines| ==> WithoutLineBreak(lines[k])
    ensures lines == [] <==> s == []
    decreases |s|
  {
    if s == [] then []
    else
      var k := LineEnd(s);
      if k == |s| then [s]
      else [s[..k]] + SplitLines(s[k + BreakWidth(s, k)..])
  }

  /** The length of the line boundary at `k`: 2 for "\r\n", else 1. */
  function BreakWidth(s: string, k: nat): (w: nat)
    requires k < |s|
    ensures 1 <= w <= 2 && k + w <= |s|
  {
    if s[k] == '\r' && k + 1 < |s| && s[k + 1] == '\n' then 2 else 1
  }

  /**
   * When every line boundary of `s` is a `\n`, joining its lines with `\n`
   * gives `s` back, up to the final newline that `splitlines` drops.
   */
  lemma {:induction false} SplitLinesJoin(s: string)
    requires forall i :: 0 <= i < |s| && IsLineBreak(s[i]) ==> s[i] == '\n'
    ensures Join(SplitLines(s), '\n') + NewlineTail(s) == s
    decreases |s|
  {
    if s != [] {
      var k := LineEnd(s);
      if k == |s| {
        assert SplitLines(s) == [s];
        assert !IsLineBreak(s[|s| - 1]) && IsLineBreak('\n');
        assert NewlineTail(s) == "";
      } else {
        var rest := s[k + 1..];
        assert forall i :: 0 <= i < |rest| ==> rest[i] == s[k + 1 + i];
        SplitLinesJoin(rest);
        SplitLinesAtNewline(s, k);
        SplitAround(s, k);
        JoinLineInFront(s[..k], SplitLines(rest), rest, s);
      }
    }
  }

  /** A line ended by `\n` is split off as the first line. */
  lemma SplitLinesAtNewline(s: string, k: nat)
    requires k < |s| && k == LineEnd(s) && s[k] == '\n'
    ensures SplitLines(s) == [s[..k]] + SplitLines(s[k + 1..])
  {
    assert BreakWidth(s, k) == 1;
  }

  /** Putting a line and a `\n` in front of joined lines keeps the round trip. */
  lemma JoinLineInFront(first: string, lines: seq<string>, rest: string, s: string)
    requires s == first + (['\n'] + rest)
    requires lines == [] <==> rest == []
    requires Join(lines, '\n') + NewlineTail(rest) == rest
    ensures Join([first] + lines, '\n') + NewlineTail(s) == s
  {
    if rest == [] {
      assert [first] + lines == [first];
      assert NewlineTail(s) == ['\n'];
    } else {
      assert NewlineTail(s) == NewlineTail(rest);
      JoinCons(first, lines, '\n');
      ConcatAssoc(first, ['\n'], Join(lines, '\n'), NewlineTail(rest));
    }
  }

  /** `s` around its character at index `k`. */
  lemma SplitAround(s: string, k: nat)
    requires k < |s|
    ensures s == s[..k] + ([s[k]] + s[k + 1..])
  {
  }

  /** Regrouping a concatenation of four strings. */
  lemma ConcatAssoc(a: string, b: string, c: string, d: string)
    ensures (a + b + c) + d == a + (b + (c + d))
  {
  }

  /** The newline that ends `s`, if one does (the one `splitlines` drops). */
  function NewlineTail(s: string): string {
    if s != [] && s[|s| - 1] == '\n' then "\n" else ""
  }

  /** Joining a part in front of a non-empty list adds the part and one separator. */
  lemma JoinCons(x: string, parts: seq<string>, sep: char)
    requires parts != []
    ensures Join([x] + parts, sep) == x + [sep] + Join(parts, sep)
  {
    assert ([x] + parts)[1..] == parts;
  }

  /** Python's `s.split(sep)` for a one-character separator. */
  function Split(s: string, sep: char): (parts: seq<string>)
    ensures |parts| >= 1
    ensures forall k :: 0 <= k < |parts| ==> sep !in parts[k]
  {
    if s == [] then [""]
    else if s[0] == sep then [""] + Split(s[1..], sep)
    else
      var rest := Split(s[1..], sep);
      [[s[0]] + rest[0]] + rest[1..]
  }

  lemma {:induction false} SplitWithoutSeparator(s: string, sep: char)
    requires sep !in s
    ensures Split(s, sep) == [s]
  {
    if s != [] {
      SplitWithoutSeparator(s[1..], sep);
      assert [s[0]] + s[1..] == s;
    }
  }

  /** Splitting at the first separator: the text before it is the first part. */
  lemma {:induction false} SplitAtFirst(a: string, sep: char, b: string)
    requires sep !in a
    ensures Split(a + [sep] + b, sep) == [a] + Split(b, sep)
  {
    if a == [] {
      assert a + [sep] + b == [sep] + b;
      assert ([sep] + b)[1..] == b;
    } else {
      SplitAtFirst(a[1..], sep, b);
      assert (a + [sep] + b)[1..] == a[1..] + [sep] + b;
      assert [a[0]] + a[1..] == a;
    }
  }

  /** Python's `sep.join(parts)` for a one-character separator. */
  function Join(parts: seq<string>, sep: char): string {
    if parts == [] then ""
    else if |parts| == 1 then parts[0]
    else parts[0] + [sep] + Join(parts[1..], sep)
  }

  /** Splitting a join at its separator gives back the parts when none holds the separator. */
  lemma {:induction false} SplitJoin(parts: seq<string>, sep: char)
    requires parts != []
    requires forall k :: 0 <= k < |parts| ==> sep !in parts[k]
    ensures Split(Join(parts, sep), sep) == parts
  {
    if |parts| == 1 {
      SplitWithoutSeparator(parts[0], sep);
    } else {
      SplitJoin(parts[1..], sep);
      SplitAtFirst(parts[0], sep, Join(parts[1..], sep));
      assert [parts[0]] + parts[1..] == parts;
    }
  }

  /** Python's `" ".join(xs)`. */
  function JoinSpace(xs: seq<string>): string {
    if xs == [] then ""
    else if |xs| == 1 then xs[0]
    else xs[0] + " " + JoinSpace(xs[1..])
  }

  /** A character other than the space occurs in a joined string only if it occurs in a part. */
  lemma {:induction false} JoinSpaceAvoids(xs: seq<string>, c: char)
    requires c != ' ' && forall i :: 0 <= i < |xs| ==> c !in xs[i]
    ensures c !in JoinSpace(xs)
  {
    if |xs| > 1 {
      JoinSpaceAvoids(xs[1..], c);
    }
  }

  function LowerChar(c: char): char {
    if 'A' <= c <= 'Z' then (c as int + 32) as char else c
  }

  /** Python's `str.lower()` restricted to ASCII letters. */
  function Lower(s: string): (r: string)
    ensures |r| == |s|
    ensures forall i :: 0 <= i < |s| ==> r[i] == LowerChar(s[i])
  {
    seq(|s|, i requires 0 <= i < |s| => LowerChar(s[i]))
  }

  /** Python's `<` on lists of integers: lexicographic, a proper prefix is smaller. */
  predicate IntsLess(a: seq<int>, b: seq<int>) {
    if a == [] then b != []
    else if b == [] then false
    else if a[0] != b[0] then a[0] < b[0]
    else IntsLess(a[1..], b[1..])
  }

  /** The code points of a string. */
  function Codes(s: string): (r: seq<int>)
    ensures |r| == |s|
    ensures forall i :: 0 <= i < |s| ==> r[i] == s[i] as int
  {
    seq(|s|, i requires 0 <= i < |s| => s[i] as int)
  }

  /** Python's `<` on strings: lexicographic by code point. */
  predicate StrLess(a: string, b: string) {
    IntsLess(Codes(a), Codes(b))
  }

  lemma {:induction false} IntsLessIrreflexive(a: seq<int>)
    ensures !IntsLess(a, a)
  {
    if a != [] {
      IntsLessIrreflexive(a[1..]);
    }
  }

  lemma {:induction false} IntsLessTransitive(a: seq<int>, b: seq<int>, c: seq<int>)
    requires IntsLess(a, b) && IntsLess(b, c)
    ensures IntsLess(a, c)
  {
    if a != [] && b != [] && c != [] && a[0] == b[0] && b[0] == c[0] {
      IntsLessTransitive(a[1..], b[1..], c[1..]);
    }
  }

  lemma {:induction false} IntsLessTotal(a: seq<int>, b: seq<int>)
    ensures a == b || IntsLess(a, b) || IntsLess(b, a)
  {
    if a != [] && b != [] && a[0] == b[0] {
      IntsLessTotal(a[1..], b[1..]);
      if a[1..] == b[1..] {
        assert a == [a[0]] + a[1..] && b == [b[0]] + b[1..];
      }
    }
  }

  lemma StrLessIrreflexive(a: string)
    ensures !StrLess(a, a)
  {
    IntsLessIrreflexive(Codes(a));
  }

  lemma StrLessTransitive(a: string, b: string, c: string)
    requires StrLess(a, b) && StrLess(b, c)
    ensures StrLess(a, c)
  {
    IntsLessTransitive(Codes(a), Codes(b), Codes(c));
  }

  lemma StrLessTotal(a: string, b: string)
    ensures a == b || StrLess(a, b) || StrLess(b, a)
  {
    IntsLessTotal(Codes(a), Codes(b));
    if Codes(a) == Codes(b) {
      assert forall i :: 0 <= i < |a| ==> a[i] == b[i] by {
        forall i | 0 <= i < |a| ensures a[i] == b[i] {
          assert Codes(a)[i] == Codes(b)[i];
        }
      }
    }
  }

  /** The elements of a sequence of strings. */
  function Elems(xs: seq<string>): (r: set<string>)
    ensures xs != [] ==> xs[0] in r
  {
    set x | x in xs
  }

  /** Strictly increasing in code-point order: what `sorted` gives for a set. */
  predicate StrictlySorted(xs: seq<string>) {
    forall i, j :: 0 <= i < j < |xs| ==> StrLess(xs[i], xs[j])
  }

  /** `x` inserted into a sorted sequence at its place; nothing is added when already there. */
  function Insert(xs: seq<string>, x: string): seq<string> {
    if xs == [] then [x]
    else if x == xs[0] then xs
    else if StrLess(x, xs[0]) then [x] + xs
    else [xs[0]] + Insert(xs[1..], x)
  }

  lemma ElemsCons(h: string, t: seq<string>)
    ensures Elems([h] + t) == {h} + Elems(t)
  {
    var r := [h] + t;
    assert forall y <- Elems(r) :: y == h || y in Elems(t) by {
      forall y <- Elems(r) ensures y == h || y in Elems(t) {
        var k :| 0 <= k < |r| && r[k] == y;
        if k > 0 {
          assert t[k - 1] == y;
        }
      }
    }
    assert forall y <- Elems(t) :: y in Elems(r) by {
      forall y <- Elems(t) ensures y in Elems(r) {
        var k :| 0 <= k < |t| && t[k] == y;
        assert r[k + 1] == y;
      }
    }
  }

  lemma ElemsSnoc(xs: seq<string>, x: string)
    ensures Elems(xs + [x]) == Elems(xs) + {x}
  {
    var r := xs + [x];
    assert forall y <- Elems(r) :: y == x || y in Elems(xs) by {
      forall y <- Elems(r) ensures y == x || y in Elems(xs) {
        var k :| 0 <= k < |r| && r[k] == y;
        if k < |xs| {
          assert xs[k] == y;
        }
      }
    }
    assert forall y <- Elems(xs) :: y in Elems(r) by {
      forall y <- Elems(xs) ensures y in Elems(r) {
        var k :| 0 <= k < |xs| && xs[k] == y;
        assert r[k] == y;
      }
    }
  }

  lemma {:induction false} InsertElems(xs: seq<string>, x: string)
    ensures Elems(Insert(xs, x)) == Elems(xs) + {x}
  {
    if xs == [] {
      assert Elems([x]) == {x} by { ElemsCons(x, []); }
    } else {
      ElemsCons(xs[0], xs[1..]);
      assert xs == [xs[0]] + xs[1..];
      if x == xs[0] {
      } else if StrLess(x, xs[0]) {
        ElemsCons(x, xs);
      } else {
        InsertElems(xs[1..], x);
        ElemsCons(xs[0], Insert(xs[1..], x));
      }
    }
  }

  /** A string below every element of a sorted sequence can go in front of it. */
  lemma ConsSorted(h: string, t: seq<string>)
    requires StrictlySorted(t) && forall y <- Elems(t) :: StrLess(h, y)
    ensures StrictlySorted([h] + t)
  {
    var r := [h] + t;
    forall i, j | 0 <= i < j < |r| ensures StrLess(r[i], r[j]) {
      if i == 0 {
        assert r[j] == t[j - 1] && t[j - 1] in Elems(t);
      } else {
        assert r[i] == t[i - 1] && r[j] == t[j - 1];
      }
    }
  }

  /** The head of a sorted sequence is below everything after it. */
  lemma HeadIsLeast(xs: seq<string>)
    requires StrictlySorted(xs) && xs != []
    ensures forall y <- Elems(xs[1..]) :: StrLess(xs[0], y)
  {
    forall y <- Elems(xs[1..]) ensures StrLess(xs[0], y) {
      var k :| 0 <= k < |xs| - 1 && xs[1..][k] == y;
      assert xs[k + 1] == y;
    }
  }

  lemma {:induction false} InsertKeepsSorted(xs: seq<string>, x: string)
    requires StrictlySorted(xs)
    ensures StrictlySorted(Insert(xs, x)) && Elems(Insert(xs, x)) == Elems(xs) + {x}
  {
    InsertElems(xs, x);
    if xs != [] && x != xs[0] {
      assert xs == [xs[0]] + xs[1..];
      ElemsCons(xs[0], xs[1..]);
      HeadIsLeast(xs);
      if StrLess(x, xs[0]) {
        forall y <- Elems(xs) ensures StrLess(x, y) {
          if y != xs[0] {
            StrLessTransitive(x, xs[0], y);
          }
        }
        ConsSorted(x, xs);
      } else {
        StrLessTotal(x, xs[0]);
        InsertKeepsSorted(xs[1..], x);
        ConsSorted(xs[0], Insert(xs[1..], x));
      }
    }
  }

  /** `sorted(s)` for a set of strings: its elements in increasing code-point order. */
  ghost function SortedOf(s: set<string>): (r: seq<string>)
    ensures StrictlySorted(r) && Elems(r) == s
    decreases s
  {
    if s == {} then []
    else
      var x :| x in s;
      var rest := SortedOf(s - {x});
      InsertKeepsSorted(rest, x);
      Insert(rest, x)
  }

  /** A set has exactly one strictly sorted listing. */
  lemma {:induction false} SortedUnique(a: seq<string>, b: seq<string>)
    requires StrictlySorted(a) && StrictlySorted(b) && Elems(a) == Elems(b)
    ensures a == b
    decreases |a|
  {
    if a != [] {
      assert a[0] in Elems(b) && b != [] && b[0] in Elems(a);
      var k :| 0 <= k < |b| && b[k] == a[0];
      var m :| 0 <= m < |a| && a[m] == b[0];
      StrLessIrreflexive(a[0]);
      if a[0] != b[0] {
        assert StrLess(a[0], b[0]) by { assert m != 0; }
        assert StrLess(b[0], a[0]) by { assert k != 0; }
        StrLessTransitive(a[0], b[0], a[0]);
        assert false;
      }
      assert a[0] !in Elems(a[1..]) by {
        forall i | 0 <= i < |a| - 1 ensures a[1..][i] != a[0] {
          StrLessIrreflexive(a[0]);
        }
      }
      assert b[0] !in Elems(b[1..]) by {
        forall i | 0 <= i < |b| - 1 ensures b[1..][i] != b[0] {
          StrLessIrreflexive(b[0]);
        }
      }
      assert Elems(a) == {a[0]} + Elems(a[1..]) by { assert a == [a[0]] + a[1..]; }
      assert Elems(b) == {b[0]} + Elems(b[1..]) by { assert b == [b[0]] + b[1..]; }
      SortedUnique(a[1..], b[1..]);
      assert a == [a[0]] + a[1..] && b == [b[0]] + b[1..];
    } else {
      assert b == [];
    }
  }

  /** Python's `sorted` applied to a set of strings. */
  method SortSet(s: set<string>) returns (r: seq<string>)
    ensures r == SortedOf(s)
  {
    r := [];
    var rest := s;
    while rest != {}
      invariant rest <= s
      invariant StrictlySorted(r) && Elems(r) == s - rest
      decreases rest
    {
      var x :| x in rest;
      InsertKeepsSorted(r, x);
      r := Insert(r, x);
      rest := rest - {x};
    }
    SortedUnique(r, SortedOf(s));
  }

  /** Python's `os.path.basename`: the text after the last `/`. */
  function Basename(p: string): (r: string)
    ensures '/' !in r
    ensures |r| <= |p| && r == p[|p| - |r|..]
    ensures |r| < |p| ==> p[|p| - |r| - 1] == '/'
  {
    if p == [] || p[|p| - 1] == '/' then [] else Basename(p[..|p| - 1]) + [p[|p| - 1]]
  }

  /** Python's `os.path.join(a, b)` on POSIX. */
  function JoinPath(a: string, b: string): (r: string)
    ensures StartsWith(b, "/") ==> r == b
    ensures !StartsWith(b, "/") && a != [] && a[|a| - 1] != '/' ==> r == a + "/" + b
    ensures !StartsWith(b, "/") && (a == [] || a[|a| - 1] == '/') ==> r == a + b
  {
    if StartsWith(b, "/") then b
    else if a == [] || a[|a| - 1] == '/' then a + b
    else a + "/" + b
  }
}
