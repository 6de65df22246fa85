/**
 * Upgrade checking for the boot-binary and CDT artifacts that a debos flash
 * recipe downloads (scripts/check-boot-firmwares.py).
 *
 * The network is a parameter: `listing(url)` stands for the `href` values of
 * the `<a>` tags on the page at `url`, as `get_links_from_url` returns them
 * (the empty list when the fetch fails). The recipe file is given as its lines.
 */
module BootFirmwares {
  import opened Wrappers
  import opened Text

  /** Group 1 of BOOT_BINARIES_PATTERN. */
  const BootBase := "https://" + "softwarecenter.qualcomm.com" + "/download/software/chip"
    + "/qualcomm_linux-spf-1-0" + "/qualcomm-linux-spf-1-0_test_device_public"
  /** Group 1 of CDT_PATTERN; group 2 always starts with CdtTree. */
  const CdtBase := "https://" + "artifacts.codelinaro.org" + "/artifactory/codelinaro-le"
  const CdtTree := "Qualcomm_Linux/"
  const CdtMarker := "/cdt/"
  /** The key `check_file` looks for, quotes included. */
  const UrlKey := "\"url\""

  // ---------------------------------------------------------------------
  // Link collection (MLStripper)
  // ---------------------------------------------------------------------

  /** Some attribute among `attrs` is `href="v"`. */
  predicate HasHref(attrs: seq<(string, string)>, v: string) {
    exists i :: 0 <= i < |attrs| && attrs[i] == ("href", v)
  }

  /** The values of the `href` attributes among `attrs`, in order. */
  function Hrefs(attrs: seq<(string, string)>): (r: seq<string>)
    ensures |r| <= |attrs|
    ensures forall v :: v in r <==> HasHref(attrs, v)
  {
    if attrs == [] then []
    else
      var n := |attrs| - 1;
      var prefix := Hrefs(attrs[..n]);
      assert forall i :: 0 <= i < n ==> attrs[..n][i] == attrs[i];
      if attrs[n].0 == "href" then prefix + [attrs[n].1] else prefix
  }

  /** A lone attribute contributes its value exactly when it is an `href`. */
  lemma HrefsOfAttribute(name: string, value: string)
    ensures Hrefs([(name, value)]) == if name == "href" then [value] else []
  {
    assert [(name, value)][..0] == [];
  }

  /** Links are collected in attribute order: the `href`s of `a + b` are those of `a`, then those of `b`. */
  lemma {:induction false} HrefsOfConcat(a: seq<(string, string)>, b: seq<(string, string)>)
    ensures Hrefs(a + b) == Hrefs(a) + Hrefs(b)
    decreases |b|
  {
    if b == [] {
      assert a + b == a;
    } else {
      var m := |b| - 1;
      var last := if b[m].0 == "href" then [b[m].1] else [];
      HrefsOfConcat(a, b[..m]);
      assert Hrefs(a + b) == Hrefs(a + b[..m]) + last by {
        assert (a + b)[..|a + b| - 1] == a + b[..m];
        assert (a + b)[|a + b| - 1] == b[m];
      }
      assert Hrefs(b) == Hrefs(b[..m]) + last;
      assert Hrefs(a) + Hrefs(b[..m]) + last == Hrefs(a) + (Hrefs(b[..m]) + last);
    }
  }

  /** The HTML parser's state: the links collected so far. */
  class LinkCollector {
    var links: seq<string>

    constructor ()
      ensures links == []
    {
      links := [];
    }

    /** Called for every start tag; only `<a>` tags contribute their `href` values. */
    method HandleStartTag(tag: string, attrs: seq<(string, string)>)
      modifies this
      ensures links == old(links) + (if tag == "a" then Hrefs(attrs) else [])
    {
      if tag == "a" {
        for i := 0 to |attrs|
          invariant links == old(links) + Hrefs(attrs[..i])
        {
          assert attrs[..i + 1][..i] == attrs[..i];
          if attrs[i].0 == "href" {
            links := links + [attrs[i].1];
          }
        }
        assert attrs[..|attrs|] == attrs;
      }
    }
  }

  // ---------------------------------------------------------------------
  // Version keys (version_sort_key)
  // ---------------------------------------------------------------------

  /** Python's `int(x)`: surrounding whitespace, an optional sign, then ASCII digits. */
  function ParseInt(x: string): Option<int> {
    var t := Strip(x);
    if t != [] && (t[0] == '+' || t[0] == '-') && |t| > 1 && AllDigits(t[1..]) then
      var n: int := DigitsValue(t[1..]);
      Some(if t[0] == '-' then -n else n)
    else if t != [] && AllDigits(t) then
      Some(DigitsValue(t))
    else
      None
  }

  lemma ParseDigits(d: string)
    requires d != [] && AllDigits(d)
    ensures ParseInt(d) == Some(DigitsValue(d))
  {
    assert TrimLeft(d, IsSpace) == d;
    assert TrimRight(d, IsSpace) == d;
  }

  /** `[int(x) for x in fields]`, or None when some field is rejected. */
  function ParseAll(fields: seq<string>): (r: Option<seq<int>>)
    ensures r.Some? ==> |r.value| == |fields|
  {
    if fields == [] then Some([])
    else
      match (ParseInt(fields[0]), ParseAll(fields[1..]))
      case (Some(x), Some(xs)) => Some([x] + xs)
      case _ => None
  }

  lemma {:induction false} ParseAllRejects(fields: seq<string>, i: nat)
    requires i < |fields| && ParseInt(fields[i]).None?
    ensures ParseAll(fields).None?
  {
    if i > 0 {
      ParseAllRejects(fields[1..], i - 1);
    }
  }

  /** What `version_sort_key` returns: a list of integers, or the input itself. */
  datatype SortKey = Numbers(parts: seq<int>) | Raw(text: string)

  /** The integer fields of a version: the dotted parts before and after the first `_`. */
  function VersionFields(v: string): Option<seq<string>> {
    var parts := Split(if v == [] then [] else v[1..], '_');
    if |parts| < 2 then None else Some(Split(parts[0], '.') + Split(parts[1], '.'))
  }

  /** `version_sort_key(v)`: drop the first character, read the fields as integers. */
  function VersionSortKey(v: string): SortKey {
    match VersionFields(v)
    case None => Raw(v)
    case Some(fields) =>
      match ParseAll(fields)
      case Some(numbers) => Numbers(numbers)
      case None => Raw(v)
  }

  /** A digit string and a string without `sep`, joined by `sep`, split back into the two. */
  lemma SplitDigitPair(a: string, sep: char, b: string)
    requires AllDigits(a) && !IsDigit(sep) && sep !in b
    ensures Split(a + [sep] + b, sep) == [a, b]
  {
    assert sep !in a by {
      assert forall i :: 0 <= i < |a| ==> IsDigit(a[i]);
    }
    SplitAtFirst(a, sep, b);
    SplitWithoutSeparator(b, sep);
  }

  /** ASCII digits are neither of the separators of a version name. */
  lemma DigitsHaveNoSeparator(a: string)
    requires AllDigits(a)
    ensures '.' !in a && '_' !in a
  {
    assert forall i :: 0 <= i < |a| ==> IsDigit(a[i]);
  }

  /** `?A.B_C.D` splits into the fields A, B, C, D when A, B, C are digits and D holds no separator. */
  lemma VersionFieldsOf(c: char, a: string, b: string, d: string, e: string)
    requires AllDigits(a) && AllDigits(b) && AllDigits(d) && '.' !in e && '_' !in e
    ensures VersionFields([c] + a + "." + b + "_" + d + "." + e) == Some([a, b, d, e])
  {
    var v := [c] + a + "." + b + "_" + d + "." + e;
    var major, minor := a + "." + b, d + "." + e;
    assert v[1..] == major + ['_'] + minor;
    DigitsHaveNoSeparator(a);
    DigitsHaveNoSeparator(b);
    DigitsHaveNoSeparator(d);
    assert '_' !in major && '_' !in minor by {
      assert forall i :: 0 <= i < |major| ==> major[i] == '.' || major[i] in a || major[i] in b;
      assert forall i :: 0 <= i < |minor| ==> minor[i] == '.' || minor[i] in d || minor[i] in e;
    }
    SplitAtFirst(major, '_', minor);
    SplitWithoutSeparator(minor, '_');
    SplitDigitPair(a, '.', b);
    SplitDigitPair(d, '.', e);
    assert [a, b] + [d, e] == [a, b, d, e];
  }

  /** Fields made of ASCII digits all parse, each to its decimal value. */
  lemma {:induction false} ParseAllDigits(fields: seq<string>)
    requires forall f <- fields :: f != [] && AllDigits(f)
    ensures ParseAll(fields).Some?
    ensures forall i :: 0 <= i < |fields| ==> ParseAll(fields).value[i] == DigitsValue(fields[i])
  {
    if fields != [] {
      assert fields[0] in fields;
      var x: int := DigitsValue(fields[0]);
      ParseDigits(fields[0]);
      assert forall f <- fields[1..] :: f in fields;
      ParseAllDigits(fields[1..]);
      var xs := ParseAll(fields[1..]).value;
      assert ParseAll(fields) == Some([x] + xs);
      forall i | 0 <= i < |fields|
        ensures ParseAll(fields).value[i] == DigitsValue(fields[i])
      {
        if i > 0 {
          assert fields[i] == fields[1..][i - 1];
        }
      }
    }
  }

  lemma ParseDecimalFields(a: string, b: string, d: string, e: string)
    requires a != [] && b != [] && d != [] && e != []
    requires AllDigits(a) && AllDigits(b) && AllDigits(d) && AllDigits(e)
    ensures ParseAll([a, b, d, e]) == Some([DigitsValue(a), DigitsValue(b), DigitsValue(d), DigitsValue(e)])
  {
    var fields := [a, b, d, e];
    ParseAllDigits(fields);
    var v := ParseAll(fields).value;
    var va: int, vb: int, vd: int, ve: int := DigitsValue(a), DigitsValue(b), DigitsValue(d), DigitsValue(e);
    assert v[0] == va && v[1] == vb && v[2] == vd && v[3] == ve;
    assert v == [va, vb, vd, ve];
  }

  /** A name `?A.B_C.D` with four decimal fields gets the key [A, B, C, D]. */
  lemma VersionKeyOfDecimalFields(c: char, a: string, b: string, d: string, e: string)
    requires a != [] && b != [] && d != [] && e != []
    requires AllDigits(a) && AllDigits(b) && AllDigits(d) && AllDigits(e)
    ensures VersionSortKey([c] + a + "." + b + "_" + d + "." + e)
         == Numbers([DigitsValue(a), DigitsValue(b), DigitsValue(d), DigitsValue(e)])
  {
    var v := [c] + a + "." + b + "_" + d + "." + e;
    var fields := [a, b, d, e];
    assert VersionFields(v) == Some(fields) by {
      DigitsHaveNoSeparator(e);
      VersionFieldsOf(c, a, b, d, e);
    }
    assert ParseAll(fields) == Some([DigitsValue(a), DigitsValue(b), DigitsValue(d), DigitsValue(e)]) by {
      ParseDecimalFields(a, b, d, e);
    }
    NumericKey(v, fields);
  }

  lemma NumericKey(v: string, fields: seq<string>)
    requires VersionFields(v) == Some(fields) && ParseAll(fields).Some?
    ensures VersionSortKey(v) == Numbers(ParseAll(fields).value)
  {
  }

  /** The documented example: `r1.0_00116.0` has the key [1, 0, 116, 0]. */
  lemma VersionKeyExample()
    ensures VersionSortKey("r1.0_00116.0") == Numbers([1, 0, 116, 0])
  {
    assert "r1.0_00116.0" == ['r'] + "1" + "." + "0" + "_" + "00116" + "." + "0";
    assert DigitsValue("00116") == 116 by {
      assert "00116"[..4] == "0011";
      assert "0011"[..3] == "001";
      assert "001"[..2] == "00";
      assert "00"[..1] == "0";
      assert "0"[..0] == "";
    }
    assert DigitsValue("1") == 1 by {
      assert "1"[..0] == "";
    }
    assert DigitsValue("0") == 0 by {
      assert "0"[..0] == "";
    }
    VersionKeyOfDecimalFields('r', "1", "0", "00116", "0");
  }

  /** Without a `_` after the first character there is no second part: the input comes back. */
  lemma VersionKeyWithoutUnderscore(v: string)
    requires v != [] && '_' !in v[1..]
    ensures VersionSortKey(v) == Raw(v)
  {
    SplitWithoutSeparator(v[1..], '_');
  }

  /** A field that `int()` rejects also gives back the input. */
  lemma VersionKeyWithBadField(v: string, i: nat)
    requires VersionFields(v).Some? && i < |VersionFields(v).value|
    requires ParseInt(VersionFields(v).value[i]).None?
    ensures VersionSortKey(v) == Raw(v)
  {
    ParseAllRejects(VersionFields(v).value, i);
  }

  // ---------------------------------------------------------------------
  // The directory-name pattern r[0-9]+\.[0-9]+_[0-9]+\.[0-9]+
  // ---------------------------------------------------------------------

  /** The end of the run of ASCII digits that starts at index `i` of `s`. */
  function RunEnd(s: string, i: nat): (r: nat)
    requires i <= |s|
    ensures i <= r <= |s|
    ensures forall k :: i <= k < r ==> IsDigit(s[k])
    ensures r < |s| ==> !IsDigit(s[r])
    decreases |s| - i
  {
    if i < |s| && IsDigit(s[i]) then RunEnd(s, i + 1) else i
  }

  /**
   * A non-empty digit run starting at `i` and followed by the character `sep`:
   * the index just after `sep`. Since `sep` is not a digit, the greedy run is
   * the only one a regular-expression engine can use.
   */
  function RunThen(s: string, i: nat, sep: char): Option<nat>
    requires i <= |s|
  {
    var r := RunEnd(s, i);
    if r > i && r < |s| && s[r] == sep then Some(r + 1) else None
  }

  /**
   * The length of the match of the directory-name pattern at the start of `s`
   * (`re.match`), if any.
   */
  function VersionMatchLen(s: string): Option<nat> {
    if s == [] || s[0] != 'r' then None
    else match RunThen(s, 1, '.')
      case None => None
      case Some(i1) => match RunThen(s, i1, '_')
        case None => None
        case Some(i2) => match RunThen(s, i2, '.')
          case None => None
          case Some(i3) =>
            var i4 := RunEnd(s, i3);
            if i4 == i3 then None else Some(i4)
  }

  /** What the pattern matches is `r`, digits, `.`, digits, `_`, digits, `.`, digits. */
  lemma VersionMatchShape(s: string) returns (a: string, b: string, d: string, e: string)
    requires VersionMatchLen(s).Some?
    ensures VersionMatchLen(s).value <= |s|
    ensures s[..VersionMatchLen(s).value] == "r" + a + "." + b + "_" + d + "." + e
    ensures a != [] && b != [] && d != [] && e != []
    ensures AllDigits(a) && AllDigits(b) && AllDigits(d) && AllDigits(e)
  {
    var i1 := RunThen(s, 1, '.').value;
    var i2 := RunThen(s, i1, '_').value;
    var i3 := RunThen(s, i2, '.').value;
    var i4 := RunEnd(s, i3);
    a, b, d, e := s[1..i1 - 1], s[i1..i2 - 1], s[i2..i3 - 1], s[i3..i4];
    assert s[..i1] == "r" + a + "." by {
      assert s[..i1] == [s[0]] + a + [s[i1 - 1]];
    }
    assert s[..i2] == s[..i1] + b + "_" by {
      assert s[..i2] == s[..i1] + b + [s[i2 - 1]];
    }
    assert s[..i3] == s[..i2] + d + "." by {
      assert s[..i3] == s[..i2] + d + [s[i3 - 1]];
    }
    assert s[..i4] == s[..i3] + e;
  }

  /**
   * The prefix the pattern matches has a numeric key of exactly four
   * fields; so does the whole name when the pattern matches all of it.
   */
  lemma MatchedVersionHasNumericKey(s: string)
    requires VersionMatchLen(s).Some?
    ensures VersionMatchLen(s).value <= |s|
    ensures var n := VersionMatchLen(s).value; VersionSortKey(s[..n]).Numbers? && |VersionSortKey(s[..n]).parts| == 4
    ensures VersionMatchLen(s) == Some(|s|) ==> VersionSortKey(s).Numbers? && |VersionSortKey(s).parts| == 4
  {
    var a, b, d, e := VersionMatchShape(s);
    assert "r" == ['r'];
    VersionKeyOfDecimalFields('r', a, b, d, e);
    assert s[..|s|] == s;
  }

  /** `re.match` anchors only at the start: `r1.0_2.3a`, a version with a tail, is kept. */
  lemma PartialMatchIsKept()
    ensures VersionMatchLen("r1.0_2.3a") == Some(8)
  {
    var v := "r1.0_2.3a";
    assert RunThen(v, 1, '.') == Some(3) by {
      assert RunEnd(v, 2) == 2;
    }
    assert RunThen(v, 3, '_') == Some(5) by {
      assert RunEnd(v, 4) == 4;
    }
    assert RunThen(v, 5, '.') == Some(7) by {
      assert RunEnd(v, 6) == 6;
    }
    assert RunEnd(v, 7) == 8 by {
      assert RunEnd(v, 8) == 8;
    }
  }

  /** The last field of `r1.0_2.3a` is not an integer, so that name sorts by its text. */
  lemma PartialMatchSortsAsText()
    ensures VersionSortKey("r1.0_2.3a") == Raw("r1.0_2.3a")
  {
    var v := "r1.0_2.3a";
    var fields := ["1", "0", "2", "3a"];
    assert VersionFields(v) == Some(fields) by {
      assert v == ['r'] + "1" + "." + "0" + "_" + "2" + "." + "3a";
      assert '.' !in "3a" && '_' !in "3a";
      VersionFieldsOf('r', "1", "0", "2", "3a");
    }
    assert ParseInt("3a").None? by {
      assert Strip("3a") == "3a" by {
        assert TrimLeft("3a", IsSpace) == "3a";
        assert TrimRight("3a", IsSpace) == "3a";
      }
      assert !AllDigits("3a") by {
        assert !IsDigit("3a"[1]);
      }
    }
    ParseAllRejects(fields, 3);
  }


  // ---------------------------------------------------------------------
  // Latest item of a directory listing (get_latest_item)
  // ---------------------------------------------------------------------

  /** A link with its trailing slashes removed (`link.rstrip('/')`). */
  function CleanLink(link: string): string {
    TrimRight(link, IsSlash)
  }

  /** Whether a cleaned link is collected: not the parent directory, and matching the pattern if one is used. */
  predicate Kept(link: string, usePattern: bool) {
    link != ".." && (!usePattern || VersionMatchLen(link).Some?)
  }

  /** Some link of `links`, once cleaned, is `x` and is collected. */
  predicate CollectedFrom(links: seq<string>, usePattern: bool, x: string) {
    exists i :: 0 <= i < |links| && CleanLink(links[i]) == x && Kept(x, usePattern)
  }

  /** The cleaned links that are collected, in listing order. */
  function KeptLinks(links: seq<string>, usePattern: bool): (items: seq<string>)
    ensures |items| <= |links|
    ensures forall x :: x in items <==> CollectedFrom(links, usePattern, x)
  {
    if links == [] then []
    else
      var n := |links| - 1;
      var prefix := KeptLinks(links[..n], usePattern);
      assert forall i :: 0 <= i < n ==> links[..n][i] == links[i];
      var link := CleanLink(links[n]);
      if Kept(link, usePattern) then prefix + [link] else prefix
  }

  /** A lone link is collected, cleaned, exactly when it is kept. */
  lemma KeptLinksOfLink(link: string, usePattern: bool)
    ensures KeptLinks([link], usePattern)
         == if Kept(CleanLink(link), usePattern) then [CleanLink(link)] else []
  {
    assert [link][..0] == [];
  }

  /**
   * Links are collected in listing order, each occurrence on its own: the
   * items of `a + b` are those of `a`, then those of `b`.
   */
  lemma {:induction false} KeptLinksOfConcat(a: seq<string>, b: seq<string>, usePattern: bool)
    ensures KeptLinks(a + b, usePattern) == KeptLinks(a, usePattern) + KeptLinks(b, usePattern)
    decreases |b|
  {
    if b == [] {
      assert a + b == a;
    } else {
      var m := |b| - 1;
      var link := CleanLink(b[m]);
      var last := if Kept(link, usePattern) then [link] else [];
      KeptLinksOfConcat(a, b[..m], usePattern);
      assert KeptLinks(a + b, usePattern) == KeptLinks(a + b[..m], usePattern) + last by {
        assert (a + b)[..|a + b| - 1] == a + b[..m];
        assert (a + b)[|a + b| - 1] == b[m];
      }
      assert KeptLinks(b, usePattern) == KeptLinks(b[..m], usePattern) + last;
      assert KeptLinks(a, usePattern) + KeptLinks(b[..m], usePattern) + last
          == KeptLinks(a, usePattern) + (KeptLinks(b[..m], usePattern) + last);
    }
  }

  /** The sort key of an item: `version_sort_key` or the item itself. */
  function Key(item: string, byVersion: bool): SortKey {
    if byVersion then VersionSortKey(item) else Raw(item)
  }

  function Keys(items: seq<string>, byVersion: bool): (keys: seq<SortKey>)
    ensures |keys| == |items|
    ensures forall i :: 0 <= i < |items| ==> keys[i] == Key(items[i], byVersion)
  {
    seq(|items|, i requires 0 <= i < |items| => Key(items[i], byVersion))
  }

  /** Python's `<` between two keys; a list and a string are not comparable. */
  predicate KeyLess(a: SortKey, b: SortKey) {
    match (a, b)
    case (Numbers(x), Numbers(y)) => IntsLess(x, y)
    case (Raw(x), Raw(y)) => StrLess(x, y)
    case _ => false
  }

  /** Sorting succeeds only when the keys are all lists or all strings. */
  predicate SameKind(keys: seq<SortKey>) {
    forall i :: 0 <= i < |keys| ==> keys[i].Numbers? == keys[0].Numbers?
  }

  /** The outcome of `get_latest_item`; `Uncomparable` is the TypeError raised by the sort. */
  datatype Latest = NoItems | Found(item: string) | Uncomparable

  /** The position of the element a stable sort puts last: the last of the greatest keys. */
  function LastOfSorted(keys: seq<SortKey>): (i: nat)
    requires keys != []
    ensures i < |keys|
  {
    if |keys| == 1 then 0
    else
      var best := LastOfSorted(keys[..|keys| - 1]);
      if KeyLess(keys[|keys| - 1], keys[best]) then best else |keys| - 1
  }

  /** `get_latest_item(base_url, pattern, sort_key)` on the links the listing returned. */
  function LatestOf(links: seq<string>, usePattern: bool, byVersion: bool): Latest {
    var items := KeptLinks(links, usePattern);
    var keys := Keys(items, byVersion);
    if items == [] then NoItems
    else if !SameKind(keys) then Uncomparable
    else Found(items[LastOfSorted(keys)])
  }

  lemma KeyLessIrreflexive(a: SortKey)
    ensures !KeyLess(a, a)
  {
    match a
    case Numbers(x) => IntsLessIrreflexive(x);
    case Raw(x) => StrLessIrreflexive(x);
  }

  lemma KeyLessTransitive(a: SortKey, b: SortKey, c: SortKey)
    requires KeyLess(a, b) && KeyLess(b, c)
    ensures KeyLess(a, c)
  {
    match (a, b, c)
    case (Numbers(x), Numbers(y), Numbers(z)) => IntsLessTransitive(x, y, z);
    case (Raw(x), Raw(y), Raw(z)) => StrLessTransitive(x, y, z);
  }

  lemma KeyLessTotal(a: SortKey, b: SortKey)
    requires a.Numbers? == b.Numbers?
    ensures a == b || KeyLess(a, b) || KeyLess(b, a)
  {
    match (a, b)
    case (Numbers(x), Numbers(y)) => IntsLessTotal(x, y);
    case (Raw(x), Raw(y)) => StrLessTotal(x, y);
  }

  /** Position `i` is what a stable sort puts last: no key is greater, and later keys are smaller. */
  ghost predicate LastAfterStableSort(keys: seq<SortKey>, i: int) {
    && 0 <= i < |keys|
    && (forall j :: 0 <= j < |keys| ==> !KeyLess(keys[i], keys[j]))
    && (forall j :: i < j < |keys| ==> KeyLess(keys[j], keys[i]))
  }

  /** `x` is an item that a stable sort of `items` by their keys puts last. */
  ghost predicate SortsLast(items: seq<string>, byVersion: bool, x: string) {
    exists i :: LastAfterStableSort(Keys(items, byVersion), i) && items[i] == x
  }

  lemma {:induction false} LastOfSortedIsLast(keys: seq<SortKey>)
    requires keys != [] && SameKind(keys)
    ensures LastAfterStableSort(keys, LastOfSorted(keys))
  {
    var n := |keys| - 1;
    if n == 0 {
      KeyLessIrreflexive(keys[0]);
      return;
    }
    var prefix := keys[..n];
    assert SameKind(prefix);
    LastOfSortedIsLast(prefix);
    var k := LastOfSorted(prefix);
    assert forall j :: 0 <= j < n ==> prefix[j] == keys[j];
    var kx, km := keys[n], keys[k];
    if KeyLess(kx, km) {
      KeyLessIrreflexive(km);
      if KeyLess(km, kx) {
        KeyLessTransitive(km, kx, km);
      }
    } else {
      KeyLessTotal(kx, km);
      forall j | 0 <= j < |keys|
        ensures !KeyLess(kx, keys[j])
      {
        if j == n {
          KeyLessIrreflexive(kx);
        } else if KeyLess(kx, keys[j]) {
          assert !KeyLess(km, keys[j]);
          if kx != km {
            KeyLessTransitive(km, kx, keys[j]);
          }
        }
      }
    }
  }

  /** `get_latest_item` returns None exactly when no link is collected. */
  lemma LatestNoneIffNothingKept(links: seq<string>, usePattern: bool, byVersion: bool)
    ensures LatestOf(links, usePattern, byVersion) == NoItems <==> KeptLinks(links, usePattern) == []
  {
  }

  /**
   * A found item is a collected link whose key no collected link exceeds, and
   * every collected link listed after it has a strictly smaller key.
   */
  lemma LatestIsGreatestKept(links: seq<string>, usePattern: bool, byVersion: bool)
    requires LatestOf(links, usePattern, byVersion).Found?
    ensures SortsLast(KeptLinks(links, usePattern), byVersion, LatestOf(links, usePattern, byVersion).item)
  {
    var items := KeptLinks(links, usePattern);
    var keys := Keys(items, byVersion);
    LastOfSortedIsLast(keys);
    var i := LastOfSorted(keys);
    assert LatestOf(links, usePattern, byVersion) == Found(items[i]);
    assert LastAfterStableSort(Keys(items, byVersion), i);
  }

  /** Without a sort key the strings are always comparable: the TypeError needs version keys. */
  lemma PlainSortNeverFails(links: seq<string>, usePattern: bool)
    ensures LatestOf(links, usePattern, false) != Uncomparable
  {
    var keys := Keys(KeptLinks(links, usePattern), false);
    assert SameKind(keys);
  }

  /**
   * `get_latest_item` on the links the listing returned: the collecting loop,
   * then the sort (a library call, modelled by the element it puts last).
   */
  method LatestItem(links: seq<string>, usePattern: bool, byVersion: bool) returns (r: Latest)
    ensures r == LatestOf(links, usePattern, byVersion)
  {
    var items := [];
    for i := 0 to |links|
      invariant items == KeptLinks(links[..i], usePattern)
    {
      assert links[..i + 1][..i] == links[..i];
      var link := TrimRight(links[i], IsSlash);
      if link == ".." {
        continue;
      }
      if usePattern {
        if VersionMatchLen(link).Some? {
          items := items + [link];
        }
      } else {
        items := items + [link];
      }
    }
    assert links[..|links|] == links;
    if items == [] {
      return NoItems;
    }
    var keys := Keys(items, byVersion);
    if !SameKind(keys) {
      return Uncomparable;
    }
    r := Found(items[LastOfSorted(keys)]);
  }

  // ---------------------------------------------------------------------
  // URL extraction (check_file)
  // ---------------------------------------------------------------------

  /** The length of the `https?://` scheme that starts `t`, or 0. */
  function SchemeLen(t: string): nat {
    if StartsWith(t, "https://") then 8 else if StartsWith(t, "http://") then 7 else 0
  }

  /** What `"(https?://[^"]+)"` accepts as its group: a scheme and at least one more character, no quote. */
  predicate IsQuotableUrl(u: string) {
    SchemeLen(u) > 0 && |u| > SchemeLen(u) && '"' !in u
  }

  /** `s` holds `u` between two double quotes, the first at index `i`. */
  predicate QuotedAt(s: string, i: nat, u: string) {
    && i + |u| + 2 <= |s|
    && s[i] == '"' && s[i + 1..i + 1 + |u|] == u && s[i + 1 + |u|] == '"'
  }

  /** The URL the pattern `"(https?://[^"]+)"` matches when tried at index `i`. */
  function UrlAt(s: string, i: nat): Option<string>
    requires i <= |s|
  {
    if i < |s| && s[i] == '"' then
      var t := s[i + 1..];
      match IndexOf(t, "\"")
      case Some(k) => if SchemeLen(t) > 0 && k > SchemeLen(t) then Some(t[..k]) else None
      case None => None
    else None
  }

  /** The scheme of a URL starting `t` ends before its first quote. */
  lemma SchemeHasNoQuote(t: string)
    requires SchemeLen(t) > 0
    ensures forall j :: 0 <= j < SchemeLen(t) ==> t[j] != '"'
  {
    if StartsWith(t, "https://") {
      assert t[..8] == "https://";
    } else {
      assert t[..7] == "http://";
    }
  }

  /** A string of at least eight characters has the scheme of any string it begins. */
  lemma SameScheme(t: string, u: string)
    requires 8 <= |u| <= |t| && t[..|u|] == u
    ensures SchemeLen(t) == SchemeLen(u)
  {
    assert t[..8] == u[..8] && t[..7] == u[..7];
  }

  /** A quotable URL quoted at `i` is what the pattern matches there. */
  lemma UrlAtOfQuoted(s: string, i: nat, u: string)
    requires QuotedAt(s, i, u) && IsQuotableUrl(u)
    ensures UrlAt(s, i) == Some(u)
  {
    var t := s[i + 1..];
    assert t[..|u|] == u && t[|u|] == '"';
    SameScheme(t, u);
    OccursAtChar(t, '"', |u|);
    forall j | 0 <= j < |u| ensures !OccursAt(t, "\"", j) {
      OccursAtChar(t, '"', j);
      assert t[j] == u[j];
    }
    assert IndexOf(t, "\"") == Some(|u|);
  }

  /** What the pattern matches at `i` is a quotable URL quoted there. */
  lemma QuotedOfUrlAt(s: string, i: nat)
    requires i <= |s| && UrlAt(s, i).Some?
    ensures QuotedAt(s, i, UrlAt(s, i).value) && IsQuotableUrl(UrlAt(s, i).value)
  {
    var t := s[i + 1..];
    var k := IndexOf(t, "\"").value;
    var u := t[..k];
    assert UrlAt(s, i) == Some(u);
    SchemeHasNoQuote(t);
    assert forall j :: 0 <= j < k ==> t[j] != '"' by {
      forall j | 0 <= j < k ensures t[j] != '"' {
        assert !OccursAt(t, "\"", j);
        assert t[j..j + 1] == [t[j]];
      }
    }
    assert t[k..k + 1] == "\"";
    SameScheme(t, u);
  }

  /** The pattern matches at `i` exactly when a quotable URL is quoted there. */
  lemma UrlAtIsQuoted(s: string, i: nat, u: string)
    requires i <= |s|
    ensures UrlAt(s, i) == Some(u) <==> QuotedAt(s, i, u) && IsQuotableUrl(u)
  {
    if QuotedAt(s, i, u) && IsQuotableUrl(u) {
      UrlAtOfQuoted(s, i, u);
    }
    if UrlAt(s, i) == Some(u) {
      QuotedOfUrlAt(s, i);
    }
  }

  /** `re.search` with `"(https?://[^"]+)"` from index `i` on: the leftmost match. */
  function QuotedUrl(s: string, i: nat): Option<string>
    requires i <= |s|
    decreases |s| - i
  {
    if UrlAt(s, i).Some? then UrlAt(s, i)
    else if i == |s| then None
    else QuotedUrl(s, i + 1)
  }

  /**
   * A found URL is the match at its leftmost possible position `j`; none found
   * means the pattern matches nowhere from `i` on.
   */
  lemma {:induction false} QuotedUrlIsLeftmost(s: string, i: nat) returns (j: nat)
    requires i <= |s|
    ensures QuotedUrl(s, i).Some? ==>
      i <= j <= |s| && UrlAt(s, j) == QuotedUrl(s, i) && forall m :: i <= m < j ==> UrlAt(s, m).None?
    ensures QuotedUrl(s, i).None? ==> forall m :: i <= m <= |s| ==> UrlAt(s, m).None?
    decreases |s| - i
  {
    j := i;
    if UrlAt(s, i).None? && i < |s| {
      j := QuotedUrlIsLeftmost(s, i + 1);
    }
  }

  /** The text after the first `"url"` and before the next one (`line.split('"url"')[1]`). */
  function AfterKey(line: string, i: nat): string
    requires i + |UrlKey| <= |line|
  {
    var after := line[i + |UrlKey|..];
    match IndexOf(after, UrlKey)
    case Some(j) => after[..j]
    case None => after
  }

  /** The URL that `check_file` takes from one line of the recipe, if any. */
  function ExtractUrl(line: string): Option<string> {
    match IndexOf(line, UrlKey)
    case None => None
    case Some(i) => QuotedUrl(Strip(AfterKey(line, i)), 0)
  }

  /** An extracted URL comes from a line holding `"url"`, starts with a scheme and holds no quote. */
  lemma ExtractedUrlIsQuotable(line: string)
    requires ExtractUrl(line).Some?
    ensures Contains(line, UrlKey) && IsQuotableUrl(ExtractUrl(line).value)
  {
    var remaining := Strip(AfterKey(line, IndexOf(line, UrlKey).value));
    var r := QuotedUrl(remaining, 0);
    var j := QuotedUrlIsLeftmost(remaining, 0);
    UrlAtIsQuoted(remaining, j, r.value);
  }

  /** `s` quotes a URL the pattern accepts somewhere. */
  ghost predicate QuotesUrl(s: string) {
    exists j: nat, u :: j <= |s| && QuotedAt(s, j, u) && IsQuotableUrl(u)
  }

  lemma QuotedUrlIff(s: string)
    ensures QuotedUrl(s, 0).Some? <==> QuotesUrl(s)
  {
    var j := QuotedUrlIsLeftmost(s, 0);
    if QuotedUrl(s, 0).Some? {
      UrlAtIsQuoted(s, j, QuotedUrl(s, 0).value);
    }
    if QuotesUrl(s) {
      var j: nat, u :| j <= |s| && QuotedAt(s, j, u) && IsQuotableUrl(u);
      UrlAtIsQuoted(s, j, u);
    }
  }

  /**
   * A URL is taken from a line exactly when the line contains `"url"` and the
   * text after its first occurrence quotes an `http://` or `https://` URL.
   */
  lemma ExtractUrlIff(line: string)
    ensures ExtractUrl(line).Some? <==>
      (Contains(line, UrlKey) && QuotesUrl(Strip(AfterKey(line, IndexOf(line, UrlKey).value))))
  {
    if Contains(line, UrlKey) {
      QuotedUrlIff(Strip(AfterKey(line, IndexOf(line, UrlKey).value)));
    }
  }

  // ---------------------------------------------------------------------
  // Silicon family filter (check_file)
  // ---------------------------------------------------------------------

  /** Some family occurs in `url`, ignoring case. */
  predicate NamesFamily(url: string, families: seq<string>) {
    exists f :: f in families && Contains(Lower(url), Lower(f))
  }

  /** The `found_family` loop; without families every URL is kept. */
  method KeepForFamilies(url: string, families: seq<string>) returns (keep: bool)
    ensures keep <==> families == [] || NamesFamily(url, families)
  {
    if families == [] {
      return true;
    }
    var found := false;
    for k := 0 to |families|
      invariant !found
      invariant forall j :: 0 <= j < k ==> !Contains(Lower(url), Lower(families[j]))
    {
      if IndexOf(Lower(url), Lower(families[k])).Some? {
        found := true;
        break;
      }
    }
    keep := found;
  }

  // ---------------------------------------------------------------------
  // Artifact strategies and URL rebuilding (check_file)
  // ---------------------------------------------------------------------

  /** A URL that one of the two strategies recognises, split into its parts. */
  datatype Artifact =
    | BootBinaries(version: string, suffix: string)
    | CdtFile(directory: string, file: string)

  /** `head` followed by the version pattern, `/`, and the rest of the line: the version directory and the rest. */
  function MatchBootUnder(head: string, url: string): Option<Artifact> {
    if !StartsWith(url, head) then None
    else
      var rest := url[|head|..];
      match VersionMatchLen(rest)
      case None => None
      case Some(n) =>
        if n < |rest| && rest[n] == '/' then
          Some(BootBinaries(rest[..n], FirstLine(rest[n + 1..])))
        else None
  }

  /** BOOT_BINARIES_PATTERN matched at the start of `url` (`re.match`). */
  function MatchBoot(url: string): Option<Artifact> {
    MatchBootUnder(BootBase + "/", url)
  }

  /**
   * `head` followed by any text, `/cdt/` and the rest of the line, the first
   * part as long as possible: the directory up to the last `/cdt/` of the
   * first line that begins after `head`, and the file name after it.
   */
  function MatchCdtUnder(head: string, url: string): Option<Artifact> {
    if !StartsWith(url, head) then None
    else
      var line := FirstLine(url);
      match LastIndexOf(line, CdtMarker)
      case None => None
      case Some(j) =>
        if j >= |head| then
          Some(CdtFile(line[..j + |CdtMarker|], line[j + |CdtMarker|..]))
        else None
  }

  /** CDT_PATTERN matched at the start of `url`; its group 2 is `Qualcomm_Linux/` and a greedy `.*`. */
  function MatchCdt(url: string): Option<Artifact> {
    MatchCdtUnder(CdtBase + "/" + CdtTree, url)
  }

  /** A boot match splits off a full version name and a one-line rest. */
  lemma BootMatchParts(head: string, url: string)
    requires MatchBootUnder(head, url).Some?
    ensures var a := MatchBootUnder(head, url).value;
      a.BootBinaries? && '\n' !in a.suffix && VersionMatchLen(a.version) == Some(|a.version|)
  {
    var rest := url[|head|..];
    VersionMatchPrefix(rest, VersionMatchLen(rest).value);
  }

  /** A CDT match splits into a directory under `head` and a one-line file name. */
  lemma CdtMatchParts(head: string, url: string)
    requires MatchCdtUnder(head, url).Some?
    ensures var a := MatchCdtUnder(head, url).value;
      a.CdtFile? && '\n' !in a.file && StartsWith(a.directory, head)
  {
    var line := FirstLine(url);
    assert line[..|head|] == url[..|head|];
  }

  /** `_make_boot_url(base, suf, new_ver)`. */
  function MakeBootUrl(base: string, suf: string, newVersion: string): string {
    base + "/" + newVersion + "/" + suf
  }

  /** `_make_cdt_url(dir_url, new_file)`. */
  function MakeCdtUrl(directory: string, newFile: string): string {
    directory + newFile
  }

  /** The item `check_file` compares against the listing's latest. */
  function Current(a: Artifact): string {
    match a
    case BootBinaries(version, _) => version
    case CdtFile(_, file) => file
  }

  /** The directory listing that is searched for newer items. */
  function ListingUrl(a: Artifact): string {
    match a
    case BootBinaries(_, _) => BootBase + "/"
    case CdtFile(directory, _) => directory
  }

  /** The strategy's `construct_new_url`. */
  function NewUrl(a: Artifact, item: string): string {
    match a
    case BootBinaries(_, suffix) => MakeBootUrl(BootBase, suffix, item)
    case CdtFile(directory, _) => MakeCdtUrl(directory, item)
  }

  /**
   * The match of the version pattern depends only on the matched text and on the
   * next character not being a digit.
   */
  lemma VersionMatchTransfers(s: string, t: string, n: nat)
    requires VersionMatchLen(s) == Some(n) && n <= |t| && t[..n] == s[..n]
    requires n < |t| ==> !IsDigit(t[n])
    ensures VersionMatchLen(t) == Some(n)
  {
    var i1 := RunThen(s, 1, '.').value;
    var i2 := RunThen(s, i1, '_').value;
    var i3 := RunThen(s, i2, '.').value;
    assert forall k :: 0 <= k < n ==> t[k] == s[..n][k];
    RunThenTransfers(s, t, 1, '.', n);
    RunThenTransfers(s, t, i1, '_', n);
    RunThenTransfers(s, t, i2, '.', n);
    RunEndUnique(t, i3, n);
  }

  /** A digit run and its separator read the same in any text agreeing on them. */
  lemma RunThenTransfers(s: string, t: string, i: nat, sep: char, n: nat)
    requires i <= |s| && RunThen(s, i, sep).Some? && RunThen(s, i, sep).value <= n <= |s| && n <= |t|
    requires forall k :: 0 <= k < n ==> t[k] == s[k]
    ensures RunThen(t, i, sep) == RunThen(s, i, sep)
  {
    var r := RunThen(s, i, sep).value - 1;
    RunEndUnique(t, i, r);
  }

  /** Whatever a prefix match of the version pattern matches, matches on its own. */
  lemma VersionMatchPrefix(s: string, n: nat)
    requires VersionMatchLen(s) == Some(n)
    ensures VersionMatchLen(s[..n]) == Some(n)
  {
    VersionMatchTransfers(s, s[..n], n);
  }

  /** The digit run is determined by where it stops. */
  lemma RunEndUnique(s: string, i: nat, r: nat)
    requires i <= r <= |s|
    requires forall k :: i <= k < r ==> IsDigit(s[k])
    requires r < |s| ==> !IsDigit(s[r])
    ensures RunEnd(s, i) == r
  {
  }

  /** Rebuilding a boot URL with its own version gives back the URL (one line). */
  lemma RebuildBootUrl(url: string)
    requires MatchBoot(url).Some? && '\n' !in url
    ensures MakeBootUrl(BootBase, MatchBoot(url).value.suffix, MatchBoot(url).value.version) == url
  {
    var head := BootBase + "/";
    var rest := url[|head|..];
    var n := VersionMatchLen(rest).value;
    Reassemble(url, head, n);
  }

  lemma Reassemble(url: string, head: string, n: nat)
    requires StartsWith(url, head) && |head| + n < |url| && url[|head| + n] == '/'
    ensures url == head + url[|head|..][..n] + "/" + url[|head|..][n + 1..]
  {
    var rest := url[|head|..];
    assert url == url[..|head|] + rest;
    assert rest == rest[..n] + [rest[n]] + rest[n + 1..];
  }

  /** Rebuilding a CDT URL with its own file name gives back the URL (one line). */
  lemma RebuildCdtUrl(url: string)
    requires MatchCdt(url).Some? && '\n' !in url
    ensures MakeCdtUrl(MatchCdt(url).value.directory, MatchCdt(url).value.file) == url
  {
  }

  /** A full match of the version pattern stays the match when a non-digit follows. */
  lemma VersionMatchExtends(version: string, t: string)
    requires VersionMatchLen(version) == Some(|version|) && t != [] && !IsDigit(t[0])
    ensures VersionMatchLen(version + t) == Some(|version|)
  {
    var s := version + t;
    assert s[..|version|] == version[..|version|];
    assert s[|version|] == t[0];
    VersionMatchTransfers(version, s, |version|);
  }

  lemma BootUnderRematches(head: string, suffix: string, version: string)
    requires VersionMatchLen(version) == Some(|version|) && '\n' !in suffix
    ensures MatchBootUnder(head, head + version + "/" + suffix) == Some(BootBinaries(version, suffix))
  {
    var rest := version + ("/" + suffix);
    var url := head + rest;
    assert head + version + "/" + suffix == url;
    assert StartsWith(url, head) && url[|head|..] == rest;
    VersionMatchExtends(version, "/" + suffix);
    var n := |version|;
    assert rest[..n] == version && rest[n] == '/';
    assert rest[n + 1..] == suffix;
    assert FirstLine(suffix) == suffix;
    assert MatchBootUnder(head, url) == Some(BootBinaries(rest[..n], FirstLine(rest[n + 1..])));
  }

  /** A boot URL rebuilt with a full version name is a boot URL for that version. */
  lemma BootUrlRematches(suffix: string, version: string)
    requires VersionMatchLen(version) == Some(|version|) && '\n' !in suffix
    ensures MatchBoot(MakeBootUrl(BootBase, suffix, version)) == Some(BootBinaries(version, suffix))
  {
    BootUnderRematches(BootBase + "/", suffix, version);
  }

  /** After a marker followed only by slash-free text, no later marker starts. */
  lemma NoMarkerAfter(u: string, j: nat, k: int)
    requires j + 5 <= |u| && u[j..j + 5] == CdtMarker && '/' !in u[j + 5..] && j < k
    ensures !OccursAt(u, CdtMarker, k)
  {
    if k + 5 <= |u| {
      if k + 1 < j + 5 {
        assert u[k] == u[j..j + 5][k - j];
        assert u[k..k + 5][0] == u[k];
      } else {
        assert u[k + 4] == u[j + 5..][k + 4 - (j + 5)];
        assert u[k..k + 5][4] == u[k + 4];
      }
    }
  }

  /** The marker ending a directory is the last one once a plain file name follows. */
  lemma MarkerIsLast(d: string, newFile: string)
    requires |d| >= 5 && d[|d| - 5..] == CdtMarker && '/' !in newFile
    ensures LastIndexOf(d + newFile, CdtMarker) == Some(|d| - 5)
  {
    var u := d + newFile;
    var j := |d| - 5;
    assert u[j..j + 5] == d[j..];
    assert u[j + 5..] == newFile;
    assert OccursAt(u, CdtMarker, j);
    forall k | j < k
      ensures !OccursAt(u, CdtMarker, k)
    {
      NoMarkerAfter(u, j, k);
    }
  }

  lemma CdtUnderRematches(head: string, url: string, newFile: string)
    requires MatchCdtUnder(head, url).Some? && '/' !in newFile && '\n' !in newFile
    ensures var d := MatchCdtUnder(head, url).value.directory;
      MatchCdtUnder(head, MakeCdtUrl(d, newFile)) == Some(CdtFile(d, newFile))
  {
    CdtMatchParts(head, url);
    var d := MatchCdtUnder(head, url).value.directory;
    var line := FirstLine(url);
    var j := LastIndexOf(line, CdtMarker).value;
    var u := MakeCdtUrl(d, newFile);
    assert d == line[..j + 5] && |d| == j + 5;
    assert d[j..] == CdtMarker;
    MarkerIsLast(d, newFile);
    assert u[..|head|] == head;
    assert '\n' !in u;
    assert FirstLine(u) == u;
    assert u[..j + 5] == d && u[j + 5..] == newFile;
  }

  /** A CDT URL rebuilt with a plain file name is a CDT URL for that file in the same directory. */
  lemma CdtUrlRematches(url: string, newFile: string)
    requires MatchCdt(url).Some? && '/' !in newFile && '\n' !in newFile
    ensures var d := MatchCdt(url).value.directory;
      MatchCdt(MakeCdtUrl(d, newFile)) == Some(CdtFile(d, newFile))
  {
    CdtUnderRematches(CdtBase + "/" + CdtTree, url, newFile);
  }

  /** No URL is both a boot-binary URL and a CDT URL: the two hosts differ. */
  lemma ArtifactKindsExclusive(url: string)
    ensures !(MatchBoot(url).Some? && MatchCdt(url).Some?)
  {
    assert (BootBase + "/")[8] != (CdtBase + "/" + CdtTree)[8];
  }

  /** The strategy chosen for a URL: the boot check first, then the CDT check, which wins. */
  function Strategy(url: string, checkBoot: bool, checkCdt: bool): Option<Artifact> {
    var boot := if checkBoot then MatchBoot(url) else None;
    if checkCdt && MatchCdt(url).Some? then MatchCdt(url) else boot
  }

  /**
   * No strategy exactly when no enabled pattern matches; otherwise the
   * strategy is the enabled pattern's match, of the matching kind.
   */
  lemma StrategyChoice(url: string, checkBoot: bool, checkCdt: bool)
    ensures var r := Strategy(url, checkBoot, checkCdt);
      && (r.None? <==> (!checkBoot || MatchBoot(url).None?) && (!checkCdt || MatchCdt(url).None?))
      && (r.Some? && r.value.BootBinaries? ==> checkBoot && r == MatchBoot(url))
      && (r.Some? && r.value.CdtFile? ==> checkCdt && r == MatchCdt(url))
  {
    if MatchBoot(url).Some? {
      BootMatchParts(BootBase + "/", url);
    }
    if MatchCdt(url).Some? {
      CdtMatchParts(CdtBase + "/" + CdtTree, url);
    }
  }

  // ---------------------------------------------------------------------
  // Checking a recipe file (check_file)
  // ---------------------------------------------------------------------

  /**
   * The arguments of `check_file`. An empty `families` list stands for no
   * `--silicons`, an empty `targetRev` for no `--boot-binaries-rev` (both are
   * falsy in the script).
   */
  datatype Options = Options(checkBoot: bool, checkCdt: bool, families: seq<string>, targetRev: string)

  /** What `check_file` reports for one line. `SortFailure` is the TypeError that ends the run. */
  datatype Outcome =
    | Skipped
    | UpToDate(url: string, current: string)
    | NewVersion(url: string, current: string, latest: string, newUrl: string)
    | SortFailure

  /** The latest item for an artifact: the target revision for boot binaries, if one is given, else the listing's. */
  function LatestFor(a: Artifact, opts: Options, listing: string -> seq<string>): Latest {
    if a.BootBinaries? && opts.targetRev != "" then Found(opts.targetRev)
    else LatestOf(listing(ListingUrl(a)), a.BootBinaries?, a.BootBinaries?)
  }

  /** The report for an artifact at `url`, given the latest item found for it. */
  function Report(url: string, a: Artifact, latest: Latest): Outcome {
    match latest
    case Uncomparable => SortFailure
    case NoItems => UpToDate(url, Current(a))
    case Found(x) =>
      if x != "" && x != Current(a) then NewVersion(url, Current(a), x, NewUrl(a, x))
      else UpToDate(url, Current(a))
  }

  /** One iteration of the loop of `check_file`. */
  function LineOutcome(line: string, opts: Options, listing: string -> seq<string>): Outcome {
    match ExtractUrl(line)
    case None => Skipped
    case Some(url) =>
      if opts.families != [] && !NamesFamily(url, opts.families) then Skipped
      else match Strategy(url, opts.checkBoot, opts.checkCdt)
        case None => Skipped
        case Some(a) => Report(url, a, LatestFor(a, opts, listing))
  }

  /** The latest item for an artifact, looked up as the strategy says. */
  method LatestForArtifact(a: Artifact, opts: Options, listing: string -> seq<string>) returns (latest: Latest)
    ensures latest == LatestFor(a, opts, listing)
  {
    if a.BootBinaries? && opts.targetRev != "" {
      latest := Found(opts.targetRev);
    } else {
      latest := LatestItem(listing(ListingUrl(a)), a.BootBinaries?, a.BootBinaries?);
    }
  }

  /** One iteration of the loop of `check_file`: the report for one line. */
  method CheckLine(line: string, opts: Options, listing: string -> seq<string>) returns (o: Outcome)
    ensures o == LineOutcome(line, opts, listing)
  {
    var url := ExtractUrl(line);
    if url.None? {
      return Skipped;
    }
    var keep := KeepForFamilies(url.value, opts.families);
    if !keep {
      return Skipped;
    }
    var strategy := Strategy(url.value, opts.checkBoot, opts.checkCdt);
    if strategy.None? {
      return Skipped;
    }
    var a := strategy.value;
    var latest := LatestForArtifact(a, opts, listing);
    if latest.Uncomparable? {
      o := SortFailure;
    } else if latest.Found? && latest.item != "" && latest.item != Current(a) {
      o := NewVersion(url.value, Current(a), latest.item, NewUrl(a, latest.item));
    } else {
      o := UpToDate(url.value, Current(a));
    }
  }

  /** The report each line would get on its own. */
  function LineOutcomes(lines: seq<string>, opts: Options, listing: string -> seq<string>): (r: seq<Outcome>)
    ensures |r| == |lines|
  {
    if lines == [] then []
    else LineOutcomes(lines[..|lines| - 1], opts, listing) + [LineOutcome(lines[|lines| - 1], opts, listing)]
  }

  lemma {:induction false} LineOutcomesAt(lines: seq<string>, opts: Options, listing: string -> seq<string>, k: nat)
    requires k < |lines|
    ensures LineOutcomes(lines, opts, listing)[k] == LineOutcome(lines[k], opts, listing)
  {
    var n := |lines| - 1;
    var init := LineOutcomes(lines[..n], opts, listing);
    assert LineOutcomes(lines, opts, listing) == init + [LineOutcome(lines[n], opts, listing)];
    if k < n {
      LineOutcomesAt(lines[..n], opts, listing, k);
      assert lines[..n][k] == lines[k];
    }
  }

  lemma LineOutcomesSnoc(lines: seq<string>, i: nat, opts: Options, listing: string -> seq<string>)
    requires i < |lines|
    ensures LineOutcomes(lines[..i + 1], opts, listing) == LineOutcomes(lines[..i], opts, listing) + [LineOutcome(lines[i], opts, listing)]
  {
    var prefix := lines[..i + 1];
    assert prefix[..i] == lines[..i] && prefix[i] == lines[i];
  }

  /**
   * `check_file` on the lines of the recipe: the reports of the lines in
   * order, up to the first sort that fails; its TypeError ends the run.
   */
  method CheckFile(lines: seq<string>, opts: Options, listing: string -> seq<string>) returns (outcomes: seq<Outcome>)
    ensures |outcomes| <= |lines| && outcomes == LineOutcomes(lines[..|outcomes|], opts, listing)
    ensures forall k :: 0 <= k < |outcomes| - 1 ==> outcomes[k] != SortFailure
    ensures |outcomes| < |lines| ==> outcomes != [] && outcomes[|outcomes| - 1] == SortFailure
  {
    outcomes := [];
    for i := 0 to |lines|
      invariant |outcomes| == i
      invariant outcomes == LineOutcomes(lines[..i], opts, listing)
      invariant forall k :: 0 <= k < i ==> outcomes[k] != SortFailure
    {
      var o := CheckLine(lines[i], opts, listing);
      LineOutcomesSnoc(lines, i, opts, listing);
      outcomes := outcomes + [o];
      if o == SortFailure {
        return;
      }
    }
    assert lines[..|lines|] == lines;
  }

  /**
   * A new version is reported exactly when the latest item exists, is not
   * empty and differs from the current one; its URL is the current URL with
   * the latest item in place of the current one.
   */
  lemma NewVersionIff(url: string, a: Artifact, latest: Latest)
    requires '\n' !in url && (MatchBoot(url) == Some(a) || MatchCdt(url) == Some(a))
    ensures Report(url, a, latest).NewVersion? <==> latest.Found? && latest.item != "" && latest.item != Current(a)
    ensures Report(url, a, latest).NewVersion? ==>
      && Report(url, a, latest).newUrl == NewUrl(a, latest.item)
      && url == NewUrl(a, Current(a))
      && Report(url, a, latest).newUrl != url
  {
    if MatchBoot(url) == Some(a) {
      RebuildBootUrl(url);
    } else {
      RebuildCdtUrl(url);
    }
    if Report(url, a, latest).NewVersion? {
      NewUrlInjective(a, latest.item, Current(a));
    }
  }

  /** Different items give different URLs. */
  lemma NewUrlInjective(a: Artifact, x: string, y: string)
    requires x != y
    ensures NewUrl(a, x) != NewUrl(a, y)
  {
    match a
    case BootBinaries(_, suffix) =>
      var h := |BootBase| + 1;
      if |x| == |y| {
        assert NewUrl(a, x)[h..h + |x|] == x;
        assert NewUrl(a, y)[h..h + |y|] == y;
      }
    case CdtFile(directory, _) =>
      assert NewUrl(a, x)[|directory|..] == x;
      assert NewUrl(a, y)[|directory|..] == y;
  }

  /** A target revision replaces the listing for boot binaries: the listing is never consulted. */
  lemma TargetRevisionIgnoresListing(line: string, opts: Options, listing1: string -> seq<string>, listing2: string -> seq<string>)
    requires opts.targetRev != "" && !opts.checkCdt
    ensures LineOutcome(line, opts, listing1) == LineOutcome(line, opts, listing2)
    ensures LineOutcome(line, opts, listing1) != SortFailure
  {
  }

  /** The target revision never affects CDT artifacts. */
  lemma TargetRevisionOnlyForBoot(url: string, opts: Options, rev: string, listing: string -> seq<string>)
    requires MatchCdt(url).Some?
    ensures LatestFor(MatchCdt(url).value, opts, listing) == LatestFor(MatchCdt(url).value, opts.(targetRev := rev), listing)
  {
  }

  /** The files a CDT directory lists are plain strings, so a CDT check never fails to sort. */
  lemma CdtNeverFailsToSort(url: string, opts: Options, listing: string -> seq<string>)
    requires MatchCdt(url).Some?
    ensures LatestFor(MatchCdt(url).value, opts, listing) != Uncomparable
  {
    PlainSortNeverFails(listing(ListingUrl(MatchCdt(url).value)), false);
  }

  // ---------------------------------------------------------------------
  // Flag defaulting (__main__)
  // ---------------------------------------------------------------------

  /**
   * Which artifact kinds are checked, from `--boot-binaries`, `--cdt` and
   * `--silicons`: (check boot binaries, check CDT).
   */
  function DefaultFlags(bootFlag: bool, cdtFlag: bool, silicons: seq<string>): (r: (bool, bool))
    ensures r.0 <==> bootFlag || silicons != [] || !cdtFlag
    ensures r.1 <==> cdtFlag || (!bootFlag && silicons == [])
    ensures r.0 || r.1
  {
    var checkBoot := bootFlag || silicons != [];
    if !checkBoot && !cdtFlag then (true, true) else (checkBoot, cdtFlag)
  }
}
