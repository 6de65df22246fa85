/**
 * How `get-debian-linux-config.py` finds the kernel configuration of a
 * Debian `linux-image` package: the apt options that isolate apt in a private
 * root, the kernel package named by `apt-cache depends`, the downloaded
 * `.deb` file, the `./boot/config-*` entry of its file listing, and the
 * output path. What apt, dpkg-deb and tar print, and the directory listing
 * after the download, are inputs.
 */
module KernelConfig {
  import opened Wrappers
  import opened Text

  const Arch := "arm64"

  /** The `--package` default. */
  const DefaultPackage := "linux-image-" + Arch

  // ---------------------------------------------------------------------
  // apt_env_options
  // ---------------------------------------------------------------------

  /** The apt configuration items, in the order they are passed. */
  function AptSettings(root: string, arch: string): seq<string> {
    ["Dir=" + root, "APT::Architecture=" + arch, "Acquire::Languages=none", "Debug::NoLocking=false"]
  }

  /** `apt_env_options`: each setting preceded by `-o`. */
  method AptEnvOptions(root: string, arch: string) returns (result: seq<string>)
    ensures |result| == 2 * |AptSettings(root, arch)|
    ensures forall k :: 0 <= k < |AptSettings(root, arch)| ==>
      result[2 * k] == "-o" && result[2 * k + 1] == AptSettings(root, arch)[k]
    ensures result == ["-o", "Dir=" + root, "-o", "APT::Architecture=" + arch,
                       "-o", "Acquire::Languages=none", "-o", "Debug::NoLocking=false"]
  {
    var options := AptSettings(root, arch);
    result := [];
    for i := 0 to |options|
      invariant |result| == 2 * i
      invariant forall k :: 0 <= k < i ==> result[2 * k] == "-o" && result[2 * k + 1] == options[k]
    {
      result := result + ["-o", options[i]];
    }
    var expected := ["-o", options[0], "-o", options[1], "-o", options[2], "-o", options[3]];
    forall k | 0 <= k < 8 ensures result[k] == expected[k] {
      var h := k / 2;
      assert result[2 * h] == "-o" && result[2 * h + 1] == options[h];
    }
  }

  // ---------------------------------------------------------------------
  // resolve_versioned_kernel_pkg
  // ---------------------------------------------------------------------

  const DependsKey := "Depends:"
  const ImagePrefix := "linux-image-"
  const Unsigned := "-unsigned-"

  /**
   * The group captured by `^\s*<key>\s+(<prefix>\S+)` matched at the start of
   * `line`, if it matches. Since `key` and `prefix` start with a non-space,
   * each greedy run is the only one the matcher can use.
   */
  function Capture(line: string, key: string, prefix: string): Option<string> {
    var i := SpanEnd(line, 0, IsSpace);
    if !OccursAt(line, key, i) then None
    else
      var j := i + |key|;
      var k := SpanEnd(line, j, IsSpace);
      if k == j || !OccursAt(line, prefix, k) then None
      else
        var m := SpanEnd(line, k + |prefix|, IsNonSpace);
        if m == k + |prefix| then None else Some(line[k..m])
  }

  /** The package named by a line of `apt-cache depends` output, by `^\s*Depends:\s+(linux-image-\S+)`. */
  function DependsTarget(line: string): Option<string> {
    Capture(line, DependsKey, ImagePrefix)
  }

  /**
   * The pattern matches `line` with the key at `i`, the prefix at `k` and
   * the captured group ending at `m`: whitespace before `i`, at least one
   * whitespace between the key and `k`, and a non-empty run of non-space
   * after the prefix that stops at whitespace or at the end of the line.
   */
  predicate MatchesAt(line: string, key: string, prefix: string, i: nat, k: nat, m: nat) {
    && (forall t :: 0 <= t < i <= |line| ==> IsSpace(line[t]))
    && OccursAt(line, key, i)
    && i + |key| < k
    && (forall t :: i + |key| <= t < k <= |line| ==> IsSpace(line[t]))
    && OccursAt(line, prefix, k)
    && k + |prefix| < m <= |line|
    && (forall t :: k + |prefix| <= t < m ==> !IsSpace(line[t]))
    && (m < |line| ==> IsSpace(line[m]))
  }

  lemma CaptureOfMatch(line: string, key: string, prefix: string, i: nat, k: nat, m: nat)
    requires key != [] && !IsSpace(key[0]) && prefix != [] && !IsSpace(prefix[0])
    requires MatchesAt(line, key, prefix, i, k, m)
    ensures Capture(line, key, prefix) == Some(line[k..m])
  {
    assert SpanEnd(line, 0, IsSpace) == i by {
      assert line[i] == key[0];
      SpanEndAt(line, 0, IsSpace, i);
    }
    assert SpanEnd(line, i + |key|, IsSpace) == k by {
      assert line[k] == prefix[0];
      SpanEndAt(line, i + |key|, IsSpace, k);
    }
    assert SpanEnd(line, k + |prefix|, IsNonSpace) == m by {
      SpanEndAt(line, k + |prefix|, IsNonSpace, m);
    }
    CaptureOfSpans(line, key, prefix, i, k, m);
  }

  lemma CaptureOfSpans(line: string, key: string, prefix: string, i: nat, k: nat, m: nat)
    requires i + |key| < k <= |line| && k + |prefix| < m <= |line|
    requires SpanEnd(line, 0, IsSpace) == i && OccursAt(line, key, i)
    requires SpanEnd(line, i + |key|, IsSpace) == k && OccursAt(line, prefix, k)
    requires SpanEnd(line, k + |prefix|, IsNonSpace) == m
    ensures Capture(line, key, prefix) == Some(line[k..m])
  {
  }

  lemma MatchOfCapture(line: string, key: string, prefix: string) returns (i: nat, k: nat, m: nat)
    requires Capture(line, key, prefix).Some?
    ensures MatchesAt(line, key, prefix, i, k, m)
    ensures Capture(line, key, prefix) == Some(line[k..m])
  {
    i := SpanEnd(line, 0, IsSpace);
    k := SpanEnd(line, i + |key|, IsSpace);
    m := SpanEnd(line, k + |prefix|, IsNonSpace);
  }

  /**
   * A line yields a package exactly when the pattern matches it; the
   * package is the text from `linux-image-` to the end of the run of
   * non-space that follows.
   */
  lemma DependsLineMatches(line: string, i: nat, k: nat, m: nat)
    requires MatchesAt(line, DependsKey, ImagePrefix, i, k, m)
    ensures DependsTarget(line) == Some(line[k..m])
  {
    CaptureOfMatch(line, DependsKey, ImagePrefix, i, k, m);
  }

  lemma DependsTargetShape(line: string) returns (i: nat, k: nat, m: nat)
    requires DependsTarget(line).Some?
    ensures MatchesAt(line, DependsKey, ImagePrefix, i, k, m)
    ensures DependsTarget(line) == Some(line[k..m])
  {
    i, k, m := MatchOfCapture(line, DependsKey, ImagePrefix);
  }

  /** `[f(x) for x in xs if f(x)]` for a partial map `f`. */
  function FilterMap(xs: seq<string>, f: string -> Option<string>): seq<string> {
    if xs == [] then []
    else (match f(xs[0]) case Some(t) => [t] case None => []) + FilterMap(xs[1..], f)
  }

  lemma {:induction false} FilterMapOfJoin(a: seq<string>, b: seq<string>, f: string -> Option<string>)
    ensures FilterMap(a + b, f) == FilterMap(a, f) + FilterMap(b, f)
  {
    if a != [] {
      FilterMapOfJoin(a[1..], b, f);
      assert (a + b)[1..] == a[1..] + b;
    } else {
      assert a + b == b;
    }
  }

  lemma {:induction false} FilterMapFrom(xs: seq<string>, f: string -> Option<string>)
    ensures forall t <- FilterMap(xs, f) :: exists x <- xs :: f(x) == Some(t)
    ensures forall x <- xs :: f(x).Some? ==> f(x).value in FilterMap(xs, f)
  {
    if xs != [] {
      FilterMapFrom(xs[1..], f);
      assert forall x <- xs[1..] :: x in xs;
      assert forall x <- xs :: x == xs[0] || x in xs[1..];
    }
  }

  /** The captured package names of the lines of `apt-cache depends` output, in order. */
  function Candidates(lines: seq<string>): seq<string> {
    FilterMap(lines, DependsTarget)
  }

  /** Candidates keep the order of the lines they come from. */
  lemma CandidatesOfJoin(a: seq<string>, b: seq<string>)
    ensures Candidates(a + b) == Candidates(a) + Candidates(b)
  {
    FilterMapOfJoin(a, b, DependsTarget);
  }

  /**
   * The candidates are exactly the names the lines yield, and each is a
   * `linux-image-` name without whitespace.
   */
  lemma CandidatesAreImages(lines: seq<string>)
    ensures forall l <- lines :: DependsTarget(l).Some? ==> DependsTarget(l).value in Candidates(lines)
    ensures forall c <- Candidates(lines) ::
      && (exists l <- lines :: DependsTarget(l) == Some(c))
      && StartsWith(c, ImagePrefix) && |c| > |ImagePrefix|
      && forall k :: 0 <= k < |c| ==> !IsSpace(c[k])
  {
    FilterMapFrom(lines, DependsTarget);
    forall c <- Candidates(lines)
      ensures StartsWith(c, ImagePrefix) && |c| > |ImagePrefix| && forall t :: 0 <= t < |c| ==> !IsSpace(c[t])
    {
      var l :| l in lines && DependsTarget(l) == Some(c);
      var i, k, m := DependsTargetShape(l);
      CapturedImage(l, i, k, m);
    }
  }

  lemma CapturedImage(line: string, i: nat, k: nat, m: nat)
    requires MatchesAt(line, DependsKey, ImagePrefix, i, k, m)
    ensures var c := line[k..m];
      StartsWith(c, ImagePrefix) && |c| > |ImagePrefix| && forall t :: 0 <= t < |c| ==> !IsSpace(c[t])
  {
    var c := line[k..m];
    assert c[..|ImagePrefix|] == line[k..k + |ImagePrefix|];
    forall t | 0 <= t < |c| ensures !IsSpace(c[t]) {
      if t < |ImagePrefix| {
        assert c[t] == ImagePrefix[t];
      }
    }
  }

  /** The index of the first element of `xs` satisfying `p`, if any. */
  function FirstWhere(xs: seq<string>, p: string -> bool): (r: Option<nat>)
    ensures r.Some? ==> r.value < |xs| && p(xs[r.value])
    ensures r.Some? ==> forall j :: 0 <= j < r.value ==> !p(xs[j])
    ensures r.None? ==> forall j :: 0 <= j < |xs| ==> !p(xs[j])
  {
    if xs == [] then None
    else if p(xs[0]) then Some(0)
    else match FirstWhere(xs[1..], p)
      case None => None
      case Some(i) => Some(i + 1)
  }

  predicate IsSigned(pkg: string) {
    !Contains(pkg, Unsigned)
  }

  /**
   * `resolve_versioned_kernel_pkg`: the first candidate that is not an
   * `-unsigned-` package, else the first candidate, else the requested name.
   */
  function ResolveKernelPkg(packageName: string, dependsOutput: string): (r: string)
    ensures var cs := Candidates(SplitLines(dependsOutput));
      && (cs == [] ==> r == packageName)
      && (cs != [] ==> r in cs)
      && ((exists c <- cs :: IsSigned(c)) ==>
            IsSigned(r) && exists i :: 0 <= i < |cs| && cs[i] == r && forall j :: 0 <= j < i ==> !IsSigned(cs[j]))
      && (cs != [] && (forall c <- cs :: !IsSigned(c)) ==> r == cs[0])
  {
    var cs := Candidates(SplitLines(dependsOutput));
    if cs == [] then packageName
    else match FirstWhere(cs, IsSigned)
      case Some(i) => cs[i]
      case None => cs[0]
  }

  // ---------------------------------------------------------------------
  // apt_download_pkg: the .deb file
  // ---------------------------------------------------------------------

  predicate EndsWith(s: string, suffix: string) {
    |suffix| <= |s| && s[|s| - |suffix|..] == suffix
  }

  /** The glob `<pkg>_*.deb` on a file name. */
  predicate MatchesVersioned(pkg: string, name: string) {
    |name| >= |pkg| + 5 && StartsWith(name, pkg + "_") && EndsWith(name, ".deb")
  }

  /** The glob `<pkg>*.deb` on a file name. */
  predicate MatchesLoose(pkg: string, name: string) {
    |name| >= |pkg| + 4 && StartsWith(name, pkg) && EndsWith(name, ".deb")
  }

  lemma VersionedIsLoose(pkg: string, name: string)
    requires MatchesVersioned(pkg, name)
    ensures MatchesLoose(pkg, name)
  {
    assert name[..|pkg|] == (pkg + "_")[..|pkg|];
  }

  function Matching(names: seq<string>, p: string -> bool): (r: seq<string>)
    ensures forall x <- r :: x in names && p(x)
    ensures forall x <- names :: p(x) ==> x in r
  {
    if names == [] then []
    else (if p(names[0]) then [names[0]] else []) + Matching(names[1..], p)
  }

  /** The last element of `sorted(xs)`: the greatest in code-point order. */
  function Greatest(xs: seq<string>): string
    requires xs != []
  {
    if |xs| == 1 then xs[0]
    else
      var m := Greatest(xs[1..]);
      if StrLess(m, xs[0]) then xs[0] else m
  }

  lemma {:induction false} GreatestIsMaximum(xs: seq<string>)
    requires xs != []
    ensures Greatest(xs) in xs
    ensures forall x <- xs :: x == Greatest(xs) || StrLess(x, Greatest(xs))
  {
    if |xs| > 1 {
      var tail := xs[1..];
      GreatestIsMaximum(tail);
      var m := Greatest(tail);
      StrLessTotal(m, xs[0]);
      forall x <- xs ensures x == Greatest(xs) || StrLess(x, Greatest(xs)) {
        if x != xs[0] {
          assert x in tail;
          if StrLess(m, xs[0]) && x != m {
            StrLessTransitive(x, m, xs[0]);
          }
        }
      }
    }
  }

  /** The `.deb` that `apt_download_pkg` returns from the download directory's file names; `None` stops the script. */
  function ChooseDeb(pkg: string, names: seq<string>): Option<string> {
    var exact := Matching(names, n => MatchesVersioned(pkg, n));
    if exact != [] then Some(Greatest(exact))
    else
      var loose := Matching(names, n => MatchesLoose(pkg, n));
      if loose != [] then Some(Greatest(loose)) else None
  }

  /**
   * The chosen file is the greatest `<pkg>_*.deb`, or failing that the
   * greatest `<pkg>*.deb`; there is none exactly when no name matches the latter.
   */
  lemma ChooseDebIsGreatestMatch(pkg: string, names: seq<string>)
    ensures ChooseDeb(pkg, names).None? <==> forall n <- names :: !MatchesLoose(pkg, n)
    ensures (exists n <- names :: MatchesVersioned(pkg, n)) ==>
      var d := ChooseDeb(pkg, names).value;
      d in names && MatchesVersioned(pkg, d)
      && forall n <- names :: MatchesVersioned(pkg, n) ==> n == d || StrLess(n, d)
    ensures (forall n <- names :: !MatchesVersioned(pkg, n)) && ChooseDeb(pkg, names).Some? ==>
      var d := ChooseDeb(pkg, names).value;
      d in names && MatchesLoose(pkg, d)
      && forall n <- names :: MatchesLoose(pkg, n) ==> n == d || StrLess(n, d)
  {
    var exact := Matching(names, n => MatchesVersioned(pkg, n));
    var loose := Matching(names, n => MatchesLoose(pkg, n));
    if exact != [] {
      GreatestIsMaximum(exact);
      assert exact[0] in exact;
      VersionedIsLoose(pkg, exact[0]);
    }
    if loose != [] {
      GreatestIsMaximum(loose);
      assert loose[0] in loose;
    }
  }

  // ---------------------------------------------------------------------
  // extract_kernel_config_from_deb: the config path
  // ---------------------------------------------------------------------

  const BootConfigPrefix := "./boot/config-"

  predicate IsBootConfig(path: string) {
    StartsWith(path, BootConfigPrefix)
  }

  /** The stripped lines of a listing. */
  function StrippedLines(listing: string): (r: seq<string>)
    ensures |r| == |SplitLines(listing)|
    ensures forall i :: 0 <= i < |r| ==> r[i] == Strip(SplitLines(listing)[i])
  {
    var lines := SplitLines(listing);
    seq(|lines|, i requires 0 <= i < |lines| => Strip(lines[i]))
  }

  /**
   * The config entry of a `tar -t` listing: the first stripped line starting
   * with `./boot/config-`; `None` stops the script.
   */
  function ConfigPath(listing: string): (r: Option<string>)
    ensures var lines := SplitLines(listing);
      && (r.None? <==> forall i :: 0 <= i < |lines| ==> !IsBootConfig(Strip(lines[i])))
      && (r.Some? ==> exists i :: 0 <= i < |lines| && r.value == Strip(lines[i]) && IsBootConfig(r.value)
                        && forall j :: 0 <= j < i ==> !IsBootConfig(Strip(lines[j])))
  {
    var paths := StrippedLines(listing);
    match FirstWhere(paths, IsBootConfig)
    case Some(i) => Some(paths[i])
    case None => None
  }

  // ---------------------------------------------------------------------
  // The output path (main)
  // ---------------------------------------------------------------------

  /** `--output` when given and non-empty, else `<resolved-pkg>.config` in the working directory. */
  function OutputPath(output: Option<string>, cwd: string, imagePkg: string): string {
    if output.Some? && output.value != "" then output.value
    else JoinPath(cwd, imagePkg + ".config")
  }

  /** The base name of a path ending in a slash-free name after a directory part is that name. */
  lemma {:induction false} BasenameOfName(dir: string, b: string)
    requires dir == [] || dir[|dir| - 1] == '/'
    requires '/' !in b
    ensures Basename(dir + b) == b
    decreases |b|
  {
    var p := dir + b;
    if b == [] {
      assert p == dir;
    } else {
      var b', c := b[..|b| - 1], b[|b| - 1];
      assert c != '/' by {
        assert c in b;
      }
      assert p[..|p| - 1] == dir + b' && p[|p| - 1] == c;
      assert Basename(p) == Basename(dir + b') + [c];
      BasenameOfName(dir, b');
      assert b == b' + [c];
    }
  }

  /**
   * Without `--output`, the configuration is written in the working
   * directory, under the resolved package name with `.config` appended;
   * a `/` is put between the two unless the directory already ends in one.
   */
  lemma DefaultOutputPath(output: Option<string>, cwd: string, imagePkg: string)
    requires output.None? || output.value == ""
    ensures var path, name := OutputPath(output, cwd, imagePkg), imagePkg + ".config";
      && (imagePkg == [] || imagePkg[0] != '/' ==>
            path == (if cwd == [] || cwd[|cwd| - 1] == '/' then cwd + name else cwd + "/" + name))
      && (imagePkg != [] && imagePkg[0] == '/' ==> path == name)
      && ('/' !in imagePkg ==> Basename(path) == name)
  {
    var name := imagePkg + ".config";
    var path := OutputPath(output, cwd, imagePkg);
    assert path == JoinPath(cwd, name);
    ConfigNameShape(imagePkg, name);
    if StartsWith(name, "/") {
      assert path == name;
    } else if cwd == [] || cwd[|cwd| - 1] == '/' {
      assert path == cwd + name;
      if '/' !in imagePkg {
        BasenameOfName(cwd, name);
      }
    } else {
      assert path == cwd + "/" + name;
      if '/' !in imagePkg {
        BasenameOfName(cwd + "/", name);
      }
    }
  }

  /** `<pkg>.config` is absolute exactly when the package name is, and slash-free when it is. */
  lemma ConfigNameShape(pkg: string, name: string)
    requires name == pkg + ".config"
    ensures StartsWith(name, "/") <==> pkg != [] && pkg[0] == '/'
    ensures '/' !in pkg ==> '/' !in name
  {
    assert name[0] == if pkg == [] then '.' else pkg[0];
    assert name[|pkg|..] == ".config";
  }


}
