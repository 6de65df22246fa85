/**
 * How `build-linux-deb.py` prepares a kernel build: the build-dependency
 * check against `dpkg -l`, the `local.config` assembled from configuration
 * fragments, and the `make` command lines. What `dpkg`, `nproc` and the
 * file system report are inputs; the file system is a map from paths to
 * contents, relative to the script's working directory.
 */
module LinuxDebBuild {
  import opened Wrappers
  import opened Text

  const BaseConfig := "defconfig"
  const DebPkgSet := "bindeb-pkg"

  /** The build dependencies, in the order they are checked. */
  const RequiredPackages := [
    "git", "crossbuild-essential-arm64",
    "make", "flex", "bison", "bc", "libdw-dev", "libelf-dev", "libssl-dev", "libssl-dev:arm64",
    "dpkg-dev", "debhelper", "kmod", "python3", "rsync",
    "coreutils"]

  // ---------------------------------------------------------------------
  // check_package_installed
  // ---------------------------------------------------------------------

  /** The start of a `dpkg -l` line for an installed package. */
  function InstalledPrefix(pkg: string): string {
    "ii  " + pkg
  }

  /**
   * Some line of the `dpkg -l` output starts with `ii  ` and the package
   * name; `None` stands for the `SubprocessError` the script catches.
   */
  predicate Installed(pkg: string, dpkgOutput: Option<string>) {
    dpkgOutput.Some? && exists line <- SplitLines(dpkgOutput.value) :: StartsWith(line, InstalledPrefix(pkg))
  }

  method CheckPackageInstalled(pkg: string, dpkgOutput: Option<string>) returns (installed: bool)
    ensures installed <==> Installed(pkg, dpkgOutput)
  {
    if dpkgOutput.None? {
      return false;
    }
    var lines := SplitLines(dpkgOutput.value);
    var i := 0;
    while i < |lines|
      invariant 0 <= i <= |lines|
      invariant forall j :: 0 <= j < i ==> !StartsWith(lines[j], InstalledPrefix(pkg))
    {
      if StartsWith(lines[i], InstalledPrefix(pkg)) {
        return true;
      }
      i := i + 1;
    }
    return false;
  }

  /**
   * The test is a prefix test: a package whose name merely starts with the
   * requested one counts, and so does the architecture-qualified name.
   */
  lemma PrefixNotExact(pkg: string, rest: string)
    requires forall k :: 0 <= k < |pkg| ==> !IsLineBreak(pkg[k])
    ensures Installed(pkg, Some(InstalledPrefix(pkg) + rest))
  {
    var out := InstalledPrefix(pkg) + rest;
    var n := |InstalledPrefix(pkg)|;
    assert out[..n] == InstalledPrefix(pkg);
    FirstLineIsPrefix(out, n);
    var line := SplitLines(out)[0];
    assert line[..n] == out[..n];
    assert line in SplitLines(out);
  }

  lemma FirstLineIsPrefix(s: string, n: nat)
    requires n <= |s| && forall k :: 0 <= k < n ==> !IsLineBreak(s[k])
    ensures s != [] ==> SplitLines(s) != [] && n <= |SplitLines(s)[0]| && SplitLines(s)[0] == s[..|SplitLines(s)[0]|]
  {
    if s != [] {
      assert SplitLines(s)[0] == s[..LineEnd(s)];
    }
  }

  // ---------------------------------------------------------------------
  // check_dependencies
  // ---------------------------------------------------------------------

  /** The packages of `pkgs` not reported installed, in order; `dpkg` gives each one's `dpkg -l` output. */
  function MissingPackages(pkgs: seq<string>, dpkg: string -> Option<string>): seq<string> {
    if pkgs == [] then []
    else
      var last := pkgs[|pkgs| - 1];
      MissingPackages(pkgs[..|pkgs| - 1], dpkg) + (if Installed(last, dpkg(last)) then [] else [last])
  }

  /** A package is missing exactly when it is required and not installed. */
  lemma {:induction false} MissingExactly(pkgs: seq<string>, dpkg: string -> Option<string>)
    ensures forall p :: p in MissingPackages(pkgs, dpkg) <==> p in pkgs && !Installed(p, dpkg(p))
  {
    if pkgs != [] {
      var init := pkgs[..|pkgs| - 1];
      MissingExactly(init, dpkg);
      assert pkgs == init + [pkgs[|pkgs| - 1]];
    }
  }

  /** The missing list keeps the order of the required list. */
  lemma {:induction false} MissingOfJoin(a: seq<string>, b: seq<string>, dpkg: string -> Option<string>)
    ensures MissingPackages(a + b, dpkg) == MissingPackages(a, dpkg) + MissingPackages(b, dpkg)
    decreases |b|
  {
    if b == [] {
      assert a + b == a;
    } else {
      var init := b[..|b| - 1];
      assert (a + b)[..|a + b| - 1] == a + init;
      MissingOfJoin(a, init, dpkg);
    }
  }

  /** `check_dependencies`: the missing packages, and 1 when the script stops on them, else 0. */
  method CheckDependencies(dpkg: string -> Option<string>) returns (missing: seq<string>, status: int)
    ensures missing == MissingPackages(RequiredPackages, dpkg)
    ensures status == (if missing == [] then 0 else 1)
  {
    var packages := RequiredPackages;
    missing := [];
    var i := 0;
    while i < |packages|
      invariant 0 <= i <= |packages|
      invariant missing == MissingPackages(packages[..i], dpkg)
    {
      var pkg := packages[i];
      var installed := CheckPackageInstalled(pkg, dpkg(pkg));
      assert packages[..i + 1][..i] == packages[..i];
      if !installed {
        missing := missing + [pkg];
      }
      i := i + 1;
    }
    assert packages[..i] == packages;
    status := if missing == [] then 0 else 1;
  }

  // ---------------------------------------------------------------------
  // local.config
  // ---------------------------------------------------------------------

  const LocalConfig := "linux/kernel/configs/local.config"

  /** A file's contents, or the empty text when it does not exist (as opening for append creates it). */
  function Contents(files: map<string, string>, path: string): string {
    if path in files then files[path] else ""
  }

  datatype Merge = Merge(files: map<string, string>, ok: bool)

  /**
   * Appending the fragments to `local.config` one after the other; a
   * fragment that cannot be read stops the script (`ok` false) with the
   * earlier ones already appended.
   */
  function MergeFragments(files: map<string, string>, fragments: seq<string>): Merge
    decreases |fragments|
  {
    if fragments == [] then Merge(files, true)
    else if fragments[0] !in files then Merge(files, false)
    else
      var content := files[fragments[0]];
      MergeFragments(files[LocalConfig := Contents(files, LocalConfig) + content], fragments[1..])
  }

  /** The fragments' contents, concatenated in order. */
  function Concatenation(files: map<string, string>, fragments: seq<string>): string
    requires forall f <- fragments :: f in files
  {
    if fragments == [] then "" else files[fragments[0]] + Concatenation(files, fragments[1..])
  }

  lemma {:induction false} ConcatenationIgnores(files: map<string, string>, fragments: seq<string>, path: string, content: string)
    requires forall f <- fragments :: f in files && f != path
    ensures Concatenation(files[path := content], fragments) == Concatenation(files, fragments)
  {
    if fragments != [] {
      ConcatenationIgnores(files, fragments[1..], path, content);
    }
  }

  /**
   * When every fragment exists and none is `local.config` itself, merging
   * appends their concatenation to `local.config` and changes nothing else;
   * otherwise the script stops.
   */
  lemma {:induction false} MergeConcatenates(files: map<string, string>, fragments: seq<string>)
    requires LocalConfig !in fragments
    decreases |fragments|
    ensures var m := MergeFragments(files, fragments);
      && (m.ok <==> forall f <- fragments :: f in files)
      && (m.ok && fragments != [] ==>
            m.files == files[LocalConfig := Contents(files, LocalConfig) + Concatenation(files, fragments)])
      && (fragments == [] ==> m.files == files)
  {
    if fragments != [] && fragments[0] in files {
      var f := fragments[0];
      var next := files[LocalConfig := Contents(files, LocalConfig) + files[f]];
      var rest := fragments[1..];
      MergeConcatenates(next, rest);
      assert forall g <- rest :: g in fragments;
      assert (forall g <- rest :: g in next) <==> (forall g <- rest :: g in files);
      assert MergeFragments(files, fragments) == MergeFragments(next, rest);
      if rest == [] {
        assert MergeFragments(next, rest) == Merge(next, true);
        assert Concatenation(files, fragments) == files[f] + "" == files[f];
      } else if MergeFragments(next, rest).ok {
        ConcatenationIgnores(files, rest, LocalConfig, Contents(files, LocalConfig) + files[f]);
        assert Concatenation(files, fragments) == files[f] + Concatenation(files, rest);
        assert Contents(next, LocalConfig) + Concatenation(next, rest)
          == Contents(files, LocalConfig) + Concatenation(files, fragments);
        assert next[LocalConfig := Contents(next, LocalConfig) + Concatenation(next, rest)]
          == files[LocalConfig := Contents(files, LocalConfig) + Concatenation(files, fragments)];
      }
    }
  }

  /** The script's view of the file system. */
  class Workspace {
    var files: map<string, string>

    constructor(initial: map<string, string>)
      ensures files == initial
    {
      files := initial;
    }

    /** `local_config.unlink()` when it exists. */
    method RemoveLocalConfig()
      modifies this
      ensures files == old(files) - {LocalConfig}
    {
      if LocalConfig in files {
        files := files - {LocalConfig};
      }
    }

    /** Opening `path` for append and writing `content`. */
    method Append(path: string, content: string)
      modifies this
      ensures files == old(files)[path := Contents(old(files), path) + content]
    {
      files := files[path := Contents(files, path) + content];
    }

    /** The fragment loop of `main`. */
    method AppendFragments(fragments: seq<string>) returns (ok: bool)
      modifies this
      ensures Merge(files, ok) == MergeFragments(old(files), fragments)
    {
      var i := 0;
      while i < |fragments|
        invariant 0 <= i <= |fragments|
        invariant MergeFragments(files, fragments[i..]) == MergeFragments(old(files), fragments)
      {
        assert fragments[i..][1..] == fragments[i + 1..];
        if fragments[i] !in files {
          return false;
        }
        var content := files[fragments[i]];
        Append(LocalConfig, content);
        i := i + 1;
      }
      return true;
    }

    /** `local.config` is removed, then rebuilt from the fragments. */
    method PrepareLocalConfig(fragments: seq<string>) returns (ok: bool)
      modifies this
      ensures Merge(files, ok) == MergeFragments(old(files) - {LocalConfig}, fragments)
    {
      RemoveLocalConfig();
      ok := AppendFragments(fragments);
    }
  }

  /**
   * After preparation, `local.config` holds exactly the fragments' contents
   * in argument order, whatever it held before, and exists only when some
   * fragment was given.
   */
  lemma LocalConfigIsFragments(files: map<string, string>, fragments: seq<string>)
    requires LocalConfig !in fragments && forall f <- fragments :: f in files
    ensures var m := MergeFragments(files - {LocalConfig}, fragments);
      && m.ok
      && (LocalConfig in m.files <==> fragments != [])
      && (fragments != [] ==> m.files[LocalConfig] == Concatenation(files, fragments))
      && forall p :: p != LocalConfig ==> (p in m.files <==> p in files) && (p in files ==> m.files[p] == files[p])
  {
    var start := files - {LocalConfig};
    MergeConcatenates(start, fragments);
    if fragments != [] {
      assert forall f <- fragments :: f in start;
      ConcatenationFrom(files, start, fragments);
    }
  }

  lemma {:induction false} ConcatenationFrom(files: map<string, string>, start: map<string, string>, fragments: seq<string>)
    requires forall f <- fragments :: f in files && f in start && start[f] == files[f]
    ensures Concatenation(start, fragments) == Concatenation(files, fragments)
  {
    if fragments != [] {
      ConcatenationFrom(files, start, fragments[1..]);
    }
  }

  // ---------------------------------------------------------------------
  // make commands
  // ---------------------------------------------------------------------

  /** The shared `make` prefix; `nprocOutput` is what `nproc` prints. */
  function MakeBaseCommand(nprocOutput: string): seq<string> {
    ["make", "-j" + Strip(nprocOutput), "ARCH=arm64", "CROSS_COMPILE=aarch64-linux-gnu-", "DEB_HOST_ARCH=arm64"]
  }

  /** The configuration `make` call, with `local.config` appended when the checked file was found. */
  function ConfigCommandOf(nprocOutput: string, localConfigFound: bool): seq<string> {
    MakeBaseCommand(nprocOutput) + [BaseConfig] + (if localConfigFound then ["local.config"] else [])
  }

  /** `local.config` is passed to make exactly when the checked file was found. */
  lemma LocalConfigPassedIff(nprocOutput: string, localConfigFound: bool)
    ensures "local.config" in ConfigCommandOf(nprocOutput, localConfigFound) <==> localConfigFound
  {
    var cmd := ConfigCommandOf(nprocOutput, localConfigFound);
    var jobs := "-j" + Strip(nprocOutput);
    assert jobs[0] == '-' && "local.config"[0] == 'l';
    assert BaseConfig[0] == 'd';
    if localConfigFound {
      assert cmd[|cmd| - 1] == "local.config";
    } else {
      assert cmd == ["make", jobs, "ARCH=arm64", "CROSS_COMPILE=aarch64-linux-gnu-", "DEB_HOST_ARCH=arm64", BaseConfig];
    }
  }

  /** The path `main` checks before passing `local.config` to make, relative to its own directory. */
  const LocalConfigAsChecked := "kernel/configs/local.config"

  /** `config_command` as written: it looks for `local.config` outside the `linux` tree. */
  method ConfigCommandAsWritten(nprocOutput: string, files: map<string, string>) returns (cmd: seq<string>)
    ensures cmd == ConfigCommandOf(nprocOutput, LocalConfigAsChecked in files)
  {
    cmd := MakeBaseCommand(nprocOutput) + [BaseConfig];
    if LocalConfigAsChecked in files {
      cmd := cmd + ["local.config"];
    }
  }

  /**
   * As written, fragments merged into the tree's `local.config` are not
   * passed to make unless an unrelated `kernel/configs/local.config` exists
   * next to the tree: without that file, the config command built from the
   * merged workspace has no `local.config`.
   */
  lemma FragmentsIgnoredAsWritten(nprocOutput: string, files: map<string, string>, fragments: seq<string>)
    requires LocalConfigAsChecked !in files
    requires fragments != [] && LocalConfig !in fragments && forall f <- fragments :: f in files
    ensures var m := MergeFragments(files - {LocalConfig}, fragments);
      && m.ok && LocalConfig in m.files && m.files[LocalConfig] == Concatenation(files, fragments)
      && LocalConfigAsChecked !in m.files
      && "local.config" !in ConfigCommandOf(nprocOutput, LocalConfigAsChecked in m.files)
  {
    LocalConfigIsFragments(files, fragments);
    LocalConfigPassedIff(nprocOutput, false);
  }


  /** `config_command` checking the `local.config` the fragments were written to. */
  method ConfigCommand(nprocOutput: string, files: map<string, string>) returns (cmd: seq<string>)
    ensures cmd == ConfigCommandOf(nprocOutput, LocalConfig in files)
  {
    cmd := MakeBaseCommand(nprocOutput) + [BaseConfig];
    if LocalConfig in files {
      cmd := cmd + ["local.config"];
    }
  }

  function BuildCommand(nprocOutput: string): seq<string> {
    MakeBaseCommand(nprocOutput) + [DebPkgSet]
  }

  /**
   * With the corrected check, `local.config` reaches make exactly when
   * fragments were given; both make invocations share the same prefix and
   * differ only in their targets.
   */
  lemma ConfigCommandUsesFragments(nprocOutput: string, files: map<string, string>, fragments: seq<string>)
    requires LocalConfig !in fragments && forall f <- fragments :: f in files
    ensures var m := MergeFragments(files - {LocalConfig}, fragments);
      var cmd := ConfigCommandOf(nprocOutput, LocalConfig in m.files);
      && (cmd[|cmd| - 1] == "local.config" <==> fragments != [])
      && cmd[..5] == BuildCommand(nprocOutput)[..5]
      && cmd[5] == BaseConfig && BuildCommand(nprocOutput)[5] == DebPkgSet
  {
    LocalConfigIsFragments(files, fragments);
  }

  // ---------------------------------------------------------------------
  // main
  // ---------------------------------------------------------------------

  datatype Plan =
    | Stopped(status: int, missing: seq<string>)
    | Commands(config: seq<string>, build: seq<string>)

  /**
   * `main` after argument parsing and the clone (the cloned tree is part of
   * `ws.files`): stop with status 1 on missing dependencies, leaving the
   * files alone, or on an unreadable fragment; otherwise prepare
   * `local.config` and give the two make commands, the first one built
   * with the check as written (see `FragmentsIgnoredAsWritten`).
   */
  method PrepareBuild(ws: Workspace, fragments: seq<string>, dpkg: string -> Option<string>, nprocOutput: string)
    returns (plan: Plan)
    modifies ws
    ensures MissingPackages(RequiredPackages, dpkg) != [] ==>
      plan == Stopped(1, MissingPackages(RequiredPackages, dpkg)) && ws.files == old(ws.files)
    ensures MissingPackages(RequiredPackages, dpkg) == [] ==>
      && Merge(ws.files, plan.Commands?) == MergeFragments(old(ws.files) - {LocalConfig}, fragments)
      && (plan.Stopped? ==> plan == Stopped(1, []))
      && (plan.Commands? ==>
            && plan.config == ConfigCommandOf(nprocOutput, LocalConfigAsChecked in ws.files)
            && plan.build == BuildCommand(nprocOutput))
  {
    var missing, status := CheckDependencies(dpkg);
    if status != 0 {
      return Stopped(status, missing);
    }
    var ok := ws.PrepareLocalConfig(fragments);
    if !ok {
      return Stopped(1, []);
    }
    var config := ConfigCommandAsWritten(nprocOutput, ws.files);
    plan := Commands(config, BuildCommand(nprocOutput));
  }
}
