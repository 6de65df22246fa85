/**
 * The license summary of a Syft software bill of materials
 * (`syft-license-summary.py`): artifacts are grouped by the source package
 * they were built from, each group collecting binary names, license names,
 * copyright files and a version, and the groups are printed as CSV rows.
 *
 * The JSON document is given as values: a key the document lacks is `None`.
 * Reading a copyright file and hashing it is the parameter `digest`, which
 * answers `None` when the file cannot be read.
 */
module LicenseSummary {
  import opened Wrappers
  import opened Text

  datatype Metadata = Metadata(
    package: Option<string>,
    source: Option<string>,
    version: Option<string>,
    sourceVersion: Option<string>)

  datatype License = License(value: Option<string>)

  datatype Location = Location(path: Option<string>)

  /** An artifact without `metadata`, `licenses` or `locations` has all-`None` metadata or empty lists. */
  datatype Artifact = Artifact(metadata: Metadata, licenses: seq<License>, locations: seq<Location>)

  /** The binary package name; `"unknown"` when absent. */
  function BinaryOf(m: Metadata): string {
    if m.package.Some? then m.package.value else "unknown"
  }

  /** The source package; an absent or empty `source` falls back to the binary name. */
  function SourceOf(m: Metadata): string {
    if m.source.Some? && m.source.value != "" then m.source.value else BinaryOf(m)
  }

  /** `sourceVersion`, falling back to `version` (itself `""` when absent). */
  function SourceVersionOf(m: Metadata): string {
    if m.sourceVersion.Some? && m.sourceVersion.value != "" then m.sourceVersion.value
    else if m.version.Some? then m.version.value
    else ""
  }

  function LicenseName(l: License): string {
    if l.value.Some? then l.value.value else "unknown"
  }

  function PathOf(loc: Location): string {
    if loc.path.Some? then loc.path.value else ""
  }

  predicate IsCopyright(path: string) {
    Contains(path, "copyright")
  }

  // ---------------------------------------------------------------------
  // Grouping (group_by_source_package)
  // ---------------------------------------------------------------------

  /** What the script keeps per source package. */
  datatype Group = Group(
    binaries: set<string>,
    licenses: set<string>,
    copyrights: map<string, string>,
    sourceVersion: Option<string>)

  /** The group a `defaultdict` creates on first access. */
  const NewGroup := Group({}, {}, map[], None)

  /** An insertion-ordered dictionary from source package to group. */
  datatype Grouping = Grouping(order: seq<string>, groups: map<string, Group>)

  function GroupOf(gr: Grouping, source: string): Group {
    if source in gr.groups then gr.groups[source] else NewGroup
  }

  function LicenseNames(ls: seq<License>): set<string> {
    set l | l in ls :: LicenseName(l)
  }

  /** The copyright map after visiting `locs` for `binary`: a later copyright path overwrites. */
  function RecordCopyrights(c: map<string, string>, binary: string, locs: seq<Location>): map<string, string>
    decreases |locs|
  {
    if locs == [] then c
    else
      var before := RecordCopyrights(c, binary, locs[..|locs| - 1]);
      var path := PathOf(locs[|locs| - 1]);
      if IsCopyright(path) then before[binary := path] else before
  }

  /** What one artifact adds to the group of its source package. */
  function Updated(g: Group, a: Artifact): Group {
    var binary := BinaryOf(a.metadata);
    Group(
      g.binaries + {binary},
      g.licenses + LicenseNames(a.licenses),
      RecordCopyrights(g.copyrights, binary, a.locations),
      Some(SourceVersionOf(a.metadata)))
  }

  /** One iteration of the loop over artifacts. */
  function AddArtifact(gr: Grouping, a: Artifact): Grouping {
    var source := SourceOf(a.metadata);
    Grouping(
      if source in gr.groups then gr.order else gr.order + [source],
      gr.groups[source := Updated(GroupOf(gr, source), a)])
  }

  /** The grouping of a list of artifacts, visited in order. */
  function GroupAll(arts: seq<Artifact>): Grouping
    decreases |arts|
  {
    if arts == [] then Grouping([], map[])
    else AddArtifact(GroupAll(arts[..|arts| - 1]), arts[|arts| - 1])
  }

  /** The inner loop over an artifact's licenses. */
  method AddLicenses(known: set<string>, ls: seq<License>) returns (licenses: set<string>)
    ensures licenses == known + LicenseNames(ls)
  {
    licenses := known;
    for j := 0 to |ls|
      invariant licenses == known + LicenseNames(ls[..j])
    {
      licenses := licenses + {LicenseName(ls[j])};
      assert LicenseNames(ls[..j + 1]) == LicenseNames(ls[..j]) + {LicenseName(ls[j])} by {
        assert ls[..j + 1] == ls[..j] + [ls[j]];
      }
    }
    assert ls[..|ls|] == ls;
  }

  /** The inner loop over an artifact's locations. */
  method AddCopyrights(known: map<string, string>, binary: string, locs: seq<Location>)
    returns (copyrights: map<string, string>)
    ensures copyrights == RecordCopyrights(known, binary, locs)
  {
    copyrights := known;
    for j := 0 to |locs|
      invariant copyrights == RecordCopyrights(known, binary, locs[..j])
    {
      var path := PathOf(locs[j]);
      if IsCopyright(path) {
        copyrights := copyrights[binary := path];
      }
      assert locs[..j + 1][..j] == locs[..j];
    }
    assert locs[..|locs|] == locs;
  }

  /** `group_by_source_package`. */
  method GroupBySource(artifacts: seq<Artifact>) returns (grouping: Grouping)
    ensures grouping == GroupAll(artifacts)
  {
    var order: seq<string> := [];
    var groups: map<string, Group> := map[];
    for i := 0 to |artifacts|
      invariant Grouping(order, groups) == GroupAll(artifacts[..i])
    {
      var artifact := artifacts[i];
      var binary := BinaryOf(artifact.metadata);
      var source := SourceOf(artifact.metadata);
      var sourceVersion := SourceVersionOf(artifact.metadata);
      if source !in groups {
        order := order + [source];
        groups := groups[source := NewGroup];
      }
      var g := groups[source];
      var licenses := AddLicenses(g.licenses, artifact.licenses);
      var copyrights := AddCopyrights(g.copyrights, binary, artifact.locations);
      groups := groups[source := Group(g.binaries + {binary}, licenses, copyrights, Some(sourceVersion))];
      assert artifacts[..i + 1][..i] == artifacts[..i];
    }
    assert artifacts[..|artifacts|] == artifacts;
    grouping := Grouping(order, groups);
  }

  // ---------------------------------------------------------------------
  // What the grouping holds
  // ---------------------------------------------------------------------

  /** The source package of each artifact, in input order. */
  function Sources(arts: seq<Artifact>): (r: seq<string>)
    ensures |r| == |arts|
    ensures forall k :: 0 <= k < |arts| ==> r[k] == SourceOf(arts[k].metadata)
  {
    seq(|arts|, k requires 0 <= k < |arts| => SourceOf(arts[k].metadata))
  }

  /** The index of the first occurrence of `x` in `xs`. */
  function FirstIndex(xs: seq<string>, x: string): (r: nat)
    requires x in xs
    ensures r < |xs| && xs[r] == x
    ensures forall k :: 0 <= k < r ==> xs[k] != x
  {
    if xs[0] == x then 0 else 1 + FirstIndex(xs[1..], x)
  }

  predicate Distinct(xs: seq<string>) {
    forall i, j :: 0 <= i < j < |xs| ==> xs[i] != xs[j]
  }

  lemma SourcesSnoc(arts: seq<Artifact>)
    requires arts != []
    ensures Sources(arts) == Sources(arts[..|arts| - 1]) + [SourceOf(arts[|arts| - 1].metadata)]
  {
  }

  /** The order lists the keys of the groups, each once. */
  predicate OrderListsKeys(gr: Grouping) {
    gr.groups.Keys == Elems(gr.order) && Distinct(gr.order)
  }

  lemma AddArtifactKeys(gr: Grouping, a: Artifact)
    requires OrderListsKeys(gr)
    ensures OrderListsKeys(AddArtifact(gr, a))
    ensures Elems(AddArtifact(gr, a).order) == Elems(gr.order) + {SourceOf(a.metadata)}
  {
    var source := SourceOf(a.metadata);
    if source !in gr.groups {
      ElemsSnoc(gr.order, source);
    }
  }

  /** The groups are exactly the source packages of the artifacts, each listed once. */
  lemma {:induction false} GroupKeys(arts: seq<Artifact>)
    ensures OrderListsKeys(GroupAll(arts))
    ensures Elems(GroupAll(arts).order) == Elems(Sources(arts))
    decreases |arts|
  {
    if arts != [] {
      var pre := arts[..|arts| - 1];
      var a := arts[|arts| - 1];
      GroupKeys(pre);
      AddArtifactKeys(GroupAll(pre), a);
      SourcesSnoc(arts);
      ElemsSnoc(Sources(pre), SourceOf(a.metadata));
    }
  }

  /** Every element of `order` occurs in `xs`, and they are listed by first occurrence in `xs`. */
  predicate ByFirstOccurrence(order: seq<string>, xs: seq<string>) {
    && (forall i :: 0 <= i < |order| ==> order[i] in xs)
    && forall i, j :: 0 <= i < j < |order| ==> FirstIndex(xs, order[i]) < FirstIndex(xs, order[j])
  }

  lemma FirstIndexSnoc(xs: seq<string>, y: string)
    ensures forall x <- xs :: FirstIndex(xs + [y], x) == FirstIndex(xs, x)
    ensures y !in xs ==> FirstIndex(xs + [y], y) == |xs|
  {
    forall x <- xs ensures FirstIndex(xs + [y], x) == FirstIndex(xs, x) {
      assert (xs + [y])[FirstIndex(xs, x)] == x;
    }
  }

  lemma AddArtifactOrder(gr: Grouping, a: Artifact, xs: seq<string>)
    requires OrderListsKeys(gr) && Elems(gr.order) == Elems(xs) && ByFirstOccurrence(gr.order, xs)
    ensures ByFirstOccurrence(AddArtifact(gr, a).order, xs + [SourceOf(a.metadata)])
  {
    var source := SourceOf(a.metadata);
    FirstIndexSnoc(xs, source);
    if source !in gr.groups {
      assert source !in xs by {
        assert source !in Elems(xs);
      }
      AppendedLast(gr.order, xs, source);
    } else {
      assert forall i :: 0 <= i < |gr.order| ==> gr.order[i] in xs;
    }
  }

  /** A name absent from `xs` that appears next goes last in an order by first occurrence. */
  lemma AppendedLast(order: seq<string>, xs: seq<string>, source: string)
    requires ByFirstOccurrence(order, xs) && source !in xs
    ensures ByFirstOccurrence(order + [source], xs + [source])
  {
    var ys := xs + [source];
    var o := order + [source];
    FirstIndexSnoc(xs, source);
    forall i, j | 0 <= i < j < |o|
      ensures FirstIndex(ys, o[i]) < FirstIndex(ys, o[j])
    {
      assert o[i] == order[i] && o[i] in xs;
      if j < |order| {
        assert o[j] == order[j];
      }
    }
  }

  /** The groups are listed in the order in which their source packages first appear. */
  lemma {:induction false} GroupOrder(arts: seq<Artifact>)
    ensures ByFirstOccurrence(GroupAll(arts).order, Sources(arts))
    decreases |arts|
  {
    if arts != [] {
      var pre := arts[..|arts| - 1];
      var a := arts[|arts| - 1];
      GroupOrder(pre);
      GroupKeys(pre);
      AddArtifactOrder(GroupAll(pre), a, Sources(pre));
      SourcesSnoc(arts);
    }
  }

  /** The binary names of the artifacts whose source package is `source`. */
  lemma {:induction false} GroupBinaries(arts: seq<Artifact>, source: string)
    ensures GroupOf(GroupAll(arts), source).binaries
         == set a | a in arts && SourceOf(a.metadata) == source :: BinaryOf(a.metadata)
    decreases |arts|
  {
    if arts != [] {
      var pre := arts[..|arts| - 1];
      var a := arts[|arts| - 1];
      GroupBinaries(pre, source);
      assert arts == pre + [a];
    }
  }

  /** The license names of the artifacts whose source package is `source` (`"unknown"` for a license without value). */
  lemma {:induction false} GroupLicenses(arts: seq<Artifact>, source: string)
    ensures GroupOf(GroupAll(arts), source).licenses
         == set a, l | a in arts && SourceOf(a.metadata) == source && l in a.licenses :: LicenseName(l)
    decreases |arts|
  {
    if arts != [] {
      var pre := arts[..|arts| - 1];
      var a := arts[|arts| - 1];
      GroupLicenses(pre, source);
      assert arts == pre + [a];
    }
  }

  /** A source package no artifact has has no version. */
  lemma {:induction false} GroupVersionAbsent(arts: seq<Artifact>, source: string)
    requires forall k :: 0 <= k < |arts| ==> SourceOf(arts[k].metadata) != source
    ensures GroupOf(GroupAll(arts), source).sourceVersion == None
    decreases |arts|
  {
    if arts != [] {
      var pre := arts[..|arts| - 1];
      assert forall k :: 0 <= k < |pre| ==> pre[k] == arts[k];
      GroupVersionAbsent(pre, source);
    }
  }

  /** The version of a group is the source version of the last artifact `k` of that source package. */
  lemma {:induction false} GroupVersion(arts: seq<Artifact>, source: string, k: nat)
    requires k < |arts| && SourceOf(arts[k].metadata) == source
    requires forall m :: k < m < |arts| ==> SourceOf(arts[m].metadata) != source
    ensures GroupOf(GroupAll(arts), source).sourceVersion == Some(SourceVersionOf(arts[k].metadata))
    decreases |arts|
  {
    if k < |arts| - 1 {
      var pre := arts[..|arts| - 1];
      assert forall m :: 0 <= m < |pre| ==> pre[m] == arts[m];
      GroupVersion(pre, source, k);
    }
  }
  /** The copyright paths among `locs`, in order. */
  function CopyrightPaths(locs: seq<Location>): seq<string>
    decreases |locs|
  {
    if locs == [] then []
    else
      var path := PathOf(locs[|locs| - 1]);
      CopyrightPaths(locs[..|locs| - 1]) + (if IsCopyright(path) then [path] else [])
  }

  /** Visiting locations leaves `binary` mapped to the last copyright path among them, if any. */
  lemma {:induction false} RecordedCopyrightIsLast(c: map<string, string>, binary: string, locs: seq<Location>)
    ensures var t := CopyrightPaths(locs);
      RecordCopyrights(c, binary, locs) == if t == [] then c else c[binary := t[|t| - 1]]
    decreases |locs|
  {
    if locs != [] {
      RecordedCopyrightIsLast(c, binary, locs[..|locs| - 1]);
    }
  }

  /** The copyright paths of all artifacts of package `source` named `binary`, in input order. */
  function CopyrightTrail(arts: seq<Artifact>, source: string, binary: string): seq<string>
    decreases |arts|
  {
    if arts == [] then []
    else
      var a := arts[|arts| - 1];
      CopyrightTrail(arts[..|arts| - 1], source, binary)
        + (if SourceOf(a.metadata) == source && BinaryOf(a.metadata) == binary then CopyrightPaths(a.locations) else [])
  }

  /**
   * A binary of a group has a copyright entry exactly when one of its
   * artifacts lists a copyright path, and the entry is the last such path.
   */
  lemma {:induction false} GroupCopyrights(arts: seq<Artifact>, source: string, binary: string)
    ensures var c := GroupOf(GroupAll(arts), source).copyrights;
      var t := CopyrightTrail(arts, source, binary);
      && (binary in c <==> t != [])
      && (t != [] ==> c[binary] == t[|t| - 1])
    decreases |arts|
  {
    if arts != [] {
      var pre := arts[..|arts| - 1];
      var a := arts[|arts| - 1];
      GroupCopyrights(pre, source, binary);
      GroupOfAdd(GroupAll(pre), a, source);
      assert GroupAll(arts) == AddArtifact(GroupAll(pre), a);
      CopyrightsStep(GroupOf(GroupAll(pre), source).copyrights, CopyrightTrail(pre, source, binary), a, source, binary,
        GroupOf(GroupAll(arts), source).copyrights, CopyrightTrail(arts, source, binary));
    }
  }

  /** One artifact keeps the copyright entry of `binary` equal to the last path of its trail. */
  lemma CopyrightsStep(c0: map<string, string>, t0: seq<string>, a: Artifact, source: string, binary: string,
                       c1: map<string, string>, t1: seq<string>)
    requires (binary in c0 <==> t0 != []) && (t0 != [] ==> c0[binary] == t0[|t0| - 1])
    requires c1 == if SourceOf(a.metadata) == source then RecordCopyrights(c0, BinaryOf(a.metadata), a.locations) else c0
    requires t1 == t0 + if SourceOf(a.metadata) == source && BinaryOf(a.metadata) == binary then CopyrightPaths(a.locations) else []
    ensures (binary in c1 <==> t1 != []) && (t1 != [] ==> c1[binary] == t1[|t1| - 1])
  {
    if SourceOf(a.metadata) == source {
      RecordedCopyrightIsLast(c0, BinaryOf(a.metadata), a.locations);
      if BinaryOf(a.metadata) == binary {
        var u := CopyrightPaths(a.locations);
        if u != [] {
          assert t1[|t1| - 1] == u[|u| - 1];
        } else {
          assert t1 == t0;
        }
      } else {
        assert t1 == t0;
      }
    } else {
      assert t1 == t0;
    }
  }

  /** Only the group of the artifact's own source package changes. */
  lemma GroupOfAdd(gr: Grouping, a: Artifact, source: string)
    ensures GroupOf(AddArtifact(gr, a), source)
         == if SourceOf(a.metadata) == source then Updated(GroupOf(gr, source), a) else GroupOf(gr, source)
  {
  }

  /** Adding the same artifact again changes nothing: sets and maps absorb repeats. */
  lemma AddArtifactTwice(gr: Grouping, a: Artifact)
    ensures AddArtifact(AddArtifact(gr, a), a) == AddArtifact(gr, a)
  {
    var source := SourceOf(a.metadata);
    var binary := BinaryOf(a.metadata);
    var g := GroupOf(gr, source);
    var once := RecordCopyrights(g.copyrights, binary, a.locations);
    RecordedCopyrightIsLast(g.copyrights, binary, a.locations);
    RecordedCopyrightIsLast(once, binary, a.locations);
    assert RecordCopyrights(once, binary, a.locations) == once;
  }

  // ---------------------------------------------------------------------
  // The CSV table (print_table)
  // ---------------------------------------------------------------------

  const Header := "source,version,binaries,licenses,copyright_sha256"

  /** The printed version: an absent or empty one is `"unknown"`. */
  function VersionText(v: Option<string>): string {
    if v.None? || v.value == "" then "unknown" else v.value
  }

  /** Where a copyright path is read: under the root filesystem, leading `/` removed. */
  function CopyrightFile(rootfs: string, path: string): string {
    JoinPath(rootfs, TrimLeft(path, IsSlash))
  }

  /** `sha256_of_file`: the digest, or `"unreadable"` when the file cannot be read. */
  function FileHash(digest: string -> Option<string>, file: string): string {
    match digest(file)
    case Some(h) => h
    case None => "unreadable"
  }

  /** The distinct hashes of a group's copyright files. */
  function Hashes(g: Group, rootfs: string, digest: string -> Option<string>): set<string> {
    set p | p in g.copyrights.Values :: FileHash(digest, CopyrightFile(rootfs, p))
  }

  /** The CSV row of one group: its five columns joined by commas (sorted, space-joined binaries, licenses and hashes). */
  ghost function Row(source: string, g: Group, rootfs: string, digest: string -> Option<string>): string {
    Join([source, VersionText(g.sourceVersion), JoinSpace(SortedOf(g.binaries)),
          JoinSpace(SortedOf(g.licenses)), JoinSpace(SortedOf(Hashes(g, rootfs, digest)))], ',')
  }

  /** The loop over a group's copyright paths, collecting hashes in a set. */
  method CollectHashes(g: Group, rootfs: string, digest: string -> Option<string>) returns (hashes: set<string>)
    ensures hashes == Hashes(g, rootfs, digest)
  {
    hashes := {};
    var rest := g.copyrights.Values;
    while rest != {}
      invariant rest <= g.copyrights.Values
      invariant hashes == set p | p in g.copyrights.Values - rest :: FileHash(digest, CopyrightFile(rootfs, p))
      decreases rest
    {
      var path :| path in rest;
      hashes := hashes + {FileHash(digest, CopyrightFile(rootfs, path))};
      rest := rest - {path};
    }
  }

  /** `print_table`: the header, then one row per group in the grouping's order. */
  method RenderTable(grouping: Grouping, rootfs: string, digest: string -> Option<string>) returns (lines: seq<string>)
    requires forall source <- grouping.order :: source in grouping.groups
    ensures |lines| == |grouping.order| + 1 && lines[0] == Header
    ensures forall i :: 0 <= i < |grouping.order| ==>
      lines[i + 1] == Row(grouping.order[i], grouping.groups[grouping.order[i]], rootfs, digest)
  {
    lines := [Header];
    for i := 0 to |grouping.order|
      invariant |lines| == i + 1 && lines[0] == Header
      invariant forall k :: 0 <= k < i ==>
        lines[k + 1] == Row(grouping.order[k], grouping.groups[grouping.order[k]], rootfs, digest)
    {
      var row := RenderRow(grouping.order[i], grouping.groups[grouping.order[i]], rootfs, digest);
      lines := lines + [row];
    }
  }

  /** One row of `print_table`, built from the sorted sets of the group. */
  method RenderRow(source: string, data: Group, rootfs: string, digest: string -> Option<string>) returns (row: string)
    ensures row == Row(source, data, rootfs, digest)
  {
    var binaries := SortSet(data.binaries);
    var licenses := SortSet(data.licenses);
    var version := VersionText(data.sourceVersion);
    var hashes := CollectHashes(data, rootfs, digest);
    var hashSummary := SortSet(hashes);
    row := Join([source, version, JoinSpace(binaries), JoinSpace(licenses), JoinSpace(hashSummary)], ',');
  }

  /** A set's sorted listing joined by spaces holds no comma when none of its elements does. */
  lemma JoinedWithoutComma(s: set<string>)
    requires forall x <- s :: ',' !in x
    ensures ',' !in JoinSpace(SortedOf(s))
  {
    var xs := SortedOf(s);
    assert forall i :: 0 <= i < |xs| ==> xs[i] in Elems(xs);
    JoinSpaceAvoids(xs, ',');
  }

  /**
   * A row splits at its commas into exactly the five columns of the header
   * when no name, version or hash holds a comma (the script does no quoting).
   */
  lemma RowColumns(source: string, g: Group, rootfs: string, digest: string -> Option<string>)
    requires ',' !in source && ',' !in VersionText(g.sourceVersion)
    requires forall x <- g.binaries :: ',' !in x
    requires forall x <- g.licenses :: ',' !in x
    requires forall x <- Hashes(g, rootfs, digest) :: ',' !in x
    ensures Split(Row(source, g, rootfs, digest), ',') == [
      source,
      VersionText(g.sourceVersion),
      JoinSpace(SortedOf(g.binaries)),
      JoinSpace(SortedOf(g.licenses)),
      JoinSpace(SortedOf(Hashes(g, rootfs, digest)))]
  {
    JoinedWithoutComma(g.binaries);
    JoinedWithoutComma(g.licenses);
    JoinedWithoutComma(Hashes(g, rootfs, digest));
    SplitJoin([source, VersionText(g.sourceVersion), JoinSpace(SortedOf(g.binaries)),
      JoinSpace(SortedOf(g.licenses)), JoinSpace(SortedOf(Hashes(g, rootfs, digest)))], ',');
  }

  /**
   * A copyright path is read below the root filesystem even when it is
   * absolute: its leading slashes are dropped before joining.
   */
  lemma CopyrightFileUnderRoot(rootfs: string, path: string)
    ensures var rel := TrimLeft(path, IsSlash);
      && CopyrightFile(rootfs, path)
           == (if rootfs == [] || rootfs[|rootfs| - 1] == '/' then rootfs + rel else rootfs + "/" + rel)
      && (rel == [] || rel[0] != '/')
      && |rel| <= |path| && path == path[..|path| - |rel|] + rel
      && forall i :: 0 <= i < |path| - |rel| ==> path[i] == '/'
  {
    var rel := TrimLeft(path, IsSlash);
    LeadingSlashesDropped(path);
    assert !StartsWith(rel, "/") by {
      if |rel| >= 1 {
        assert rel[..1][0] == rel[0];
      }
    }
    var file := CopyrightFile(rootfs, path);
    assert file == JoinPath(rootfs, rel);
    if rootfs == [] || rootfs[|rootfs| - 1] == '/' {
      assert file == rootfs + rel;
    } else {
      assert file == rootfs + "/" + rel;
    }
  }
}
