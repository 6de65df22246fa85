# qcom-deb-images helper scripts, modelled in Dafny

This project models the decision logic of five helper scripts from the
qcom-deb-images repository and proves properties about it:

- `check-boot-firmwares.py` reads a file that lists firmware download URLs.
  For each line it extracts the quoted `"url"`, filters by silicon family and
  recognises two kinds of artifact: Qualcomm boot-binary zips, versioned
  `r<a>.<b>_<c>.<d>`, and Codelinaro CDT files. It then picks the latest item
  from a listing of links and reports a new URL when that item differs from
  the current one. The HTML link collector, the version sort key, the
  selection of the latest item and the rebuilt URLs are modelled
  (`boot_firmwares.dfy`).
- `syft-license-summary.py` groups the artifacts of a syft SBOM by source
  package and prints one CSV row per source: binaries, licenses and hashes of
  the copyright files (`license_summary.dfy`).
- `get-debian-linux-config.py` builds apt options and resolves a kernel
  meta-package to a versioned image package from `apt-cache depends` output.
  It then picks the downloaded `.deb` and the `./boot/config-*` member inside
  it, and chooses the output path (`kernel_config.dfy`).
- `run-qemu.py` decides the disk image and its sector size, the display
  backend, and whether to use a copy-on-write overlay. It then assembles the
  QEMU command line. Missing host components stop it with status 1 and a
  missing image with status 2 (`qemu_launch.dfy`).
- `build-linux-deb.py` checks build dependencies through `dpkg -l`. It
  concatenates config fragments into `linux/kernel/configs/local.config` and
  assembles the `make` commands (`linux_deb_build.dfy`).

`text.dfy` holds the Python string and collection semantics these scripts
rely on:

- `str.isspace`, `strip`, `splitlines`, `split` and `in` on strings;
- code-point ordering of strings and `sorted` of a set;
- `os.path.basename` and `os.path.join`.

Subprocess output, file contents, file existence, the network and SHA-256
digests are parameters of the model: strings, maps or functions that the
caller supplies.

`run-qemu.py` takes the QEMU sector size from `--storage` (ufs or sdcard),
or from the image file name (`-ufs`, `-sdcard`, `-emmc`) when no storage type
is given.

## Model

| member | source | states |
|---|---|---|
| `Text.TrimLeftSpec` | scripts/syft-license-summary.py:61 | `lstrip` removes exactly the maximal prefix of dropped characters; the result is a suffix whose first character is kept |
| `Text.TrimRightSpec` | scripts/check-boot-firmwares.py:67 | `rstrip`, the right half of `strip`: the result is a prefix of the input, only dropped characters were removed, and its last character is kept |
| `Text.SplitJoin` | scripts/run-qemu.py:264-266 | splitting a comma-joined list of fields that contain no commas gives the fields back |
| `Text.SplitAtFirst` | scripts/check-boot-firmwares.py:95-97 | `split` cuts at the first separator and splits the rest the same way |
| `Text.NatToStringValue` | scripts/run-qemu.py:264-266 | the decimal text of a sector size reads back as the same number |
| `Text.IndexOf` | scripts/check-boot-firmwares.py:139-140 | the first occurrence of a substring; none exactly when the substring does not occur |
| `Text.LastIndexOf` | scripts/check-boot-firmwares.py:188-192 | the last occurrence of a substring (the greedy `.*` before `/cdt/`) |
| `Text.SplitLines` | scripts/get-debian-linux-config.py:75 | no produced line contains a line break, and there are no lines exactly when the text is empty |
| `Text.SplitLinesJoin` | scripts/get-debian-linux-config.py:75 | when `\n` is the only line boundary, joining the lines with `\n` and adding back a final newline gives the text back |
| `Text.StrLessTotal` | scripts/get-debian-linux-config.py:99 | string order is total, so `sorted` has one answer |
| `Text.StrLessTransitive` | scripts/get-debian-linux-config.py:99 | string order is transitive |
| `Text.SortedUnique` | scripts/syft-license-summary.py:56-57 | two strictly sorted listings of the same set are equal, so `sorted(set)` is determined by the set |
| `Text.SortSet` | scripts/syft-license-summary.py:56-57 | returns the unique strictly sorted listing of the set |
| `Text.Basename` | scripts/run-qemu.py:162 | the result is the longest slash-free suffix of the path |
| `Text.JoinPath` | scripts/syft-license-summary.py:61 | an absolute second part replaces the first; otherwise it is appended directly when the first part is empty or ends in a slash, and after one slash when not |
| `Text.LeadingSlashesDropped` | scripts/syft-license-summary.py:61 | `lstrip("/")` removes exactly the leading slashes, so the rest does not start with one |
| `BootFirmwares.Hrefs` | scripts/check-boot-firmwares.py:39-43 | at most one value per attribute, and a value is collected exactly when some attribute is `href` with that value |
| `BootFirmwares.HrefsOfAttribute` | scripts/check-boot-firmwares.py:41-43 | a single attribute contributes its value exactly when it is named `href` |
| `BootFirmwares.HrefsOfConcat` | scripts/check-boot-firmwares.py:41-43 | values are collected in attribute order: the `href`s of two joined attribute lists are those of the first, then those of the second |
| `BootFirmwares.LinkCollector.constructor` | scripts/check-boot-firmwares.py:29-37 | a new collector has no links |
| `BootFirmwares.LinkCollector.HandleStartTag` | scripts/check-boot-firmwares.py:39-43 | an `a` tag appends its `href` values; any other tag leaves the links unchanged |
| `BootFirmwares.ParseDigits` | scripts/check-boot-firmwares.py:97 | `int()` of a non-empty digit string is its decimal value |
| `BootFirmwares.ParseAllRejects` | scripts/check-boot-firmwares.py:96-99 | one field that `int()` rejects makes the whole key fall back |
| `BootFirmwares.ParseAllDigits` | scripts/check-boot-firmwares.py:96-97 | all-digit fields parse to their decimal values, field by field |
| `BootFirmwares.VersionFieldsOf` | scripts/check-boot-firmwares.py:95-97 | dropping the first character and splitting on `_` then `.` yields the four fields, when the first three are digit runs and the last holds no separator |
| `BootFirmwares.VersionKeyOfDecimalFields` | scripts/check-boot-firmwares.py:91-100 | a version `r<a>.<b>_<c>.<d>` sorts by the integer list `[a, b, c, d]` |
| `BootFirmwares.VersionKeyExample` | scripts/check-boot-firmwares.py:91-100 | `r1.0_00116.0` has key `[1, 0, 116, 0]` (leading zeros ignored) |
| `BootFirmwares.VersionKeyWithoutUnderscore` | scripts/check-boot-firmwares.py:98-100 | a version without `_` falls back to the raw string key |
| `BootFirmwares.VersionKeyWithBadField` | scripts/check-boot-firmwares.py:98-100 | a field that is not an integer makes the key the raw string |
| `BootFirmwares.VersionMatchShape` | scripts/check-boot-firmwares.py:19-22 | a version matched by the URL pattern has the shape `r<digits>.<digits>_<digits>.<digits>` |
| `BootFirmwares.MatchedVersionHasNumericKey` | scripts/check-boot-firmwares.py:19-22 | the matched prefix of a name sorts numerically by four integers, and so does the whole name when the pattern matches all of it |
| `BootFirmwares.PartialMatchIsKept` | scripts/check-boot-firmwares.py:72-75 | `re.match` anchors only at the start: `r1.0_2.3a` matches the version pattern on its first eight characters and is kept |
| `BootFirmwares.PartialMatchSortsAsText` | scripts/check-boot-firmwares.py:91-100 | such a partly matched name can still fall back to its string key: `r1.0_2.3a` sorts by its text |
| `BootFirmwares.KeptLinks` | scripts/check-boot-firmwares.py:64-78 | at most one item per link, and an item is collected exactly when some link, trailing slashes removed, equals it, is not `..` and, when a pattern is used, starts with a version the pattern matches; order and multiplicity are fixed by its two partner lemmas |
| `BootFirmwares.KeptLinksOfLink` | scripts/check-boot-firmwares.py:66-78 | a single link contributes its cleaned form exactly when it is kept |
| `BootFirmwares.KeptLinksOfConcat` | scripts/check-boot-firmwares.py:64-78 | items are collected in listing order, one per kept link: the items of two joined listings are those of the first, then those of the second, which fixes the tie-break of the stable sort |
| `BootFirmwares.KeyLessTransitive` | scripts/check-boot-firmwares.py:83-86 | the key order is transitive |
| `BootFirmwares.KeyLessTotal` | scripts/check-boot-firmwares.py:83-86 | keys of the same kind are totally ordered |
| `BootFirmwares.LastOfSortedIsLast` | scripts/check-boot-firmwares.py:83-88 | the chosen index is the element a stable ascending sort puts last: no key is greater, and every later key is smaller |
| `BootFirmwares.LatestNoneIffNothingKept` | scripts/check-boot-firmwares.py:80-81 | no item is returned exactly when no link survives the filter |
| `BootFirmwares.LatestIsGreatestKept` | scripts/check-boot-firmwares.py:80-88 | the returned item is a kept link that sorts last |
| `BootFirmwares.PlainSortNeverFails` | scripts/check-boot-firmwares.py:83-86 | sorting by plain strings never compares mixed key types |
| `BootFirmwares.LatestItem` | scripts/check-boot-firmwares.py:61-88 | the loop returns the latest kept item, nothing, or the mixed-key failure, as specified |
| `BootFirmwares.UrlAtIsQuoted` | scripts/check-boot-firmwares.py:143 | a URL is read at a position exactly when a quote, `http://` or `https://`, one or more non-quotes and a closing quote stand there |
| `BootFirmwares.QuotedUrlIsLeftmost` | scripts/check-boot-firmwares.py:143 | `re.search` returns the leftmost quoted URL, and none when no position matches |
| `BootFirmwares.ExtractedUrlIsQuotable` | scripts/check-boot-firmwares.py:136-148 | an extracted URL comes from a line containing `"url"` and is an http(s) URL without quotes |
| `BootFirmwares.QuotedUrlIff` | scripts/check-boot-firmwares.py:143-145 | the search succeeds exactly when some position holds a quoted URL |
| `BootFirmwares.ExtractUrlIff` | scripts/check-boot-firmwares.py:139-148 | a URL is found exactly when the line contains `"url"` and the stripped text after it, up to the next `"url"`, quotes one |
| `BootFirmwares.KeepForFamilies` | scripts/check-boot-firmwares.py:150-158 | a URL is kept exactly when no families are given or one of them occurs in the lower-cased URL |
| `BootFirmwares.BootMatchParts` | scripts/check-boot-firmwares.py:163-170 | a boot match yields a version matched entirely by the version pattern and a single-line suffix |
| `BootFirmwares.CdtMatchParts` | scripts/check-boot-firmwares.py:184-194 | a CDT match yields a directory under the CDT base and a single-line file name |
| `BootFirmwares.RebuildBootUrl` | scripts/check-boot-firmwares.py:171-172 | rebuilding a matched boot URL with its own version gives the URL back |
| `BootFirmwares.RebuildCdtUrl` | scripts/check-boot-firmwares.py:195-196 | rebuilding a matched CDT URL with its own file gives the URL back |
| `BootFirmwares.BootUrlRematches` | scripts/check-boot-firmwares.py:163-172 | a rebuilt boot URL matches again with the new version and the same suffix |
| `BootFirmwares.CdtUrlRematches` | scripts/check-boot-firmwares.py:184-196 | a rebuilt CDT URL matches again with the same directory and the new file |
| `BootFirmwares.ArtifactKindsExclusive` | scripts/check-boot-firmwares.py:163-205 | no URL is both a boot-binary and a CDT URL |
| `BootFirmwares.StrategyChoice` | scripts/check-boot-firmwares.py:160-205 | an artifact is recognised exactly when an enabled strategy matches, and only through an enabled strategy |
| `BootFirmwares.LatestForArtifact` | scripts/check-boot-firmwares.py:174-201 | the latest item is the target revision when one is given for boot binaries, otherwise the latest of the listing |
| `BootFirmwares.CheckLine` | scripts/check-boot-firmwares.py:136-229 | computes the outcome of one line as specified |
| `BootFirmwares.LineOutcomesAt` | scripts/check-boot-firmwares.py:136 | the outcome of each line depends only on that line |
| `BootFirmwares.CheckFile` | scripts/check-boot-firmwares.py:126-229 | lines are processed in order, and processing stops right after the first line whose listing cannot be sorted |
| `BootFirmwares.NewVersionIff` | scripts/check-boot-firmwares.py:207-229 | a new version is reported exactly when a non-empty latest item differs from the current one; the new URL then differs from the old one |
| `BootFirmwares.NewUrlInjective` | scripts/check-boot-firmwares.py:171-172 | different items give different rebuilt URLs |
| `BootFirmwares.TargetRevisionIgnoresListing` | scripts/check-boot-firmwares.py:174-178 | with a target revision and CDT checks off, the listing is never consulted and sorting never fails |
| `BootFirmwares.TargetRevisionOnlyForBoot` | scripts/check-boot-firmwares.py:184-201 | the target revision has no effect on CDT files |
| `BootFirmwares.CdtNeverFailsToSort` | scripts/check-boot-firmwares.py:197-201 | CDT files sort by plain string and never fail |
| `BootFirmwares.DefaultFlags` | scripts/check-boot-firmwares.py:253-262 | boot binaries are checked when asked, when silicons are given, or when CDT is not asked; CDT when asked, or when nothing is asked; at least one is checked |
| `LicenseSummary.AddLicenses` | scripts/syft-license-summary.py:44-45 | adds the name of every license to the set |
| `LicenseSummary.AddCopyrights` | scripts/syft-license-summary.py:46-49 | records the copyright paths of the binary as specified |
| `LicenseSummary.GroupBySource` | scripts/syft-license-summary.py:29-50 | the loop builds the grouping of all artifacts as specified |
| `LicenseSummary.FirstIndex` | scripts/syft-license-summary.py:55 | the first position of a source |
| `LicenseSummary.GroupKeys` | scripts/syft-license-summary.py:30-42 | the grouped sources are exactly the sources of the artifacts, each with a group |
| `LicenseSummary.GroupOrder` | scripts/syft-license-summary.py:36-42 | groups are listed in the order of each source's first artifact |
| `LicenseSummary.GroupBinaries` | scripts/syft-license-summary.py:38-42 | a group's binaries are exactly the binaries of the artifacts from that source |
| `LicenseSummary.GroupLicenses` | scripts/syft-license-summary.py:44-45 | a group's licenses are exactly the licenses of the artifacts from that source |
| `LicenseSummary.GroupVersionAbsent` | scripts/syft-license-summary.py:34 | a source no artifact belongs to has no version |
| `LicenseSummary.GroupVersion` | scripts/syft-license-summary.py:40-43 | a group's version comes from the last artifact of that source |
| `LicenseSummary.RecordedCopyrightIsLast` | scripts/syft-license-summary.py:46-49 | only the last path containing `copyright` is kept for the binary |
| `LicenseSummary.GroupCopyrights` | scripts/syft-license-summary.py:46-49 | a binary has a copyright entry exactly when some artifact of it has a copyright path, and the entry is the last such path |
| `LicenseSummary.GroupOfAdd` | scripts/syft-license-summary.py:42-49 | an artifact changes only the group of its own source |
| `LicenseSummary.AddArtifactTwice` | scripts/syft-license-summary.py:36-49 | adding the same artifact twice has the effect of adding it once |
| `LicenseSummary.CollectHashes` | scripts/syft-license-summary.py:59-62 | the loop collects the digests of the copyright files under the root, `unreadable` when there is no digest |
| `LicenseSummary.RenderTable` | scripts/syft-license-summary.py:53-64 | a header followed by one row per source in grouping order |
| `LicenseSummary.RenderRow` | scripts/syft-license-summary.py:56-64 | the source, the version (`unknown` when absent) and the sorted, space-joined binaries, licenses and hashes, joined by commas |
| `LicenseSummary.JoinedWithoutComma` | scripts/syft-license-summary.py:56-57 | joining comma-free names with spaces introduces no comma |
| `LicenseSummary.RowColumns` | scripts/syft-license-summary.py:56-64 | when no field contains a comma, a row splits into exactly its five columns |
| `LicenseSummary.CopyrightFileUnderRoot` | scripts/syft-license-summary.py:61 | leading slashes of the path are removed and the rest is joined under the root: directly when the root is empty or ends in a slash, after one slash otherwise |
| `KernelConfig.AptEnvOptions` | scripts/get-debian-linux-config.py:44-54 | `-o` before each of the four apt settings, root directory and architecture included |
| `KernelConfig.CaptureOfMatch` | scripts/get-debian-linux-config.py:72 | a line of the form spaces, `Depends:`, spaces, `linux-image-`, non-spaces yields that package name |
| `KernelConfig.MatchOfCapture` | scripts/get-debian-linux-config.py:72 | every captured name comes from such a match |
| `KernelConfig.DependsLineMatches` | scripts/get-debian-linux-config.py:72-76 | a matching `Depends:` line captures the image package |
| `KernelConfig.DependsTargetShape` | scripts/get-debian-linux-config.py:72-76 | a captured name always stems from a matching `Depends:` line |
| `KernelConfig.FilterMapOfJoin` | scripts/get-debian-linux-config.py:73-77 | a comprehension over two joined lists is the join of the comprehensions |
| `KernelConfig.FilterMapFrom` | scripts/get-debian-linux-config.py:73-77 | every produced value comes from some element, and every element that yields a value contributes it |
| `KernelConfig.CandidatesOfJoin` | scripts/get-debian-linux-config.py:73-77 | candidates of joined output are the joined candidates |
| `KernelConfig.CandidatesAreImages` | scripts/get-debian-linux-config.py:73-77 | candidates are exactly the captures of the lines: `linux-image-` names without whitespace |
| `KernelConfig.CapturedImage` | scripts/get-debian-linux-config.py:72 | a capture starts with `linux-image-`, has at least one more character and no whitespace |
| `KernelConfig.FirstWhere` | scripts/get-debian-linux-config.py:84-86 | the first position satisfying the test, none when no position does |
| `KernelConfig.ResolveKernelPkg` | scripts/get-debian-linux-config.py:62-89 | no candidates give the given name; otherwise the first candidate without `-unsigned-`, or the first candidate when all are unsigned |
| `KernelConfig.VersionedIsLoose` | scripts/get-debian-linux-config.py:99-101 | a name matching `<pkg>_*.deb` also matches `<pkg>*.deb` |
| `KernelConfig.Matching` | scripts/get-debian-linux-config.py:99-101 | exactly the names that match the pattern |
| `KernelConfig.GreatestIsMaximum` | scripts/get-debian-linux-config.py:99-106 | the last element of the sorted list is a listed name that no other name follows |
| `KernelConfig.ChooseDebIsGreatestMatch` | scripts/get-debian-linux-config.py:99-106 | the greatest `<pkg>_*.deb` when there is one, else the greatest `<pkg>*.deb`, else none (the error exit) |
| `KernelConfig.ConfigPath` | scripts/get-debian-linux-config.py:122-129 | the first stripped path starting with `./boot/config-`; none exactly when no path does |
| `KernelConfig.BasenameOfName` | scripts/get-debian-linux-config.py:207 | the base name of a slash-free name after an empty directory part or one ending in a slash is that name |
| `KernelConfig.DefaultOutputPath` | scripts/get-debian-linux-config.py:204-208 | without an output option the config goes to `<image package>.config` in the working directory (no slash added when the directory is empty or ends in one, the directory dropped when the package name is absolute); its base name is that file name when the package name has no slash |
| `QemuLaunch.SelectImage` | scripts/run-qemu.py:148-202 | the selected image is an acceptable existing file with a 512 or 4096 sector size; failure (status 2) exactly when no acceptable file exists; a storage type decides the sector size |
| `QemuLaunch.StorageDecidesSector` | scripts/run-qemu.py:149-159 | an existing given image with a storage type uses that storage's sector size |
| `QemuLaunch.NameDecidesSector` | scripts/run-qemu.py:160-169 | without a storage type: 512 exactly when the lower-cased base name has `-sdcard` or `-emmc` but not `-ufs`, otherwise 4096 |
| `QemuLaunch.UfsImagePreferred` | scripts/run-qemu.py:170-202 | without an image or storage type, `disk-ufs.img` (4096) is preferred over `disk-sdcard.img` (512) |
| `QemuLaunch.DisplayBackend` | scripts/run-qemu.py:204-209 | `none` when headless, otherwise `cocoa` exactly on Darwin, else `gtk` |
| `QemuLaunch.OverlayBackedByImage` | scripts/run-qemu.py:218-230 | the overlay is created as qcow2 over the absolute path of the raw image |
| `QemuLaunch.QemuCommand` | scripts/run-qemu.py:239-278 | builds the command as specified |
| `QemuLaunch.ValueAfterSkips` | scripts/run-qemu.py:239-278 | an option's value is found past a prefix that lacks the flag |
| `QemuLaunch.ValueAfterHead` | scripts/run-qemu.py:239-278 | a flag followed by its value is read as that value |
| `QemuLaunch.CommandOptions` | scripts/run-qemu.py:239-278 | the command starts with `qemu-system-aarch64`, carries the chosen display, drive and firmware, and ends with the extra arguments; the chosen values are the first of each option |
| `QemuLaunch.DiskValues` | scripts/run-qemu.py:239-272 | the drive and firmware options are read from the fixed part of the command |
| `QemuLaunch.SerialConsole` | scripts/run-qemu.py:274-278 | headless runs use `mon:stdio` as serial console; otherwise only the extra arguments can set one |
| `QemuLaunch.BlockSizesAgree` | scripts/run-qemu.py:263-266 | the disk device has equal physical and logical block sizes, both reading back as the sector size |
| `QemuLaunch.LaunchQemu` | scripts/run-qemu.py:122-284 | computes the launch plan as specified |
| `QemuLaunch.MissingComponentsExitFirst` | scripts/run-qemu.py:124-146 | missing components stop with status 1 on Linux or macOS (2 from the firmware lookup elsewhere) whatever files exist |
| `QemuLaunch.UnknownSystemExitsFirst` | scripts/run-qemu.py:41-67 | on a platform other than Linux or macOS the firmware lookup exits with status 2; QEMU runs only on a known platform with every component present |
| `QemuLaunch.LaunchUsesSelection` | scripts/run-qemu.py:124-278 | exits are 1 or 2; status 2 exactly when the platform is unknown, or the components exist and no acceptable image does; a run uses the selected image's sector size and drive, with an overlay exactly when copy-on-write is on |
| `LinuxDebBuild.CheckPackageInstalled` | scripts/build-linux-deb.py:28-45 | true exactly when a line of the `dpkg -l` output starts with `ii  <pkg>`; false on the `SubprocessError` the script catches |
| `LinuxDebBuild.PrefixNotExact` | scripts/build-linux-deb.py:39-42 | any output starting with `ii  <pkg>` counts, including other packages whose names extend `pkg` |
| `LinuxDebBuild.FirstLineIsPrefix` | scripts/build-linux-deb.py:39-42 | the first output line extends every line-break-free prefix of the output |
| `LinuxDebBuild.MissingExactly` | scripts/build-linux-deb.py:76-80 | a package is reported missing exactly when it is required and not installed |
| `LinuxDebBuild.MissingOfJoin` | scripts/build-linux-deb.py:76-80 | missing packages keep the order of the required list |
| `LinuxDebBuild.CheckDependencies` | scripts/build-linux-deb.py:48-83 | reports the missing packages in order, with status 1 exactly when some are missing |
| `LinuxDebBuild.ConcatenationIgnores` | scripts/build-linux-deb.py:132-141 | the fragments' concatenation does not depend on files other than the fragments |
| `LinuxDebBuild.MergeConcatenates` | scripts/build-linux-deb.py:132-141 | merging succeeds exactly when every fragment is readable, and appends their concatenation to `local.config` |
| `LinuxDebBuild.Workspace.constructor` | scripts/build-linux-deb.py:124 | the workspace holds the given files |
| `LinuxDebBuild.Workspace.RemoveLocalConfig` | scripts/build-linux-deb.py:126-128 | `local.config` is removed, nothing else changes |
| `LinuxDebBuild.Workspace.Append` | scripts/build-linux-deb.py:140-141 | the content is appended to the file, which is created when absent |
| `LinuxDebBuild.Workspace.AppendFragments` | scripts/build-linux-deb.py:130-141 | the loop appends the fragments in order and stops at the first unreadable one |
| `LinuxDebBuild.Workspace.PrepareLocalConfig` | scripts/build-linux-deb.py:124-141 | removes `local.config`, then merges the fragments |
| `LinuxDebBuild.LocalConfigIsFragments` | scripts/build-linux-deb.py:124-141 | after preparation `local.config` exists exactly when fragments were given and holds only their concatenation; no other file changes |
| `LinuxDebBuild.ConcatenationFrom` | scripts/build-linux-deb.py:130-141 | the concatenation reads only the fragment files |
| `LinuxDebBuild.ConfigCommandAsWritten` | scripts/build-linux-deb.py:143-155 | the config command appends `local.config` when `kernel/configs/local.config` exists relative to the working directory |
| `LinuxDebBuild.FragmentsIgnoredAsWritten` | scripts/build-linux-deb.py:124-155 | for any workspace without `kernel/configs/local.config` and any non-empty list of readable fragments, the fragments are merged into `linux/kernel/configs/local.config`, but the checked path stays absent and the config command has no `local.config` |
| `LinuxDebBuild.LocalConfigPassedIff` | scripts/build-linux-deb.py:152-154 | `local.config` appears in the config command exactly when the checked file was found |
| `LinuxDebBuild.ConfigCommand` | scripts/build-linux-deb.py:143-155 | the corrected config command appends `local.config` when the merged file exists |
| `LinuxDebBuild.ConfigCommandUsesFragments` | scripts/build-linux-deb.py:124-159 | with the corrected check, `local.config` is configured exactly when fragments were given; both make commands share the same prefix |
| `LinuxDebBuild.PrepareBuild` | scripts/build-linux-deb.py:85-159 | missing dependencies stop with status 1 and no change to the files; otherwise the fragments are merged and both commands are planned, the config command passing `local.config` exactly when `kernel/configs/local.config` exists, as line 153 checks |

## Left out

- Network access: the firmware listings and the `requests`/HTML parsing step are parameters. A listing is the sequence of `href` values, `listing: string -> seq<string>`.
- `update_checksums` and the SHA-256 computation in `check-boot-firmwares.py`: the file is checked for new versions only. SHA-256 in `syft-license-summary.py` is an uninterpreted `digest` function, and "no digest" models an unreadable file.
- `BootFirmwares.LatestItem`: Python raises `TypeError` when a listing mixes version keys that are lists of integers with fallback string keys. The model returns an explicit `Uncomparable` outcome rather than demanding uniform keys of the caller, and `BootFirmwares.CheckFile` stops there, as the uncaught exception does.
- `BootFirmwares.ParseDigits`: `int()` is modelled for ASCII digits, surrounding whitespace and a sign; Unicode digits and `_` separators are not modelled (`_` cannot occur after splitting on it).
- `BootFirmwares.Hrefs`: attribute values are strings. `HTMLParser` gives `None` for a bare attribute such as `<a href>`, which the script would collect and then fail on in `rstrip`; that case is not modelled.
- The regular expressions are hand-written recognisers for the few patterns used, not a regex engine.
- `KeepForFamilies` and the image-name rule use ASCII lower-casing only.
- JSON values that are `null` or not strings are not modelled in the syft summary; a missing key takes the source's default.
- Printing, CSV quoting (absent in the source), stderr logging and argument parsing are left out; options are plain values.
- `KernelConfig.ChooseDebIsGreatestMatch`: glob metacharacters in the package name are not modelled. `sorted` over paths in one directory is modelled as code-point order of the names.
- `KernelConfig.OutputPath`: pathlib's normalisation is not modelled. `Path(args.output)` drops a trailing slash, `.` parts and repeated slashes of the given name before it is written and printed; the model returns the name unchanged. `Path.cwd() / name` is modelled as `os.path.join`, which agrees with it on the absolute, normalised directory `Path.cwd()` returns, but not on `.` parts or repeated slashes inside the name.
- `apt-get`, `apt-cache`, `dpkg-deb`, `tar`, `git clone`, `nproc`, `qemu-img` and `qemu-system-aarch64` are not executed. Their output or success is an input. A failed command with `check=True` is not modelled, except the `qemu-img create` failure the script catches.
- `LinuxDebBuild.CheckPackageInstalled`: a `dpkg` executable that cannot be started raises an `OSError` the script does not catch, so the script ends with a traceback before it can list the missing packages; the model has no such outcome, and its `None` input (the caught `SubprocessError`) counts the package as not installed.
- The firmware paths `find_bios_path` finds and the results of `shutil.which` are inputs (`biosPath`, `hasQemuSystem`, `hasQemuImg`); its exit with status 2 on a platform other than Linux or macOS is modelled.
- `QemuLaunch.AbsPath`: `os.path.abspath` is modelled as joining with the working directory, without normalising `..` or `.`.
- `QemuLaunch.QemuCommand`: `shlex.split` of `--qemu-args` is not modelled; the extra arguments are given as words.
- `QemuLaunch.CommandOptions`: stated for display backends the script can choose and holds for any firmware path; it gives the first value of each option, while QEMU honours the last, so `--qemu-args` such as `-display sdl` override the chosen backend or firmware.
- `QemuLaunch.SerialConsole`: requires the firmware path not to be the literal `-serial`.
- `LinuxDebBuild.PrefixNotExact`: requires a package name without line breaks, which every listed package satisfies.
- The temporary directories' lifetime, directory creation (`mkdir`) and file permissions are left out; `Workspace` maps paths to file contents and has no directories.
- The return code of QEMU and the exit after it are left out.

## Findings

| source | as written | input that shows it | evidently intended | confidence | as-written member | corrected member |
|---|---|---|---|---|---|---|
| scripts/build-linux-deb.py:152-154 | checks `kernel/configs/local.config` relative to the script's working directory, while the fragments were merged into `linux/kernel/configs/local.config` | one readable fragment and no `kernel/configs/local.config` outside the `linux` tree: the merged fragment is never passed to `make` | check `linux/kernel/configs/local.config`, the file just written | not executed | `LinuxDebBuild.FragmentsIgnoredAsWritten` | `LinuxDebBuild.ConfigCommandUsesFragments` |
