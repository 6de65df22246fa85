/**
 * How `run-qemu.py` launches a Debian disk image: which image and sector
 * size it uses, which display backend, whether the drive is a copy-on-write
 * overlay or the image itself, and the `qemu-system-aarch64` command line.
 * The host (which tools are installed, the firmware path, which files exist,
 * the working and temporary directories) is an input.
 */
module QemuLaunch {
  import opened Wrappers
  import opened Text

  const DefaultUfsImage := "disk-ufs.img"
  const DefaultSdcardImage := "disk-sdcard.img"
  const UfsSectorSize := 4096
  const SdcardSectorSize := 512

  datatype Storage = Ufs | Sdcard

  /** The command-line options; `--qemu-args` is given already split into words. */
  datatype Options = Options(
    image: Option<string>,
    storage: Option<Storage>,
    noCow: bool,
    headless: bool,
    qemuArgs: seq<string>)

  /** What the script learns from the host. */
  datatype Host = Host(
    system: string,
    hasQemuSystem: bool,
    hasQemuImg: bool,
    biosPath: Option<string>,
    fileExists: string -> bool,
    cwd: string,
    tempDir: string)

  /** A string option that Python treats as true: present and non-empty. */
  predicate Given(o: Option<string>) {
    o.Some? && o.value != ""
  }

  function StorageSectorSize(s: Storage): nat {
    match s
    case Ufs => UfsSectorSize
    case Sdcard => SdcardSectorSize
  }

  function DefaultImage(s: Storage): string {
    match s
    case Ufs => DefaultUfsImage
    case Sdcard => DefaultSdcardImage
  }

  // ---------------------------------------------------------------------
  // Image path and sector size
  // ---------------------------------------------------------------------

  /** The sector size guessed from an image's lowercased file name. */
  function SectorSizeOfName(imagePath: string): nat {
    var name := Lower(Basename(imagePath));
    if Contains(name, "-ufs") then UfsSectorSize
    else if Contains(name, "-sdcard") || Contains(name, "-emmc") then SdcardSectorSize
    else UfsSectorSize
  }

  datatype Selection = Selected(imagePath: string, sectorSize: nat) | Failed(status: int)

  /** The image paths the script accepts for the given options, in order of preference. */
  function Acceptable(image: Option<string>, storage: Option<Storage>): seq<string> {
    if Given(image) then [image.value]
    else if storage.Some? then [DefaultImage(storage.value)]
    else [DefaultUfsImage, DefaultSdcardImage]
  }

  /** The image and sector size of `main`, or the exit status when no image can be used. */
  function SelectImage(image: Option<string>, storage: Option<Storage>, fileExists: string -> bool): (r: Selection)
    ensures r.Selected? ==> r.sectorSize == SdcardSectorSize || r.sectorSize == UfsSectorSize
    ensures r.Selected? ==> r.imagePath in Acceptable(image, storage) && fileExists(r.imagePath)
    ensures r.Failed? <==> forall p <- Acceptable(image, storage) :: !fileExists(p)
    ensures r.Failed? ==> r.status == 2
    ensures r.Selected? && storage.Some? ==> r.sectorSize == StorageSectorSize(storage.value)
  {
    if Given(image) then
      if !fileExists(image.value) then Failed(2)
      else if storage == Some(Ufs) then Selected(image.value, UfsSectorSize)
      else if storage == Some(Sdcard) then Selected(image.value, SdcardSectorSize)
      else Selected(image.value, SectorSizeOfName(image.value))
    else if storage == Some(Ufs) then
      if !fileExists(DefaultUfsImage) then Failed(2) else Selected(DefaultUfsImage, UfsSectorSize)
    else if storage == Some(Sdcard) then
      if !fileExists(DefaultSdcardImage) then Failed(2) else Selected(DefaultSdcardImage, SdcardSectorSize)
    else if fileExists(DefaultUfsImage) then Selected(DefaultUfsImage, UfsSectorSize)
    else if fileExists(DefaultSdcardImage) then Selected(DefaultSdcardImage, SdcardSectorSize)
    else Failed(2)
  }

  /** With `--image` and `--storage`, the storage type alone decides the sector size. */
  lemma StorageDecidesSector(image: string, storage: Storage, fileExists: string -> bool)
    requires image != "" && fileExists(image)
    ensures SelectImage(Some(image), Some(storage), fileExists) == Selected(image, StorageSectorSize(storage))
  {
  }

  /**
   * With `--image` alone, the file name decides: `-ufs` anywhere in the
   * lowercased name gives 4096, otherwise `-sdcard` or `-emmc` gives 512,
   * otherwise 4096.
   */
  lemma NameDecidesSector(image: string, fileExists: string -> bool)
    requires image != "" && fileExists(image)
    ensures var name := Lower(Basename(image));
      && SelectImage(Some(image), None, fileExists) == Selected(image, SectorSizeOfName(image))
      && (SectorSizeOfName(image) == SdcardSectorSize <==>
            !Contains(name, "-ufs") && (Contains(name, "-sdcard") || Contains(name, "-emmc")))
      && (SectorSizeOfName(image) == UfsSectorSize <==>
            Contains(name, "-ufs") || !(Contains(name, "-sdcard") || Contains(name, "-emmc")))
  {
  }

  /** Without `--image` or `--storage`, `disk-ufs.img` wins over `disk-sdcard.img`. */
  lemma UfsImagePreferred(image: Option<string>, fileExists: string -> bool)
    requires !Given(image)
    ensures fileExists(DefaultUfsImage) ==> SelectImage(image, None, fileExists) == Selected(DefaultUfsImage, UfsSectorSize)
    ensures !fileExists(DefaultUfsImage) && fileExists(DefaultSdcardImage) ==>
      SelectImage(image, None, fileExists) == Selected(DefaultSdcardImage, SdcardSectorSize)
  {
  }

  // ---------------------------------------------------------------------
  // Display backend
  // ---------------------------------------------------------------------

  function DisplayFor(system: string, headless: bool): string {
    if headless then "none" else if system == "Darwin" then "cocoa" else "gtk"
  }

  /** `display_backend`: Gtk by default, Cocoa on macOS, `none` when headless. */
  method DisplayBackend(system: string, headless: bool) returns (backend: string)
    ensures backend == DisplayFor(system, headless)
    ensures headless ==> backend == "none"
    ensures !headless ==> (backend == "cocoa" <==> system == "Darwin")
    ensures backend in {"none", "cocoa", "gtk"}
  {
    backend := "gtk";
    if system == "Darwin" {
      backend := "cocoa";
    }
    if headless {
      backend := "none";
    }
  }

  // ---------------------------------------------------------------------
  // Drive
  // ---------------------------------------------------------------------

  datatype Drive = Drive(file: string, format: string)

  /** `os.path.abspath` without the normalisation of `.` and `..`. */
  function AbsPath(cwd: string, path: string): string {
    JoinPath(cwd, path)
  }

  function OverlayPath(tempDir: string): string {
    JoinPath(tempDir, "overlay.qcow")
  }

  /** The `qemu-img` command creating a qcow2 overlay on top of the raw image. */
  function OverlayCommand(cwd: string, imagePath: string, tempDir: string): seq<string> {
    ["qemu-img", "create", "-b", AbsPath(cwd, imagePath), "-f", "qcow2", "-F", "raw", OverlayPath(tempDir)]
  }

  /** The drive QEMU writes to: the overlay unless `--no-cow`, else the image itself. */
  function ChooseDrive(imagePath: string, noCow: bool, tempDir: string): (d: Drive)
    ensures noCow ==> d == Drive(imagePath, "raw")
    ensures !noCow ==> d == Drive(OverlayPath(tempDir), "qcow2")
  {
    if noCow then Drive(imagePath, "raw") else Drive(OverlayPath(tempDir), "qcow2")
  }

  /** With the overlay, the drive is backed by the absolute path of the image. */
  lemma OverlayBackedByImage(cwd: string, imagePath: string, tempDir: string)
    requires cwd != [] && cwd[0] == '/'
    ensures var c := OverlayCommand(cwd, imagePath, tempDir);
      && c[2] == "-b" && StartsWith(c[3], "/")
      && (StartsWith(imagePath, "/") ==> c[3] == imagePath)
      && c[4] == "-f" && c[5] == ChooseDrive(imagePath, false, tempDir).format
      && c[6] == "-F" && c[7] == ChooseDrive(imagePath, true, tempDir).format
      && c[8] == ChooseDrive(imagePath, false, tempDir).file
  {
    var abs := AbsPath(cwd, imagePath);
    if !StartsWith(imagePath, "/") {
      if cwd[|cwd| - 1] == '/' {
        assert abs == cwd + imagePath;
      } else {
        assert abs == cwd + "/" + imagePath;
      }
      assert abs[..1] == cwd[..1];
    }
  }

  // ---------------------------------------------------------------------
  // The QEMU command line
  // ---------------------------------------------------------------------

  /** The SCSI disk, with both block sizes set to the sector size. */
  function BlockDevice(sectorSize: nat): string {
    var size := NatToString(sectorSize);
    Join(["scsi-hd", "bus=scsi1.0", "drive=disk1", "physical_block_size=" + size, "logical_block_size=" + size], ',')
  }

  function DriveSpec(d: Drive): string {
    "if=none,file=" + d.file + ",format=" + d.format + ",id=disk1"
  }

  /** The CPU, memory, machine and GPU. */
  const MachineArgs := ["qemu-system-aarch64", "-cpu", "cortex-a57", "-m", "2048", "-M", "virt", "-device", "virtio-gpu-pci"]

  /** The USB controller, keyboard, mouse and SCSI controller. */
  const PeripheralArgs := ["-device", "usb-ehci,id=ehci", "-device", "usb-kbd", "-device", "usb-mouse", "-device", "virtio-scsi-pci,id=scsi1"]

  function DiskArgs(sectorSize: nat, drive: Drive, bios: string): seq<string> {
    ["-device", BlockDevice(sectorSize), "-drive", DriveSpec(drive), "-bios", bios]
  }

  /** The command `main` runs, before the optional additions. */
  function BaseCommand(display: string, sectorSize: nat, drive: Drive, bios: string): seq<string> {
    MachineArgs + ["-display", display] + PeripheralArgs + DiskArgs(sectorSize, drive, bios)
  }

  function HeadlessArgs(headless: bool): seq<string> {
    if headless then ["-serial", "mon:stdio"] else []
  }

  /** The whole command: the base, the serial console when headless, then `--qemu-args`. */
  function QemuArgv(display: string, sectorSize: nat, drive: Drive, bios: string, headless: bool, extra: seq<string>): seq<string> {
    MachineArgs + (["-display", display] + (PeripheralArgs + (DiskArgs(sectorSize, drive, bios) + (HeadlessArgs(headless) + extra))))
  }

  /** `cmd` as `main` builds it and then extends it in place. */
  method QemuCommand(display: string, sectorSize: nat, drive: Drive, bios: string, headless: bool, extra: seq<string>)
    returns (cmd: seq<string>)
    ensures cmd == QemuArgv(display, sectorSize, drive, bios, headless, extra)
  {
    cmd := BaseCommand(display, sectorSize, drive, bios);
    if headless {
      cmd := cmd + ["-serial", "mon:stdio"];
    }
    if extra != [] {
      cmd := cmd + extra;
    }
  }

  /** The value following the first occurrence of `flag` in an argument list. */
  function ValueAfter(args: seq<string>, flag: string): Option<string> {
    if |args| < 2 then None
    else if args[0] == flag then Some(args[1])
    else ValueAfter(args[1..], flag)
  }

  lemma {:induction false} ValueAfterSkips(prefix: seq<string>, rest: seq<string>, flag: string)
    requires flag !in prefix
    ensures ValueAfter(prefix + rest, flag) == ValueAfter(rest, flag)
  {
    if prefix != [] {
      assert (prefix + rest)[0] == prefix[0];
      assert (prefix + rest)[1..] == prefix[1..] + rest;
      ValueAfterSkips(prefix[1..], rest, flag);
      if |prefix + rest| < 2 {
        assert prefix[1..] + rest == [];
      }
    } else {
      assert prefix + rest == rest;
    }
  }

  lemma ValueAfterHead(flag: string, value: string, rest: seq<string>)
    ensures ValueAfter([flag, value] + rest, flag) == Some(value)
  {
  }

  /**
   * The first value of each option in the command: the display backend, the
   * drive and the firmware as chosen; `--qemu-args` come last. QEMU honours
   * the last `-display` or `-bios`, so extra arguments can override these.
   */
  lemma CommandOptions(display: string, sectorSize: nat, drive: Drive, bios: string, headless: bool, extra: seq<string>)
    requires display in {"none", "cocoa", "gtk"}
    ensures var argv := QemuArgv(display, sectorSize, drive, bios, headless, extra);
      && argv[0] == "qemu-system-aarch64"
      && ValueAfter(argv, "-display") == Some(display)
      && ValueAfter(argv, "-drive") == Some(DriveSpec(drive))
      && ValueAfter(argv, "-bios") == Some(bios)
      && argv[|argv| - |extra|..] == extra
  {
    var disk := DiskArgs(sectorSize, drive, bios);
    var tail := HeadlessArgs(headless) + extra;
    var afterDisplay := PeripheralArgs + (disk + tail);
    assert ValueAfter(QemuArgv(display, sectorSize, drive, bios, headless, extra), "-display") == Some(display) by {
      ValueAfterSkips(MachineArgs, ["-display", display] + afterDisplay, "-display");
      ValueAfterHead("-display", display, afterDisplay);
    }
    assert ValueAfter(QemuArgv(display, sectorSize, drive, bios, headless, extra), "-drive") == Some(DriveSpec(drive)) by {
      assert disk + tail == disk[..2] + (["-drive", DriveSpec(drive)] + (disk[4..] + tail));
      assert BlockDevice(sectorSize)[0] == 's';
      DiskValues("-drive", DriveSpec(drive), display, afterDisplay, disk[..2], disk[4..] + tail);
    }
    assert ValueAfter(QemuArgv(display, sectorSize, drive, bios, headless, extra), "-bios") == Some(bios) by {
      assert disk + tail == disk[..4] + (["-bios", bios] + tail);
      assert BlockDevice(sectorSize)[0] == 's' && DriveSpec(drive)[0] == 'i';
      DiskValues("-bios", bios, display, afterDisplay, disk[..4], tail);
    }
    SuffixOf(MachineArgs + (["-display", display] + (PeripheralArgs + (disk + HeadlessArgs(headless)))), extra);
    assert QemuArgv(display, sectorSize, drive, bios, headless, extra)
      == MachineArgs + (["-display", display] + (PeripheralArgs + (disk + HeadlessArgs(headless)))) + extra;
  }

  lemma SuffixOf(a: seq<string>, b: seq<string>)
    ensures (a + b)[|a + b| - |b|..] == b
  {
  }

  lemma DiskValues(flag: string, value: string, display: string, afterDisplay: seq<string>, before: seq<string>, after: seq<string>)
    requires flag !in MachineArgs && flag != "-display" && flag != display && flag !in PeripheralArgs && flag !in before
    requires afterDisplay == PeripheralArgs + (before + ([flag, value] + after))
    ensures ValueAfter(MachineArgs + (["-display", display] + afterDisplay), flag) == Some(value)
  {
    ValueAfterSkips(MachineArgs, ["-display", display] + afterDisplay, flag);
    ValueAfterSkips(["-display", display], afterDisplay, flag);
    ValueAfterSkips(PeripheralArgs, before + ([flag, value] + after), flag);
    ValueAfterSkips(before, [flag, value] + after, flag);
  }

  /**
   * A headless run gets the serial console on standard input and output;
   * otherwise only `--qemu-args` can ask for one.
   */
  lemma SerialConsole(display: string, sectorSize: nat, drive: Drive, bios: string, headless: bool, extra: seq<string>)
    requires display in {"none", "cocoa", "gtk"} && bios != "-serial"
    ensures ValueAfter(QemuArgv(display, sectorSize, drive, bios, headless, extra), "-serial")
      == if headless then Some("mon:stdio") else ValueAfter(extra, "-serial")
  {
    var disk := DiskArgs(sectorSize, drive, bios);
    assert BlockDevice(sectorSize)[0] == 's' && DriveSpec(drive)[0] == 'i';
    ValueAfterSkips(MachineArgs, ["-display", display] + (PeripheralArgs + (disk + (HeadlessArgs(headless) + extra))), "-serial");
    ValueAfterSkips(["-display", display], PeripheralArgs + (disk + (HeadlessArgs(headless) + extra)), "-serial");
    ValueAfterSkips(PeripheralArgs, disk + (HeadlessArgs(headless) + extra), "-serial");
    ValueAfterSkips(disk, HeadlessArgs(headless) + extra, "-serial");
    if !headless {
      assert HeadlessArgs(headless) + extra == extra;
    }
  }

  /** Both block sizes of the disk are the sector size, written in decimal. */
  lemma BlockSizesAgree(sectorSize: nat)
    ensures var size := NatToString(sectorSize);
      && Split(BlockDevice(sectorSize), ',') ==
           ["scsi-hd", "bus=scsi1.0", "drive=disk1", "physical_block_size=" + size, "logical_block_size=" + size]
      && DigitsValue(size) == sectorSize
  {
    var size := NatToString(sectorSize);
    NatToStringValue(sectorSize);
    var parts := ["scsi-hd", "bus=scsi1.0", "drive=disk1", "physical_block_size=" + size, "logical_block_size=" + size];
    assert ',' !in size by {
      assert forall i :: 0 <= i < |size| ==> size[i] != ',';
    }
    SplitJoin(parts, ',');
  }

  // ---------------------------------------------------------------------
  // main
  // ---------------------------------------------------------------------

  datatype Launch =
    | Exit(status: int)
    | Run(overlay: Option<seq<string>>, command: seq<string>)

  /** A platform `find_bios_path` knows; on any other it exits with status 2. */
  predicate KnownSystem(system: string) {
    system == "Linux" || system == "Darwin"
  }

  /** `qemu-system-aarch64`, `qemu-img` and a firmware path are all available. */
  predicate ComponentsPresent(h: Host) {
    h.hasQemuSystem && h.hasQemuImg && Given(h.biosPath)
  }

  /**
   * `main` up to running QEMU: exit 2 from the firmware lookup on an unknown
   * platform, exit 1 when a component is missing, the exit status of the
   * image selection, exit 1 when the overlay cannot be created
   * (`overlayCreated` is what `qemu-img` reports), else the overlay command
   * (when used) and the QEMU command.
   */
  function LaunchPlan(opts: Options, h: Host, overlayCreated: bool): Launch {
    if !KnownSystem(h.system) then Exit(2)
    else if !ComponentsPresent(h) then Exit(1)
    else match SelectImage(opts.image, opts.storage, h.fileExists)
      case Failed(status) => Exit(status)
      case Selected(imagePath, sectorSize) =>
        if !opts.noCow && !overlayCreated then Exit(1)
        else
          var drive := ChooseDrive(imagePath, opts.noCow, h.tempDir);
          Run(if opts.noCow then None else Some(OverlayCommand(h.cwd, imagePath, h.tempDir)),
              QemuArgv(DisplayFor(h.system, opts.headless), sectorSize, drive, h.biosPath.value, opts.headless, opts.qemuArgs))
  }

  method LaunchQemu(opts: Options, h: Host, overlayCreated: bool) returns (r: Launch)
    ensures r == LaunchPlan(opts, h, overlayCreated)
  {
    if h.system != "Linux" && h.system != "Darwin" {
      return Exit(2);
    }
    if !(h.hasQemuSystem && h.hasQemuImg && Given(h.biosPath)) {
      return Exit(1);
    }
    var selection := SelectImage(opts.image, opts.storage, h.fileExists);
    if selection.Failed? {
      return Exit(selection.status);
    }
    var display := DisplayBackend(h.system, opts.headless);
    var drive := Drive(selection.imagePath, "raw");
    var overlay: Option<seq<string>> := None;
    if !opts.noCow {
      overlay := Some(OverlayCommand(h.cwd, selection.imagePath, h.tempDir));
      if !overlayCreated {
        return Exit(1);
      }
      drive := Drive(OverlayPath(h.tempDir), "qcow2");
    }
    var cmd := QemuCommand(display, selection.sectorSize, drive, h.biosPath.value, opts.headless, opts.qemuArgs);
    r := Run(overlay, cmd);
  }

  /**
   * Missing tools or firmware exit with status 1 whatever the image options
   * and files, once the firmware lookup has returned; on an unknown platform
   * that lookup has already exited with status 2.
   */
  lemma MissingComponentsExitFirst(opts: Options, h: Host, overlayCreated: bool)
    requires !ComponentsPresent(h)
    ensures LaunchPlan(opts, h, overlayCreated) == if KnownSystem(h.system) then Exit(1) else Exit(2)
    ensures forall e: string -> bool :: LaunchPlan(opts, h.(fileExists := e), overlayCreated) == LaunchPlan(opts, h, overlayCreated)
  {
  }

  /** On an unknown platform the firmware lookup exits with status 2 before anything else is looked at. */
  lemma UnknownSystemExitsFirst(opts: Options, h: Host, overlayCreated: bool)
    ensures !KnownSystem(h.system) ==> LaunchPlan(opts, h, overlayCreated) == Exit(2)
    ensures LaunchPlan(opts, h, overlayCreated).Run? ==> KnownSystem(h.system) && ComponentsPresent(h)
  {
  }

  /**
   * The script exits only with status 1 (components, overlay) or 2 (unknown
   * platform, image); when it runs QEMU, the disk uses the selected sector
   * size and the drive is the overlay in qcow2 format unless `--no-cow`.
   */
  lemma LaunchUsesSelection(opts: Options, h: Host, overlayCreated: bool)
    ensures var r := LaunchPlan(opts, h, overlayCreated);
      && (r.Exit? ==> r.status == 1 || r.status == 2)
      && (r.Exit? && r.status == 2 <==>
            || !KnownSystem(h.system)
            || (ComponentsPresent(h) && forall p <- Acceptable(opts.image, opts.storage) :: !h.fileExists(p)))
      && (r.Run? ==>
            var s := SelectImage(opts.image, opts.storage, h.fileExists);
            var drive := ChooseDrive(s.imagePath, opts.noCow, h.tempDir);
            && s.Selected?
            && r.command[20] == BlockDevice(s.sectorSize)
            && (s.sectorSize == SdcardSectorSize || s.sectorSize == UfsSectorSize)
            && ValueAfter(r.command, "-drive") == Some(DriveSpec(drive))
            && (opts.noCow <==> r.overlay.None?))
  {
    var r := LaunchPlan(opts, h, overlayCreated);
    if r.Run? {
      var s := SelectImage(opts.image, opts.storage, h.fileExists);
      var drive := ChooseDrive(s.imagePath, opts.noCow, h.tempDir);
      CommandOptions(DisplayFor(h.system, opts.headless), s.sectorSize, drive, h.biosPath.value, opts.headless, opts.qemuArgs);
      assert r.command[20] == BlockDevice(s.sectorSize);
    }
  }
}
