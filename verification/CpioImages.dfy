/**
 The three fixed images built on the newc format: the base initramfs, the module overlay and the basket
 archive. Each is given by the table of assignments that fill its entry dictionary.
 */
module CpioImages {
  import opened Prelude
  import opened PosixPath
  import opened Text
  import opened Cpio
  import opened CpioRoundTrip

  // File types and permissions of <sys/stat.h>.
  const DIRECTORY: int := 0x4000
  const REGULAR: int := 0x8000
  const SYMLINK: int := 0xa000
  const CHARACTER: int := 0x2000
  const RWXR_XR_X: int := 0x1ed
  const RWXRWXRWT: int := 0x3ff
  const RWXRWXRWX: int := 0x1ff
  const RW_R__R__: int := 0x1a4
  const RW_______: int := 0x180
  const RW_RW_RW_: int := 0x1b6

  const RELEASE: string := "6.18.56-0-lts"

  /** `entries[name] = ...`, in order; a later assignment replaces an earlier one. */
  function ToEntries(table: seq<Item>): Entries {
    if table == [] then map[]
    else
      var last := table[|table| - 1];
      ToEntries(table[..|table| - 1])[last.name := last.entry]
  }

  function Directory(parts: seq<string>): Item {
    Item(Join(parts), Entry(DIRECTORY + RWXR_XR_X, [], 0, 0))
  }

  function File(parts: seq<string>, permissions: int, body: seq<Byte>): Item {
    Item(Join(parts), Entry(REGULAR + permissions, body, 0, 0))
  }

  function Applet(name: string): Item {
    Item(Join(["bin", name]), Entry(SYMLINK + RWXRWXRWX, [0x62, 0x75, 0x73, 0x79, 0x62, 0x6f, 0x78], 0, 0))
  }

  function Device(name: string, permissions: int, major: int, minor: int): Item {
    Item(Join(["dev", name]), Entry(CHARACTER + permissions, [], major, minor))
  }

  const ROOT: Item := Item(".", Entry(DIRECTORY + RWXR_XR_X, [], 0, 0))
  const TMP: Item := Item(Join(["tmp"]), Entry(DIRECTORY + RWXRWXRWT, [], 0, 0))
  const CONSOLE: Item := Device("console", RW_______, 5, 1)
  const NULL: Item := Device("null", RW_RW_RW_, 1, 3)

  /** The entries of `initramfs`, in the order they are assigned. */
  function InitramfsTable(busybox: seq<Byte>, init: seq<Byte>): seq<Item> {
    [ROOT, Directory(["bin"]), Directory(["proc"]), Directory(["sys"]), TMP, Directory(["dev"]),
     File(["bin", "busybox"], RWXR_XR_X, busybox), File(["init"], RWXR_XR_X, init),
     Applet("sh"), Applet("mount"), Applet("uname"), Applet("cat"), Applet("head"), Applet("sleep"), Applet("awk"),
     CONSOLE, NULL]
  }

  /** The entries of `module_cpio`. */
  function ModuleTable(dev: seq<Byte>, rk3x: seq<Byte>): seq<Item> {
    [ROOT, Directory(["lib"]), Directory(["lib", "modules"]), Directory(["lib", "modules", RELEASE]),
     File(["lib", "modules", RELEASE, "i2c-dev.ko"], RW_R__R__, dev),
     File(["lib", "modules", RELEASE, "i2c-rk3x.ko"], RW_R__R__, rk3x)]
  }

  /** The entries of `archive_entries`. */
  function BasketTable(busybox: seq<Byte>, init: seq<Byte>, helper: seq<Byte>, dev: seq<Byte>, rk3x: seq<Byte>): seq<Item> {
    [ROOT, Directory(["bin"]), Directory(["proc"]), Directory(["sys"]), TMP, Directory(["dev"]),
     Directory(["lib"]), Directory(["lib", "modules"]), Directory(["lib", "modules", RELEASE]),
     File(["bin", "busybox"], RWXR_XR_X, busybox), File(["bin", "basket-helper"], RWXR_XR_X, helper),
     File(["init"], RWXR_XR_X, init),
     Applet("sh"), Applet("mount"), Applet("uname"), Applet("cat"), Applet("head"), Applet("sleep"), Applet("awk"),
     Applet("insmod"), Applet("readlink"),
     File(["lib", "modules", RELEASE, "i2c-dev.ko"], RW_R__R__, dev),
     File(["lib", "modules", RELEASE, "i2c-rk3x.ko"], RW_R__R__, rk3x),
     CONSOLE, NULL]
  }

  // ---------------------------------------------------------------------------------------------
  // Every such table makes a parseable, emittable archive
  // ---------------------------------------------------------------------------------------------

  /** What both the emitter and the parser ask of one entry. */
  ghost predicate Sound(item: Item) {
    GoodName(item.name) && IsAscii(item.name) && Fields8(item.entry)
  }

  ghost predicate AllSound(table: seq<Item>) {
    forall i :: 0 <= i < |table| ==> Sound(table[i])
  }

  lemma {:induction false} ToEntriesKeeps(table: seq<Item>)
    requires AllSound(table)
    ensures |ToEntries(table)| <= |table|
    ensures forall n :: n in ToEntries(table) ==> Sound(Item(n, ToEntries(table)[n]))
  {
    hide Sound;
    if table != [] {
      ToEntriesKeeps(table[..|table| - 1]);
      var last := table[|table| - 1];
      assert last == Item(last.name, last.entry);
    }
  }

  lemma AsciiListing(entries: Entries)
    requires forall n :: n in entries ==> IsAscii(n)
    ensures AsciiNames(Listing(entries))
  {
    NamesListed(entries);
    var names := SortedNames(entries.Keys);
    forall i | 0 <= i < |names| ensures IsAscii(names[i]) { assert names[i] in names; }
  }

  lemma TableParseable(table: seq<Item>)
    requires AllSound(table) && |table| <= ENTRY_LIMIT
    ensures Entries8(ToEntries(table)) && Parseable(ToEntries(table)) && AsciiNames(Listing(ToEntries(table)))
  {
    ToEntriesKeeps(table);
    hide GoodName, ToEntries, Listing, IsAscii, Fields8;
    var entries := ToEntries(table);
    forall n | n in entries ensures Fields8(entries[n]) && GoodName(n) && IsAscii(n) {
      assert Sound(Item(n, entries[n]));
    }
    AsciiListing(entries);
  }

  /** The image that the unbounded emitters write for a table. */
  ghost function Image(table: seq<Item>): seq<Byte>
    requires AllSound(table) && |table| <= ENTRY_LIMIT
  {
    TableParseable(table);
    Records(Listing(ToEntries(table)), 0)
  }

  /** Within the byte limit the unbounded emitters and `newc` write the same bytes, which parse back to the entries;
      beyond it both `newc` and the parser refuse. */
  lemma EmittersAgree(table: seq<Item>)
    requires AllSound(table) && |table| <= ENTRY_LIMIT
    ensures Entries8(ToEntries(table))
    ensures |Image(table)| <= ARCHIVE_LIMIT ==>
              Newc(ToEntries(table)) == Ok(Image(table)) && Parse(Image(table)) == Ok(ToEntries(table))
    ensures |Image(table)| > ARCHIVE_LIMIT ==> Newc(ToEntries(table)).Err? && Parse(Image(table)).Err?
  {
    hide ToEntries, Newc, Records, ParseFrom;
    TableParseable(table);
    NewcMeans(ToEntries(table));
    ListingMeans(ToEntries(table));
    if |Image(table)| <= ARCHIVE_LIMIT { RoundTrip(ToEntries(table)); }
  }

  lemma {:induction false} LookupLast(table: seq<Item>, i: nat)
    requires i < |table| && forall j :: i < j < |table| ==> table[j].name != table[i].name
    ensures table[i].name in ToEntries(table) && ToEntries(table)[table[i].name] == table[i].entry
  {
    if i < |table| - 1 { LookupLast(table[..|table| - 1], i); }
  }

  // ---------------------------------------------------------------------------------------------
  // The names in the tables
  // ---------------------------------------------------------------------------------------------

  ghost predicate GoodParts(parts: seq<string>) {
    && parts != [] && AllPlain(parts)
    && (forall i :: 0 <= i < |parts| ==> IsAscii(parts[i]))
    && |Join(parts)| < NAME_LIMIT && parts[0][0] != 'T'
  }

  lemma {:induction false} JoinAscii(parts: seq<string>)
    requires forall i :: 0 <= i < |parts| ==> IsAscii(parts[i])
    ensures IsAscii(Join(parts))
  {
    if |parts| > 1 { JoinAscii(parts[1..]); }
  }

  lemma SoundParts(parts: seq<string>, e: Entry)
    requires GoodParts(parts) && Fields8(e)
    ensures Sound(Item(Join(parts), e))
  {
    JoinedIsCanonical(parts);
    JoinAscii(parts);
    assert Join(parts)[0] == parts[0][0];
  }

  /** One component of a short ASCII path. */
  predicate ShortPlain(c: string) {
    Plain(c) && IsAscii(c) && |c| < 50 && c[0] != 'T'
  }

  lemma {:induction false} ShortJoin(parts: seq<string>)
    requires forall i :: 0 <= i < |parts| ==> |parts[i]| < 50
    ensures |Join(parts)| <= 50 * |parts|
  {
    if |parts| > 1 { ShortJoin(parts[1..]); }
  }

  lemma SoundShort(parts: seq<string>, e: Entry)
    requires 1 <= |parts| <= 5 && (forall i :: 0 <= i < |parts| ==> ShortPlain(parts[i])) && Fields8(e)
    ensures Sound(Item(Join(parts), e))
  {
    ShortJoin(parts);
    assert ShortPlain(parts[0]);
    SoundParts(parts, e);
  }

  lemma ShortDirectories()
    ensures ShortPlain("bin") && ShortPlain("proc") && ShortPlain("sys") && ShortPlain("tmp") && ShortPlain("dev")
  {
  }

  lemma ShortFiles()
    ensures ShortPlain("init") && ShortPlain("busybox") && ShortPlain("console") && ShortPlain("null")
  {
  }

  lemma ShortHelper()
    ensures ShortPlain("basket-helper") && ShortPlain("lib") && ShortPlain("modules")
  {
  }

  lemma ShortModules()
    ensures ShortPlain(RELEASE) && ShortPlain("i2c-dev.ko") && ShortPlain("i2c-rk3x.ko")
  {
  }

  lemma ShortApplets()
    ensures ShortPlain("sh") && ShortPlain("mount") && ShortPlain("uname") && ShortPlain("cat") && ShortPlain("head")
  {
  }

  lemma ShortMoreApplets()
    ensures ShortPlain("sleep") && ShortPlain("awk") && ShortPlain("insmod") && ShortPlain("readlink")
  {
  }

  lemma RootSound()
    ensures Sound(ROOT)
  {
  }

  lemma DirectorySound(parts: seq<string>)
    requires 1 <= |parts| <= 5 && (forall i :: 0 <= i < |parts| ==> ShortPlain(parts[i]))
    ensures Sound(Directory(parts))
  {
    SoundShort(parts, Entry(DIRECTORY + RWXR_XR_X, [], 0, 0));
  }

  lemma FileSound(parts: seq<string>, permissions: int, body: seq<Byte>)
    requires 1 <= |parts| <= 5 && (forall i :: 0 <= i < |parts| ==> ShortPlain(parts[i])) && 0 <= permissions < 0x1000
    ensures Sound(File(parts, permissions, body))
  {
    SoundShort(parts, Entry(REGULAR + permissions, body, 0, 0));
  }

  lemma AppletSound(name: string)
    requires ShortPlain("bin") && ShortPlain(name)
    ensures Sound(Applet(name))
  {
    SoundShort(["bin", name], Applet(name).entry);
  }

  lemma DeviceSound(name: string, permissions: int, major: int, minor: int)
    requires ShortPlain("dev") && ShortPlain(name)
    requires 0 <= permissions < 0x1000 && 0 <= major < 256 && 0 <= minor < 256
    ensures Sound(Device(name, permissions, major, minor))
  {
    SoundShort(["dev", name], Device(name, permissions, major, minor).entry);
  }

  /** The entries common to the base and the basket image. */
  lemma CommonSound(busybox: seq<Byte>, init: seq<Byte>)
    ensures Sound(ROOT) && Sound(TMP) && Sound(CONSOLE) && Sound(NULL)
    ensures Sound(Directory(["bin"])) && Sound(Directory(["proc"])) && Sound(Directory(["sys"])) && Sound(Directory(["dev"]))
    ensures Sound(File(["bin", "busybox"], RWXR_XR_X, busybox)) && Sound(File(["init"], RWXR_XR_X, init))
  {
    hide Sound, ShortPlain, Join;
    ShortDirectories();
    ShortFiles();
    RootSound();
    SoundShort(["tmp"], TMP.entry);
    DeviceSound("console", RW_______, 5, 1);
    DeviceSound("null", RW_RW_RW_, 1, 3);
    DirectorySound(["bin"]);
    DirectorySound(["proc"]);
    DirectorySound(["sys"]);
    DirectorySound(["dev"]);
    FileSound(["bin", "busybox"], RWXR_XR_X, busybox);
    FileSound(["init"], RWXR_XR_X, init);
  }

  lemma AppletsSound()
    ensures Sound(Applet("sh")) && Sound(Applet("mount")) && Sound(Applet("uname")) && Sound(Applet("cat"))
    ensures Sound(Applet("head")) && Sound(Applet("sleep")) && Sound(Applet("awk"))
    ensures Sound(Applet("insmod")) && Sound(Applet("readlink"))
  {
    hide Sound, ShortPlain, Join;
    ShortDirectories();
    ShortApplets();
    ShortMoreApplets();
    AppletSound("sh");
    AppletSound("mount");
    AppletSound("uname");
    AppletSound("cat");
    AppletSound("head");
    AppletSound("sleep");
    AppletSound("awk");
    AppletSound("insmod");
    AppletSound("readlink");
  }

  lemma ModulesSound(dev: seq<Byte>, rk3x: seq<Byte>)
    ensures Sound(Directory(["lib"])) && Sound(Directory(["lib", "modules"]))
    ensures Sound(Directory(["lib", "modules", RELEASE]))
    ensures Sound(File(["lib", "modules", RELEASE, "i2c-dev.ko"], RW_R__R__, dev))
    ensures Sound(File(["lib", "modules", RELEASE, "i2c-rk3x.ko"], RW_R__R__, rk3x))
  {
    hide Sound, ShortPlain, Join;
    ShortHelper();
    ShortModules();
    DirectorySound(["lib"]);
    DirectorySound(["lib", "modules"]);
    DirectorySound(["lib", "modules", RELEASE]);
    FileSound(["lib", "modules", RELEASE, "i2c-dev.ko"], RW_R__R__, dev);
    FileSound(["lib", "modules", RELEASE, "i2c-rk3x.ko"], RW_R__R__, rk3x);
  }

  lemma InitramfsSound(busybox: seq<Byte>, init: seq<Byte>)
    ensures |InitramfsTable(busybox, init)| <= ENTRY_LIMIT && AllSound(InitramfsTable(busybox, init))
  {
    hide Sound, Directory, File, Applet, Device;
    CommonSound(busybox, init);
    AppletsSound();
  }

  lemma ModuleSound(dev: seq<Byte>, rk3x: seq<Byte>)
    ensures |ModuleTable(dev, rk3x)| <= ENTRY_LIMIT && AllSound(ModuleTable(dev, rk3x))
  {
    hide Sound, Directory, File;
    RootSound();
    ModulesSound(dev, rk3x);
  }

  lemma BasketSound(busybox: seq<Byte>, init: seq<Byte>, helper: seq<Byte>, dev: seq<Byte>, rk3x: seq<Byte>)
    ensures |BasketTable(busybox, init, helper, dev, rk3x)| <= ENTRY_LIMIT
    ensures AllSound(BasketTable(busybox, init, helper, dev, rk3x))
  {
    hide Sound, Directory, File, Applet, Device, ShortPlain;
    CommonSound(busybox, init);
    AppletsSound();
    ModulesSound(dev, rk3x);
    ShortDirectories();
    ShortHelper();
    FileSound(["bin", "basket-helper"], RWXR_XR_X, helper);
  }

  // ---------------------------------------------------------------------------------------------
  // The builders
  // ---------------------------------------------------------------------------------------------

  datatype ImageFault = WrongModules | WrongArchive(fault: Cpio.Fault) | NoBusybox | NotCanonical

  method FillEntries(table: seq<Item>) returns (entries: Entries)
    ensures entries == ToEntries(table)
  {
    entries := map[];
    var i := 0;
    while i < |table|
      invariant 0 <= i <= |table| && entries == ToEntries(table[..i])
    {
      assert table[..i + 1][..i] == table[..i];
      entries := entries[table[i].name := table[i].entry];
      i := i + 1;
    }
    assert table[..i] == table;
  }

  /** The emitting loop of `initramfs` and `module_cpio`, which has no byte bound. */
  method EmitUnbounded(items: seq<Item>) returns (output: seq<Byte>)
    requires Emittable(items) && AsciiNames(items)
    ensures output == Records(items, 0)
  {
    hide Record;
    output := [];
    var i := 0;
    while i < |items|
      invariant 0 <= i <= |items| && Aligned(|output|)
      invariant output + Records(items, i) == Records(items, 0)
    {
      Associative(output, Record(i + 1, items[i].name, items[i].entry), Records(items, i + 1));
      output := AppendRecord(output, i + 1, items[i].name, items[i].entry);
      i := i + 1;
    }
  }

  ghost function BaseImage(busybox: seq<Byte>, init: seq<Byte>): seq<Byte> {
    InitramfsSound(busybox, init);
    Image(InitramfsTable(busybox, init))
  }

  /** `initramfs`. */
  method Initramfs(busybox: seq<Byte>, init: seq<Byte>) returns (image: seq<Byte>)
    ensures image == BaseImage(busybox, init)
    ensures |image| <= ARCHIVE_LIMIT ==> Parse(image) == Ok(ToEntries(InitramfsTable(busybox, init)))
  {
    hide InitramfsTable, Parse;
    InitramfsSound(busybox, init);
    EmittersAgree(InitramfsTable(busybox, init));
    TableParseable(InitramfsTable(busybox, init));
    var entries := FillEntries(InitramfsTable(busybox, init));
    ListingMeans(entries);
    image := EmitUnbounded(Listing(entries));
  }

  const DRIVER_MODULES: set<string> := {"i2c-dev.ko", "i2c-rk3x.ko"}

  /** `module_cpio`. */
  method ModuleCpio(modules: map<string, seq<Byte>>) returns (r: Result<seq<Byte>, ImageFault>)
    ensures r.Ok? <==> modules.Keys == DRIVER_MODULES
    ensures r.Ok? ==>
      var table := ModuleTable(modules["i2c-dev.ko"], modules["i2c-rk3x.ko"]);
      && AllSound(table) && |table| <= ENTRY_LIMIT && r.value == Image(table)
      && (|r.value| <= ARCHIVE_LIMIT ==> Parse(r.value) == Ok(ToEntries(table)))
  {
    if modules.Keys != DRIVER_MODULES { return Err(WrongModules); }
    hide ModuleTable, Parse;
    var dev, rk3x := modules["i2c-dev.ko"], modules["i2c-rk3x.ko"];
    ModuleSound(dev, rk3x);
    EmittersAgree(ModuleTable(dev, rk3x));
    TableParseable(ModuleTable(dev, rk3x));
    var entries := FillEntries(ModuleTable(dev, rk3x));
    ListingMeans(entries);
    var image := EmitUnbounded(Listing(entries));
    r := Ok(image);
  }

  /** `archive_entries`, followed as in `prepare` by `newc` and `validate_newc`: the validation never fails on what
      `newc` has just written. */
  method BasketArchive(busybox: seq<Byte>, init: seq<Byte>, helper: seq<Byte>, modules: map<string, seq<Byte>>)
    returns (r: Result<seq<Byte>, ImageFault>)
    ensures r.Ok? || r.error.WrongModules? || r.error == WrongArchive(ArchiveBound)
    ensures modules.Keys == DRIVER_MODULES ==>
      var table := BasketTable(busybox, init, helper, modules["i2c-dev.ko"], modules["i2c-rk3x.ko"]);
      && AllSound(table) && |table| <= ENTRY_LIMIT
      && r == if |Image(table)| <= ARCHIVE_LIMIT then Ok(Image(table)) else Err(WrongArchive(ArchiveBound))
    ensures modules.Keys != DRIVER_MODULES ==> r == Err(WrongModules)
  {
    if modules.Keys != DRIVER_MODULES { return Err(WrongModules); }
    hide BasketTable, Newc, Parse, Records;
    var dev, rk3x := modules["i2c-dev.ko"], modules["i2c-rk3x.ko"];
    ghost var table := BasketTable(busybox, init, helper, dev, rk3x);
    BasketSound(busybox, init, helper, dev, rk3x);
    EmittersAgree(table);
    NewcBoundOnly(table);
    var entries := FillEntries(BasketTable(busybox, init, helper, dev, rk3x));
    var archive := EmitNewc(entries);
    if archive.Err? { return Err(WrongArchive(archive.error)); }
    var verdict := ValidateNewc(archive.value, entries);
    assert verdict.Ok?;
    r := Ok(archive.value);
  }

  lemma NewcBoundOnly(table: seq<Item>)
    requires AllSound(table) && |table| <= ENTRY_LIMIT
    ensures |Image(table)| > ARCHIVE_LIMIT ==> Newc(ToEntries(table)) == Err(ArchiveBound)
  {
    hide ToEntries, Records, EmitFrom;
    TableParseable(table);
    ListingMeans(ToEntries(table));
    EmitMeans(Listing(ToEntries(table)), 0, []);
  }

  lemma JoinDiffers(a: seq<string>, b: seq<string>)
    requires a != [] && b != [] && AllPlain(a) && AllPlain(b) && a != b
    ensures Join(a) != Join(b)
  {
    if Join(a) == Join(b) { JoinInjective(a, b); }
  }

  const BUSYBOX: seq<string> := ["bin", "busybox"]

  lemma AppletNotBusybox(name: string)
    requires ShortPlain("bin") && ShortPlain("busybox") && ShortPlain(name) && name != "busybox"
    ensures Applet(name).name != Join(BUSYBOX)
  {
    assert BUSYBOX[1] != ["bin", name][1];
    JoinDiffers(["bin", name], BUSYBOX);
  }

  lemma BusyboxEntry(busybox: seq<Byte>, init: seq<Byte>)
    ensures Join(BUSYBOX) in ToEntries(InitramfsTable(busybox, init))
    ensures ToEntries(InitramfsTable(busybox, init))[Join(BUSYBOX)] == Entry(0x81ed, busybox, 0, 0)
  {
    var table := InitramfsTable(busybox, init);
    OthersNotBusybox();
    hide Join, ToEntries;
    assert table[6].name == Join(BUSYBOX) && table[6].entry == Entry(0x81ed, busybox, 0, 0);
    LookupLast(table, 6);
  }

  /** Parsing a base image within the limit yields the busybox it was built with. */
  lemma BusyboxRecovered(busybox: seq<Byte>, init: seq<Byte>)
    ensures var parsed := Parse(BaseImage(busybox, init));
            |BaseImage(busybox, init)| <= ARCHIVE_LIMIT ==>
              parsed.Ok? && Join(BUSYBOX) in parsed.value && parsed.value[Join(BUSYBOX)].body == busybox
  {
    hide Parse, InitramfsTable, Image, ToEntries, Join;
    InitramfsSound(busybox, init);
    EmittersAgree(InitramfsTable(busybox, init));
    BusyboxEntry(busybox, init);
  }

  lemma OthersNotBusybox()
    ensures Join(["init"]) != Join(BUSYBOX) && CONSOLE.name != Join(BUSYBOX) && NULL.name != Join(BUSYBOX)
    ensures Applet("sh").name != Join(BUSYBOX) && Applet("mount").name != Join(BUSYBOX) && Applet("uname").name != Join(BUSYBOX)
    ensures Applet("cat").name != Join(BUSYBOX) && Applet("head").name != Join(BUSYBOX)
    ensures Applet("sleep").name != Join(BUSYBOX) && Applet("awk").name != Join(BUSYBOX)
  {
    ShortDirectories();
    ShortFiles();
    ShortApplets();
    ShortMoreApplets();
    hide Join, ShortPlain;
    AppletNotBusybox("sh");
    AppletNotBusybox("mount");
    AppletNotBusybox("uname");
    AppletNotBusybox("cat");
    AppletNotBusybox("head");
    AppletNotBusybox("sleep");
    AppletNotBusybox("awk");
    OutsideBin();
  }

  lemma OutsideBin()
    ensures Join(["init"]) != Join(BUSYBOX) && Join(["dev", "console"]) != Join(BUSYBOX) && Join(["dev", "null"]) != Join(BUSYBOX)
  {
    ShortDirectories();
    ShortFiles();
    hide Join;
    JoinDiffers(["init"], BUSYBOX);
    assert ["dev", "console"][0] != BUSYBOX[0] && ["dev", "null"][0] != BUSYBOX[0];
    JoinDiffers(["dev", "console"], BUSYBOX);
    JoinDiffers(["dev", "null"], BUSYBOX);
  }

  // ---------------------------------------------------------------------------------------------
  // What the images hold, and where
  // ---------------------------------------------------------------------------------------------

  /** The entries that are no files: directories (0o40755), applets as links to busybox (0o120777), and the two devices. */
  lemma OtherEntries(parts: seq<string>, name: string)
    ensures Directory(parts) == Item(Join(parts), Entry(0x41ed, [], 0, 0)) && IsAscii("busybox")
    ensures Applet(name) == Item(Join(["bin", name]), Entry(0xa1ff, Encode("busybox"), 0, 0))
    ensures ROOT == Item(".", Entry(0x41ed, [], 0, 0)) && TMP == Item(Join(["tmp"]), Entry(0x43ff, [], 0, 0))
    ensures CONSOLE == Item(Join(["dev", "console"]), Entry(0x2180, [], 5, 1))
    ensures NULL == Item(Join(["dev", "null"]), Entry(0x21b6, [], 1, 3))
  {
    hide Join;
    assert Encode("busybox") == [0x62, 0x75, 0x73, 0x79, 0x62, 0x6f, 0x78];
  }

  ghost predicate HasFile(table: seq<Item>, parts: seq<string>, mode: int, body: seq<Byte>) {
    Join(parts) in ToEntries(table) && ToEntries(table)[Join(parts)] == Entry(mode, body, 0, 0)
  }

  lemma AppletElsewhere(parts: seq<string>, name: string)
    requires ShortPlain("bin") && ShortPlain(name) && parts != [] && AllPlain(parts) && parts != ["bin", name]
    ensures Applet(name).name != Join(parts)
  {
    hide Join;
    JoinDiffers(["bin", name], parts);
  }

  lemma AppletsElsewhere(parts: seq<string>)
    requires parts != [] && AllPlain(parts) && (|parts| == 1 || |parts[1]| > 8)
    ensures Applet("sh").name != Join(parts) && Applet("mount").name != Join(parts) && Applet("uname").name != Join(parts)
    ensures Applet("cat").name != Join(parts) && Applet("head").name != Join(parts) && Applet("sleep").name != Join(parts)
    ensures Applet("awk").name != Join(parts) && Applet("insmod").name != Join(parts)
    ensures Applet("readlink").name != Join(parts)
  {
    ShortDirectories();
    ShortApplets();
    ShortMoreApplets();
    hide Join, ShortPlain, Applet, AllPlain;
    AppletElsewhere(parts, "sh");
    AppletElsewhere(parts, "mount");
    AppletElsewhere(parts, "uname");
    AppletElsewhere(parts, "cat");
    AppletElsewhere(parts, "head");
    AppletElsewhere(parts, "sleep");
    AppletElsewhere(parts, "awk");
    AppletElsewhere(parts, "insmod");
    AppletElsewhere(parts, "readlink");
  }

  lemma DevicesElsewhere(parts: seq<string>)
    requires parts != [] && AllPlain(parts) && parts[0] != "dev"
    ensures CONSOLE.name != Join(parts) && NULL.name != Join(parts)
  {
    ShortDirectories();
    ShortFiles();
    hide Join;
    assert ["dev", "console"][0] != parts[0] && ["dev", "null"][0] != parts[0];
    JoinDiffers(["dev", "console"], parts);
    JoinDiffers(["dev", "null"], parts);
  }

  function ModulePath(file: string): seq<string> {
    ["lib", "modules", RELEASE, file]
  }

  lemma ModulePathPlain(file: string)
    requires ShortPlain(file)
    ensures AllPlain(ModulePath(file)) && ModulePath(file) != [] && ModulePath(file)[0] == "lib" && ModulePath(file)[3] == file
  {
    ShortHelper();
    ShortModules();
  }

  lemma ModulesElsewhere(parts: seq<string>)
    requires parts != [] && AllPlain(parts) && parts[0] != "lib"
    ensures Join(ModulePath("i2c-dev.ko")) != Join(parts) && Join(ModulePath("i2c-rk3x.ko")) != Join(parts)
  {
    ShortModules();
    hide Join, ShortPlain, ModulePath;
    ModulePathPlain("i2c-dev.ko");
    ModulePathPlain("i2c-rk3x.ko");
    JoinDiffers(ModulePath("i2c-dev.ko"), parts);
    JoinDiffers(ModulePath("i2c-rk3x.ko"), parts);
  }

  lemma ModulesApart()
    ensures Join(ModulePath("i2c-rk3x.ko")) != Join(ModulePath("i2c-dev.ko"))
    ensures CONSOLE.name != Join(ModulePath("i2c-dev.ko")) && NULL.name != Join(ModulePath("i2c-dev.ko"))
    ensures CONSOLE.name != Join(ModulePath("i2c-rk3x.ko")) && NULL.name != Join(ModulePath("i2c-rk3x.ko"))
  {
    ShortModules();
    hide Join, ShortPlain, ModulePath;
    ModulePathPlain("i2c-dev.ko");
    ModulePathPlain("i2c-rk3x.ko");
    JoinDiffers(ModulePath("i2c-rk3x.ko"), ModulePath("i2c-dev.ko"));
    DevicesElsewhere(ModulePath("i2c-dev.ko"));
    DevicesElsewhere(ModulePath("i2c-rk3x.ko"));
  }

  /** `init` at the root and busybox under `bin`, both executable (0o100755). */
  lemma InitramfsFiles(busybox: seq<Byte>, init: seq<Byte>)
    ensures HasFile(InitramfsTable(busybox, init), ["init"], 0x81ed, init)
    ensures HasFile(InitramfsTable(busybox, init), ["bin", "busybox"], 0x81ed, busybox)
  {
    InitInPlace(busybox, init);
    BusyboxEntry(busybox, init);
  }

  lemma InitInPlace(busybox: seq<Byte>, init: seq<Byte>)
    ensures HasFile(InitramfsTable(busybox, init), ["init"], 0x81ed, init)
  {
    var table := InitramfsTable(busybox, init);
    PlainInit();
    AppletsElsewhere(["init"]);
    DevicesElsewhere(["init"]);
    hide Join, ToEntries, Applet, Device, Directory;
    LookupLast(table, 7);
  }

  lemma PlainInit()
    ensures AllPlain(["init"]) && ["init"][0] != "dev"
  {
    ShortFiles();
  }

  /** Each driver under its own name (0o100644). */
  lemma ModuleFiles(dev: seq<Byte>, rk3x: seq<Byte>)
    ensures HasFile(ModuleTable(dev, rk3x), ModulePath("i2c-dev.ko"), 0x81a4, dev)
    ensures HasFile(ModuleTable(dev, rk3x), ModulePath("i2c-rk3x.ko"), 0x81a4, rk3x)
  {
    var table := ModuleTable(dev, rk3x);
    ModulesApart();
    hide Join, ToEntries;
    LookupLast(table, 4);
    LookupLast(table, 5);
  }

  lemma BasketFiles(busybox: seq<Byte>, init: seq<Byte>, helper: seq<Byte>, dev: seq<Byte>, rk3x: seq<Byte>)
    ensures var table := BasketTable(busybox, init, helper, dev, rk3x);
            && HasFile(table, ["init"], 0x81ed, init) && HasFile(table, ["bin", "basket-helper"], 0x81ed, helper)
            && HasFile(table, ModulePath("i2c-dev.ko"), 0x81a4, dev) && HasFile(table, ModulePath("i2c-rk3x.ko"), 0x81a4, rk3x)
  {
    var table := BasketTable(busybox, init, helper, dev, rk3x);
    ShortFiles();
    ShortDirectories();
    ShortHelper();
    hide ShortPlain, Join;
    JoinDiffers(["init"], ["bin", "basket-helper"]);
    AppletsElsewhere(["init"]);
    DevicesElsewhere(["init"]);
    ModulesElsewhere(["init"]);
    AppletsElsewhere(["bin", "basket-helper"]);
    DevicesElsewhere(["bin", "basket-helper"]);
    ModulesElsewhere(["bin", "basket-helper"]);
    ModulesApart();
    hide Join, ToEntries, Applet, Device, Directory;
    LookupLast(table, 11);
    LookupLast(table, 10);
    LookupLast(table, 21);
    LookupLast(table, 22);
  }

  /** The strict test of the original base archive in `prepare`: parse it, take out busybox, build the image again and
      compare. It accepts exactly the images `initramfs` writes for this init within the byte limit, and recovers the
      busybox that went in. */
  method CheckBaseArchive(data: seq<Byte>, init: seq<Byte>) returns (r: Result<seq<Byte>, ImageFault>)
    ensures r.Ok? ==> data == BaseImage(r.value, init) && |data| <= ARCHIVE_LIMIT
    ensures forall b :: data == BaseImage(b, init) && |data| <= ARCHIVE_LIMIT ==> r == Ok(b)
  {
    hide Parse, Image, InitramfsTable;
    BaseParses(data, init);
    var records := ParseNewc(data);
    if records.Err? { return Err(WrongArchive(records.error)); }
    if Join(BUSYBOX) !in records.value { return Err(NoBusybox); }
    var busybox := records.value[Join(BUSYBOX)].body;
    var again := Initramfs(busybox, init);
    if again != data { return Err(NotCanonical); }
    ParsedIsBounded(data);
    r := Ok(busybox);
  }

  lemma ParsedIsBounded(data: seq<Byte>)
    requires Parse(data).Ok?
    ensures |data| <= ARCHIVE_LIMIT
  {
  }

  lemma BaseParses(data: seq<Byte>, init: seq<Byte>)
    ensures forall b :: data == BaseImage(b, init) && |data| <= ARCHIVE_LIMIT ==>
              Parse(data).Ok? && Join(BUSYBOX) in Parse(data).value && Parse(data).value[Join(BUSYBOX)].body == b
  {
    hide Parse, BaseImage, Join;
    forall b | data == BaseImage(b, init) && |data| <= ARCHIVE_LIMIT
      ensures Parse(data).Ok? && Join(BUSYBOX) in Parse(data).value && Parse(data).value[Join(BUSYBOX)].body == b
    {
      BusyboxRecovered(b, init);
    }
  }
}
