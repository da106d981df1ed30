/** Device selection in `FakeUSBTesterApp`: the removable-disk filter of
    `_load_disks` over decoded `lsblk --json -b` records, the "path (size)"
    entries of the drive list, and how a selected entry is read back by
    `_on_disk_selected` and `_get_selected_disk_path`. */
module Disks {
  import opened Options
  import opened Text

  /** One decoded `blockdevices` record. `removable` is true exactly when the
      record's "rm" is the JSON value true. */
  datatype BlockDevice = BlockDevice(name: string, kind: Option<string>, removable: bool,
                                     size: nat, mountpoint: Option<string>)

  /** A listed disk: its device path and its size as shown. */
  datatype Disk = Disk(path: string, sizeText: string)

  function DevicePath(d: BlockDevice): (r: string)
    ensures StartsWith(r, "/dev/")
  {
    "/dev/" + d.name
  }

  /** The mount point test: unmounted, or mounted neither at "/" nor under a
      "/boot" prefix. */
  predicate SafeMount(mountpoint: Option<string>) {
    match mountpoint
    case None => true
    case Some(m) => m != "/" && !StartsWith(m, "/boot")
  }

  /** Loop, RAM and md-RAID devices are never offered. */
  predicate VirtualPath(path: string) {
    StartsWith(path, "/dev/loop") || StartsWith(path, "/dev/ram") || StartsWith(path, "/dev/md")
  }

  /** Whether `_load_disks` lists the record. */
  predicate Listed(d: BlockDevice) {
    && d.kind == Some("disk") && d.removable
    && SafeMount(d.mountpoint)
    && !VirtualPath(DevicePath(d))
  }

  /** The listed disks, in input order; `human` renders a byte count. */
  function RemovableDisks(devices: seq<BlockDevice>, human: nat -> string): (r: seq<Disk>)
    ensures |r| <= |devices|
    ensures forall k :: 0 <= k < |r| ==> exists i :: (0 <= i < |devices| && Listed(devices[i])
      && r[k] == Disk(DevicePath(devices[i]), human(devices[i].size)))
    decreases |devices|
  {
    if |devices| == 0 then []
    else
      var n := |devices| - 1;
      var prev := RemovableDisks(devices[..n], human);
      var d := devices[n];
      assert forall i :: 0 <= i < n ==> devices[..n][i] == devices[i];
      if Listed(d) then prev + [Disk(DevicePath(d), human(d.size))] else prev
  }

  /** The filter distributes over concatenation. */
  lemma {:induction false} RemovableDisksAppend(a: seq<BlockDevice>, b: seq<BlockDevice>, human: nat -> string)
    ensures RemovableDisks(a + b, human) == RemovableDisks(a, human) + RemovableDisks(b, human)
    decreases |b|
  {
    if |b| == 0 {
      assert a + b == a;
    } else {
      var n := |b| - 1;
      assert (a + b)[..|a + b| - 1] == a + b[..n];
      assert (a + b)[|a + b| - 1] == b[n];
      RemovableDisksAppend(a, b[..n], human);
    }
  }

  /** A single record is listed exactly when the filter accepts it. */
  lemma RemovableDisksOne(d: BlockDevice, human: nat -> string)
    ensures RemovableDisks([d], human) == if Listed(d) then [Disk(DevicePath(d), human(d.size))] else []
  {
    assert [d][..0] == [];
  }

  /** Every listed record appears in the result, and nothing else does. */
  lemma {:induction false} ListedExactly(devices: seq<BlockDevice>, human: nat -> string, d: BlockDevice)
    requires d in devices
    ensures Listed(d) ==> Disk(DevicePath(d), human(d.size)) in RemovableDisks(devices, human)
    decreases |devices|
  {
    var n := |devices| - 1;
    assert devices == devices[..n] + [devices[n]];
    RemovableDisksAppend(devices[..n], [devices[n]], human);
    RemovableDisksOne(devices[n], human);
    if d != devices[n] {
      ListedExactly(devices[..n], human, d);
    }
  }

  /** The drive-list entry `f"{disk_path} ({disk_size_hr})"`. */
  function Entry(disk: Disk): string {
    disk.path + " (" + disk.sizeText + ")"
  }

  /** The drive list: the entries, or the placeholder when no disk is listed. */
  function ComboItems(disks: seq<Disk>, placeholder: string): (items: seq<string>)
    ensures |items| == if |disks| == 0 then 1 else |disks|
    ensures |disks| == 0 ==> items == [placeholder]
    ensures forall k :: 0 <= k < |disks| ==> items[k] == Entry(disks[k])
  {
    if |disks| == 0 then [placeholder] else seq(|disks|, k requires 0 <= k < |disks| => Entry(disks[k]))
  }

  /** Why the selected entry names no disk. */
  datatype SelectionError = NoSelection | InvalidSelection

  /** Nothing or the placeholder is selected. */
  predicate Unselected(text: string, placeholder: string) {
    |text| == 0 || Contains(text, placeholder)
  }

  /** `_get_selected_disk_path`: the first space-separated token of the
      selection, accepted only when it is a /dev/ path. */
  function SelectedPath(text: string, placeholder: string): (r: Result<string, SelectionError>)
    ensures Unselected(text, placeholder) <==> r == Failure(NoSelection)
    ensures r.Success? ==> StartsWith(r.value, "/dev/") && ' ' !in r.value && StartsWith(text, r.value)
    ensures r.Success? ==> r.value == text || StartsWith(text, r.value + " ")
    ensures r.Success? <==> !Unselected(text, placeholder) && StartsWith(text, "/dev/")
  {
    if Unselected(text, placeholder) then Failure(NoSelection)
    else
      var path := BeforeFirst(text, " ");
      ContainsChar(path, ' ');
      DevPrefixKept(text);
      if StartsWith(path, "/dev/") then Success(path) else Failure(InvalidSelection)
  }

  /** A selection that starts with "/dev/" keeps it in its first token. */
  lemma DevPrefixKept(text: string)
    ensures StartsWith(text, "/dev/") ==> StartsWith(BeforeFirst(text, " "), "/dev/")
  {
    if StartsWith(text, "/dev/") {
      assert ' ' !in "/dev/";
      PrefixBeforeSpace(text, "/dev/");
    }
  }

  /** `_on_disk_selected`: the device path (first space-separated token) and the
      size text (after the last '(', with ')' removed, trimmed), or None when
      nothing is selected. */
  function SelectionInfo(text: string, placeholder: string): (r: Option<(string, string)>)
    ensures r.None? <==> Unselected(text, placeholder)
    ensures r.Some? ==> ' ' !in r.value.0 && StartsWith(text, r.value.0)
    ensures r.Some? ==> r.value.0 == text || StartsWith(text, r.value.0 + " ")
    ensures r.Some? ==> '(' !in r.value.1 && ')' !in r.value.1 && Trimmed(r.value.1)
  {
    if Unselected(text, placeholder) then None
    else
      var path := BeforeFirst(text, " ");
      ContainsChar(path, ' ');
      var size := Strip(RemoveChar(AfterLast(text, '('), ')'));
      Some((path, size))
  }

  // ---- round trips ----

  /** The first token of an entry is its path, when the path holds no space. */
  lemma EntryPath(disk: Disk)
    requires ' ' !in disk.path
    ensures BeforeFirst(Entry(disk), " ") == disk.path
  {
    assert Entry(disk) == disk.path + " " + ("(" + disk.sizeText + ")");
    FindAfter(disk.path, " ", "(" + disk.sizeText + ")");
  }

  /** The size part of an entry is its size text, when that text is trimmed and
      holds no parentheses. */
  lemma EntrySize(disk: Disk)
    requires '(' !in disk.sizeText && ')' !in disk.sizeText && Trimmed(disk.sizeText)
    ensures Strip(RemoveChar(AfterLast(Entry(disk), '('), ')')) == disk.sizeText
  {
    assert Entry(disk) == (disk.path + " ") + ['('] + (disk.sizeText + ")");
    assert '(' !in disk.sizeText + ")";
    AfterLastOf(disk.path + " ", '(', disk.sizeText + ")");
    RemoveLast(disk.sizeText, ')');
    StripTrimmed(disk.sizeText);
  }

  /** Removing a character that only ends the text drops that last character. */
  lemma {:induction false} RemoveLast(s: string, c: char)
    requires c !in s
    ensures RemoveChar(s + [c], c) == s
    decreases |s|
  {
    if |s| == 0 {
      assert RemoveChar([c], c) == [] + RemoveChar([], c);
    } else {
      assert (s + [c])[1..] == s[1..] + [c];
      RemoveLast(s[1..], c);
      assert s == [s[0]] + s[1..];
    }
  }

  /** Selecting the entry of a listed disk gives back its path. */
  lemma SelectListed(d: BlockDevice, human: nat -> string, placeholder: string)
    requires ' ' !in d.name
    requires !Contains(Entry(Disk(DevicePath(d), human(d.size))), placeholder)
    ensures SelectedPath(Entry(Disk(DevicePath(d), human(d.size))), placeholder) == Success(DevicePath(d))
  {
    var disk := Disk(DevicePath(d), human(d.size));
    assert ' ' !in DevicePath(d);
    EntryPath(disk);
  }

  /** Selecting the entry of a disk gives back its path and size text. */
  lemma SelectionRoundTrip(disk: Disk, placeholder: string)
    requires ' ' !in disk.path
    requires '(' !in disk.sizeText && ')' !in disk.sizeText && Trimmed(disk.sizeText)
    requires !Contains(Entry(disk), placeholder)
    ensures SelectionInfo(Entry(disk), placeholder) == Some((disk.path, disk.sizeText))
  {
    EntryPath(disk);
    EntrySize(disk);
  }
}
