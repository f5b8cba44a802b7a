/** The store service: the in-memory inventory, the inventory file it is
    kept in, and the recovery paths around that file (format repair, the
    ".bak" backup, the built-in ten-product inventory and the in-memory
    sample). The behaviour of each file operation is first stated as a
    function of the disk; the `StoreService` class then performs it step by
    step and is proved to agree with that function. */
module Store {
  import opened Wrappers
  import opened Text
  import opened Decimals
  import opened Dates
  import opened Json
  import opened Products
  import opened Disk
  import opened Codec
  import opened Catalog

  const BackupSuffix: string := ".bak"
  const EmergencySuffix: string := ".emergency.bak"
  const MissingTypeSuffix: string := ".missing-type.bak"

  /** The inventory together with the disk it lives on. */
  datatype State = State(inventory: seq<Record>, disk: Disk<FileData>)

  /** The array an inventory file holds, when it can be read and parses to one. */
  function ReadItems(d: Disk<FileData>, p: Path): (r: Option<seq<Json>>)
    ensures r.Some? <==> Read(d, p).Some? && Read(d, p).value.tree.Some? && Read(d, p).value.tree.value.JArr?
    ensures r.Some? ==> r.value == Read(d, p).value.tree.value.items
  {
    match Read(d, p)
    case None => None
    case Some(f) =>
      match f.tree
      case None => None
      case Some(t) => if t.JArr? then Some(t.items) else None
  }

  // ---------------------------------------------------------------------
  // saveInventory
  // ---------------------------------------------------------------------

  /** `saveInventory` on disk `d`: a non-empty inventory is written as its
      encoding (the disk is unchanged when the write throws); an empty one is
      never written, but when the file holds more than 10 bytes it is
      first copied to "<file>.emergency.bak". */
  function SavedDisk(inv: seq<Record>, d: Disk<FileData>, p: Path): (r: Disk<FileData>)
    ensures r.unreadable == d.unreadable && r.unwritable == d.unwritable
    ensures forall q :: q != p && q != p + EmergencySuffix ==> (q in r.files <==> q in d.files)
    ensures forall q :: q != p && q != p + EmergencySuffix && q in d.files ==> r.files[q] == d.files[q]
    ensures |inv| > 0 && p !in d.unwritable ==> r.files == d.files[p := WrittenFile(EncodeAll(inv))]
    ensures |inv| > 0 && p in d.unwritable ==> r == d
    ensures |inv| == 0 ==> r.files.Keys - {p + EmergencySuffix} == d.files.Keys - {p + EmergencySuffix}
  {
    if |inv| == 0 then
      if Exists(d, p) && d.files[p].large then
        match Copy(d, p, p + EmergencySuffix)
        case Some(d1) => d1
        case None => d
      else d
    else
      match Write(d, p, WrittenFile(EncodeAll(inv)))
      case Some(d1) => d1
      case None => d
  }

  /** Saving an empty inventory never touches the inventory file; the only
      file it may change is the emergency copy, which then holds the
      inventory file's content. */
  lemma SaveEmptyKeepsFile(d: Disk<FileData>, p: Path)
    ensures Exists(SavedDisk([], d, p), p) == Exists(d, p)
    ensures Exists(d, p) ==> SavedDisk([], d, p).files[p] == d.files[p]
    ensures var r := SavedDisk([], d, p);
      r != d ==> Exists(d, p) && d.files[p].large && r.files == d.files[p + EmergencySuffix := d.files[p]]
  {
    assert p != p + EmergencySuffix by {
      assert |p| != |p + EmergencySuffix|;
    }
  }

  // ---------------------------------------------------------------------
  // fixInventoryFileFormat
  // ---------------------------------------------------------------------

  /** `fixInventoryFileFormat` on disk `d`: false when the file cannot be
      read or parsed or is not an array; true and no change when every
      element has a `type`; otherwise the file is copied to
      "<file>.missing-type.bak" and rewritten with every element repaired,
      the answer being false when either step throws. */
  function FixFormat(d: Disk<FileData>, p: Path): (bool, Disk<FileData>) {
    match ReadItems(d, p)
    case None => (false, d)
    case Some(items) =>
      if !NeedsType(items) then (true, d)
      else
        match Copy(d, p, p + MissingTypeSuffix)
        case None => (false, d)
        case Some(d1) =>
          match Write(d1, p, WrittenFile(FixItems(items)))
          case None => (false, d1)
          case Some(d2) => (true, d2)
  }

  /** A repair that goes through keeps the original under
      "<file>.missing-type.bak", leaves every element with a `type`, and
      changes nothing the loader decodes; a second repair changes nothing. */
  lemma FixFormatRepairs(d: Disk<FileData>, p: Path, errorName: string)
    requires ReadItems(d, p).Some? && NeedsType(ReadItems(d, p).value)
    requires p !in d.unwritable && p + MissingTypeSuffix !in d.unwritable
    ensures var (ok, d2) := FixFormat(d, p);
      ok && d2.files[p + MissingTypeSuffix] == d.files[p] &&
      d2.files[p] == WrittenFile(FixItems(ReadItems(d, p).value)) &&
      ReadItems(d2, p).Some? && !NeedsType(ReadItems(d2, p).value) &&
      DecodeAll(ReadItems(d2, p).value, errorName) == DecodeAll(ReadItems(d, p).value, errorName) &&
      FixFormat(d2, p) == (true, d2)
  {
    var items := ReadItems(d, p).value;
    var d2 := FixFormat(d, p).1;
    assert p != p + MissingTypeSuffix by {
      assert |p| != |p + MissingTypeSuffix|;
    }
    FixItemsComplete(items);
    DecodeFixItems(items, errorName);
    assert ReadItems(d2, p) == Some(FixItems(items));
  }

  /** A file whose elements all carry `type`, or that is not an array of
      elements at all, is left as it is. */
  lemma FixFormatNoop(d: Disk<FileData>, p: Path)
    requires ReadItems(d, p).None? || !NeedsType(ReadItems(d, p).value)
    ensures FixFormat(d, p) == (ReadItems(d, p).Some?, d)
  {
  }

  // ---------------------------------------------------------------------
  // createEmptyInventory, tryRestoreFromBackup, loadInventory
  // ---------------------------------------------------------------------

  /** `createEmptyInventory`: the ten-product file is written over the
      inventory file and read back, giving its ten entries; when the write
      or the read throws the inventory is the in-memory sample. (Reading the
      freshly written array back never throws: `CreateEmptyReadsBack`.) */
  function CreateEmpty(d: Disk<FileData>, p: Path): (s: State)
    ensures |s.inventory| > 0
  {
    match Write(d, p, TenProductFile)
    case None => State(SampleRecords, d)
    case Some(d1) => if Read(d1, p).None? then State(SampleRecords, d1) else State(TenProductRecords, d1)
  }

  /** The entries `CreateEmpty` keeps after a successful write are exactly
      what the strict decoder reads back from the file written. */
  lemma CreateEmptyReadsBack(d: Disk<FileData>, p: Path)
    requires p !in d.unwritable && p !in d.unreadable
    ensures ReadItems(CreateEmpty(d, p).disk, p) == Some(TenProductItems)
    ensures DecodeStrictAll(TenProductItems) == Some(CreateEmpty(d, p).inventory)
  {
    TenProductFileDecodes(LoadErrorName);
  }

  /** `tryRestoreFromBackup`: when "<file>.bak" exists, can be read and
      holds an array, its elements are decoded defensively ("Backup Error
      Product" for a failed element) and saved over the inventory file;
      otherwise `createEmptyInventory`. */
  function Restore(d: Disk<FileData>, p: Path): State {
    var b := p + BackupSuffix;
    if !Exists(d, b) then CreateEmpty(d, p)
    else
      match ReadItems(d, b)
      case None => CreateEmpty(d, p)
      case Some(items) =>
        var recs := DecodeAll(items, RestoreErrorName);
        State(recs, SavedDisk(recs, d, p))
  }

  /** `loadInventory` on disk `d`: with no inventory file the inventory is
      empty and nothing is written; otherwise the file is repaired, then
      read: an array is decoded defensively ("Error Product" for a failed
      element), any other tree falls back to `createEmptyInventory`, and a
      read or parse failure to `tryRestoreFromBackup`. */
  function Load(d: Disk<FileData>, p: Path): State {
    if !Exists(d, p) then State([], SavedDisk([], d, p))
    else
      var d1 := FixFormat(d, p).1;
      match Read(d1, p)
      case None => Restore(d1, p)
      case Some(f) =>
        match f.tree
        case None => Restore(d1, p)
        case Some(t) =>
          if t.JArr? then State(DecodeAll(t.items, LoadErrorName), d1) else CreateEmpty(d1, p)
  }

  /** With no inventory file there is nothing to load and nothing changes. */
  lemma LoadMissingFile(d: Disk<FileData>, p: Path)
    requires !Exists(d, p)
    ensures Load(d, p) == State([], d)
  {
  }

  /** What `saveInventory` writes, `loadInventory` reads back unchanged, and
      loading it changes no file. */
  lemma SaveThenLoad(inv: seq<Record>, d: Disk<FileData>, p: Path)
    requires |inv| > 0 && p !in d.unwritable && p !in d.unreadable
    ensures Load(SavedDisk(inv, d, p), p) == State(inv, SavedDisk(inv, d, p))
  {
    var d1 := SavedDisk(inv, d, p);
    assert ReadItems(d1, p) == Some(EncodeAll(inv));
    EncodedNeedsNoType(inv);
    DecodeEncodeAll(inv, LoadErrorName);
  }

  /** Removing the last entry saves nothing, so the entry written by the
      previous save is back after the next load. */
  lemma LastRemovalUndoneByLoad(r: Record, d: Disk<FileData>, p: Path)
    requires p !in d.unwritable && p !in d.unreadable
    ensures var saved := SavedDisk([r], d, p);
      Load(SavedDisk([], saved, p), p).inventory == [r]
  {
    var saved := SavedDisk([r], d, p);
    SaveEmptyKeepsFile(saved, p);
    var d2 := SavedDisk([], saved, p);
    assert ReadItems(d2, p) == Some(EncodeAll([r]));
    EncodedNeedsNoType([r]);
    DecodeEncodeAll([r], LoadErrorName);
  }

  /** A file whose elements lack `type` loads as the same entries as if they
      had it; the repaired file is what stays on disk. */
  lemma LoadRepairedFile(d: Disk<FileData>, p: Path)
    requires ReadItems(d, p).Some? && NeedsType(ReadItems(d, p).value)
    requires p !in d.unwritable && p + MissingTypeSuffix !in d.unwritable
    ensures Load(d, p) == State(DecodeAll(ReadItems(d, p).value, LoadErrorName), FixFormat(d, p).1)
  {
    FixFormatRepairs(d, p, LoadErrorName);
  }

  /** A file that is not JSON, with no backup beside it, is replaced by the
      ten-product file and those ten entries are loaded. */
  lemma CorruptFileWithoutBackup(d: Disk<FileData>, p: Path)
    requires p in d.files && p !in d.unreadable && p !in d.unwritable
    requires d.files[p].tree.None? && p + BackupSuffix !in d.files
    ensures Load(d, p) == State(TenProductRecords, d.(files := d.files[p := TenProductFile]))
  {
  }

  /** A file that is not JSON is recovered from a readable backup array; the
      recovered entries are written back over the file when there are any. */
  lemma CorruptFileWithBackup(d: Disk<FileData>, p: Path)
    requires p in d.files && p !in d.unreadable && d.files[p].tree.None?
    requires ReadItems(d, p + BackupSuffix).Some?
    ensures var recs := DecodeAll(ReadItems(d, p + BackupSuffix).value, RestoreErrorName);
      Load(d, p) == State(recs, SavedDisk(recs, d, p))
  {
  }

  // ---------------------------------------------------------------------
  // saveAndCloseInventory, setupUserInventoryFile
  // ---------------------------------------------------------------------

  /** `saveAndCloseInventory`: an empty inventory does not touch a file of
      more than 10 bytes that parses to a non-empty array; in every
      other case it is `saveInventory`. */
  function SaveAndClose(inv: seq<Record>, d: Disk<FileData>, p: Path): Disk<FileData> {
    if |inv| == 0 && Exists(d, p) && d.files[p].large && ReadItems(d, p).Some? && |ReadItems(d, p).value| > 0 then d
    else SavedDisk(inv, d, p)
  }

  /** Closing never writes over the inventory file with an empty inventory,
      and with entries it writes them. */
  lemma SaveAndCloseKeepsData(inv: seq<Record>, d: Disk<FileData>, p: Path)
    ensures |inv| == 0 && Exists(d, p) ==> SaveAndClose(inv, d, p).files[p] == d.files[p]
    ensures |inv| > 0 && p !in d.unwritable ==> SaveAndClose(inv, d, p).files[p] == WrittenFile(EncodeAll(inv))
  {
    if |inv| == 0 {
      SaveEmptyKeepsFile(d, p);
    }
  }

  /** `setupUserInventoryFile`: an existing file is used as it is; otherwise
      the ten-product file is written, with the two-product file as the
      fallback when that write throws. */
  function Setup(d: Disk<FileData>, p: Path): Disk<FileData> {
    if Exists(d, p) then d
    else
      match Write(d, p, TenProductFile)
      case Some(d1) => d1
      case None =>
        match Write(d, p, MinimalFile)
        case Some(d2) => d2
        case None => d
  }

  /** On a first start the ten-product file is created and its ten entries
      are what the service starts with. */
  lemma FirstStartLoadsTenProducts(d: Disk<FileData>, p: Path)
    requires !Exists(d, p) && p !in d.unwritable && p !in d.unreadable
    ensures Setup(d, p).files == d.files[p := TenProductFile]
    ensures Load(Setup(d, p), p).inventory == TenProductRecords
  {
    var d1 := Setup(d, p);
    assert ReadItems(d1, p) == Some(TenProductItems);
    TenProductFileDecodes(LoadErrorName);
  }

  // ---------------------------------------------------------------------
  // The loops of saveInventory, loadInventory and fixInventoryFileFormat
  // ---------------------------------------------------------------------

  /** The `productNodes` array `saveInventory` fills, one node per entry. */
  method BuildProductNodes(inv: seq<Record>) returns (nodes: seq<Json>)
    ensures nodes == EncodeAll(inv)
  {
    var a := new Json[|inv|](_ => JNull);
    var i := 0;
    while i < |inv|
      invariant 0 <= i <= |inv|
      invariant Filled(a[..], inv, i)
    {
      ghost var before := a[..];
      a[i] := EncodeRecord(inv[i]);
      assert a[..] == before[i := EncodeRecord(inv[i])];
      FillStep(before, inv, i);
      i := i + 1;
    }
    nodes := a[..];
    FilledAll(nodes, inv);
  }

  /** The first `i` nodes are those of the first `i` entries. */
  predicate Filled(nodes: seq<Json>, inv: seq<Record>, i: nat) {
    |nodes| == |inv| && i <= |inv| && forall j :: 0 <= j < i ==> nodes[j] == EncodeRecord(inv[j])
  }

  lemma FillStep(before: seq<Json>, inv: seq<Record>, i: nat)
    requires Filled(before, inv, i) && i < |inv|
    ensures Filled(before[i := EncodeRecord(inv[i])], inv, i + 1)
  {
  }

  lemma FilledAll(nodes: seq<Json>, inv: seq<Record>)
    requires Filled(nodes, inv, |inv|)
    ensures nodes == EncodeAll(inv)
  {
  }

  /** The defensive decoding loop of `loadInventory` and `tryRestoreFromBackup`. */
  method DecodeItems(items: seq<Json>, errorName: string) returns (recs: seq<Record>)
    ensures recs == DecodeAll(items, errorName)
  {
    recs := [];
    var i := 0;
    while i < |items|
      invariant 0 <= i <= |items|
      invariant |recs| == i
      invariant forall j :: 0 <= j < i ==> recs[j] == DecodeRecord(items[j], errorName)
    {
      var r := DecodeRecord(items[i], errorName);
      DecodedSnoc(items, errorName, recs, r);
      recs := recs + [r];
      i := i + 1;
    }
    assert recs == DecodeAll(items, errorName);
  }

  /** One more decoded element keeps the decoded prefix in step. */
  lemma DecodedSnoc(items: seq<Json>, errorName: string, recs: seq<Record>, r: Record)
    requires |recs| < |items| && r == DecodeRecord(items[|recs|], errorName)
    requires forall j :: 0 <= j < |recs| ==> recs[j] == DecodeRecord(items[j], errorName)
    ensures forall j :: 0 <= j <= |recs| ==> (recs + [r])[j] == DecodeRecord(items[j], errorName)
  {
  }

  /** `done` in front of the entries decoded so far, if decoding went through. */
  function Prefixed(done: seq<Record>, rest: Option<seq<Record>>): Option<seq<Record>> {
    match rest
    case None => None
    case Some(rs) => Some(done + rs)
  }

  /** One element decoded strictly moves from the rest to `done`. */
  lemma StrictStep(items: seq<Json>, i: nat, done: seq<Record>)
    requires i < |items| && DecodeStrict(items[i]).Some?
    ensures Prefixed(done, DecodeStrictAll(items[i..]))
         == Prefixed(done + [DecodeStrict(items[i]).value], DecodeStrictAll(items[i + 1..]))
  {
    assert items[i..][1..] == items[i + 1..];
    var next := DecodeStrict(items[i]).value;
    var rest := DecodeStrictAll(items[i + 1..]);
    assert DecodeStrictAll(items[i..]) == Prefixed([next], rest);
    if rest.Some? {
      assert done + ([next] + rest.value) == (done + [next]) + rest.value;
    }
  }

  /** Strict decoding of a non-empty rest fails where its first element does. */
  lemma StrictStops(items: seq<Json>, i: nat, done: seq<Record>)
    requires i < |items| && DecodeStrict(items[i]).None?
    ensures Prefixed(done, DecodeStrictAll(items[i..])) == None
  {
    assert items[i..][0] == items[i];
  }

  /** The strict decoding loop of `createEmptyInventory`; None where an
      element would throw. */
  method DecodeItemsStrictly(items: seq<Json>) returns (recs: Option<seq<Record>>)
    ensures recs == DecodeStrictAll(items)
  {
    var done: seq<Record> := [];
    var i := 0;
    assert items[0..] == items;
    assert Prefixed([], DecodeStrictAll(items)) == DecodeStrictAll(items) by {
      if DecodeStrictAll(items).Some? {
        assert [] + DecodeStrictAll(items).value == DecodeStrictAll(items).value;
      }
    }
    while i < |items|
      invariant 0 <= i <= |items|
      invariant DecodeStrictAll(items) == Prefixed(done, DecodeStrictAll(items[i..]))
    {
      var next := DecodeStrict(items[i]);
      if next.None? {
        StrictStops(items, i, done);
        return None;
      }
      StrictStep(items, i, done);
      done := done + [next.value];
      i := i + 1;
    }
    assert items[i..] == [];
    assert done + [] == done;
    recs := Some(done);
  }

  /** The loop of `fixInventoryFileFormat` that looks for an element without `type`. */
  method FindMissingType(items: seq<Json>) returns (found: bool)
    ensures found == NeedsType(items)
  {
    found := false;
    var i := 0;
    while i < |items|
      invariant 0 <= i <= |items|
      invariant forall j :: 0 <= j < i ==> Has(items[j], "type")
    {
      if !Has(items[i], "type") {
        found := true;
        break;
      }
      i := i + 1;
    }
  }

  /** The `updatedItems` array `fixInventoryFileFormat` fills. */
  method BuildUpdatedItems(items: seq<Json>) returns (updated: seq<Json>)
    ensures updated == FixItems(items)
  {
    var a := new Json[|items|](_ => JNull);
    var i := 0;
    while i < |items|
      invariant 0 <= i <= |items|
      invariant forall j :: 0 <= j < i ==> a[j] == FixItem(items[j])
    {
      a[i] := FixItem(items[i]);
      i := i + 1;
    }
    updated := a[..];
  }

  // ---------------------------------------------------------------------
  // The service
  // ---------------------------------------------------------------------

  class StoreService {
    var inventory: seq<Record>
    var disk: Disk<FileData>
    const path: Path

    /** `new StoreService()`: the inventory file is set up on `d`, then loaded. */
    constructor (d: Disk<FileData>, p: Path)
      ensures path == p
      ensures State(inventory, disk) == Load(Setup(d, p), p)
    {
      path := p;
      inventory := [];
      disk := Setup(d, p);
      new;
      LoadInventory();
    }

    /** `saveInventory`. */
    method SaveInventory()
      modifies this
      ensures inventory == old(inventory)
      ensures disk == SavedDisk(inventory, old(disk), path)
    {
      if |inventory| == 0 {
        if Exists(disk, path) && disk.files[path].large {
          var copied := Copy(disk, path, path + EmergencySuffix);
          if copied.Some? {
            disk := copied.value;
          }
        }
      } else {
        var nodes := BuildProductNodes(inventory);
        var written := Write(disk, path, WrittenFile(nodes));
        if written.Some? {
          disk := written.value;
        }
      }
    }

    /** `fixInventoryFileFormat`. */
    method FixInventoryFileFormat() returns (ok: bool)
      modifies this
      ensures inventory == old(inventory)
      ensures (ok, disk) == FixFormat(old(disk), path)
    {
      var items := ReadItems(disk, path);
      if items.None? {
        return false;
      }
      var needsType := FindMissingType(items.value);
      if needsType {
        var copied := Copy(disk, path, path + MissingTypeSuffix);
        if copied.None? {
          return false;
        }
        disk := copied.value;
        var updated := BuildUpdatedItems(items.value);
        var written := Write(disk, path, WrittenFile(updated));
        if written.None? {
          return false;
        }
        disk := written.value;
      }
      ok := true;
    }

    /** `createEmptyInventory`. */
    method CreateEmptyInventory()
      modifies this
      ensures State(inventory, disk) == CreateEmpty(old(disk), path)
    {
      var written := Write(disk, path, TenProductFile);
      if written.None? {
        inventory := SampleRecords;
        return;
      }
      disk := written.value;
      var file := Read(disk, path);
      if file.None? {
        inventory := SampleRecords;
        return;
      }
      assert file.value.tree == Some(JArr(TenProductItems));
      TenProductFileDecodes(LoadErrorName);
      var recs := DecodeItemsStrictly(TenProductItems);
      match recs
      case None =>
        assert false;
      case Some(rs) =>
        inventory := rs;
    }

    /** `tryRestoreFromBackup`. */
    method TryRestoreFromBackup()
      modifies this
      ensures State(inventory, disk) == Restore(old(disk), path)
    {
      var backup := path + BackupSuffix;
      if !Exists(disk, backup) {
        CreateEmptyInventory();
        return;
      }
      var items := ReadItems(disk, backup);
      if items.None? {
        CreateEmptyInventory();
        return;
      }
      inventory := DecodeItems(items.value, RestoreErrorName);
      SaveInventory();
    }

    /** `loadInventory`. */
    method LoadInventory()
      modifies this
      ensures State(inventory, disk) == Load(old(disk), path)
    {
      if !Exists(disk, path) {
        inventory := [];
        SaveInventory();
        return;
      }
      var _ := FixInventoryFileFormat();
      var file := Read(disk, path);
      if file.None? || file.value.tree.None? {
        TryRestoreFromBackup();
      } else if file.value.tree.value.JArr? {
        inventory := DecodeItems(file.value.tree.value.items, LoadErrorName);
      } else {
        CreateEmptyInventory();
      }
    }

    /** `createDefaultInventory`: the built-in ten entries, then saved. */
    method CreateDefaultInventory()
      modifies this
      ensures inventory == DefaultRecords
      ensures disk == SavedDisk(DefaultRecords, old(disk), path)
    {
      inventory := DefaultRecords;
      SaveInventory();
    }

    /** `addProduct`: appended at the end, then saved. */
    method AddProduct(r: Record)
      modifies this
      ensures inventory == old(inventory) + [r]
      ensures disk == SavedDisk(inventory, old(disk), path)
    {
      inventory := inventory + [r];
      SaveInventory();
    }

    /** `removeProduct`: an index inside the inventory removes that entry and
      saves; any other index changes nothing and answers false. */
    method RemoveProduct(index: int) returns (removed: bool)
      modifies this
      ensures removed <==> 0 <= index < |old(inventory)|
      ensures removed ==> inventory == old(inventory)[..index] + old(inventory)[index + 1..]
      ensures removed ==> disk == SavedDisk(inventory, old(disk), path)
      ensures !removed ==> inventory == old(inventory) && disk == old(disk)
    {
      if 0 <= index < |inventory| {
        inventory := inventory[..index] + inventory[index + 1..];
        SaveInventory();
        removed := true;
      } else {
        removed := false;
      }
    }

    /** `getInventory`: a copy of the list, in order. */
    method GetInventory() returns (entries: seq<Record>)
      ensures entries == inventory
    {
      entries := inventory;
    }

    /** `saveAndCloseInventory`. */
    method SaveAndCloseInventory()
      modifies this
      ensures inventory == old(inventory)
      ensures disk == SaveAndClose(inventory, old(disk), path)
    {
      if |inventory| == 0 && Exists(disk, path) && disk.files[path].large {
        var items := ReadItems(disk, path);
        if items.Some? && |items.value| > 0 {
          return;
        }
      }
      SaveInventory();
    }

    /** `findProductByName`. */
    function FindProductByName(name: string): (r: Option<Record>)
      reads this
      ensures r.Some? <==> exists i :: 0 <= i < |inventory| && EqualsIgnoreCase(inventory[i].name, name)
      ensures r.Some? ==> exists i :: 0 <= i < |inventory| && inventory[i] == r.value && EqualsIgnoreCase(inventory[i].name, name)
                                     && forall j :: 0 <= j < i ==> !EqualsIgnoreCase(inventory[j].name, name)
    {
      Catalog.FindProductByName(inventory, name)
    }

    /** `getTotalQuantity`: the sum of the quantities, wrapped to `int`. */
    function GetTotalQuantity(): (r: Int32)
      reads this
      ensures r == Wrap32(SumQuantity(inventory))
    {
      TotalQuantityIsWrappedSum(inventory);
      TotalQuantity(inventory)
    }

    /** `getTotalGrossPrice`: the exact sum of price × quantity. */
    function GetTotalGrossPrice(): (r: Cents)
      reads this
      ensures r == SumGross(inventory)
    {
      GrossPriceExact(inventory);
      GrossPrice(inventory)
    }

    /** `getTotalPriceWithPerishableDiscount` on the day `today`: the exact
      sum of the entries' values. */
    function GetTotalPriceWithPerishableDiscount(today: LocalDate): (r: Cents)
      reads this
      ensures r == SumValues(inventory, today)
    {
      PriceWithPerishableDiscountExact(inventory, today);
      PriceWithPerishableDiscount(inventory, today)
    }

    /** `getTotalNetPriceWithDiscount` on the day `today`: 85% of the
      discounted total, HALF_UP, strictly below it from 0.04 on. */
    function GetTotalNetPriceWithDiscount(today: LocalDate): (r: Cents)
      reads this
      ensures r == RoundHalfUp(SumValues(inventory, today) * 85, 100)
      ensures SumValues(inventory, today) >= 4 ==> r < SumValues(inventory, today)
    {
      PriceWithPerishableDiscountExact(inventory, today);
      StoreWideDiscountExact(PriceWithPerishableDiscount(inventory, today));
      StoreWideDiscountBounds(PriceWithPerishableDiscount(inventory, today));
      NetPriceWithDiscount(inventory, today)
    }
  }
}
