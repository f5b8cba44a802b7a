/** The file system as the store sees it: a map from path to content, with
    the paths whose reads or writes fail with an `IOException`. The content
    type is a parameter: the store service sees parsed JSON, the file
    manager sees text. */
module Disk {
  import opened Wrappers

  type Path = string

  datatype Disk<C> = Disk(files: map<Path, C>, unreadable: set<Path>, unwritable: set<Path>)

  /** `Files.exists(p)`. */
  predicate Exists<C>(d: Disk<C>, p: Path) {
    p in d.files
  }

  /** Reading `p`: its content, or None when the read throws. */
  function Read<C>(d: Disk<C>, p: Path): (r: Option<C>)
    ensures r.Some? <==> p in d.files && p !in d.unreadable
    ensures r.Some? ==> r.value == d.files[p]
  {
    if p in d.files && p !in d.unreadable then Some(d.files[p]) else None
  }

  /** Writing `c` to `p` (creating or replacing it), or None when the write
      throws. Writes are atomic: a write that throws leaves the old content. */
  function Write<C>(d: Disk<C>, p: Path, c: C): (r: Option<Disk<C>>)
    ensures r.Some? <==> p !in d.unwritable
    ensures r.Some? ==> r.value.files == d.files[p := c]
    ensures r.Some? ==> r.value.unreadable == d.unreadable && r.value.unwritable == d.unwritable
  {
    if p in d.unwritable then None else Some(d.(files := d.files[p := c]))
  }

  /** `Files.copy(src, dst, REPLACE_EXISTING)`, or None when it throws. */
  function Copy<C>(d: Disk<C>, src: Path, dst: Path): (r: Option<Disk<C>>)
    ensures r.Some? <==> Read(d, src).Some? && dst !in d.unwritable
    ensures r.Some? ==> r.value.files == d.files[dst := d.files[src]]
    ensures r.Some? ==> r.value.unreadable == d.unreadable && r.value.unwritable == d.unwritable
  {
    match Read(d, src)
    case None => None
    case Some(c) => Write(d, dst, c)
  }

  /** A write or copy changes one path and leaves every other file as it was. */
  lemma WriteChangesOnlyTarget<C>(d: Disk<C>, p: Path, c: C, q: Path)
    requires Write(d, p, c).Some? && q != p
    ensures Exists(Write(d, p, c).value, q) == Exists(d, q)
    ensures q in d.files ==> Write(d, p, c).value.files[q] == d.files[q]
    ensures Read(Write(d, p, c).value, p) == (if p in d.unreadable then None else Some(c))
  {
  }
}
