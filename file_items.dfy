/**
 * A file or directory known to the version store, together with its change
 * history. Each operation of a FileItem appends exactly one history entry and
 * never alters the entries already recorded.
 */
module FileItems {

  /** A DateTime timestamp, kept opaque. */
  datatype Time = Time(Ticks: int)

  datatype ChangeKind = Created | Changed | Renamed | Deleted

  /** One historical state of a file: what happened, under which name, the content hash and when. */
  datatype FileVersion = FileVersion(Kind: ChangeKind, Name: string, SHA1: string, When: Time)

  /** The hash recorded by an entry made before the item has any content. */
  const NoHash: string := ""

  /** `g` is `f` with one more history entry and the same identifier. */
  ghost predicate AppendsOne(f: FileItem, g: FileItem)
  {
    && g.Id == f.Id
    && |g.History| == |f.History| + 1
    && g.History[..|f.History|] == f.History
  }

  datatype FileItem = FileItem(Id: string, IsAlive: bool, IsDirectory: bool, CurrentName: string, History: seq<FileVersion>)
  {
    /** The content hash of the latest entry, or NoHash when there is none. */
    function LastSHA1(): string
    {
      if History == [] then NoHash else History[|History| - 1].SHA1
    }

    /** Records the creation of the item under its current name. */
    function Create(when: Time): (r: FileItem)
      ensures AppendsOne(this, r)
      ensures r.History[|History|] == FileVersion(Created, CurrentName, NoHash, when)
      ensures r.IsAlive == IsAlive && r.IsDirectory == IsDirectory && r.CurrentName == CurrentName
    {
      this.(History := History + [FileVersion(Created, CurrentName, NoHash, when)])
    }

    /** Records new content `sha1` under `name`, which becomes the current name. */
    function Change(name: string, sha1: string, when: Time): (r: FileItem)
      ensures AppendsOne(this, r)
      ensures r.History[|History|] == FileVersion(Changed, name, sha1, when)
      ensures r.IsAlive == IsAlive && r.IsDirectory == IsDirectory && r.CurrentName == name
    {
      this.(CurrentName := name, History := History + [FileVersion(Changed, name, sha1, when)])
    }

    /** Records a move to `name`; the content, and so its hash, stays the same. */
    function Rename(name: string, when: Time): (r: FileItem)
      ensures AppendsOne(this, r)
      ensures r.History[|History|] == FileVersion(Renamed, name, LastSHA1(), when)
      ensures r.IsAlive == IsAlive && r.IsDirectory == IsDirectory && r.CurrentName == name
    {
      this.(CurrentName := name, History := History + [FileVersion(Renamed, name, LastSHA1(), when)])
    }

    /** Records the deletion and marks the item dead; its history is kept. */
    function Delete(when: Time): (r: FileItem)
      ensures AppendsOne(this, r)
      ensures r.History[|History|] == FileVersion(Deleted, CurrentName, LastSHA1(), when)
      ensures !r.IsAlive && r.IsDirectory == IsDirectory && r.CurrentName == CurrentName
    {
      this.(IsAlive := false, History := History + [FileVersion(Deleted, CurrentName, LastSHA1(), when)])
    }

    /** Appends an entry received from elsewhere, unchanged. */
    function NewVersion(v: FileVersion): (r: FileItem)
      ensures AppendsOne(this, r) && r.History[|History|] == v
      ensures r.IsAlive == IsAlive && r.IsDirectory == IsDirectory && r.CurrentName == CurrentName
    {
      this.(History := History + [v])
    }
  }

  /** A new, live item named `name` with identifier `id` and no history yet. */
  function NewFileItem(id: string, name: string, isDirectory: bool): FileItem
  {
    FileItem(id, true, isDirectory, name, [])
  }

  /**
   * An item built from an identifier alone and then given the entries `history`:
   * the partial items the version-list difference returns.
   */
  function PartialItem(id: string, history: seq<FileVersion>): FileItem
  {
    FileItem(id, false, false, "", history)
  }

  /**
   * `after` is what `before` may become: no item is dropped, every item keeps
   * its position and identifier, and every history only grows at its end.
   */
  ghost predicate Extends(before: seq<FileItem>, after: seq<FileItem>)
  {
    && |before| <= |after|
    && forall k :: 0 <= k < |before| ==>
         after[k].Id == before[k].Id && before[k].History <= after[k].History
  }

  lemma ExtendsTransitive(a: seq<FileItem>, b: seq<FileItem>, c: seq<FileItem>)
    requires Extends(a, b) && Extends(b, c)
    ensures Extends(a, c)
  {
    forall k | 0 <= k < |a|
      ensures c[k].Id == a[k].Id && a[k].History <= c[k].History
    {
      assert b[k].History <= c[k].History;
    }
  }
}
