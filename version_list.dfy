/**
 * The version store: every file item ever seen, in the order it was first
 * seen, and an index from current path to live item. The index refers to an
 * item by its position in AllFiles, which stands for the object reference the
 * two structures share: updating the item at that position is updating the
 * one object both of them reach.
 */
module VersionLists {
  import opened Wrappers
  import opened FileItems
  import opened VersionDiff

  /** The exception a dictionary lookup of an absent key throws. */
  datatype LookupError = KeyNotFound

  class VersionList {
    /** Every item that ever existed, never shrinking. */
    var AllFiles: seq<FileItem>
    /** Relative path to the position in AllFiles of the item at that path. */
    var pathToFile: map<string, nat>
    /** Where the list is persisted. */
    const path: string

    /** Every index entry refers to an item of AllFiles. */
    ghost predicate Valid()
      reads this
    {
      forall p | p in pathToFile :: pathToFile[p] < |AllFiles|
    }

    /** Every indexed path leads to a live item whose current name is that path. */
    ghost predicate Consistent()
      reads this
    {
      forall p | p in pathToFile ::
        pathToFile[p] < |AllFiles| && AllFiles[pathToFile[p]].IsAlive && AllFiles[pathToFile[p]].CurrentName == p
    }

    /**
     * Loads the list stored at `path`, whose items are `files`, and indexes
     * every live item under its current name; a later item wins a shared name.
     */
    constructor Load(path: string, files: seq<FileItem>)
      ensures this.path == path && AllFiles == files
      ensures Valid() && Consistent()
      ensures forall p :: p in pathToFile <==> exists k :: 0 <= k < |files| && files[k].IsAlive && files[k].CurrentName == p
      ensures forall p, k | p in pathToFile && pathToFile[p] < k < |files| :: !(files[k].IsAlive && files[k].CurrentName == p)
    {
      var index: map<string, nat> := map[];
      var i := 0;
      while i < |files|
        invariant 0 <= i <= |files|
        invariant forall p :: p in index <==> exists k :: 0 <= k < i && files[k].IsAlive && files[k].CurrentName == p
        invariant forall p | p in index ::
          index[p] < i && files[index[p]].IsAlive && files[index[p]].CurrentName == p
        invariant forall p, k | p in index && index[p] < k < i :: !(files[k].IsAlive && files[k].CurrentName == p)
      {
        if files[i].IsAlive {
          index := index[files[i].CurrentName := i];
        }
        i := i + 1;
      }
      this.path := path;
      AllFiles := files;
      pathToFile := index;
    }

    /** A list as a received message carries it: the items, and no index. */
    constructor Decoded(files: seq<FileItem>)
      ensures AllFiles == files && pathToFile == map[] && Valid() && Consistent()
    {
      path := "";
      AllFiles := files;
      pathToFile := map[];
    }

    /**
     * Creates an item for `name` with the fresh identifier `id`, unless `name`
     * is already indexed, in which case nothing changes and None is returned.
     */
    method Create(name: string, isDirectory: bool, when: Time, id: string) returns (item: Option<FileItem>)
      requires Valid()
      modifies this
      ensures Valid() && (old(Consistent()) ==> Consistent())
      ensures Extends(old(AllFiles), AllFiles)
      ensures name in old(pathToFile) ==> item == None && AllFiles == old(AllFiles) && pathToFile == old(pathToFile)
      ensures name !in old(pathToFile) ==>
        && item == Some(NewFileItem(id, name, isDirectory).Create(when))
        && AllFiles == old(AllFiles) + [item.value]
        && pathToFile == old(pathToFile)[name := |old(AllFiles)|]
    {
      if name in pathToFile {
        return None;
      }
      var created := NewFileItem(id, name, isDirectory).Create(when);
      AllFiles := AllFiles + [created];
      pathToFile := pathToFile[name := |AllFiles| - 1];
      item := Some(created);
    }

    /**
     * Records new content for `name`, creating the item first when `name` is
     * not indexed. A directory is created but never given a Changed entry.
     */
    method Change(name: string, isDirectory: bool, sha1: string, when: Time, id: string)
      requires Valid()
      modifies this
      ensures Valid() && (old(Consistent()) ==> Consistent())
      ensures Extends(old(AllFiles), AllFiles)
      ensures name in old(pathToFile) ==>
        && pathToFile == old(pathToFile)
        && AllFiles == if isDirectory then old(AllFiles)
                       else var k := old(pathToFile)[name]; old(AllFiles)[k := old(AllFiles)[k].Change(name, sha1, when)]
      ensures name !in old(pathToFile) ==>
        var created := NewFileItem(id, name, isDirectory).Create(when);
        && pathToFile == old(pathToFile)[name := |old(AllFiles)|]
        && AllFiles == old(AllFiles) + [if isDirectory then created else created.Change(name, sha1, when)]
    {
      if name !in pathToFile {
        var _ := Create(name, isDirectory, when, id);
      }
      if isDirectory {
        return;
      }
      var k := pathToFile[name];
      AllFiles := AllFiles[k := AllFiles[k].Change(name, sha1, when)];
    }

    /**
     * Moves the item at `oldName` to `name`. Looking up an `oldName` that is
     * not indexed throws, and then nothing changes.
     */
    method Rename(name: string, oldName: string, sha1: string, when: Time) returns (res: Outcome<LookupError>)
      requires Valid()
      modifies this
      ensures Valid() && (old(Consistent()) ==> Consistent())
      ensures Extends(old(AllFiles), AllFiles)
      ensures oldName !in old(pathToFile) ==>
        res == Fail(KeyNotFound) && AllFiles == old(AllFiles) && pathToFile == old(pathToFile)
      ensures oldName in old(pathToFile) ==>
        var k := old(pathToFile)[oldName];
        && res == Pass
        && AllFiles == old(AllFiles)[k := old(AllFiles)[k].Rename(name, when)]
        && pathToFile == (old(pathToFile) - {oldName})[name := k]
    {
      if oldName !in pathToFile {
        return Fail(KeyNotFound);
      }
      var k := pathToFile[oldName];
      AllFiles := AllFiles[k := AllFiles[k].Rename(name, when)];
      pathToFile := pathToFile - {oldName};
      pathToFile := pathToFile[name := k];
      res := Pass;
    }

    /**
     * Records the deletion of the item at `name` and drops `name` from the
     * index; the item stays in AllFiles. Looking up an absent `name` throws,
     * and then nothing changes.
     */
    method Delete(name: string, when: Time) returns (res: Outcome<LookupError>)
      requires Valid()
      modifies this
      ensures Valid() && (old(Consistent()) ==> Consistent())
      ensures Extends(old(AllFiles), AllFiles)
      ensures name !in old(pathToFile) ==>
        res == Fail(KeyNotFound) && AllFiles == old(AllFiles) && pathToFile == old(pathToFile)
      ensures name in old(pathToFile) ==>
        var k := old(pathToFile)[name];
        && res == Pass
        && AllFiles == old(AllFiles)[k := old(AllFiles)[k].Delete(when)]
        && pathToFile == old(pathToFile) - {name}
    {
      if name !in pathToFile {
        return Fail(KeyNotFound);
      }
      var k := pathToFile[name];
      AllFiles := AllFiles[k := AllFiles[k].Delete(when)];
      pathToFile := pathToFile - {name};
      res := Pass;
    }

    /**
     * The entries `list` has and this list lacks, one partial item per file
     * identifier, in the order the identifiers are first found missing.
     */
    method GetLessThan(list: VersionList) returns (r: seq<FileItem>)
      ensures r == Diff(AllFiles, list.AllFiles)
      ensures list.AllFiles == AllFiles ==> r == []
    {
      var myFileList := CollectKeys(AllFiles);
      var dict, order := GroupMissing(myFileList, list.AllFiles);
      r := seq(|order|, k requires 0 <= k < |order| => dict[order[k]]);
      if list.AllFiles == AllFiles {
        DiffSelfEmpty(AllFiles);
      }
    }

    /** The item indexed at `name`; looking up an absent `name` throws. */
    function GetFileByName(name: string): (r: Result<FileItem, LookupError>)
      reads this
      requires Valid()
      ensures r.Ok? <==> name in pathToFile
      ensures r.Ok? ==> r.value == AllFiles[pathToFile[name]]
      ensures Consistent() && r.Ok? ==> r.value.IsAlive && r.value.CurrentName == name
    {
      if name in pathToFile then Ok(AllFiles[pathToFile[name]]) else Err(KeyNotFound)
    }

    /** Indexes the item at position `k` of AllFiles under `name`. */
    method SetFileByName(name: string, k: nat)
      requires Valid() && k < |AllFiles|
      modifies this
      ensures Valid()
      ensures AllFiles == old(AllFiles) && pathToFile == old(pathToFile)[name := k]
    {
      pathToFile := pathToFile[name := k];
    }
  }

  /** The keys of every entry of `files`: the first loop of GetLessThan. */
  method CollectKeys(files: seq<FileItem>) returns (keys: set<string>)
    ensures keys == LocalKeys(files)
  {
    keys := {};
    var i := 0;
    while i < |files|
      invariant 0 <= i <= |files|
      invariant keys == KeysOf(Entries(files[..i]))
    {
      EntriesSnoc(files, i);
      keys := AddItemKeys(keys, Entries(files[..i]), files[i]);
      i := i + 1;
    }
    assert files[..i] == files;
  }

  /** `keys`, the keys of `done`, with the keys of `item`'s entries added. */
  method AddItemKeys(keys: set<string>, ghost done: seq<Tagged>, item: FileItem) returns (keys': set<string>)
    requires keys == KeysOf(done)
    ensures keys' == KeysOf(done + ItemEntries(item))
  {
    keys' := keys;
    var j := 0;
    while j < |item.History|
      invariant 0 <= j <= |item.History|
      invariant keys' == KeysOf(done + ItemEntries(item)[..j])
    {
      PrefixSnoc(done, ItemEntries(item), j);
      KeysOfSnoc(done + ItemEntries(item)[..j], Tagged(item.Id, item.History[j]));
      keys' := keys' + {VersionKey(item.Id, item.History[j].SHA1)};
      j := j + 1;
    }
    assert ItemEntries(item)[..j] == ItemEntries(item);
  }

  /**
   * The entries of `files` whose keys are not in `local`, grouped by
   * identifier: the second loop of GetLessThan.
   */
  method GroupMissing(local: set<string>, files: seq<FileItem>) returns (dict: map<string, FileItem>, order: seq<string>)
    ensures Grouped(local, Entries(files), dict, order)
  {
    dict, order := map[], [];
    var i := 0;
    while i < |files|
      invariant 0 <= i <= |files|
      invariant Grouped(local, Entries(files[..i]), dict, order)
    {
      EntriesSnoc(files, i);
      dict, order := GroupItem(local, Entries(files[..i]), dict, order, files[i]);
      i := i + 1;
    }
    assert files[..i] == files;
  }

  /** Adds the missing entries of `item` to the grouping of `seen`. */
  method GroupItem(local: set<string>, ghost seen: seq<Tagged>, dict: map<string, FileItem>, order: seq<string>, item: FileItem)
    returns (dict': map<string, FileItem>, order': seq<string>)
    requires Grouped(local, seen, dict, order)
    ensures Grouped(local, seen + ItemEntries(item), dict', order')
  {
    dict', order' := dict, order;
    var j := 0;
    assert seen + ItemEntries(item)[..j] == seen;
    while j < |item.History|
      invariant 0 <= j <= |item.History|
      invariant Grouped(local, seen + ItemEntries(item)[..j], dict', order')
    {
      PrefixSnoc(seen, ItemEntries(item), j);
      dict', order' := GroupEntry(local, seen + ItemEntries(item)[..j], dict', order', item.Id, item.History[j]);
      j := j + 1;
    }
    assert ItemEntries(item)[..j] == ItemEntries(item);
  }

  /** Adds entry `history` of item `id` to the grouping of `seen` when its key is not local. */
  method GroupEntry(local: set<string>, ghost seen: seq<Tagged>, dict: map<string, FileItem>, order: seq<string>, id: string, history: FileVersion)
    returns (dict': map<string, FileItem>, order': seq<string>)
    requires Grouped(local, seen, dict, order)
    ensures Grouped(local, seen + [Tagged(id, history)], dict', order')
  {
    var guid := VersionKey(id, history.SHA1);
    dict', order' := dict, order;
    if guid in local {
      GroupedSnocKnown(local, seen, dict, order, Tagged(id, history));
      return;
    }
    if id !in dict' {
      dict' := dict'[id := PartialItem(id, [])];
      order' := order' + [id];
    }
    dict' := dict'[id := dict'[id].NewVersion(history)];
    GroupedSnocMissing(local, seen, dict, order, Tagged(id, history), dict', order');
  }

  lemma EntriesSnoc(files: seq<FileItem>, i: nat)
    requires i < |files|
    ensures Entries(files[..i + 1]) == Entries(files[..i]) + ItemEntries(files[i])
  {
    assert files[..i + 1][..i] == files[..i];
  }

  /**
   * `dict` maps every identifier with a missing entry among `seen` to the
   * partial item of those entries, and `order` lists these identifiers in the
   * order they entered `dict`.
   */
  ghost predicate Grouped(local: set<string>, seen: seq<Tagged>, dict: map<string, FileItem>, order: seq<string>)
  {
    && order == MissingIds(local, seen)
    && (forall id :: id in dict <==> id in order)
    && (forall id | id in dict :: dict[id] == PartialItem(id, MissingFor(local, seen, id)))
  }

  /** Examining one more entry `t` whose key is known locally changes nothing. */
  lemma GroupedSnocKnown(local: set<string>, seen: seq<Tagged>, dict: map<string, FileItem>, order: seq<string>, t: Tagged)
    requires Grouped(local, seen, dict, order) && Key(t) in local
    ensures Grouped(local, seen + [t], dict, order)
  {
    MissingIdsSnoc(local, seen, t);
    forall id | id in dict
      ensures dict[id] == PartialItem(id, MissingFor(local, seen + [t], id))
    {
      MissingForSnoc(local, seen, t, id);
    }
  }

  /** Examining one more missing entry `t` appends it to the partial item of its identifier. */
  lemma GroupedSnocMissing(local: set<string>, seen: seq<Tagged>, dict: map<string, FileItem>, order: seq<string>, t: Tagged,
                           dict': map<string, FileItem>, order': seq<string>)
    requires Grouped(local, seen, dict, order) && Key(t) !in local
    requires order' == if t.Id in dict then order else order + [t.Id]
    requires t.Id in dict ==> dict' == dict[t.Id := dict[t.Id].NewVersion(t.Version)]
    requires t.Id !in dict ==> dict' == dict[t.Id := PartialItem(t.Id, [t.Version])]
    ensures Grouped(local, seen + [t], dict', order')
  {
    MissingIdsSnoc(local, seen, t);
    MissingIdsMember(local, seen, t.Id);
    forall id | id in dict'
      ensures dict'[id] == PartialItem(id, MissingFor(local, seen + [t], id))
    {
      MissingForSnoc(local, seen, t, id);
    }
  }

  /** How the missing identifiers grow when one entry `t` is examined. */
  lemma MissingIdsSnoc(local: set<string>, seen: seq<Tagged>, t: Tagged)
    ensures MissingIds(local, seen + [t])
         == if Key(t) !in local && t.Id !in MissingIds(local, seen) then MissingIds(local, seen) + [t.Id]
            else MissingIds(local, seen)
  {
    assert (seen + [t])[..|seen|] == seen;
  }

  lemma PrefixSnoc(a: seq<Tagged>, b: seq<Tagged>, j: nat)
    requires j < |b|
    ensures a + b[..j + 1] == (a + b[..j]) + [b[j]]
  {
    assert b[..j + 1] == b[..j] + [b[j]];
  }

  lemma KeysOfSnoc(ts: seq<Tagged>, t: Tagged)
    ensures KeysOf(ts + [t]) == KeysOf(ts) + {Key(t)}
  {
    assert forall u :: u in ts + [t] <==> u in ts || u == t;
  }
}
