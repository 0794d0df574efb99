/**
 * The difference between two version lists: the history entries a remote list
 * has that the local one lacks, grouped by file identifier. An entry is known
 * locally when some local entry, of a live or a dead item, has the same
 * composite key `Id@SHA1`.
 */
module VersionDiff {
  import opened FileItems

  /** The composite key under which an entry of item `id` with hash `sha1` is looked up. */
  function VersionKey(id: string, sha1: string): string
  {
    id + "@" + sha1
  }

  /** A history entry paired with the identifier of the item it belongs to. */
  datatype Tagged = Tagged(Id: string, Version: FileVersion)

  function Key(t: Tagged): string
  {
    VersionKey(t.Id, t.Version.SHA1)
  }

  /** The entries of one item, in history order. */
  function ItemEntries(f: FileItem): seq<Tagged>
  {
    seq(|f.History|, j requires 0 <= j < |f.History| => Tagged(f.Id, f.History[j]))
  }

  /** Every entry of every item: item by item, each in history order. */
  function Entries(files: seq<FileItem>): seq<Tagged>
  {
    if files == [] then [] else Entries(files[..|files| - 1]) + ItemEntries(files[|files| - 1])
  }

  function KeysOf(ts: seq<Tagged>): set<string>
  {
    set t | t in ts :: Key(t)
  }

  /** The keys of all history entries of `files`, dead items included. */
  function LocalKeys(files: seq<FileItem>): set<string>
  {
    KeysOf(Entries(files))
  }

  /** Some item of `files` with identifier `id` has `v` in its history. */
  ghost predicate HasEntry(files: seq<FileItem>, id: string, v: FileVersion)
  {
    exists k :: 0 <= k < |files| && files[k].Id == id && v in files[k].History
  }

  /** No element occurs twice in `ids`. */
  ghost predicate Distinct(ids: seq<string>)
  {
    forall i, j :: 0 <= i < j < |ids| ==> ids[i] != ids[j]
  }

  /** How many times item `id`'s entry `v` occurs in `files`. */
  function Occurrences(files: seq<FileItem>, id: string, v: FileVersion): nat
  {
    multiset(Entries(files))[Tagged(id, v)]
  }

  /** The entries of item `id` in `ts` whose key is not in `local`, in the order of `ts`. */
  function MissingFor(local: set<string>, ts: seq<Tagged>, id: string): seq<FileVersion>
  {
    if ts == [] then []
    else
      var t := ts[|ts| - 1];
      MissingFor(local, ts[..|ts| - 1], id) + (if t.Id == id && Key(t) !in local then [t.Version] else [])
  }

  /** The identifiers that have a missing entry in `ts`, in the order of their first missing entry. */
  function MissingIds(local: set<string>, ts: seq<Tagged>): seq<string>
  {
    if ts == [] then []
    else
      var ids := MissingIds(local, ts[..|ts| - 1]);
      var t := ts[|ts| - 1];
      if Key(t) !in local && t.Id !in ids then ids + [t.Id] else ids
  }

  /**
   * What `remoteFiles` has and `localFiles` lacks: one partial item per
   * identifier with a missing entry, holding exactly its missing entries.
   */
  function Diff(localFiles: seq<FileItem>, remoteFiles: seq<FileItem>): seq<FileItem>
  {
    var local := LocalKeys(localFiles);
    var ts := Entries(remoteFiles);
    var ids := MissingIds(local, ts);
    seq(|ids|, k requires 0 <= k < |ids| => PartialItem(ids[k], MissingFor(local, ts, ids[k])))
  }

  // ---------------------------------------------------------------------------
  // Entries and keys

  lemma {:induction false} EntriesMember(files: seq<FileItem>, id: string, v: FileVersion)
    ensures Tagged(id, v) in Entries(files) <==> HasEntry(files, id, v)
  {
    if files != [] {
      var init, f := files[..|files| - 1], files[|files| - 1];
      EntriesMember(init, id, v);
      assert Entries(files) == Entries(init) + ItemEntries(f);
      if HasEntry(files, id, v) {
        var k :| 0 <= k < |files| && files[k].Id == id && v in files[k].History;
        if k < |init| {
          assert init[k] == files[k];
        } else {
          var j :| 0 <= j < |f.History| && f.History[j] == v;
          assert ItemEntries(f)[j] == Tagged(id, v);
        }
      }
      if Tagged(id, v) in Entries(init) {
        var k :| 0 <= k < |init| && init[k].Id == id && v in init[k].History;
        assert files[k] == init[k];
      }
      if Tagged(id, v) in ItemEntries(f) {
        var j :| 0 <= j < |f.History| && ItemEntries(f)[j] == Tagged(id, v);
        assert files[|files| - 1].Id == id && v in files[|files| - 1].History;
      }
    }
  }

  lemma EntriesAppend(a: seq<FileItem>, b: seq<FileItem>, id: string, v: FileVersion)
    ensures Tagged(id, v) in Entries(a + b) <==> Tagged(id, v) in Entries(a) || Tagged(id, v) in Entries(b)
  {
    EntriesMember(a + b, id, v);
    EntriesMember(a, id, v);
    EntriesMember(b, id, v);
    if HasEntry(a + b, id, v) {
      var k :| 0 <= k < |a + b| && (a + b)[k].Id == id && v in (a + b)[k].History;
      if k >= |a| {
        assert b[k - |a|] == (a + b)[k];
      }
    }
    if HasEntry(a, id, v) {
      var k :| 0 <= k < |a| && a[k].Id == id && v in a[k].History;
      assert (a + b)[k] == a[k];
    }
    if HasEntry(b, id, v) {
      var k :| 0 <= k < |b| && b[k].Id == id && v in b[k].History;
      assert (a + b)[|a| + k] == b[k];
    }
  }

  /** A store that only extends its items forgets no key. */
  lemma LocalKeysGrow(before: seq<FileItem>, after: seq<FileItem>)
    requires Extends(before, after)
    ensures LocalKeys(before) <= LocalKeys(after)
  {
    forall t | t in Entries(before)
      ensures Key(t) in LocalKeys(after)
    {
      EntriesMember(before, t.Id, t.Version);
      var k :| 0 <= k < |before| && before[k].Id == t.Id && t.Version in before[k].History;
      assert before[k].History <= after[k].History;
      assert HasEntry(after, t.Id, t.Version);
      EntriesMember(after, t.Id, t.Version);
    }
  }

  // ---------------------------------------------------------------------------
  // Missing entries and identifiers

  /** The missing entries of `id`, counted with multiplicity: no more and no fewer than `ts` holds. */
  lemma {:induction false} MissingForCount(local: set<string>, ts: seq<Tagged>, id: string, v: FileVersion)
    ensures multiset(MissingFor(local, ts, id))[v]
         == if VersionKey(id, v.SHA1) in local then 0 else multiset(ts)[Tagged(id, v)]
  {
    if ts != [] {
      var init, t := ts[..|ts| - 1], ts[|ts| - 1];
      assert ts == init + [t];
      MissingForCount(local, init, id, v);
      var extra := if t.Id == id && Key(t) !in local then [t.Version] else [];
      MissingForSnoc(local, init, t, id);
      CountAppend(MissingFor(local, init, id), extra, v);
      CountAppend(init, [t], Tagged(id, v));
    }
  }

  /** How the missing entries of `id` grow by one examined entry `t`. */
  lemma MissingForSnoc(local: set<string>, init: seq<Tagged>, t: Tagged, id: string)
    ensures MissingFor(local, init + [t], id)
         == MissingFor(local, init, id) + (if t.Id == id && Key(t) !in local then [t.Version] else [])
  {
    assert (init + [t])[..|init|] == init;
  }

  lemma CountAppend<T>(a: seq<T>, b: seq<T>, x: T)
    ensures multiset(a + b)[x] == multiset(a)[x] + multiset(b)[x]
  {
  }

  lemma MissingForMember(local: set<string>, ts: seq<Tagged>, id: string, v: FileVersion)
    ensures v in MissingFor(local, ts, id) <==> Tagged(id, v) in ts && VersionKey(id, v.SHA1) !in local
  {
    MissingForCount(local, ts, id, v);
  }

  lemma {:induction false} MissingIdsMember(local: set<string>, ts: seq<Tagged>, id: string)
    ensures id in MissingIds(local, ts) <==> MissingFor(local, ts, id) != []
  {
    if ts != [] {
      MissingIdsMember(local, ts[..|ts| - 1], id);
    }
  }

  lemma {:induction false} MissingIdsDistinct(local: set<string>, ts: seq<Tagged>)
    ensures Distinct(MissingIds(local, ts))
  {
    if ts != [] {
      var prev := MissingIds(local, ts[..|ts| - 1]);
      MissingIdsDistinct(local, ts[..|ts| - 1]);
      var ids := MissingIds(local, ts);
      var t := ts[|ts| - 1];
      if ids != prev {
        assert ids == prev + [t.Id] && t.Id !in prev;
        forall i, j | 0 <= i < j < |ids| ensures ids[i] != ids[j] {
          if j == |prev| {
            assert ids[i] == prev[i] && prev[i] in prev;
          } else {
            assert ids[i] == prev[i] && ids[j] == prev[j];
          }
        }
      }
    }
  }

  lemma {:induction false} MissingIdsNone(local: set<string>, ts: seq<Tagged>)
    requires KeysOf(ts) <= local
    ensures MissingIds(local, ts) == []
  {
    if ts != [] {
      var init := ts[..|ts| - 1];
      assert KeysOf(init) <= KeysOf(ts) by {
        forall t | t in init ensures Key(t) in KeysOf(ts) {
          assert t in ts;
        }
      }
      MissingIdsNone(local, init);
      assert Key(ts[|ts| - 1]) in KeysOf(ts);
    }
  }

  // ---------------------------------------------------------------------------
  // The difference

  /** No identifier occurs twice in a difference. */
  lemma DiffIdsDistinct(localFiles: seq<FileItem>, remoteFiles: seq<FileItem>)
    ensures var d := Diff(localFiles, remoteFiles);
      forall k, m :: 0 <= k < m < |d| ==> d[k].Id != d[m].Id
  {
    var ids := MissingIds(LocalKeys(localFiles), Entries(remoteFiles));
    MissingIdsDistinct(LocalKeys(localFiles), Entries(remoteFiles));
    var d := Diff(localFiles, remoteFiles);
    forall k, m | 0 <= k < m < |d| ensures d[k].Id != d[m].Id {
      assert d[k].Id == ids[k] && d[m].Id == ids[m];
    }
  }

  /**
   * The difference has an item for `id` exactly when the remote list has an
   * entry of `id` whose key is not among the local keys.
   */
  lemma DiffCoversExactly(localFiles: seq<FileItem>, remoteFiles: seq<FileItem>, id: string)
    ensures var d := Diff(localFiles, remoteFiles);
      (exists k :: 0 <= k < |d| && d[k].Id == id)
      <==> (exists v :: HasEntry(remoteFiles, id, v) && VersionKey(id, v.SHA1) !in LocalKeys(localFiles))
  {
    var local, ts := LocalKeys(localFiles), Entries(remoteFiles);
    var ids := MissingIds(local, ts);
    var d := Diff(localFiles, remoteFiles);
    MissingIdsMember(local, ts, id);
    if exists k :: 0 <= k < |d| && d[k].Id == id {
      var k :| 0 <= k < |d| && d[k].Id == id;
      assert ids[k] == id;
      var v := MissingFor(local, ts, id)[0];
      MissingForMember(local, ts, id, v);
      EntriesMember(remoteFiles, id, v);
    }
    if exists v :: HasEntry(remoteFiles, id, v) && VersionKey(id, v.SHA1) !in local {
      var v :| HasEntry(remoteFiles, id, v) && VersionKey(id, v.SHA1) !in local;
      EntriesMember(remoteFiles, id, v);
      MissingForMember(local, ts, id, v);
      var k :| 0 <= k < |ids| && ids[k] == id;
      assert d[k].Id == id;
    }
  }

  /**
   * Each item of the difference is a partial item whose history holds every
   * missing entry of its identifier as often as the remote list does, and no
   * other entry.
   */
  lemma DiffHistoryExact(localFiles: seq<FileItem>, remoteFiles: seq<FileItem>, k: nat, v: FileVersion)
    requires k < |Diff(localFiles, remoteFiles)|
    ensures var item := Diff(localFiles, remoteFiles)[k];
      && item == PartialItem(item.Id, item.History)
      && item.History != []
      && multiset(item.History)[v]
         == if VersionKey(item.Id, v.SHA1) in LocalKeys(localFiles) then 0
            else Occurrences(remoteFiles, item.Id, v)
  {
    var local, ts := LocalKeys(localFiles), Entries(remoteFiles);
    var ids := MissingIds(local, ts);
    MissingIdsMember(local, ts, ids[k]);
    MissingForCount(local, ts, ids[k], v);
  }

  /** A list lacks nothing of itself. */
  lemma DiffSelfEmpty(files: seq<FileItem>)
    ensures Diff(files, files) == []
  {
    MissingIdsNone(LocalKeys(files), Entries(files));
  }

  /**
   * After an update of the store that only extends its items, an identifier
   * the difference names was named before the update: what the store would
   * request only shrinks. Several updates chain through ExtendsTransitive.
   */
  lemma RequestsShrink(before: seq<FileItem>, after: seq<FileItem>, remoteFiles: seq<FileItem>, id: string)
    requires Extends(before, after)
    ensures var later, earlier := Diff(after, remoteFiles), Diff(before, remoteFiles);
      (exists k :: 0 <= k < |later| && later[k].Id == id) ==> (exists k :: 0 <= k < |earlier| && earlier[k].Id == id)
  {
    LocalKeysGrow(before, after);
    DiffCoversExactly(before, remoteFiles, id);
    DiffCoversExactly(after, remoteFiles, id);
  }

  /** Once the difference is added to the local list, nothing of the remote list is missing any more. */
  lemma DiffClosesGap(localFiles: seq<FileItem>, remoteFiles: seq<FileItem>)
    ensures Diff(localFiles + Diff(localFiles, remoteFiles), remoteFiles) == []
  {
    var local, ts := LocalKeys(localFiles), Entries(remoteFiles);
    var ids := MissingIds(local, ts);
    var d := Diff(localFiles, remoteFiles);
    var merged := localFiles + d;
    forall t | t in ts
      ensures Key(t) in LocalKeys(merged)
    {
      EntriesAppend(localFiles, d, t.Id, t.Version);
      if Key(t) in local {
        var u :| u in Entries(localFiles) && Key(u) == Key(t);
        EntriesAppend(localFiles, d, u.Id, u.Version);
      } else {
        MissingForMember(local, ts, t.Id, t.Version);
        MissingIdsMember(local, ts, t.Id);
        var k :| 0 <= k < |ids| && ids[k] == t.Id;
        assert d[k].Id == t.Id && t.Version in d[k].History;
        EntriesMember(d, t.Id, t.Version);
      }
    }
    MissingIdsNone(LocalKeys(merged), ts);
  }
}
