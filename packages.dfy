/** Download packages (src/Model/DLPackage.php): the cache key of a package's file set,
    the cached zip archive of its files, the check that no file is publicly viewable, and
    the flushing of the generated-file cache.

    SHA-1, the URL slug of a title, the zip archive's content hash and the file permission
    checker are parameters: only what is fed to them and how their results are used is
    modelled. */
module Packages {
  import opened Common
  import opened Encoding

  /** A file's `CanViewType`. */
  datatype ViewType = Anyone | LoggedInUsers | OnlyTheseUsers | Inherit

  /** The file properties the core reads; `parentId` 0 stands for a file without folder. */
  datatype File = File(id: nat, name: string, title: string, hash: string, canViewType: ViewType, parentId: nat)

  /** A stored file version: a filename and a content hash (a `DBFile` value). */
  datatype FileRef = FileRef(filename: string, hash: string)

  /** Suffix of the cache entry holding the archive's hash, and the archive extension. */
  const ZipKeySuffix: string := "_zip"
  const ZipExtension: string := ".zip"

  // ---------------------------------------------------------------- cache key

  /** Title and hash of every file, in list order. */
  function FilesInput(files: seq<File>): string
  {
    if files == [] then ""
    else FilesInput(files[..|files| - 1]) + files[|files| - 1].title + files[|files| - 1].hash
  }

  /** Everything `getCacheKey` feeds to the digest: the ID, the title, then title and hash of
      each file. */
  function CacheKeyInput(id: nat, title: string, files: seq<File>): string
  {
    NatToString(id) + title + FilesInput(files)
  }

  lemma {:induction false} FilesInputAppend(a: seq<File>, b: seq<File>)
    ensures FilesInput(a + b) == FilesInput(a) + FilesInput(b)
    decreases |b|
  {
    if b == [] {
      assert a + b == a;
    } else {
      var b', f := b[..|b| - 1], b[|b| - 1];
      assert (a + b)[..|a + b| - 1] == a + b' && (a + b)[|a + b| - 1] == f;
      FilesInputAppend(a, b');
      assert FilesInput(a + b) == FilesInput(a + b') + f.title + f.hash;
    }
  }

  /** Splitting the file list at position `k`. */
  lemma {:induction false} FilesInputSplit(files: seq<File>, k: nat)
    requires k <= |files|
    ensures FilesInput(files) == FilesInput(files[..k]) + FilesInput(files[k..])
  {
    assert files[..k] + files[k..] == files;
    FilesInputAppend(files[..k], files[k..]);
  }

  /** Splitting the file list around position `k`. */
  lemma {:induction false} FilesInputAround(files: seq<File>, k: nat)
    requires k < |files|
    ensures FilesInput(files) == FilesInput(files[..k]) + files[k].title + files[k].hash + FilesInput(files[k + 1..])
  {
    var rest := files[k..];
    FilesInputSplit(files, k);
    FilesInputSplit(rest, 1);
    assert rest[..1] == [files[k]] && rest[1..] == files[k + 1..];
    FilesInputSingle(files[k]);
  }

  lemma FilesInputSingle(f: File)
    ensures FilesInput([f]) == f.title + f.hash
  {
    assert [f][..0] == [];
  }

  /** Cancellation: equal strings with a common prefix and suffix have equal middles. */
  lemma Cancel(p: string, x: string, y: string, s: string)
    requires p + x + s == p + y + s
    ensures x == y
  {
    assert |x| == |y|;
    assert x == (p + x + s)[|p|..|p| + |x|];
    assert y == (p + y + s)[|p|..|p| + |y|];
  }

  /** A different package title gives a different key input. */
  lemma KeyInputTitle(id: nat, t1: string, t2: string, files: seq<File>)
    requires t1 != t2
    ensures CacheKeyInput(id, t1, files) != CacheKeyInput(id, t2, files)
  {
    if CacheKeyInput(id, t1, files) == CacheKeyInput(id, t2, files) {
      Cancel(NatToString(id), t1, t2, FilesInput(files));
    }
  }

  /** The key input around file `k`: what comes before it, its title and hash, what
      comes after it. */
  lemma KeyInputAround(id: nat, title: string, files: seq<File>, k: nat)
    requires k < |files|
    ensures CacheKeyInput(id, title, files)
         == (NatToString(id) + title + FilesInput(files[..k])) + (files[k].title + files[k].hash)
            + FilesInput(files[k + 1..])
  {
    FilesInputAround(files, k);
  }

  /** Replacing file `k` by one feeding the same string is the only way to keep the input. */
  lemma KeyInputReplaced(id: nat, title: string, files: seq<File>, k: nat, f: File)
    requires k < |files|
    requires CacheKeyInput(id, title, files) == CacheKeyInput(id, title, files[k := f])
    ensures f.title + f.hash == files[k].title + files[k].hash
  {
    var files' := files[k := f];
    KeyInputAround(id, title, files, k);
    KeyInputAround(id, title, files', k);
    assert files'[..k] == files[..k] && files'[k + 1..] == files[k + 1..];
    Cancel(NatToString(id) + title + FilesInput(files[..k]), files[k].title + files[k].hash,
           f.title + f.hash, FilesInput(files[k + 1..]));
  }

  /** Giving file `k` a different title gives a different key input. */
  lemma KeyInputFileTitle(id: nat, title: string, files: seq<File>, k: nat, newTitle: string)
    requires k < |files| && newTitle != files[k].title
    ensures CacheKeyInput(id, title, files) != CacheKeyInput(id, title, files[k := files[k].(title := newTitle)])
  {
    var f := files[k].(title := newTitle);
    if CacheKeyInput(id, title, files) == CacheKeyInput(id, title, files[k := f]) {
      KeyInputReplaced(id, title, files, k, f);
      assert [] + newTitle + files[k].hash == f.title + f.hash;
      assert [] + files[k].title + files[k].hash == files[k].title + files[k].hash;
      Cancel([], newTitle, files[k].title, files[k].hash);
    }
  }

  /** Giving file `k` different content (another hash) gives a different key input. */
  lemma KeyInputFileHash(id: nat, title: string, files: seq<File>, k: nat, newHash: string)
    requires k < |files| && newHash != files[k].hash
    ensures CacheKeyInput(id, title, files) != CacheKeyInput(id, title, files[k := files[k].(hash := newHash)])
  {
    var f := files[k].(hash := newHash);
    if CacheKeyInput(id, title, files) == CacheKeyInput(id, title, files[k := f]) {
      KeyInputReplaced(id, title, files, k, f);
      assert files[k].title + newHash + [] == f.title + f.hash;
      assert files[k].title + files[k].hash + [] == files[k].title + files[k].hash;
      Cancel(files[k].title, newHash, files[k].hash, []);
    }
  }

  /** Removing file `k` changes the key input unless its title and hash are both empty. */
  lemma KeyInputFileRemoved(id: nat, title: string, files: seq<File>, k: nat)
    requires k < |files| && (files[k].title != "" || files[k].hash != "")
    ensures CacheKeyInput(id, title, files) != CacheKeyInput(id, title, files[..k] + files[k + 1..])
  {
    FilesInputAround(files, k);
    FilesInputAppend(files[..k], files[k + 1..]);
    assert |CacheKeyInput(id, title, files)| > |CacheKeyInput(id, title, files[..k] + files[k + 1..])|;
  }

  /** The ID and the title are fed without a separator: package 1 titled "2x" and package
      12 titled "x" feed the same string. */
  lemma IdTitleJoinAmbiguous(files: seq<File>)
    ensures CacheKeyInput(1, "2x", files) == CacheKeyInput(12, "x", files)
  {
    assert NatToString(12) == NatToString(1) + [DigitChar(2)];
  }

  /** A digest without collisions. */
  ghost predicate Injective(digest: string -> string)
  {
    forall a: string, b: string :: digest(a) == digest(b) ==> a == b
  }

  /** Under a collision-free digest, different key inputs give different cache entries. */
  lemma DistinctInputsDistinctKeys(digest: string -> string, a: string, b: string)
    requires Injective(digest) && a != b
    ensures digest(a) + ZipKeySuffix != digest(b) + ZipKeySuffix
  {
    var x, y := digest(a) + ZipKeySuffix, digest(b) + ZipKeySuffix;
    assert x[..|digest(a)|] == digest(a);
    assert y[..|digest(b)|] == digest(b);
  }

  // ---------------------------------------------------------------- selection

  /** The files a filter keeps, in list order. */
  function Filter(p: File -> bool, files: seq<File>): (r: seq<File>)
    ensures |r| <= |files|
    ensures forall i :: 0 <= i < |r| ==> p(r[i]) && r[i] in files
    ensures forall i :: 0 <= i < |files| && p(files[i]) ==> files[i] in r
  {
    if files == [] then []
    else
      var rest := Filter(p, files[..|files| - 1]);
      var last := files[|files| - 1];
      assert forall i :: 0 <= i < |files| - 1 ==> files[i] == files[..|files| - 1][i];
      if p(last) then rest + [last] else rest
  }

  /** Positions of the files a filter keeps, in increasing order. */
  function KeptPositions(p: File -> bool, files: seq<File>): (r: seq<nat>)
    ensures forall i :: 0 <= i < |r| ==> r[i] < |files| && p(files[r[i]])
    ensures forall i, j :: 0 <= i < j < |r| ==> r[i] < r[j]
  {
    if files == [] then []
    else
      var n := |files| - 1;
      var rest := KeptPositions(p, files[..n]);
      assert forall i :: 0 <= i < |rest| ==> files[rest[i]] == files[..n][rest[i]];
      if p(files[n]) then rest + [n] else rest
  }

  /** No matching position is skipped. */
  lemma {:induction false} KeptPositionsComplete(p: File -> bool, files: seq<File>, k: nat)
    requires k < |files| && p(files[k])
    ensures k in KeptPositions(p, files)
  {
    var n := |files| - 1;
    if k < n {
      assert files[..n][k] == files[k];
      KeptPositionsComplete(p, files[..n], k);
    }
  }

  /** `Filter` keeps order and multiplicity: its result is the file list read at the kept
      positions, so each matching file appears as often as in the list, in list order. */
  lemma {:induction false} FilterAtPositions(p: File -> bool, files: seq<File>)
    ensures |Filter(p, files)| == |KeptPositions(p, files)|
    ensures forall i :: 0 <= i < |Filter(p, files)| ==>
      Filter(p, files)[i] == files[KeptPositions(p, files)[i]]
  {
    if files != [] {
      var n := |files| - 1;
      var init := files[..n];
      FilterAtPositions(p, init);
      FilterSnoc(p, files);
      var r, ks := Filter(p, init), KeptPositions(p, init);
      var rr, kk := Filter(p, files), KeptPositions(p, files);
      assert |rr| == |kk|;
      forall i | 0 <= i < |rr|
        ensures rr[i] == files[kk[i]]
      {
        if i < |r| {
          assert rr[i] == r[i] && kk[i] == ks[i];
          assert init[ks[i]] == files[ks[i]];
        }
      }
    }
  }

  /** One step of `Filter` and `KeptPositions` together: the last file is kept, at its
      position, exactly when it matches. */
  lemma FilterSnoc(p: File -> bool, files: seq<File>)
    requires files != []
    ensures p(files[|files| - 1]) ==>
      Filter(p, files) == Filter(p, files[..|files| - 1]) + [files[|files| - 1]]
      && KeptPositions(p, files) == KeptPositions(p, files[..|files| - 1]) + [|files| - 1]
    ensures !p(files[|files| - 1]) ==>
      Filter(p, files) == Filter(p, files[..|files| - 1])
      && KeptPositions(p, files) == KeptPositions(p, files[..|files| - 1])
  {
  }

  /** Each file occurs in the filtered list as often as in the list when it matches, and not
      at all otherwise. */
  lemma {:induction false} FilterCount(p: File -> bool, files: seq<File>, f: File)
    ensures multiset(Filter(p, files))[f] == if p(f) then multiset(files)[f] else 0
  {
    if files != [] {
      var n := |files| - 1;
      FilterCount(p, files[..n], f);
      assert files == files[..n] + [files[n]];
    }
  }

  /** The files `getZippedFiles` packs: all of them without a filter, the matching ones with one. */
  function Selected(files: seq<File>, filter: Option<File -> bool>): seq<File>
  {
    match filter
    case None => files
    case Some(p) => Filter(p, files)
  }

  /** Total length of everything the files feed to the digest. */
  function Weight(files: seq<File>): nat
  {
    if files == [] then 0 else Weight(files[..|files| - 1]) + |files[|files| - 1].title| + |files[|files| - 1].hash|
  }

  lemma {:induction false} FilesInputLength(files: seq<File>)
    ensures |FilesInput(files)| == Weight(files)
  {
    if files != [] {
      FilesInputLength(files[..|files| - 1]);
    }
  }

  /** Filtering never adds weight. */
  lemma {:induction false} FilterWeight(p: File -> bool, files: seq<File>)
    ensures Weight(Filter(p, files)) <= Weight(files)
  {
    if files != [] {
      var init := files[..|files| - 1];
      var last := files[|files| - 1];
      FilterWeight(p, init);
      var r := Filter(p, init);
      if p(last) {
        assert (r + [last])[..|r + [last]| - 1] == r;
      }
    }
  }

  /** Dropping a file with a non-empty title or hash removes weight. */
  lemma {:induction false} FilterDropWeight(p: File -> bool, files: seq<File>, k: nat)
    requires k < |files| && !p(files[k]) && (files[k].title != "" || files[k].hash != "")
    ensures Weight(Filter(p, files)) < Weight(files)
  {
    var init := files[..|files| - 1];
    var last := files[|files| - 1];
    var r := Filter(p, init);
    if k < |init| {
      assert init[k] == files[k];
      FilterDropWeight(p, init, k);
      if p(last) {
        assert (r + [last])[..|r + [last]| - 1] == r;
      }
    } else {
      FilterWeight(p, init);
    }
  }

  /** A filter that drops a file with a non-empty title or hash feeds a different string
      than the full file list. */
  lemma SelectionKeyInputDiffers(id: nat, title: string, files: seq<File>, p: File -> bool, k: nat)
    requires k < |files| && !p(files[k]) && (files[k].title != "" || files[k].hash != "")
    ensures CacheKeyInput(id, title, Filter(p, files)) != CacheKeyInput(id, title, files)
  {
    FilterDropWeight(p, files, k);
    FilesInputLength(files);
    FilesInputLength(Filter(p, files));
  }

  // ---------------------------------------------------------------- protection

  /** The file is publicly viewable: open to anyone, or inheriting from a folder the
      permission checker lets the visitor view. */
  predicate Exposes(f: File, canViewParent: nat -> bool)
  {
    f.canViewType == Anyone || (f.canViewType == Inherit && f.parentId != 0 && canViewParent(f.parentId))
  }

  // ---------------------------------------------------------------- collaborators

  /** The shared cache `CacheInterface.DLPackage_Generated`. */
  class Cache {
    var entries: map<string, string>

    constructor ()
      ensures entries == map[]
    {
      entries := map[];
    }

    method Get(key: string) returns (v: Option<string>)
      ensures v == Lookup(entries, key)
    {
      v := if key in entries then Some(entries[key]) else None;
    }

    method Set(key: string, v: string)
      modifies this
      ensures entries == old(entries)[key := v]
    {
      entries := entries[key := v];
    }

    method Clear()
      modifies this
      ensures entries == map[]
    {
      entries := map[];
    }
  }

  /** What a cache holds under `key`, if anything. */
  function Lookup(m: map<string, string>, key: string): (v: Option<string>)
    ensures v.Some? <==> key in m
    ensures v.Some? ==> v.value == m[key]
  {
    if key in m then Some(m[key]) else None
  }

  /** The asset store, as the set of file versions it holds. */
  class AssetStore {
    var stored: set<FileRef>

    constructor ()
      ensures stored == {}
    {
      stored := {};
    }

    /** `exists(filename, hash)`: that version is stored; without a hash there is none. */
    predicate Exists(filename: string, hash: Option<string>)
      reads this
    {
      hash.Some? && FileRef(filename, hash.value) in stored
    }

    /** `setFromLocalFile`: store the archive whose content hash is `hash` under `filename`;
        an empty hash stands for a failed write, which stores nothing. */
    method SetFromLocalFile(filename: string, hash: string) returns (value: FileRef)
      modifies this
      ensures value == FileRef(filename, hash)
      ensures stored == if hash != "" then old(stored) + {value} else old(stored)
    {
      value := FileRef(filename, hash);
      if hash != "" {
        stored := stored + {value};
      }
    }
  }

  /** `flush`: empty the shared generated-file cache. */
  method Flush(shared: Cache)
    modifies shared
    ensures shared.entries == map[]
    ensures forall key :: Lookup(shared.entries, key).None?
  {
    shared.Clear();
  }

  // ---------------------------------------------------------------- the package

  class Package {
    var id: nat
    var title: string
    var enableZip: bool
    var files: seq<File>
    var cache: Cache?

    constructor (id: nat, title: string, enableZip: bool, files: seq<File>)
      ensures this.id == id && this.title == title && this.enableZip == enableZip && this.files == files
      ensures cache == null
    {
      this.id := id;
      this.title := title;
      this.enableZip := enableZip;
      this.files := files;
      cache := null;
    }

    /** `getCache`: the shared cache, looked up on first use and kept afterwards. */
    method GetCache(shared: Cache) returns (c: Cache)
      modifies this`cache
      ensures old(cache) == null ==> c == shared
      ensures old(cache) != null ==> c == old(cache)
      ensures cache == c
    {
      if cache == null {
        cache := shared;
      }
      c := cache;
    }

    /** `getCacheKey`: a digest context fed the ID and title, then each file's title and
        hash in list order. */
    method GetCacheKey(digest: string -> string) returns (key: string)
      ensures key == digest(CacheKeyInput(id, title, files))
    {
      var fed := NatToString(id) + title;
      for i := 0 to |files|
        invariant fed == NatToString(id) + title + FilesInput(files[..i])
      {
        assert files[..i + 1][..i] == files[..i];
        fed := fed + files[i].title + files[i].hash;
      }
      assert files[..|files|] == files;
      key := digest(fed);
    }

    /** The cache entry under which the archive's hash is kept. */
    function ZipCacheKey(digest: string -> string): string
      reads this
    {
      digest(CacheKeyInput(id, title, files)) + ZipKeySuffix
    }

    /** The archive's filename: the title's URL slug with ".zip". */
    function ZipFilename(slug: string -> string): string
      reads this
    {
      slug(title) + ZipExtension
    }

    /** `filesAreProtected`: scan the files and stop at the first publicly viewable one. */
    method FilesAreProtected(canViewParent: nat -> bool) returns (protected: bool)
      ensures protected <==> forall i :: 0 <= i < |files| ==> !Exposes(files[i], canViewParent)
      ensures files == [] ==> protected
    {
      for i := 0 to |files|
        invariant forall j :: 0 <= j < i ==> !Exposes(files[j], canViewParent)
      {
        if files[i].canViewType == Anyone {
          return false;
        }
        if files[i].canViewType == Inherit && files[i].parentId != 0 {
          if canViewParent(files[i].parentId) {
            return false;
          }
        }
      }
      return true;
    }

    /** The cache-or-build step shared by both archive methods: serve the version recorded
        under `key` when the store holds it; otherwise build the archive of `selected`
        (unless the temporary archive cannot be opened), store it, and record its hash
        under `key` when the store returned one. */
    method ZipWithKey(selected: seq<File>, key: string, name: string, shared: Cache, store: AssetStore,
                      archiveOpens: bool, archiveHash: seq<File> -> string)
      returns (res: Option<FileRef>)
      requires cache == null || cache == shared
      modifies this`cache, shared, store
      ensures cache == shared
      ensures old(store.Exists(name, Lookup(shared.entries, key))) ==>
        && res == Some(FileRef(name, Lookup(old(shared.entries), key).value))
        && shared.entries == old(shared.entries) && store.stored == old(store.stored)
      ensures !old(store.Exists(name, Lookup(shared.entries, key))) && !archiveOpens ==>
        res.None? && shared.entries == old(shared.entries) && store.stored == old(store.stored)
      ensures !old(store.Exists(name, Lookup(shared.entries, key))) && archiveOpens ==>
        && res == Some(FileRef(name, archiveHash(selected)))
        && store.stored == (if archiveHash(selected) != "" then old(store.stored) + {res.value} else old(store.stored))
        && shared.entries == (if archiveHash(selected) != "" then old(shared.entries)[key := archiveHash(selected)]
                              else old(shared.entries))
    {
      var c := GetCache(shared);
      var cached := c.Get(key);
      if !store.Exists(name, cached) {
        if !archiveOpens {
          return None;
        }
        var value := store.SetFromLocalFile(name, archiveHash(selected));
        if value.hash != "" {
          c.Set(key, value.hash);
        }
        res := Some(value);
      } else {
        res := Some(FileRef(name, cached.value));
      }
    }

    /** `getZippedFiles`: nothing when zipping is disabled, the selection is empty or no zip
        support is available; otherwise the cache-or-build step, keyed by the package's
        cache key over ALL its files, whatever the filter selected. */
    method GetZippedFiles(filter: Option<File -> bool>, zipAvailable: bool, shared: Cache, store: AssetStore,
                          slug: string -> string, digest: string -> string,
                          archiveOpens: bool, archiveHash: seq<File> -> string)
      returns (res: Option<FileRef>)
      requires cache == null || cache == shared
      modifies this`cache, shared, store
      ensures !enableZip || Selected(files, filter) == [] || !zipAvailable ==>
        res.None? && cache == old(cache) && shared.entries == old(shared.entries) && store.stored == old(store.stored)
      ensures enableZip && Selected(files, filter) != [] && zipAvailable ==>
        && cache == shared
        && (old(store.Exists(ZipFilename(slug), Lookup(shared.entries, ZipCacheKey(digest)))) ==>
              && res == Some(FileRef(ZipFilename(slug), Lookup(old(shared.entries), ZipCacheKey(digest)).value))
              && shared.entries == old(shared.entries) && store.stored == old(store.stored))
        && (!old(store.Exists(ZipFilename(slug), Lookup(shared.entries, ZipCacheKey(digest)))) ==>
              if archiveOpens then
                && res == Some(FileRef(ZipFilename(slug), archiveHash(Selected(files, filter))))
                && store.stored == (if res.value.hash != "" then old(store.stored) + {res.value} else old(store.stored))
                && shared.entries == (if res.value.hash != "" then old(shared.entries)[ZipCacheKey(digest) := res.value.hash]
                                      else old(shared.entries))
              else
                res.None? && shared.entries == old(shared.entries) && store.stored == old(store.stored))
    {
      var selected := Selected(files, filter);
      if !enableZip || |selected| < 1 {
        return None;
      }
      if !zipAvailable {
        return None;
      }
      var name := slug(title) + ZipExtension;
      var key := GetCacheKey(digest);
      res := ZipWithKey(selected, key + ZipKeySuffix, name, shared, store, archiveOpens, archiveHash);
    }

    /** The archive method keyed by the files it packs: like `GetZippedFiles`, but the cache
        entry is derived from the selected files only, so archives of different selections
        are kept apart. */
    method GetZippedFilesKeyedBySelection(filter: Option<File -> bool>, zipAvailable: bool, shared: Cache,
                                          store: AssetStore, slug: string -> string, digest: string -> string,
                                          archiveOpens: bool, archiveHash: seq<File> -> string)
      returns (res: Option<FileRef>)
      requires cache == null || cache == shared
      modifies this`cache, shared, store
      ensures !enableZip || Selected(files, filter) == [] || !zipAvailable ==>
        res.None? && cache == old(cache) && shared.entries == old(shared.entries) && store.stored == old(store.stored)
      ensures enableZip && Selected(files, filter) != [] && zipAvailable ==>
        var key := digest(CacheKeyInput(id, title, Selected(files, filter))) + ZipKeySuffix;
        && cache == shared
        && (old(store.Exists(ZipFilename(slug), Lookup(shared.entries, key))) ==>
              && res == Some(FileRef(ZipFilename(slug), Lookup(old(shared.entries), key).value))
              && shared.entries == old(shared.entries) && store.stored == old(store.stored))
        && (!old(store.Exists(ZipFilename(slug), Lookup(shared.entries, key))) ==>
              if archiveOpens then
                && res == Some(FileRef(ZipFilename(slug), archiveHash(Selected(files, filter))))
                && store.stored == (if res.value.hash != "" then old(store.stored) + {res.value} else old(store.stored))
                && shared.entries == (if res.value.hash != "" then old(shared.entries)[key := res.value.hash]
                                      else old(shared.entries))
              else
                res.None? && shared.entries == old(shared.entries) && store.stored == old(store.stored))
    {
      var selected := Selected(files, filter);
      if !enableZip || |selected| < 1 {
        return None;
      }
      if !zipAvailable {
        return None;
      }
      var name := slug(title) + ZipExtension;
      var key := digest(CacheKeyInput(id, title, selected)) + ZipKeySuffix;
      res := ZipWithKey(selected, key, name, shared, store, archiveOpens, archiveHash);
    }
  }

  /** As written: after an unfiltered call has built and cached the full archive, a
      filtered call on the same package is served that full archive, although its
      selection is smaller. */
  method FilteredCallServedFullArchive(pkg: Package, p: File -> bool, shared: Cache, store: AssetStore,
                                       slug: string -> string, digest: string -> string,
                                       archiveHash: seq<File> -> string)
    returns (full: Option<FileRef>, filtered: Option<FileRef>)
    requires pkg.cache == null || pkg.cache == shared
    requires pkg.enableZip && Filter(p, pkg.files) != []
    requires shared.entries == map[] && store.stored == {}
    requires archiveHash(pkg.files) != ""
    modifies pkg`cache, shared, store
    ensures full == Some(FileRef(pkg.ZipFilename(slug), archiveHash(pkg.files)))
    ensures filtered == full
  {
    assert Lookup(shared.entries, pkg.ZipCacheKey(digest)).None?;
    full := pkg.GetZippedFiles(None, true, shared, store, slug, digest, true, archiveHash);
    assert shared.entries == map[pkg.ZipCacheKey(digest) := archiveHash(pkg.files)];
    assert store.Exists(pkg.ZipFilename(slug), Lookup(shared.entries, pkg.ZipCacheKey(digest)));
    filtered := pkg.GetZippedFiles(Some(p), true, shared, store, slug, digest, true, archiveHash);
  }

  /** Corrected: with a collision-free digest, the same two calls keyed by the selection
      build a second archive from the selected files when the filter drops a file that
      feeds the key. */
  method FilteredCallBuildsOwnArchive(pkg: Package, p: File -> bool, k: nat, shared: Cache, store: AssetStore,
                                      slug: string -> string, digest: string -> string,
                                      archiveHash: seq<File> -> string)
    returns (full: Option<FileRef>, filtered: Option<FileRef>)
    requires pkg.cache == null || pkg.cache == shared
    requires pkg.enableZip && Filter(p, pkg.files) != []
    requires k < |pkg.files| && !p(pkg.files[k]) && (pkg.files[k].title != "" || pkg.files[k].hash != "")
    requires Injective(digest)
    requires shared.entries == map[] && store.stored == {}
    requires archiveHash(pkg.files) != ""
    modifies pkg`cache, shared, store
    ensures full == Some(FileRef(pkg.ZipFilename(slug), archiveHash(pkg.files)))
    ensures filtered == Some(FileRef(pkg.ZipFilename(slug), archiveHash(Filter(p, pkg.files))))
  {
    full := pkg.GetZippedFilesKeyedBySelection(None, true, shared, store, slug, digest, true, archiveHash);
    var fullKey := digest(CacheKeyInput(pkg.id, pkg.title, pkg.files)) + ZipKeySuffix;
    var selKey := digest(CacheKeyInput(pkg.id, pkg.title, Filter(p, pkg.files))) + ZipKeySuffix;
    SelectionKeyInputDiffers(pkg.id, pkg.title, pkg.files, p, k);
    DistinctInputsDistinctKeys(digest, CacheKeyInput(pkg.id, pkg.title, Filter(p, pkg.files)),
                               CacheKeyInput(pkg.id, pkg.title, pkg.files));
    assert shared.entries == map[fullKey := archiveHash(pkg.files)];
    assert Lookup(shared.entries, selKey).None?;
    filtered := pkg.GetZippedFilesKeyedBySelection(Some(p), true, shared, store, slug, digest, true, archiveHash);
  }
}
