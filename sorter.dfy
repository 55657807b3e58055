/**
 * The outcome of sorting a source tree into extension buckets, without threads,
 * order or file contents: which destinations the recursive fan-out writes to.
 */
module Sorter {
  import opened Buckets

  /**
   * An entry of a directory listing: a regular file, a subdirectory with its own
   * listing, or anything that is neither (a socket, a dangling link), which the
   * walk skips.
   */
  datatype Entry = File(name: string) | Dir(name: string, items: seq<Entry>) | Other(name: string)

  /** Where a copied file lands under the target: its bucket and its own name. */
  datatype Key = Key(bucket: string, name: string)

  /** The key of a file with the given name. */
  function KeyOf(name: string): Key {
    Key(Bucket(name), name)
  }

  /** The files the walk reaches below a listing, depth first in listing order. */
  function Files(items: seq<Entry>): seq<string>
    decreases items
  {
    if items == [] then [] else EntryFiles(items[0]) + Files(items[1..])
  }

  /** The files the walk reaches from one entry. */
  function EntryFiles(e: Entry): seq<string>
    decreases e
  {
    match e
    case File(name) => [name]
    case Dir(_, items) => Files(items)
    case Other(_) => []
  }

  /**
   * `process_directory`: every subdirectory is walked in its own task and every
   * file is copied by `copy_file` in its own task; the outcome is the set of
   * destination keys written.
   */
  function DirectoryKeys(items: seq<Entry>): set<Key>
    decreases items
  {
    if items == [] then {} else EntryKeys(items[0]) + DirectoryKeys(items[1..])
  }

  /** The destination keys written for one entry of a listing. */
  function EntryKeys(e: Entry): set<Key>
    decreases e
  {
    match e
    case File(name) => {KeyOf(name)}
    case Dir(_, items) => DirectoryKeys(items)
    case Other(_) => {}
  }

  /** The keys of a sequence of file names: one per distinct name. */
  function NameKeys(names: seq<string>): (keys: set<Key>)
  {
    if names == [] then {} else {KeyOf(names[0])} + NameKeys(names[1..])
  }

  /** A key belongs to a sequence of names exactly when its name is one of them and
      its bucket is that name's bucket. */
  lemma {:induction false} NameKeysMembers(names: seq<string>)
    ensures forall k :: k in NameKeys(names) <==> k.name in names && k == KeyOf(k.name)
  {
    if names != [] {
      NameKeysMembers(names[1..]);
      assert forall n :: n in names <==> n == names[0] || n in names[1..];
    }
  }

  /** The keys of two sequences of names, one after the other. */
  lemma {:induction false} NameKeysAppend(a: seq<string>, b: seq<string>)
    ensures NameKeys(a + b) == NameKeys(a) + NameKeys(b)
  {
    if a != [] {
      assert (a + b)[0] == a[0];
      assert (a + b)[1..] == a[1..] + b;
      NameKeysAppend(a[1..], b);
    } else {
      assert a + b == b;
    }
  }

  /** There are never more keys than names: equal names share one key. */
  lemma {:induction false} NameKeysSize(names: seq<string>)
    ensures |NameKeys(names)| <= |names|
  {
    if names != [] {
      NameKeysSize(names[1..]);
    }
  }

  /** The fan-out writes one key per reachable file name: the walk's outcome is the
      keys of the files it reaches. */
  lemma {:induction false} DirectoryKeysAreFileKeys(items: seq<Entry>)
    ensures DirectoryKeys(items) == NameKeys(Files(items))
    decreases items
  {
    if items != [] {
      EntryKeysAreFileKeys(items[0]);
      DirectoryKeysAreFileKeys(items[1..]);
      NameKeysAppend(EntryFiles(items[0]), Files(items[1..]));
    }
  }

  /** The same for one entry. */
  lemma {:induction false} EntryKeysAreFileKeys(e: Entry)
    ensures EntryKeys(e) == NameKeys(EntryFiles(e))
    decreases e
  {
    match e
    case File(name) =>
      assert NameKeys([name]) == {KeyOf(name)} + NameKeys([]);
    case Dir(_, items) => DirectoryKeysAreFileKeys(items);
    case Other(_) =>
  }

  /** A key is written exactly when a file of that name is reachable, and its
      bucket is that name's bucket. */
  lemma ReachableFileKeys(items: seq<Entry>)
    ensures forall k :: k in DirectoryKeys(items) <==> k.name in Files(items) && k == KeyOf(k.name)
  {
    DirectoryKeysAreFileKeys(items);
    NameKeysMembers(Files(items));
  }

  /** Every file an entry reaches is reached from the listing that holds it. */
  lemma {:induction false} EntryFilesIncluded(items: seq<Entry>, i: nat)
    requires i < |items|
    ensures forall n :: n in EntryFiles(items[i]) ==> n in Files(items)
  {
    if i > 0 {
      assert items[1..][i - 1] == items[i];
      EntryFilesIncluded(items[1..], i - 1);
    }
  }

  /** Every file a listing reaches is reached from one of its entries. */
  lemma {:induction false} FileSource(items: seq<Entry>, n: string) returns (i: nat)
    requires n in Files(items)
    ensures i < |items| && n in EntryFiles(items[i])
  {
    if n in EntryFiles(items[0]) {
      i := 0;
    } else {
      var j := FileSource(items[1..], n);
      assert items[1..][j] == items[j + 1];
      i := j + 1;
    }
  }

  /** Two listings with the same entries, in any order, reach the same file names. */
  lemma ListingOrderFiles(a: seq<Entry>, b: seq<Entry>)
    requires forall e :: e in a <==> e in b
    ensures forall n :: n in Files(a) <==> n in Files(b)
  {
    forall n | n in Files(a)
      ensures n in Files(b)
    {
      var i := FileSource(a, n);
      assert a[i] in b;
      var j :| 0 <= j < |b| && b[j] == a[i];
      EntryFilesIncluded(b, j);
    }
    forall n | n in Files(b)
      ensures n in Files(a)
    {
      var i := FileSource(b, n);
      assert b[i] in a;
      var j :| 0 <= j < |a| && a[j] == b[i];
      EntryFilesIncluded(a, j);
    }
  }

  /**
   * The order in which the listing yields its entries does not change the outcome:
   * two listings with the same entries write the same keys.
   */
  lemma ListingOrderIrrelevant(a: seq<Entry>, b: seq<Entry>)
    requires forall e :: e in a <==> e in b
    ensures DirectoryKeys(a) == DirectoryKeys(b)
  {
    ListingOrderFiles(a, b);
    ReachableFileKeys(a);
    ReachableFileKeys(b);
  }

  /** The keys of two listings walked one after the other. */
  lemma {:induction false} DirectoryKeysAppend(a: seq<Entry>, b: seq<Entry>)
    ensures DirectoryKeys(a + b) == DirectoryKeys(a) + DirectoryKeys(b)
  {
    if a != [] {
      assert (a + b)[0] == a[0];
      assert (a + b)[1..] == a[1..] + b;
      DirectoryKeysAppend(a[1..], b);
    } else {
      assert a + b == b;
    }
  }

  /**
   * The directory structure is not kept: a subdirectory writes the same keys as its
   * entries would if they sat directly in the parent listing, whatever its name.
   */
  lemma SubdirectoryFlattened(name: string, sub: seq<Entry>, rest: seq<Entry>)
    ensures DirectoryKeys([Dir(name, sub)] + rest) == DirectoryKeys(sub + rest)
  {
    DirectoryKeysAppend([Dir(name, sub)], rest);
    DirectoryKeysAppend(sub, rest);
    assert DirectoryKeys([Dir(name, sub)]) == EntryKeys(Dir(name, sub)) + DirectoryKeys([]);
  }

  /**
   * Name collisions: the walk writes at most one key per reachable file, and two
   * reachable files with the same name (in any directories) write the same key,
   * so both copies go to the same destination; which content ends up there is
   * not modelled.
   */
  lemma CollisionsOnlyShrink(items: seq<Entry>)
    ensures |DirectoryKeys(items)| <= |Files(items)|
  {
    DirectoryKeysAreFileKeys(items);
    NameKeysSize(Files(items));
  }

  /**
   * `sort_files_by_extension`: the destination paths the copies are written to,
   * one per key the walk of the source tree produces.
   */
  function SortFilesByExtension(target: Path, source: seq<Entry>): (dests: set<Path>)
    ensures forall n :: n in Files(source) ==> Destination(target, n) in dests
    ensures forall p :: p in dests ==> exists n :: n in Files(source) && p == Destination(target, n)
  {
    ReachableFileKeys(source);
    assert forall n :: Destination(target, n) == target + [KeyOf(n).bucket, KeyOf(n).name];
    set k | k in DirectoryKeys(source) :: target + [k.bucket, k.name]
  }

  /** The bucket directories the copies create under the target. */
  function BucketDirs(target: Path, source: seq<Entry>): (dirs: set<Path>)
    ensures forall d :: d in dirs <==> exists n :: n in Files(source) && d == BucketDir(target, n)
    ensures forall d :: d in dirs ==> |d| == |target| + 1 && d[..|target|] == target
    ensures forall d :: d in dirs ==> d[|target|] != "" && '.' !in d[|target|]
  {
    ReachableFileKeys(source);
    assert forall n :: BucketDir(target, n) == target + [KeyOf(n).bucket];
    set k | k in DirectoryKeys(source) :: target + [k.bucket]
  }

  /** Every destination lies directly inside a bucket directory created by the sort. */
  lemma DestinationsInBucketDirs(target: Path, source: seq<Entry>, p: Path)
    requires p in SortFilesByExtension(target, source)
    ensures |p| == |target| + 2
    ensures p[..|target| + 1] in BucketDirs(target, source)
  {
    var n :| n in Files(source) && p == Destination(target, n);
    ReachableFileKeys(source);
    assert KeyOf(n) in DirectoryKeys(source);
  }

  /** A listing of a single entry writes that entry's keys. */
  lemma DirectoryKeysSingleton(e: Entry)
    ensures DirectoryKeys([e]) == EntryKeys(e)
  {
    assert [e][1..] == [];
  }

  /** A listing of two entries writes the keys of both. */
  lemma DirectoryKeysPair(e1: Entry, e2: Entry)
    ensures DirectoryKeys([e1, e2]) == EntryKeys(e1) + EntryKeys(e2)
  {
    assert [e1, e2] == [e1] + [e2];
    DirectoryKeysAppend([e1], [e2]);
    DirectoryKeysSingleton(e1);
    DirectoryKeysSingleton(e2);
  }

  /** A listing of one entry and a subdirectory holding two more writes the keys of
      the three entries. */
  lemma NestedListingKeys(sub: string, e1: Entry, e2: Entry, e3: Entry)
    ensures DirectoryKeys([e1, Dir(sub, [e2, e3])]) == EntryKeys(e1) + EntryKeys(e2) + EntryKeys(e3)
  {
    DirectoryKeysPair(e1, Dir(sub, [e2, e3]));
    DirectoryKeysPair(e2, e3);
  }

  /**
   * The tree `a.txt`, `sub/b.txt`, `sub/c.jpg` is sorted into `txt/a.txt`,
   * `txt/b.txt` and `jpg/c.jpg`.
   */
  lemma ThreeFileScenario()
    ensures DirectoryKeys([File("a.txt"), Dir("sub", [File("b.txt"), File("c.jpg")])])
      == {Key("txt", "a.txt"), Key("txt", "b.txt"), Key("jpg", "c.jpg")}
  {
    NestedListingKeys("sub", File("a.txt"), File("b.txt"), File("c.jpg"));
    BucketATxt();
    BucketBTxt();
    BucketCJpg();
  }

  /** Two files with the same name in different subdirectories write one key: both
      copies go to the same destination. */
  lemma CollisionScenario(x: string, y: string, name: string)
    ensures DirectoryKeys([Dir(x, [File(name)]), Dir(y, [File(name)])]) == {KeyOf(name)}
  {
    var dx, dy := Dir(x, [File(name)]), Dir(y, [File(name)]);
    SameEntryTwice(dx, dy, File(name));
  }

  /** Two subdirectories that each hold the same single entry write that entry's keys. */
  lemma SameEntryTwice(dx: Entry, dy: Entry, e: Entry)
    requires dx.Dir? && dx.items == [e]
    requires dy.Dir? && dy.items == [e]
    ensures DirectoryKeys([dx, dy]) == EntryKeys(e)
  {
    DirectoryKeysPair(dx, dy);
    DirectoryKeysSingleton(e);
  }
}
