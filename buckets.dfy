/**
 * Naming in the file sorter: the extension bucket a file goes into and the path it
 * is copied to. File names are final path components (no separator), as the
 * directory listing yields them; paths are sequences of components.
 */
module Buckets {

  /** A filesystem path as its sequence of components. */
  type Path = seq<string>

  /** The bucket of files that have no usable extension. */
  const Unknown: string := "unknown"

  /**
   * `str.rfind(c)`: the index of the last occurrence of `c` in `s`, or -1 when `c`
   * does not occur.
   */
  function RFind(s: string, c: char): (i: int)
    ensures -1 <= i < |s|
    ensures i >= 0 ==> s[i] == c
    ensures forall j :: i < j < |s| ==> s[j] != c
  {
    if s == [] then -1
    else if s[|s| - 1] == c then |s| - 1
    else RFind(s[..|s| - 1], c)
  }

  /**
   * A name has an extension when a dot other than a leading one is followed by at
   * least one more character: some dot after the first character, and the name
   * does not end with a dot.
   */
  predicate HasExtension(name: string) {
    |name| >= 2 && name[|name| - 1] != '.' && '.' in name[1..]
  }

  /**
   * `PurePath.suffix` of a final component: from the last dot to the end, unless
   * that dot is the first or the last character, in which case the suffix is empty.
   */
  function Suffix(name: string): (r: string)
    ensures r != "" <==> HasExtension(name)
    ensures r != "" ==> 2 <= |r| < |name| && r[0] == '.' && '.' !in r[1..]
    ensures r != "" ==> name[|name| - |r|..] == r
  {
    var i := RFind(name, '.');
    assert HasExtension(name) <==> 0 < i < |name| - 1 by {
      if HasExtension(name) {
        var k :| 0 <= k < |name| - 1 && name[1..][k] == '.';
        assert name[k + 1] == '.';
      }
      if 0 < i < |name| - 1 {
        assert name[1..][i - 1] == '.';
      }
    }
    if 0 < i < |name| - 1 then name[i..] else ""
  }

  /**
   * The bucket name of a file: its extension without the dot, exactly as written
   * (no case folding), or `unknown` when it has none.
   */
  function Bucket(name: string): (b: string)
    ensures b != "" && '.' !in b
    ensures HasExtension(name) ==>
      && |b| + 1 < |name|
      && name[|name| - |b| - 1..] == "." + b
    ensures !HasExtension(name) ==> b == Unknown
  {
    var s := Suffix(name);
    if s != "" then
      assert s == "." + s[1..];
      s[1..]
    else Unknown
  }

  /** The extension bucket is the text after the last dot of a name with an
      extension: the name is some non-empty stem, a dot and the bucket. */
  lemma BucketIsLastExtension(name: string)
    requires HasExtension(name)
    ensures exists stem :: stem != "" && name == stem + "." + Bucket(name)
  {
    StemBeforeDot(name, Bucket(name));
  }

  /** A name that ends with a dot and `b`, with something before that dot, is a
      non-empty stem, the dot and `b`. */
  lemma StemBeforeDot(name: string, b: string)
    requires |b| + 1 < |name| && name[|name| - |b| - 1..] == "." + b
    ensures exists stem :: stem != "" && name == stem + "." + b
  {
    var stem := name[..|name| - |b| - 1];
    assert name == stem + name[|name| - |b| - 1..];
    assert stem + "." + b == stem + ("." + b);
    assert stem != "" && name == stem + "." + b;
  }

  /** A name made of a non-empty stem, a dot and a dot-free non-empty extension
      goes into the bucket named by that extension, letter case untouched. */
  lemma BucketOfStemAndExtension(stem: string, ext: string)
    requires stem != "" && ext != "" && '.' !in ext
    ensures Bucket(stem + "." + ext) == ext
  {
    var name := stem + "." + ext;
    assert name[|stem|] == '.';
    assert forall j :: |stem| < j < |name| ==> name[j] == ext[j - |stem| - 1];
    assert forall j :: 0 <= j < |ext| ==> ext[j] in ext;
    // The dot after the stem is the last dot of the name.
    assert RFind(name, '.') == |stem|;
    assert name[|stem| + 1..] == ext;
  }

  /** The bucket directory created for a file: `target / ext`. */
  function BucketDir(target: Path, name: string): (d: Path)
    ensures |d| == |target| + 1 && d[..|target|] == target
    ensures d[|target|] != "" && '.' !in d[|target|]
  {
    target + [Bucket(name)]
  }

  /**
   * The destination of a copied file: `target / ext / file.name`. The file keeps
   * its name, and exactly one directory level, the bucket, is added under the
   * target.
   */
  function Destination(target: Path, name: string): (p: Path)
    ensures |p| == |target| + 2
    ensures p[..|target|] == target
    ensures p[|target| + 1] == name
    ensures p[..|target| + 1] == BucketDir(target, name)
  {
    BucketDir(target, name) + [name]
  }

  /** Two files get the same destination exactly when they have the same name. */
  lemma DestinationCollision(target: Path, a: string, b: string)
    ensures Destination(target, a) == Destination(target, b) <==> a == b
  {
    if Destination(target, a) == Destination(target, b) {
      assert Destination(target, a)[|target| + 1] == Destination(target, b)[|target| + 1];
    }
  }

  /** The bucket of `a.txt`. */
  lemma BucketATxt()
    ensures Bucket("a.txt") == "txt"
  {
    assert "a" + "." + "txt" == "a.txt";
    BucketOfStemAndExtension("a", "txt");
  }

  /** The bucket of `b.txt`. */
  lemma BucketBTxt()
    ensures Bucket("b.txt") == "txt"
  {
    assert "b" + "." + "txt" == "b.txt";
    BucketOfStemAndExtension("b", "txt");
  }

  /** The bucket of `c.jpg`. */
  lemma BucketCJpg()
    ensures Bucket("c.jpg") == "jpg"
  {
    assert "c" + "." + "jpg" == "c.jpg";
    BucketOfStemAndExtension("c", "jpg");
  }

  /** With two dots in the name, the bucket is what follows the last one. */
  lemma BucketAfterLastDot()
    ensures Bucket("archive.tar.gz") == "gz"
  {
    assert "archive.tar" + "." + "gz" == "archive.tar.gz";
    BucketOfStemAndExtension("archive.tar", "gz");
  }

  /** The extension keeps its letter case: `Photo.JPG` goes to `JPG`, not `jpg`. */
  lemma BucketKeepsCase()
    ensures Bucket("Photo.JPG") == "JPG"
  {
    assert "Photo" + "." + "JPG" == "Photo.JPG";
    BucketOfStemAndExtension("Photo", "JPG");
  }

  /** Names without an extension go to the `unknown` bucket: a name without a dot,
      a name whose only dot leads it (a dot-file), and a name ending with a dot. */
  lemma UnknownBucket(name: string)
    ensures '.' !in name ==> Bucket(name) == Unknown
    ensures name != "" && '.' !in name[1..] ==> Bucket(name) == Unknown
    ensures name != "" && name[|name| - 1] == '.' ==> Bucket(name) == Unknown
  {
    if name != "" {
      assert forall j :: 0 <= j < |name| - 1 ==> name[1..][j] == name[j + 1];
    }
  }
}
