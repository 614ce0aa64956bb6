/**
 * The part of the filesystem getL3.py touches: one directory per (site, product) pair
 * under the storage root, plus the root's own files. A directory is a map from entry
 * names to contents; a pair missing from `dirs` is a directory that does not exist.
 */
module Files {

  type Bytes = seq<bv8>

  /** What a file holds: downloaded bytes, or text the program wrote itself. */
  datatype Content = Blob(bytes: Bytes) | Text(text: string)

  type Dir = map<string, Content>

  /** A monitored (site, product) pair; its directory is `ROOT/site/product`. */
  datatype Pair = Pair(site: string, product: string)

  datatype Tree = Tree(dirs: map<Pair, Dir>, root: Dir)

  /** The manifest file of a pair directory. */
  const ManifestName: string := "dir.list"

  /** The entries of a pair's directory; none when it does not exist. */
  function DirOf(t: Tree, p: Pair): Dir {
    if p in t.dirs then t.dirs[p] else map[]
  }

  function WithDir(t: Tree, p: Pair, d: Dir): (u: Tree)
    ensures p in u.dirs && u.dirs[p] == d
    ensures SameOutside(t, u, p)
  {
    t.(dirs := t.dirs[p := d])
  }

  /** Nothing outside pair `p`'s directory differs between `t` and `u`. */
  predicate SameOutside(t: Tree, u: Tree, p: Pair) {
    && u.root == t.root
    && (forall q :: q in u.dirs && q != p ==> q in t.dirs && u.dirs[q] == t.dirs[q])
    && (forall q :: q in t.dirs && q != p ==> q in u.dirs)
  }

  lemma SameOutsideTransitive(t: Tree, u: Tree, v: Tree, p: Pair)
    requires SameOutside(t, u, p) && SameOutside(u, v, p)
    ensures SameOutside(t, v, p)
  {
  }

  /** A tree that differs from `t` at most in pair `p` is `t` with `p`'s directory set. */
  lemma SameOutsideIsWithDir(t: Tree, u: Tree, p: Pair)
    requires SameOutside(t, u, p) && p in u.dirs
    ensures u == WithDir(t, p, u.dirs[p])
  {
    var w := WithDir(t, p, u.dirs[p]);
    assert u.dirs.Keys == w.dirs.Keys;
    assert u.dirs == w.dirs;
  }

  /** A tree that differs from `t` at most in pair `p`, and not there either, is `t`. */
  lemma SameOutsideEqual(t: Tree, u: Tree, p: Pair)
    requires SameOutside(t, u, p) && p !in t.dirs && p !in u.dirs
    ensures u == t
  {
    assert u.dirs.Keys == t.dirs.Keys;
    assert u.dirs == t.dirs;
  }

  /** `mkdir(parents=True, exist_ok=True)`: the directory exists afterwards, with whatever it held. */
  function MakeDirs(t: Tree, p: Pair): (u: Tree)
    ensures p in u.dirs && u.dirs[p] == DirOf(t, p)
    ensures SameOutside(t, u, p)
  {
    if p in t.dirs then t else WithDir(t, p, map[])
  }

  /** `Path(src).replace(dst)`: the file moves to `dst`, replacing anything there. */
  function Replace(d: Dir, src: string, dst: string): (e: Dir)
    requires src in d
    ensures dst in e && e[dst] == d[src]
    ensures src != dst ==> src !in e
    ensures forall k :: k in e && k != dst ==> k in d && e[k] == d[k]
    ensures forall k :: k in d && k != src && k != dst ==> k in e
  {
    (d - {src})[dst := d[src]]
  }

  /** `os.remove` / `Path.unlink`. */
  function Remove(d: Dir, name: string): Dir {
    d - {name}
  }

  /** Two directories with the same names and the same contents under each are equal. */
  lemma SameEntries(a: Dir, b: Dir)
    requires a.Keys == b.Keys
    requires forall k :: k in a ==> a[k] == b[k]
    ensures a == b
  {
  }

  /** Writing a new file and renaming it onto `dst` is writing `dst` directly. */
  lemma ReplaceFresh(d: Dir, src: string, dst: string, c: Content)
    requires src !in d && src != dst
    ensures Replace(d[src := c], src, dst) == d[dst := c]
  {
    var e := Replace(d[src := c], src, dst);
    assert e.Keys == d.Keys + {dst};
  }

  /** Writing a new file and removing it again leaves the directory as it was. */
  lemma RemoveFresh(d: Dir, name: string, c: Content)
    requires name !in d
    ensures Remove(d[name := c], name) == d
  {
    assert Remove(d[name := c], name).Keys == d.Keys;
  }
}
