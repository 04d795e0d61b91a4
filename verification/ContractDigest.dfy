/**
 The content digest of a contract tree (contracts.py, compute_contract_digest): which files are
 hashed, in which order, and why the framing makes the hashed bytes unambiguous.
 */
module ContractDigest {
  import opened Wrappers
  import opened Order
  import opened Lists
  import Text

  /** A relative path by its components. */
  type Path = seq<string>

  /** The regular files of a directory tree. */
  type Tree = map<Path, Bytes>

  datatype File = File(path: Path, content: Bytes)

  /** `str.encode()` and `sha256(...).hexdigest()`. */
  datatype Hashing = Hashing(utf8: string -> Bytes, sha: Bytes -> string)

  ghost predicate Utf8Injective(h: Hashing) {
    forall a, b :: h.utf8(a) == h.utf8(b) ==> a == b
  }

  // ---------------------------------------------------------------------------
  // Which files count
  // ---------------------------------------------------------------------------

  const CHECKSUM := "contract.sha256"
  const CACHE := "__pycache__"
  const BYTECODE := ".pyc"

  /** `PurePath(name).suffix == '.pyc'`: a name that is only a suffix has none. */
  predicate BytecodeName(name: string) { Text.EndsWith(name, BYTECODE) && name != BYTECODE }

  function Name(p: Path): string { if p == [] then "" else p[|p| - 1] }

  predicate Hashed(p: Path) {
    p != [] && Name(p) != CHECKSUM && CACHE !in p && !BytecodeName(Name(p))
  }

  // ---------------------------------------------------------------------------
  // Sorted paths
  // ---------------------------------------------------------------------------

  /** `Path.__lt__` orders paths component by component. */
  predicate PathLeq(a: Path, b: Path) {
    if a == [] then true
    else if b == [] then false
    else if a[0] != b[0] then StrLeq(a[0], b[0])
    else PathLeq(a[1..], b[1..])
  }

  lemma {:induction false} PathLeqTotal(a: Path, b: Path)
    ensures PathLeq(a, b) || PathLeq(b, a)
    decreases |a|
  {
    if a != [] && b != [] {
      if a[0] == b[0] { PathLeqTotal(a[1..], b[1..]); } else { StrLeqTotal(a[0], b[0]); }
    }
  }

  lemma {:induction false} PathLeqAntisymmetric(a: Path, b: Path)
    requires PathLeq(a, b) && PathLeq(b, a)
    ensures a == b
    decreases |a|
  {
    if a != [] && b != [] {
      if a[0] != b[0] { StrLeqAntisymmetric(a[0], b[0]); }
      PathLeqAntisymmetric(a[1..], b[1..]);
      assert a == [a[0]] + a[1..] && b == [b[0]] + b[1..];
    }
  }

  lemma {:induction false} PathLeqTransitive(a: Path, b: Path, c: Path)
    requires PathLeq(a, b) && PathLeq(b, c)
    ensures PathLeq(a, c)
    decreases |a|
  {
    if a != [] {
      if a[0] == b[0] == c[0] {
        PathLeqTransitive(a[1..], b[1..], c[1..]);
      } else {
        if a[0] != b[0] && b[0] != c[0] {
          StrLeqTransitive(a[0], b[0], c[0]);
          if a[0] == c[0] { StrLeqAntisymmetric(a[0], b[0]); }
        }
      }
    }
  }

  function ByPath(): (File, File) -> bool { (a: File, b: File) => PathLeq(a.path, b.path) }

  lemma ByPathOrders()
    ensures TotalPreorder(ByPath())
  {
    forall a: File, b: File ensures ByPath()(a, b) || ByPath()(b, a) { PathLeqTotal(a.path, b.path); }
    forall a: File, b: File, c: File | ByPath()(a, b) && ByPath()(b, c) ensures ByPath()(a, c) {
      PathLeqTransitive(a.path, b.path, c.path);
    }
  }

  function IsHashed(): File -> bool { (f: File) => Hashed(f.path) }

  /** The files in the order they are hashed. */
  function HashedFiles(listing: seq<File>): seq<File> { Sort(Filter(listing, IsHashed()), ByPath()) }

  /** `listing` names every file of the tree once, in any order, as `rglob` does. */
  ghost predicate ListingOf(listing: seq<File>, t: Tree) {
    forall f :: multiset(listing)[f] == if f.path in t && t[f.path] == f.content then 1 else 0
  }

  lemma ListedIff(listing: seq<File>, t: Tree, f: File)
    requires ListingOf(listing, t)
    ensures f in listing <==> f.path in t && t[f.path] == f.content
  {
    assert f in listing <==> multiset(listing)[f] > 0;
  }

  /** Sorting by path forgets the order of the listing. */
  lemma SortedListing(listing: seq<File>, other: seq<File>, t: Tree)
    requires ListingOf(listing, t) && ListingOf(other, t)
    ensures Sort(listing, ByPath()) == Sort(other, ByPath())
  {
    forall f ensures multiset(listing)[f] == multiset(other)[f] {
    }
    forall x, y | x in listing && y in listing && ByPath()(x, y) && ByPath()(y, x) ensures x == y {
      PathLeqAntisymmetric(x.path, y.path);
      ListedIff(listing, t, x);
      ListedIff(listing, t, y);
    }
    ByPathOrders();
    SortPermutation(listing, other, ByPath());
  }

  ghost function Listing(t: Tree): (listing: seq<File>)
    decreases |t|
  {
    if t == map[] then []
    else
      var p :| p in t;
      [File(p, t[p])] + Listing(t - {p})
  }

  lemma {:induction false} ListingLists(t: Tree)
    ensures ListingOf(Listing(t), t)
    decreases |t|
  {
    if t != map[] {
      var listing := Listing(t);
      var f := listing[0];
      assert listing == [f] + listing[1..];
      ListingLists(t - {f.path});
      assert listing[1..] == Listing(t - {f.path});
      forall g ensures multiset(listing)[g] == if g.path in t && t[g.path] == g.content then 1 else 0 {
        assert multiset(listing)[g] == multiset([f])[g] + multiset(listing[1..])[g];
      }
    }
  }

  /** The part of a tree that is hashed. */
  function Visible(t: Tree): Tree { map p | p in t && Hashed(p) :: t[p] }

  lemma FilteredListing(listing: seq<File>, t: Tree)
    requires ListingOf(listing, t)
    ensures ListingOf(Filter(listing, IsHashed()), Visible(t))
  {
    forall f
      ensures multiset(Filter(listing, IsHashed()))[f] ==
        if f.path in Visible(t) && Visible(t)[f.path] == f.content then 1 else 0
    {
      FilterCount(listing, IsHashed(), f);
    }
  }

  // ---------------------------------------------------------------------------
  // The framing
  // ---------------------------------------------------------------------------

  function Power(k: nat): (r: nat)
    ensures r >= 1
  {
    if k == 0 then 1 else 256 * Power(k - 1)
  }

  /** `n.to_bytes(k, 'big')` for `n` below 256 to the `k`. */
  function BigEndian(n: nat, k: nat): (r: Bytes)
    ensures |r| == k
  {
    if k == 0 then [] else BigEndian(n / 256, k - 1) + [n % 256]
  }

  lemma {:induction false} BigEndianInjective(m: nat, n: nat, k: nat)
    requires m < Power(k) && n < Power(k) && BigEndian(m, k) == BigEndian(n, k)
    ensures m == n
  {
    if k > 0 {
      var a, b := BigEndian(m, k), BigEndian(n, k);
      assert a[..k - 1] == BigEndian(m / 256, k - 1) && b[..k - 1] == BigEndian(n / 256, k - 1);
      assert a[k - 1] == m % 256 && b[k - 1] == n % 256;
      BigEndianInjective(m / 256, n / 256, k - 1);
    }
  }

  /** The lengths that eight bytes can carry. */
  ghost predicate Framable(b: Bytes) { |b| < Power(8) }

  function Framed(b: Bytes): Bytes { BigEndian(|b|, 8) + b }

  lemma FramedPrefix(a: Bytes, x: Bytes, b: Bytes, y: Bytes)
    requires Framable(a) && Framable(b) && Framed(a) + x == Framed(b) + y
    ensures a == b && x == y
  {
    var s, t := Framed(a) + x, Framed(b) + y;
    assert s[..8] == BigEndian(|a|, 8) && t[..8] == BigEndian(|b|, 8);
    BigEndianInjective(|a|, |b|, 8);
    assert s[8..8 + |a|] == a && t[8..8 + |b|] == b;
    assert s[8 + |a|..] == x && t[8 + |b|..] == y;
  }

  /** `relative_to(root).as_posix()`. */
  function Slashed(p: Path): string { Text.Join("/", p) }

  function Entry(f: File, h: Hashing): Bytes { Framed(h.utf8(Slashed(f.path))) + Framed(f.content) }

  /** The bytes fed to the hash. */
  function Stream(files: seq<File>, h: Hashing): Bytes {
    if files == [] then [] else Entry(files[0], h) + Stream(files[1..], h)
  }

  /** Components of a real path: not empty, no separator. */
  ghost predicate RealPath(p: Path) {
    p != [] && forall i :: 0 <= i < |p| ==> p[i] != "" && '/' !in p[i]
  }

  lemma NextIsNoSlash(a: string, x: string, b: string, y: string)
    requires '/' !in b && a + x == b + y && |a| < |b|
    ensures x != "" && x[0] != '/'
  {
    var s := a + x;
    assert s[..|b|] == b && s[|a|] == b[|a|] && b[|a|] in b;
  }

  lemma SlashFirst(a: string, x: string, b: string, y: string)
    requires '/' !in a && '/' !in b
    requires a + x == b + y
    requires x == "" || x[0] == '/'
    requires y == "" || y[0] == '/'
    ensures a == b && x == y
  {
    if |a| < |b| { NextIsNoSlash(a, x, b, y); }
    if |b| < |a| { NextIsNoSlash(b, y, a, x); }
    var s, t := a + x, b + y;
    assert s[..|a|] == a && t[..|b|] == b && s[|a|..] == x && t[|b|..] == y;
  }

  lemma {:induction false} SlashedInjective(p: Path, q: Path)
    requires RealPath(p) && RealPath(q) && Slashed(p) == Slashed(q)
    ensures p == q
    decreases |p|
  {
    var x := if |p| == 1 then "" else "/" + Slashed(p[1..]);
    var y := if |q| == 1 then "" else "/" + Slashed(q[1..]);
    assert Slashed(p) == p[0] + x && Slashed(q) == q[0] + y;
    SlashFirst(p[0], x, q[0], y);
    assert p == [p[0]] + p[1..] && q == [q[0]] + q[1..];
    if |p| > 1 {
      assert x[1..] == Slashed(p[1..]);
      assert y[1..] == Slashed(q[1..]);
      SlashedInjective(p[1..], q[1..]);
    }
  }

  ghost predicate FramableFile(f: File, h: Hashing) {
    RealPath(f.path) && Framable(h.utf8(Slashed(f.path))) && Framable(f.content)
  }

  ghost predicate FramableFiles(files: seq<File>, h: Hashing) {
    forall i :: 0 <= i < |files| ==> FramableFile(files[i], h)
  }

  lemma EntryParts(f: File, x: Bytes, h: Hashing)
    ensures Entry(f, h) + x == Framed(h.utf8(Slashed(f.path))) + (Framed(f.content) + x)
  {
    Regroup(Framed(h.utf8(Slashed(f.path))), Framed(f.content), x);
  }

  lemma Regroup(a: Bytes, b: Bytes, c: Bytes)
    ensures a + b + c == a + (b + c)
  {
  }

  lemma EntryFirst(f: File, x: Bytes, g: File, y: Bytes, h: Hashing)
    requires Utf8Injective(h) && FramableFile(f, h) && FramableFile(g, h)
    requires Entry(f, h) + x == Entry(g, h) + y
    ensures f == g && x == y
  {
    EntryParts(f, x, h);
    EntryParts(g, y, h);
    FramedPrefix(h.utf8(Slashed(f.path)), Framed(f.content) + x, h.utf8(Slashed(g.path)), Framed(g.content) + y);
    FramedPrefix(f.content, x, g.content, y);
    SlashedInjective(f.path, g.path);
  }

  lemma EntryNotEmpty(f: File, x: Bytes, h: Hashing)
    ensures Entry(f, h) + x != []
  {
    assert |Entry(f, h)| >= 16;
  }

  /** The hashed bytes determine the list of paths and contents. */
  lemma {:induction false} StreamInjective(files: seq<File>, others: seq<File>, h: Hashing)
    requires Utf8Injective(h) && FramableFiles(files, h) && FramableFiles(others, h)
    requires Stream(files, h) == Stream(others, h)
    ensures files == others
    decreases |files|
  {
    if files != [] { EntryNotEmpty(files[0], Stream(files[1..], h), h); }
    if others != [] { EntryNotEmpty(others[0], Stream(others[1..], h), h); }
    if files != [] && others != [] {
      EntryFirst(files[0], Stream(files[1..], h), others[0], Stream(others[1..], h), h);
      StreamInjective(files[1..], others[1..], h);
      Uncons(files, others);
    }
  }

  // ---------------------------------------------------------------------------
  // The digest of a tree
  // ---------------------------------------------------------------------------

  ghost function StreamOf(t: Tree, h: Hashing): Bytes { Stream(HashedFiles(Listing(t)), h) }

  /** `None` stands for the error on a tree without content. */
  ghost function DigestOf(t: Tree, h: Hashing): Option<string> {
    if Visible(t) == map[] then None else Some(h.sha(StreamOf(t, h)))
  }

  lemma {:induction false} StreamSnoc(files: seq<File>, f: File, h: Hashing)
    ensures Stream(files + [f], h) == Stream(files, h) + Entry(f, h)
  {
    if files == [] {
      assert [] + [f] == [f] && [f][1..] == [];
      assert Stream([f], h) == Entry(f, h) + [];
    } else {
      assert (files + [f])[1..] == files[1..] + [f];
      StreamSnoc(files[1..], f, h);
    }
  }

  lemma AnyListing(listing: seq<File>, t: Tree)
    requires ListingOf(listing, t)
    ensures HashedFiles(listing) == HashedFiles(Listing(t))
    ensures HashedFiles(listing) == [] <==> Visible(t) == map[]
  {
    ListingLists(t);
    FilteredListing(listing, t);
    FilteredListing(Listing(t), t);
    SortedListing(Filter(listing, IsHashed()), Filter(Listing(t), IsHashed()), Visible(t));
    var files := Filter(listing, IsHashed());
    if files == [] {
      forall p ensures p !in Visible(t) {
        if p in Visible(t) { ListedIff(files, Visible(t), File(p, t[p])); }
      }
    } else {
      ListedIff(files, Visible(t), files[0]);
    }
    assert |HashedFiles(listing)| == |files|;
  }

  /** The loop of updates to the running hash. */
  method Feed(files: seq<File>, h: Hashing) returns (fed: Bytes)
    ensures fed == Stream(files, h)
  {
    fed := [];
    for i := 0 to |files|
      invariant fed == Stream(files[..i], h)
    {
      var relative := h.utf8(Slashed(files[i].path));
      ghost var before := fed;
      fed := fed + BigEndian(|relative|, 8);
      fed := fed + relative;
      fed := fed + BigEndian(|files[i].content|, 8);
      fed := fed + files[i].content;
      assert fed == before + Entry(files[i], h);
      assert files[..i + 1] == files[..i] + [files[i]];
      StreamSnoc(files[..i], files[i], h);
    }
    assert files[..|files|] == files;
  }

  /** compute_contract_digest, fed with whatever order the directory is listed in. */
  method ComputeDigest(listing: seq<File>, h: Hashing, ghost t: Tree) returns (digest: Option<string>)
    requires ListingOf(listing, t)
    ensures digest == DigestOf(t, h)
  {
    AnyListing(listing, t);
    var files := HashedFiles(listing);
    if files == [] {
      return None;
    }
    var fed := Feed(files, h);
    digest := Some(h.sha(fed));
  }

  ghost predicate FramableTree(t: Tree, h: Hashing) {
    forall p :: p in t && Hashed(p) ==> FramableFile(File(p, t[p]), h)
  }

  lemma SameVisibleSameStream(t: Tree, u: Tree, h: Hashing)
    requires Visible(t) == Visible(u)
    ensures StreamOf(t, h) == StreamOf(u, h) && DigestOf(t, h) == DigestOf(u, h)
  {
    ListingLists(t);
    ListingLists(u);
    FilteredListing(Listing(t), t);
    FilteredListing(Listing(u), u);
    SortedListing(Filter(Listing(t), IsHashed()), Filter(Listing(u), IsHashed()), Visible(t));
  }

  lemma HashedFilesAre(t: Tree, f: File)
    ensures f in HashedFiles(Listing(t)) <==> f.path in Visible(t) && Visible(t)[f.path] == f.content
  {
    ListingLists(t);
    FilteredListing(Listing(t), t);
    var files := Filter(Listing(t), IsHashed());
    ListedIff(files, Visible(t), f);
    assert f in Sort(files, ByPath()) <==> f in multiset(files);
  }

  lemma HashedFilesFramable(t: Tree, h: Hashing)
    requires FramableTree(t, h)
    ensures FramableFiles(HashedFiles(Listing(t)), h)
  {
    var files := HashedFiles(Listing(t));
    forall i | 0 <= i < |files| ensures FramableFile(files[i], h) {
      HashedFilesAre(t, files[i]);
    }
  }

  /** Two trees feed the hash the same bytes exactly when their hashed parts are the same. */
  lemma StreamDeterminesTree(t: Tree, u: Tree, h: Hashing)
    requires Utf8Injective(h) && FramableTree(t, h) && FramableTree(u, h)
    ensures StreamOf(t, h) == StreamOf(u, h) <==> Visible(t) == Visible(u)
  {
    if Visible(t) == Visible(u) { SameVisibleSameStream(t, u, h); }
    if StreamOf(t, h) == StreamOf(u, h) {
      HashedFilesFramable(t, h);
      HashedFilesFramable(u, h);
      StreamInjective(HashedFiles(Listing(t)), HashedFiles(Listing(u)), h);
      forall p ensures p in Visible(t) <==> p in Visible(u) {
        if p in Visible(t) { HashedFilesAre(t, File(p, t[p])); HashedFilesAre(u, File(p, t[p])); }
        if p in Visible(u) { HashedFilesAre(t, File(p, u[p])); HashedFilesAre(u, File(p, u[p])); }
      }
      forall p | p in Visible(t) ensures Visible(t)[p] == Visible(u)[p] {
        HashedFilesAre(t, File(p, t[p]));
        HashedFilesAre(u, File(p, t[p]));
      }
    }
  }

  /** Writing the checksum file, or any file that is not hashed, never changes the digest. */
  lemma UnhashedFileIgnored(t: Tree, p: Path, content: Bytes, h: Hashing)
    requires !Hashed(p)
    ensures DigestOf(t[p := content], h) == DigestOf(t, h)
  {
    assert Visible(t[p := content]) == Visible(t);
    SameVisibleSameStream(t, t[p := content], h);
  }

  lemma ChecksumNotHashed()
    ensures !Hashed([CHECKSUM])
  {
  }

  // ---------------------------------------------------------------------------
  // Copies that ignore bytecode
  // ---------------------------------------------------------------------------

  /** `shutil.ignore_patterns('__pycache__', '*.pyc')` spares every component of the path. */
  predicate Kept(p: Path) {
    forall i :: 0 <= i < |p| ==> p[i] != CACHE && !Text.EndsWith(p[i], BYTECODE)
  }

  function CopyOf(t: Tree): Tree { map p | p in t && Kept(p) :: t[p] }

  /** No hashed file lies beneath a directory, or has as its whole name, something ending in `.pyc`. */
  ghost predicate Faithful(t: Tree) {
    forall p :: p in t && Hashed(p) ==> Kept(p)
  }

  lemma CopyKeepsVisibleIff(t: Tree)
    ensures Visible(CopyOf(t)) == Visible(t) <==> Faithful(t)
  {
    if Visible(CopyOf(t)) == Visible(t) {
      forall p | p in t && Hashed(p) ensures Kept(p) { assert p in Visible(t); }
    }
  }

  /** The copy has the digest of the original exactly when nothing hashed is ignored. */
  lemma CopyKeepsStreamIff(t: Tree, h: Hashing)
    requires Utf8Injective(h) && FramableTree(t, h)
    ensures StreamOf(CopyOf(t), h) == StreamOf(t, h) <==> Faithful(t)
  {
    StreamDeterminesTree(CopyOf(t), t, h);
    CopyKeepsVisibleIff(t);
  }

  lemma FaithfulCopyKeepsDigest(t: Tree, h: Hashing)
    requires Faithful(t)
    ensures DigestOf(CopyOf(t), h) == DigestOf(t, h)
  {
    CopyKeepsVisibleIff(t);
    SameVisibleSameStream(t, CopyOf(t), h);
  }
}
