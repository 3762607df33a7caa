/** The homepage manifests: files listed from a directory tree, and asset paths collected from a value. */
module Manifests {
  import opened CanonicalJson
  import opened Counting
  import opened Options
  import opened Utf16

  const SLASH: CodeUnit := 47

  /** A directory entry as `readdirSync` lists it; `Special` is neither a file nor a directory. */
  datatype Node = File(name: Text) | Dir(name: Text, entries: seq<Node>) | Special(name: Text)

  /** What a file system guarantees: names are non-empty, hold no separator, and differ within a directory. */
  ghost predicate Tree(entries: seq<Node>) {
    && (forall i :: 0 <= i < |entries| ==> entries[i].name != [] && SLASH !in entries[i].name)
    && (forall i, j :: 0 <= i < j < |entries| ==> entries[i].name != entries[j].name)
    && (forall i :: 0 <= i < |entries| && entries[i].Dir? ==> Tree(entries[i].entries))
  }

  function Self(t: Text): Text { t }

  function Under(directory: Text, name: Text): Text { directory + [SLASH] + name }

  /** `listFiles`: every file below the directory, sorted; `None` is the error for a special entry. */
  function ListFiles(directory: Text, entries: seq<Node>): Option<seq<Text>>
    decreases entries, 1
  {
    var found := ListAll(directory, entries);
    if found.None? then None else Some(Sort(Self, found.value))
  }

  /** The `flatMap` over one listing. */
  function ListAll(directory: Text, entries: seq<Node>): Option<seq<Text>>
    decreases entries, 0
  {
    if entries == [] then Some([])
    else
      var path := Under(directory, entries[0].name);
      var head := match entries[0]
        case File(_) => Some([path])
        case Dir(_, inner) => ListFiles(path, inner)
        case Special(_) => None;
      var tail := ListAll(directory, entries[1..]);
      if head.None? || tail.None? then None else Some(head.value + tail.value)
  }

  // ---- Which paths are files of the tree, by walking down the path ---------------------------------

  /** `path` names a file below `directory`. */
  ghost predicate IsFile(directory: Text, entries: seq<Node>, path: Text)
    decreases entries
  {
    exists i :: 0 <= i < |entries| && NodeHasFile(directory, entries[i], path)
  }

  ghost predicate NodeHasFile(directory: Text, node: Node, path: Text)
    decreases node
  {
    match node
    case File(name) => path == Under(directory, name)
    case Dir(name, inner) => IsFile(Under(directory, name), inner, path)
    case Special(_) => false
  }

  ghost predicate HasSpecial(entries: seq<Node>) {
    exists i :: 0 <= i < |entries| && (entries[i].Special? || (entries[i].Dir? && HasSpecial(entries[i].entries)))
  }

  /** A file found below a node continues the node's path, so siblings share no file. */
  lemma {:induction false} FileContinues(directory: Text, node: Node, path: Text)
    requires NodeHasFile(directory, node, path)
    ensures var p := Under(directory, node.name);
            p <= path && (|path| == |p| || path[|p|] == SLASH)
    decreases node
  {
    if node.Dir? {
      var p := Under(directory, node.name);
      var i :| 0 <= i < |node.entries| && NodeHasFile(p, node.entries[i], path);
      FileContinues(p, node.entries[i], path);
      assert p <= Under(p, node.entries[i].name) && Under(p, node.entries[i].name)[|p|] == SLASH;
    }
  }

  /** A separator-free name under the directory ends at the next separator of the path. */
  lemma NotLonger(directory: Text, a: Text, b: Text, path: Text)
    requires Under(directory, b) <= path && SLASH !in b
    requires Under(directory, a) <= path
    requires |path| == |Under(directory, a)| || path[|Under(directory, a)|] == SLASH
    ensures |b| <= |a|
  {
    var q := Under(directory, b);
    forall i | |directory| < i < |q| ensures path[i] != SLASH {
      assert path[i] == q[i] == b[i - |directory| - 1];
    }
  }

  /** Distinct siblings share no file. */
  lemma SiblingsDisjoint(directory: Text, a: Node, b: Node, path: Text)
    requires NodeHasFile(directory, a, path) && NodeHasFile(directory, b, path)
    requires SLASH !in a.name && SLASH !in b.name
    ensures a.name == b.name
  {
    FileContinues(directory, a, path);
    FileContinues(directory, b, path);
    NotLonger(directory, a.name, b.name, path);
    NotLonger(directory, b.name, a.name, path);
    var p, q := Under(directory, a.name), Under(directory, b.name);
    assert p == path[..|p|] == q;
    assert p[|directory| + 1..] == a.name && q[|directory| + 1..] == b.name;
  }

  /** A listing holds exactly the files of the tree, each once; it fails exactly on a special entry. */
  lemma {:induction false} ListAllExactly(directory: Text, entries: seq<Node>)
    requires Tree(entries)
    ensures ListAll(directory, entries).None? <==> HasSpecial(entries)
    ensures ListAll(directory, entries).Some? ==>
      Distinct(ListAll(directory, entries).value)
      && forall p :: p in ListAll(directory, entries).value <==> IsFile(directory, entries, p)
    decreases entries, 0
  {
    if entries != [] {
      var node, rest := entries[0], entries[1..];
      var path := Under(directory, node.name);
      TreeTail(entries);
      ListAllExactly(directory, rest);
      if node.Dir? { ListFilesExactly(path, node.entries); }
      HeadOrTail(directory, entries);
      if ListAll(directory, entries).Some? {
        var head := if node.File? then [path] else ListFiles(path, node.entries).value;
        var tail := ListAll(directory, rest).value;
        assert forall p :: p in head <==> NodeHasFile(directory, node, p);
        forall p | p in head ensures p !in tail {
          HeadNotInTail(directory, entries, p);
        }
        AppendDistinct(head, tail);
      }
    }
  }

  lemma HeadOrTail(directory: Text, entries: seq<Node>)
    requires entries != []
    ensures HasSpecial(entries) <==>
      entries[0].Special? || (entries[0].Dir? && HasSpecial(entries[0].entries)) || HasSpecial(entries[1..])
    ensures forall p :: IsFile(directory, entries, p) <==>
      NodeHasFile(directory, entries[0], p) || IsFile(directory, entries[1..], p)
  {
    var rest := entries[1..];
    assert forall i :: 0 <= i < |rest| ==> rest[i] == entries[i + 1];
    assert forall i :: 1 <= i < |entries| ==> entries[i] == rest[i - 1];
  }

  lemma HeadNotInTail(directory: Text, entries: seq<Node>, path: Text)
    requires Tree(entries) && entries != [] && NodeHasFile(directory, entries[0], path)
    ensures !IsFile(directory, entries[1..], path)
  {
    if IsFile(directory, entries[1..], path) {
      var i :| 0 <= i < |entries[1..]| && NodeHasFile(directory, entries[1..][i], path);
      SiblingsDisjoint(directory, entries[0], entries[i + 1], path);
    }
  }

  lemma TreeTail(entries: seq<Node>)
    requires Tree(entries) && entries != []
    ensures Tree(entries[1..])
  {
    var rest := entries[1..];
    assert forall i :: 0 <= i < |rest| ==> rest[i] == entries[i + 1];
  }

  /** The listing of a tree is strictly sorted and holds exactly its files. */
  lemma {:induction false} ListFilesExactly(directory: Text, entries: seq<Node>)
    requires Tree(entries)
    ensures ListFiles(directory, entries).None? <==> HasSpecial(entries)
    ensures ListFiles(directory, entries).Some? ==>
      Ascending(Self, ListFiles(directory, entries).value)
      && Distinct(ListFiles(directory, entries).value)
      && forall p :: p in ListFiles(directory, entries).value <==> IsFile(directory, entries, p)
    decreases entries, 1
  {
    ListAllExactly(directory, entries);
    if ListAll(directory, entries).Some? {
      var found := ListAll(directory, entries).value;
      SortAscends(Self, found);
      SortKeeps(Self, found);
      AscendingTexts(Sort(Self, found));
    }
  }

  lemma AscendingTexts(paths: seq<Text>)
    requires Ascending(Self, paths)
    ensures Distinct(paths)
  {
    forall i, j | 0 <= i < j < |paths| ensures paths[i] != paths[j] {
      LessTotal(Self(paths[i]), Self(paths[j]));
    }
  }

  // ---- The order directories are read in -----------------------------------------------------------

  /** The same directory read in another order, and so at every level below it. */
  ghost predicate Reordered(entries: seq<Node>, others: seq<Node>)
    decreases entries
  {
    if entries == [] then others == []
    else exists j :: 0 <= j < |others| && Alike(entries[0], others[j])
                     && Reordered(entries[1..], Without(others, j))
  }

  /** The same node, a directory read in another order. */
  ghost predicate Alike(node: Node, other: Node)
    decreases node
  {
    match node
    case File(name) => other == File(name)
    case Special(name) => other == Special(name)
    case Dir(name, inner) => other.Dir? && other.name == name && Reordered(inner, other.entries)
  }

  function Without<T>(xs: seq<T>, j: nat): seq<T>
    requires j < |xs|
  {
    xs[..j] + xs[j + 1..]
  }

  lemma WithoutFiles(directory: Text, entries: seq<Node>, j: nat, path: Text)
    requires j < |entries|
    ensures IsFile(directory, entries, path) <==>
              NodeHasFile(directory, entries[j], path) || IsFile(directory, Without(entries, j), path)
  {
    var rest := Without(entries, j);
    if i :| 0 <= i < |entries| && NodeHasFile(directory, entries[i], path) && i != j {
      assert rest[if i < j then i else i - 1] == entries[i];
    }
    if i :| 0 <= i < |rest| && NodeHasFile(directory, rest[i], path) {
      assert rest[i] == entries[if i < j then i else i + 1];
    }
  }

  ghost predicate SpecialWithin(node: Node) { node.Special? || (node.Dir? && HasSpecial(node.entries)) }

  lemma WithoutSpecial(entries: seq<Node>, j: nat)
    requires j < |entries|
    ensures HasSpecial(entries) <==> SpecialWithin(entries[j]) || HasSpecial(Without(entries, j))
  {
    var rest := Without(entries, j);
    if i :| 0 <= i < |entries| && SpecialWithin(entries[i]) && i != j {
      assert rest[if i < j then i else i - 1] == entries[i];
    }
    if i :| 0 <= i < |rest| && SpecialWithin(rest[i]) {
      assert rest[i] == entries[if i < j then i else i + 1];
    }
  }

  /** Reading in another order finds the same files. */
  lemma {:induction false} ReorderedFiles(directory: Text, entries: seq<Node>, others: seq<Node>, path: Text)
    requires Reordered(entries, others)
    ensures IsFile(directory, entries, path) <==> IsFile(directory, others, path)
    decreases entries, 1
  {
    if entries != [] {
      var j :| 0 <= j < |others| && Alike(entries[0], others[j]) && Reordered(entries[1..], Without(others, j));
      AlikeFiles(directory, entries[0], others[j], path);
      ReorderedFiles(directory, entries[1..], Without(others, j), path);
      HeadOrTail(directory, entries);
      WithoutFiles(directory, others, j, path);
    }
  }

  lemma {:induction false} AlikeFiles(directory: Text, node: Node, other: Node, path: Text)
    requires Alike(node, other)
    ensures NodeHasFile(directory, node, path) <==> NodeHasFile(directory, other, path)
    decreases node, 0
  {
    if node.Dir? { ReorderedFiles(Under(directory, node.name), node.entries, other.entries, path); }
  }

  lemma {:induction false} ReorderedSpecial(entries: seq<Node>, others: seq<Node>)
    requires Reordered(entries, others)
    ensures HasSpecial(entries) <==> HasSpecial(others)
  {
    if entries != [] {
      var j :| 0 <= j < |others| && Alike(entries[0], others[j]) && Reordered(entries[1..], Without(others, j));
      if entries[0].Dir? { ReorderedSpecial(entries[0].entries, others[j].entries); }
      ReorderedSpecial(entries[1..], Without(others, j));
      HeadOrTail([], entries);
      WithoutSpecial(others, j);
    }
  }

  ghost predicate Named(entries: seq<Node>, name: Text) { exists i :: 0 <= i < |entries| && entries[i].name == name }

  lemma WithoutNamed(entries: seq<Node>, j: nat, name: Text)
    requires j < |entries|
    ensures Named(entries, name) <==> entries[j].name == name || Named(Without(entries, j), name)
  {
    var rest := Without(entries, j);
    if i :| 0 <= i < |entries| && entries[i].name == name && i != j {
      assert rest[if i < j then i else i - 1] == entries[i];
    }
    if i :| 0 <= i < |rest| && rest[i].name == name {
      assert rest[i] == entries[if i < j then i else i + 1];
    }
  }

  lemma {:induction false} ReorderedNamed(entries: seq<Node>, others: seq<Node>, name: Text)
    requires Reordered(entries, others)
    ensures Named(entries, name) <==> Named(others, name)
  {
    if entries != [] {
      var j :| 0 <= j < |others| && Alike(entries[0], others[j]) && Reordered(entries[1..], Without(others, j));
      ReorderedNamed(entries[1..], Without(others, j), name);
      WithoutNamed(entries, 0, name);
      WithoutNamed(others, j, name);
      assert Without(entries, 0) == entries[1..];
    }
  }

  /** Where an element stands once the one at `j` is taken out. */
  function Place(i: nat, j: nat): nat
    requires i != j
  {
    if i < j then i else i - 1
  }

  lemma WithoutAt<T>(xs: seq<T>, j: nat, i: nat)
    requires j < |xs| && i < |xs| && i != j
    ensures Without(xs, j)[Place(i, j)] == xs[i]
  {}

  lemma OtherName(others: seq<Node>, j: nat, i: nat)
    requires j < |others| && i < |others| && i != j && !Named(Without(others, j), others[j].name)
    ensures others[i].name != others[j].name
  {
    WithoutAt(others, j, i);
  }

  /** A node put back among others whose names differ from its own. */
  lemma TreeWith(others: seq<Node>, j: nat)
    requires j < |others| && Tree(Without(others, j)) && !Named(Without(others, j), others[j].name)
    requires others[j].name != [] && SLASH !in others[j].name && (others[j].Dir? ==> Tree(others[j].entries))
    ensures Tree(others)
  {
    var rest := Without(others, j);
    forall i, k | 0 <= i < k < |others| ensures others[i].name != others[k].name {
      if i == j {
        OtherName(others, j, k);
      } else if k == j {
        OtherName(others, j, i);
      } else {
        WithoutAt(others, j, i);
        WithoutAt(others, j, k);
        assert rest[Place(i, j)].name != rest[Place(k, j)].name;
      }
    }
    forall i | 0 <= i < |others| && i != j ensures others[i] == rest[Place(i, j)] { WithoutAt(others, j, i); }
  }

  /** Another order of a tree is a tree. */
  lemma {:induction false} ReorderedTree(entries: seq<Node>, others: seq<Node>)
    requires Tree(entries) && Reordered(entries, others)
    ensures Tree(others)
  {
    if entries != [] {
      var j :| 0 <= j < |others| && Alike(entries[0], others[j]) && Reordered(entries[1..], Without(others, j));
      TreeTail(entries);
      if entries[0].Dir? { ReorderedTree(entries[0].entries, others[j].entries); }
      ReorderedTree(entries[1..], Without(others, j));
      ReorderedNamed(entries[1..], Without(others, j), entries[0].name);
      TreeWith(others, j);
    }
  }

  /** In whatever order the directories are read, at every level, the listing is the same: the same files in the
      same order, or the error in both. */
  lemma ListingOrderIrrelevant(directory: Text, entries: seq<Node>, others: seq<Node>)
    requires Tree(entries) && Reordered(entries, others)
    ensures ListFiles(directory, entries) == ListFiles(directory, others)
  {
    ReorderedTree(entries, others);
    ReorderedSpecial(entries, others);
    ListFilesExactly(directory, entries);
    ListFilesExactly(directory, others);
    if !HasSpecial(entries) {
      var these, those := ListFiles(directory, entries).value, ListFiles(directory, others).value;
      forall path ensures path in these <==> path in those { ReorderedFiles(directory, entries, others, path); }
      AscendingUnique(Self, these, those);
    }
  }

  // ---- The manifests of files ----------------------------------------------------------------------

  /** One entry of a manifest: a path relative to the project, the size and the digest of its file. */
  datatype Described = Described(path: Text, byteLength: nat, sha256: Text)

  function PathOf(d: Described): Text { d.path }

  /** What reading a file gives for its manifest entry: the number of its bytes and their digest. */
  datatype Bytes = Bytes(byteLength: nat, sha256: Text)

  /** `projectRelativePath` of a file below the project root. */
  function Relative(root: Text, path: Text): Text
    requires Under(root, []) <= path
  {
    path[|root| + 1..]
  }

  ghost predicate Below(root: Text, paths: seq<Text>) {
    forall i :: 0 <= i < |paths| ==> Under(root, []) <= paths[i]
  }

  function Describe(root: Text, read: Text -> Bytes, paths: seq<Text>): (r: seq<Described>)
    requires Below(root, paths)
    ensures |r| == |paths|
    ensures forall i :: 0 <= i < |r| ==> Under(root, r[i].path) == paths[i]
    ensures forall i :: 0 <= i < |r| ==> r[i] == Described(r[i].path, read(paths[i]).byteLength, read(paths[i]).sha256)
  {
    if paths == [] then []
    else
      assert Under(root, Relative(root, paths[0])) == paths[0];
      var bytes := read(paths[0]);
      [Described(Relative(root, paths[0]), bytes.byteLength, bytes.sha256)] + Describe(root, read, paths[1..])
  }

  /** The entry says what reading its file gives. */
  predicate Reads(root: Text, read: Text -> Bytes, d: Described) {
    var bytes := read(Under(root, d.path));
    d.byteLength == bytes.byteLength && d.sha256 == bytes.sha256
  }

  lemma UnderInjective(root: Text, a: Text, b: Text)
    ensures Under(root, a) == Under(root, b) <==> a == b
  {
    assert Under(root, a)[|root| + 1..] == a && Under(root, b)[|root| + 1..] == b;
  }

  lemma DescribedExactly(root: Text, read: Text -> Bytes, paths: seq<Text>, d: Described)
    requires Below(root, paths)
    ensures d in Describe(root, read, paths) <==> Under(root, d.path) in paths && Reads(root, read, d)
  {
    var all := Describe(root, read, paths);
    if k :| 0 <= k < |all| && all[k] == d { assert paths[k] == Under(root, d.path); }
    if Under(root, d.path) in paths && Reads(root, read, d) {
      var k :| 0 <= k < |paths| && paths[k] == Under(root, d.path);
      UnderInjective(root, all[k].path, d.path);
      assert all[k] == d;
    }
  }

  lemma DescribedDistinct(root: Text, read: Text -> Bytes, paths: seq<Text>)
    requires Below(root, paths) && Distinct(paths)
    ensures DistinctKeys(PathOf, Describe(root, read, paths))
  {
    var all := Describe(root, read, paths);
    forall i, j | 0 <= i < j < |all| ensures PathOf(all[i]) != PathOf(all[j]) {
      assert paths[i] != paths[j];
    }
  }

  lemma {:induction false} DescribeJoins(root: Text, read: Text -> Bytes, a: seq<Text>, b: seq<Text>)
    requires Below(root, a) && Below(root, b) && Below(root, a + b)
    ensures Describe(root, read, a) + Describe(root, read, b) == Describe(root, read, a + b)
  {
    var left, right := Describe(root, read, a) + Describe(root, read, b), Describe(root, read, a + b);
    forall i | 0 <= i < |left| ensures left[i] == right[i] {
      assert Under(root, left[i].path) == (a + b)[i] == Under(root, right[i].path);
      UnderInjective(root, left[i].path, right[i].path);
    }
  }

  /** A directory below the project root, as `resolve` names it. */
  lemma FilesBelow(root: Text, name: Text, entries: seq<Node>)
    requires Tree(entries) && ListFiles(Under(root, name), entries).Some?
    ensures Below(root, ListFiles(Under(root, name), entries).value)
  {
    var files := ListFiles(Under(root, name), entries).value;
    ListFilesExactly(Under(root, name), entries);
    forall i | 0 <= i < |files| ensures Under(root, []) <= files[i] {
      assert files[i] in files;
      FileUnderRoot(Under(root, name), entries, files[i]);
      assert Under(root, []) <= Under(root, name) <= files[i];
    }
  }

  /** "src/api" */
  const API: Text := [115, 114, 99, 47, 97, 112, 105]

  /** "src/routes" */
  const ROUTES: Text := [115, 114, 99, 47, 114, 111, 117, 116, 101, 115]

  /** "public/images" */
  const PUBLIC_IMAGES: Text := [112, 117, 98, 108, 105, 99, 47, 105, 109, 97, 103, 101, 115]

  /** `buildRouteSourceManifest`: both roots listed and described, then sorted by path. */
  function RouteSourceManifest(root: Text, read: Text -> Bytes, api: seq<Node>, routes: seq<Node>):
    Option<seq<Described>>
    requires Tree(api) && Tree(routes)
  {
    var a, b := ListFiles(Under(root, API), api), ListFiles(Under(root, ROUTES), routes);
    if a.None? || b.None? then None
    else
      FilesBelow(root, API, api);
      FilesBelow(root, ROUTES, routes);
      Some(Sort(PathOf, Describe(root, read, a.value) + Describe(root, read, b.value)))
  }

  /** `buildApprovedAssetManifest`: the listing described in its own order. */
  function ApprovedAssetManifest(root: Text, read: Text -> Bytes, images: seq<Node>): Option<seq<Described>>
    requires Tree(images)
  {
    var listing := ListFiles(Under(root, PUBLIC_IMAGES), images);
    if listing.None? then None
    else
      FilesBelow(root, PUBLIC_IMAGES, images);
      Some(Describe(root, read, listing.value))
  }

  lemma FileUnderRoot(root: Text, entries: seq<Node>, path: Text)
    requires IsFile(root, entries, path)
    ensures Under(root, []) <= path
  {
    var i :| 0 <= i < |entries| && NodeHasFile(root, entries[i], path);
    FileContinues(root, entries[i], path);
    assert Under(root, []) <= Under(root, entries[i].name);
  }

  /** `path`, from the directory that holds the entries, names a file: names joined by "/", the last one a file's. */
  ghost predicate FileAt(entries: seq<Node>, path: Text)
    decreases entries
  {
    exists i :: 0 <= i < |entries| && NodeAt(entries[i], path)
  }

  ghost predicate NodeAt(node: Node, path: Text)
    decreases node
  {
    match node
    case File(name) => path == name
    case Dir(name, inner) => name + [47] <= path && FileAt(inner, path[|name| + 1..])
    case Special(_) => false
  }

  /** `path` names a file of the entries kept in a directory of that name. */
  ghost predicate FileIn(name: Text, entries: seq<Node>, path: Text) {
    name + [47] <= path && FileAt(entries, path[|name| + 1..])
  }

  lemma UnderPrefix(root: Text, a: Text, b: Text)
    ensures Under(root, a) <= Under(root, b) <==> a <= b
  {
    var p, q := Under(root, a), Under(root, b);
    assert |p| <= |q| ==> q[..|p|] == root + [SLASH] + b[..|a|];
    assert p == root + [SLASH] + a;
    if p <= q {
      assert a == p[|root| + 1..] == b[..|a|];
    }
  }

  lemma {:induction false} FilesAt(directory: Text, entries: seq<Node>, path: Text)
    ensures IsFile(directory, entries, directory + [47] + path) <==> FileAt(entries, path)
    decreases entries, |entries|
  {
    forall i | 0 <= i < |entries|
      ensures NodeHasFile(directory, entries[i], directory + [47] + path) <==> NodeAt(entries[i], path)
    {
      NodesAt(directory, entries[i], path);
    }
  }

  lemma NodesAt(directory: Text, node: Node, path: Text)
    ensures NodeHasFile(directory, node, directory + [47] + path) <==> NodeAt(node, path)
    decreases node, 0
  {
    UnderInjective(directory, node.name, path);
    if node.Dir? { FilesFrom(directory, node.name, node.entries, path); }
  }

  /** The files below a directory of the root are those at its name followed by "/". */
  lemma FilesFrom(root: Text, name: Text, entries: seq<Node>, path: Text)
    ensures IsFile(Under(root, name), entries, Under(root, path)) <==> FileIn(name, entries, path)
    decreases entries, |entries| + 1
  {
    if name + [47] <= path {
      var rest := path[|name| + 1..];
      assert path == name + [47] + rest;
      assert Under(root, path) == Under(root, name) + [47] + rest;
      FilesAt(Under(root, name), entries, rest);
    } else if IsFile(Under(root, name), entries, Under(root, path)) {
      FileUnderRoot(Under(root, name), entries, Under(root, path));
      UnderPrefix(root, name + [47], path);
    }
  }

  /** The listing of a directory is strictly sorted and holds the files of the tree under their paths, which begin
      with the directory and "/"; it fails exactly on a special entry. */
  lemma ListedExactly(directory: Text, entries: seq<Node>)
    requires Tree(entries)
    ensures ListFiles(directory, entries).None? <==> HasSpecial(entries)
    ensures ListFiles(directory, entries).Some? ==> Ascending(Self, ListFiles(directory, entries).value)
    ensures ListFiles(directory, entries).Some? ==> forall p :: p in ListFiles(directory, entries).value <==>
      FileIn(directory, entries, p)
  {
    ListFilesExactly(directory, entries);
    forall p ensures IsFile(directory, entries, p) <==> FileIn(directory, entries, p) {
      if directory + [47] <= p {
        FilesAt(directory, entries, p[|directory| + 1..]);
        assert p == directory + [47] + p[|directory| + 1..];
      } else if IsFile(directory, entries, p) {
        FileUnderRoot(directory, entries, p);
      }
    }
  }

  lemma PrefixesNest(p: Text, q: Text, t: Text)
    requires p <= t && q <= t
    ensures p <= q || q <= p
  {
    assert p == t[..|p|] && q == t[..|q|];
  }

  /** Roots of which neither continues the other share no file. */
  lemma RootsDisjoint(a: Text, x: seq<Node>, b: Text, y: seq<Node>, path: Text)
    requires !(Under(a, []) <= Under(b, [])) && !(Under(b, []) <= Under(a, []))
    ensures !(IsFile(a, x, path) && IsFile(b, y, path))
  {
    if IsFile(a, x, path) && IsFile(b, y, path) {
      FileUnderRoot(a, x, path);
      FileUnderRoot(b, y, path);
      PrefixesNest(Under(a, []), Under(b, []), path);
    }
  }

  /** Neither of the two source roots continues the other: they part in the fifth letter. */
  lemma SourceRootsPart(root: Text)
    ensures var a, b := Under(Under(root, API), []), Under(Under(root, ROUTES), []);
            !(a <= b) && !(b <= a)
  {
    var a, b := Under(Under(root, API), []), Under(Under(root, ROUTES), []);
    var k := |root| + 5;
    assert a[k] == API[4] == 97 && b[k] == ROUTES[4] == 114;
  }

  lemma SourcesDistinct(root: Text, api: seq<Node>, routes: seq<Node>)
    requires Tree(api) && Tree(routes)
    requires ListFiles(Under(root, API), api).Some? && ListFiles(Under(root, ROUTES), routes).Some?
    ensures Distinct(ListFiles(Under(root, API), api).value + ListFiles(Under(root, ROUTES), routes).value)
  {
    var a, b := ListFiles(Under(root, API), api).value, ListFiles(Under(root, ROUTES), routes).value;
    ListFilesExactly(Under(root, API), api);
    ListFilesExactly(Under(root, ROUTES), routes);
    SourceRootsPart(root);
    forall p | p in b ensures p !in a { RootsDisjoint(Under(root, API), api, Under(root, ROUTES), routes, p); }
    AppendDistinct(a, b);
  }

  /** The route manifest fails exactly on a special entry below one of its roots; otherwise it is strictly sorted
      by relative path and describes each file of the two roots, and nothing else, exactly once. */
  lemma RouteManifestExactly(root: Text, read: Text -> Bytes, api: seq<Node>, routes: seq<Node>)
    requires Tree(api) && Tree(routes)
    ensures RouteSourceManifest(root, read, api, routes).None? <==> HasSpecial(api) || HasSpecial(routes)
    ensures RouteSourceManifest(root, read, api, routes).Some? ==>
              var manifest := RouteSourceManifest(root, read, api, routes).value;
              && Ascending(PathOf, manifest)
              && (forall d: Described :: d in manifest <==>
                    && (|| FileIn([115, 114, 99, 47, 97, 112, 105], api, d.path)
                        || FileIn([115, 114, 99, 47, 114, 111, 117, 116, 101, 115], routes, d.path))
                    && d.byteLength == read(root + [47] + d.path).byteLength
                    && d.sha256 == read(root + [47] + d.path).sha256)
  {
    ListFilesExactly(Under(root, API), api);
    ListFilesExactly(Under(root, ROUTES), routes);
    if !HasSpecial(api) && !HasSpecial(routes) {
      var a, b := ListFiles(Under(root, API), api).value, ListFiles(Under(root, ROUTES), routes).value;
      FilesBelow(root, API, api);
      FilesBelow(root, ROUTES, routes);
      SourcesDistinct(root, api, routes);
      DescribeJoins(root, read, a, b);
      DescribedDistinct(root, read, a + b);
      SortAscends(PathOf, Describe(root, read, a + b));
      SortKeeps(PathOf, Describe(root, read, a + b));
      forall d: Described ensures d in RouteSourceManifest(root, read, api, routes).value <==>
        (FileIn(API, api, d.path) || FileIn(ROUTES, routes, d.path)) && Reads(root, read, d)
      {
        DescribedExactly(root, read, a + b, d);
        FilesFrom(root, API, api, d.path);
        FilesFrom(root, ROUTES, routes, d.path);
      }
    }
  }

  /** The route manifest does not depend on the order in which any directory is read. */
  lemma RouteManifestOrderIrrelevant(
      root: Text, read: Text -> Bytes, api: seq<Node>, otherApi: seq<Node>, routes: seq<Node>, otherRoutes: seq<Node>)
    requires Tree(api) && Tree(routes) && Reordered(api, otherApi) && Reordered(routes, otherRoutes)
    ensures Tree(otherApi) && Tree(otherRoutes)
    ensures RouteSourceManifest(root, read, api, routes) == RouteSourceManifest(root, read, otherApi, otherRoutes)
  {
    ReorderedTree(api, otherApi);
    ReorderedTree(routes, otherRoutes);
    ListingOrderIrrelevant(Under(root, API), api, otherApi);
    ListingOrderIrrelevant(Under(root, ROUTES), routes, otherRoutes);
  }

  /** A common beginning does not matter to the order. */
  lemma {:induction false} LessBehind(start: Text, a: Text, b: Text)
    ensures Less(start + a, start + b) <==> Less(a, b)
  {
    if start == [] {
      assert start + a == a && start + b == b;
    } else {
      LessBehind(start[1..], a, b);
      assert (start + a)[1..] == start[1..] + a && (start + b)[1..] == start[1..] + b;
    }
  }

  /** The asset manifest fails exactly on a special entry; otherwise it describes each file below `public/images`,
      and nothing else, exactly once, and although the listing was sorted by absolute path it is strictly sorted
      by relative path. */
  lemma AssetManifestExactly(root: Text, read: Text -> Bytes, images: seq<Node>)
    requires Tree(images)
    ensures ApprovedAssetManifest(root, read, images).None? <==> HasSpecial(images)
    ensures ApprovedAssetManifest(root, read, images).Some? ==>
              var manifest := ApprovedAssetManifest(root, read, images).value;
              && Ascending(PathOf, manifest)
              && (forall d: Described :: d in manifest <==>
                    && FileIn([112, 117, 98, 108, 105, 99, 47, 105, 109, 97, 103, 101, 115], images, d.path)
                    && d.byteLength == read(root + [47] + d.path).byteLength
                    && d.sha256 == read(root + [47] + d.path).sha256)
  {
    ListFilesExactly(Under(root, PUBLIC_IMAGES), images);
    if !HasSpecial(images) {
      var files := ListFiles(Under(root, PUBLIC_IMAGES), images).value;
      FilesBelow(root, PUBLIC_IMAGES, images);
      var manifest := Describe(root, read, files);
      forall i, j | 0 <= i < j < |manifest| ensures Less(PathOf(manifest[i]), PathOf(manifest[j])) {
        assert Less(Self(files[i]), Self(files[j]));
        LessBehind(root + [SLASH], manifest[i].path, manifest[j].path);
      }
      forall d: Described ensures d in manifest <==> FileIn(PUBLIC_IMAGES, images, d.path) && Reads(root, read, d) {
        DescribedExactly(root, read, files, d);
        FilesFrom(root, PUBLIC_IMAGES, images, d.path);
      }
    }
  }

  /** Nor does the asset manifest depend on the order in which any directory is read. */
  lemma AssetManifestOrderIrrelevant(root: Text, read: Text -> Bytes, images: seq<Node>, others: seq<Node>)
    requires Tree(images) && Reordered(images, others)
    ensures Tree(others) && ApprovedAssetManifest(root, read, images) == ApprovedAssetManifest(root, read, others)
  {
    ReorderedTree(images, others);
    ListingOrderIrrelevant(Under(root, PUBLIC_IMAGES), images, others);
  }

  // ---- Asset paths -------------------------------------------------------------------------------------

  /** "/images/" */
  const IMAGES: Text := [47, 105, 109, 97, 103, 101, 115, 47]

  /** `s` occurs as a string value at some depth; object keys are not values. */
  ghost predicate StringLeaf(v: Json, s: Text) {
    match v
    case Str(t) => s == t
    case Arr(items) => exists i :: 0 <= i < |items| && StringLeaf(items[i], s)
    case Obj(fields) => exists i :: 0 <= i < |fields| && StringLeaf(fields[i].value, s)
    case _ => false
  }

  /** The set that the recursive visitor of `collectAssetPaths` fills, in insertion order. */
  class AssetCollector {
    var paths: seq<Text>

    constructor ()
      ensures paths == []
    {
      paths := [];
    }

    /** Adds the `/images/` strings of the value and nothing else. */
    method Visit(v: Json)
      requires Distinct(paths)
      modifies this
      ensures Distinct(paths)
      ensures forall s :: s in paths <==> s in old(paths) || (IMAGES <= s && StringLeaf(v, s))
      decreases v
    {
      match v
      case Str(s) =>
        if IMAGES <= s && s !in paths {
          paths := paths + [s];
        }
      case Arr(items) =>
        for i := 0 to |items|
          invariant Distinct(paths)
          invariant forall s :: s in paths <==>
            s in old(paths) || (IMAGES <= s && exists k :: 0 <= k < i && StringLeaf(items[k], s))
        {
          Visit(items[i]);
        }
      case Obj(fields) =>
        for i := 0 to |fields|
          invariant Distinct(paths)
          invariant forall s :: s in paths <==>
            s in old(paths) || (IMAGES <= s && exists k :: 0 <= k < i && StringLeaf(fields[k].value, s))
        {
          Visit(fields[i].value);
        }
      case _ =>
    }
  }

  /** `collectAssetPaths`: sorted, without duplicates, exactly the string leaves under `/images/`. */
  method CollectAssetPaths(v: Json) returns (r: seq<Text>)
    ensures Ascending(Self, r)
    ensures forall s :: s in r <==> [47, 105, 109, 97, 103, 101, 115, 47] <= s && StringLeaf(v, s)
  {
    var collector := new AssetCollector();
    collector.Visit(v);
    SortAscends(Self, collector.paths);
    SortKeeps(Self, collector.paths);
    r := Sort(Self, collector.paths);
  }
}
