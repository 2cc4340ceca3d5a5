/** The storage bucket as a tree of folders, and the paths of the files in it. */
module BucketTree {
  import opened Basics
  import opened Text

  /** A missing creation time, one that does not parse, or milliseconds since the epoch. */
  datatype Created = Missing | Unparsable | At(ms: int)

  datatype Entry = File(name: string, createdAt: Created) | Folder(name: string, children: seq<Entry>)

  datatype StorageObject = StorageObject(path: string, createdAt: Created)

  function Child(prefix: string, name: string): string {
    if prefix == "" then name else prefix + "/" + name
  }

  /** Entry names are non-empty and slash-free; a folder may hold a file and a folder of the same name, but no more. */
  ghost predicate WellFormed(es: seq<Entry>) {
    && (forall i | 0 <= i < |es| :: es[i].name != "" && '/' !in es[i].name)
    && (forall i, j | 0 <= i < j < |es| :: es[i].name == es[j].name ==> es[i].Folder? != es[j].Folder?)
    && (forall i | 0 <= i < |es| :: es[i].Folder? ==> WellFormed(es[i].children))
  }

  // ---------------------------------------------------------------------------
  // Looking things up by path
  // ---------------------------------------------------------------------------

  function FindFolder(es: seq<Entry>, name: string): (r: Option<seq<Entry>>)
    ensures r.Some? <==> exists i | 0 <= i < |es| :: es[i].Folder? && es[i].name == name
    ensures r.Some? ==> exists i | 0 <= i < |es| :: es[i] == Folder(name, r.value)
  {
    if es == [] then None
    else if es[0].Folder? && es[0].name == name then Some(es[0].children)
    else FindFolder(es[1..], name)
  }

  function FindFile(es: seq<Entry>, name: string): (r: Option<Created>)
    ensures r.Some? <==> exists i | 0 <= i < |es| :: es[i].File? && es[i].name == name
    ensures r.Some? ==> exists i | 0 <= i < |es| :: es[i] == File(name, r.value)
  {
    if es == [] then None
    else if es[0].File? && es[0].name == name then Some(es[0].createdAt)
    else FindFile(es[1..], name)
  }

  /** Follows a path segment by segment to a folder. */
  function FolderAt(es: seq<Entry>, path: string): Option<seq<Entry>>
    decreases |path|
  {
    var first := Before(path, '/');
    var sub := FindFolder(es, first);
    if first == path || sub.None? then sub else FolderAt(sub.value, path[|first| + 1..])
  }

  /** Follows a path segment by segment to a file. */
  function FileAt(es: seq<Entry>, path: string): Option<Created>
    decreases |path|
  {
    var first := Before(path, '/');
    if first == path then FindFile(es, path)
    else
      var sub := FindFolder(es, first);
      if sub.None? then None else FileAt(sub.value, path[|first| + 1..])
  }

  /** What one directory level holds; the empty prefix is the bucket itself, an unknown one is empty. */
  function ContentsAt(root: seq<Entry>, prefix: string): seq<Entry> {
    if prefix == "" then root
    else if FolderAt(root, prefix).Some? then FolderAt(root, prefix).value
    else []
  }

  lemma FolderIsFound(es: seq<Entry>, i: nat)
    requires WellFormed(es) && i < |es|
    ensures es[i].Folder? ==> FindFolder(es, es[i].name) == Some(es[i].children)
    ensures es[i].File? ==> FindFile(es, es[i].name) == Some(es[i].createdAt)
  {
  }

  lemma FirstSegment(name: string, rest: string)
    requires '/' !in name
    ensures Before(name, '/') == name
    ensures Before(name + "/" + rest, '/') == name
    ensures (name + "/" + rest)[|name| + 1..] == rest
  {
    BeforeConcat(name, "", '/');
    BeforeConcat(name, "/" + rest, '/');
    assert name + "" == name && name + "/" + rest == name + ("/" + rest);
  }

  lemma FolderAtStep(es: seq<Entry>, first: string, rest: string)
    requires '/' !in first
    ensures FolderAt(es, first) == FindFolder(es, first)
    ensures FolderAt(es, first + "/" + rest)
            == if FindFolder(es, first).None? then None else FolderAt(FindFolder(es, first).value, rest)
  {
    FirstSegment(first, rest);
  }

  lemma FolderAtOpens(es: seq<Entry>, path: string)
    requires WellFormed(es) && FolderAt(es, path).Some?
    ensures var first := Before(path, '/');
            && FindFolder(es, first).Some? && WellFormed(FindFolder(es, first).value)
            && if first == path then FindFolder(es, first) == FolderAt(es, path)
               else |first| < |path| && FolderAt(FindFolder(es, first).value, path[|first| + 1..]) == FolderAt(es, path)
  {
  }

  lemma FolderAtLonger(es: seq<Entry>, path: string, name: string)
    requires var first := Before(path, '/'); |first| < |path| && FindFolder(es, first).Some?
    ensures var first := Before(path, '/');
            FolderAt(es, path + "/" + name)
            == FolderAt(FindFolder(es, first).value, path[|first| + 1..] + "/" + name)
  {
    var first := Before(path, '/');
    var rest := path[|first| + 1..];
    assert path + "/" + name == first + "/" + (rest + "/" + name);
    FolderAtStep(es, first, rest + "/" + name);
  }

  /** A subfolder's path, built by appending its name, leads to that subfolder. */
  lemma {:induction false} ChildFolderAt(es: seq<Entry>, path: string, sub: seq<Entry>, i: nat)
    requires WellFormed(es) && FolderAt(es, path) == Some(sub) && i < |sub| && sub[i].Folder?
    ensures WellFormed(sub) && FolderAt(es, path + "/" + sub[i].name) == Some(sub[i].children)
    decreases |path|
  {
    FolderAtOpens(es, path);
    hide FolderAt;
    var first, name := Before(path, '/'), sub[i].name;
    var next := FindFolder(es, first).value;
    if first == path {
      FolderIsFound(sub, i);
      FolderAtStep(sub, name, "");
      FolderAtStep(es, path, name);
    } else {
      hide WellFormed;
      ChildFolderAt(next, path[|first| + 1..], sub, i);
      FolderAtLonger(es, path, name);
    }
  }

  lemma ChildContents(root: seq<Entry>, prefix: string, i: nat)
    requires WellFormed(root) && i < |ContentsAt(root, prefix)| && ContentsAt(root, prefix)[i].Folder?
    ensures WellFormed(ContentsAt(root, prefix))
    ensures var e := ContentsAt(root, prefix)[i]; ContentsAt(root, Child(prefix, e.name)) == e.children
  {
    var e := ContentsAt(root, prefix)[i];
    FirstSegmentOfChild(root, prefix, i);
    if prefix != "" {
      ChildFolderAt(root, prefix, ContentsAt(root, prefix), i);
    }
  }

  lemma FirstSegmentOfChild(root: seq<Entry>, prefix: string, i: nat)
    requires WellFormed(root) && i < |ContentsAt(root, prefix)| && ContentsAt(root, prefix)[i].Folder?
    ensures prefix == "" ==> FolderAt(root, root[i].name) == Some(root[i].children)
  {
    if prefix == "" {
      FirstSegment(root[i].name, "");
      FolderIsFound(root, i);
    }
  }

  // ---------------------------------------------------------------------------
  // All files below a folder
  // ---------------------------------------------------------------------------

  function WalkEntry(prefix: string, e: Entry): seq<StorageObject>
    decreases e, 0
  {
    match e
    case File(name, createdAt) => [StorageObject(Child(prefix, name), createdAt)]
    case Folder(name, children) => Walk(Child(prefix, name), children)
  }

  function Walk(prefix: string, es: seq<Entry>): seq<StorageObject>
    decreases es, 1
  {
    if es == [] then [] else WalkEntry(prefix, es[0]) + Walk(prefix, es[1..])
  }

  lemma {:induction false} WalkConcat(prefix: string, a: seq<Entry>, b: seq<Entry>)
    ensures Walk(prefix, a + b) == Walk(prefix, a) + Walk(prefix, b)
  {
    if a == [] {
      assert a + b == b;
    } else {
      assert (a + b)[0] == a[0] && (a + b)[1..] == a[1..] + b;
      WalkConcat(prefix, a[1..], b);
    }
  }

  lemma ChildSplits(prefix: string, name: string, rest: string)
    ensures name != "" ==> Child(Child(prefix, name), rest) == Child(prefix, name + "/" + rest)
  {
    if prefix != "" {
      assert prefix + "/" + name + "/" + rest == prefix + "/" + (name + "/" + rest);
    }
  }

  lemma ChildCancels(prefix: string, a: string, b: string)
    ensures Child(prefix, a) == Child(prefix, b) <==> a == b
  {
    if prefix != "" {
      assert (prefix + "/" + a)[|prefix| + 1..] == a && (prefix + "/" + b)[|prefix| + 1..] == b;
    }
  }

  /** Every listed object is a file, found by following its own path from the folder. */
  lemma {:induction false} WalkIsSound(prefix: string, es: seq<Entry>, k: nat, o: StorageObject) returns (rel: string)
    requires WellFormed(es) && k <= |es| && o in Walk(prefix, es[k..])
    ensures o.path == Child(prefix, rel) && FileAt(es, rel) == Some(o.createdAt)
    ensures exists i | k <= i < |es| :: es[i].name == Before(rel, '/') && (es[i].Folder? <==> rel != es[i].name)
    decreases es, |es| - k
  {
    assert k < |es|;
    var e := es[k];
    if o in WalkEntry(prefix, e) {
      FolderIsFound(es, k);
      match e
      case File(name, createdAt) =>
        rel := name;
        FirstSegment(name, "");
      case Folder(name, children) =>
        assert children[0..] == children;
        var inner := WalkIsSound(Child(prefix, name), children, 0, o);
        rel := name + "/" + inner;
        FirstSegment(name, inner);
        ChildSplits(prefix, name, inner);
    } else {
      assert es[k..][1..] == es[k + 1..];
      rel := WalkIsSound(prefix, es, k + 1, o);
    }
  }

  /** Every file that a path leads to is listed, under that path. */
  lemma {:induction false} WalkIsComplete(prefix: string, es: seq<Entry>, rel: string)
    requires WellFormed(es) && FileAt(es, rel).Some?
    ensures StorageObject(Child(prefix, rel), FileAt(es, rel).value) in Walk(prefix, es)
    decreases |rel|
  {
    var first := Before(rel, '/');
    var o := StorageObject(Child(prefix, rel), FileAt(es, rel).value);
    var i: nat;
    if first == rel {
      i :| i < |es| && es[i] == File(rel, FileAt(es, rel).value);
    } else {
      var sub := FindFolder(es, first).value;
      i :| i < |es| && es[i] == Folder(first, sub);
      var rest := rel[|first| + 1..];
      assert rel == first + "/" + rest;
      WalkIsComplete(Child(prefix, first), sub, rest);
      ChildSplits(prefix, first, rest);
    }
    assert o in WalkEntry(prefix, es[i]);
    EntryInWalk(prefix, es, i, o);
  }

  lemma EntryInWalk(prefix: string, es: seq<Entry>, i: nat, o: StorageObject)
    requires i < |es| && o in WalkEntry(prefix, es[i])
    ensures o in Walk(prefix, es)
  {
    assert es == es[..i] + es[i..];
    WalkConcat(prefix, es[..i], es[i..]);
  }

  ghost predicate DistinctPaths(objs: seq<StorageObject>) {
    forall i, j | 0 <= i < j < |objs| :: objs[i].path != objs[j].path
  }

  lemma DistinctConcat(a: seq<StorageObject>, b: seq<StorageObject>)
    requires DistinctPaths(a) && DistinctPaths(b)
    requires forall x, y | x in a && y in b :: x.path != y.path
    ensures DistinctPaths(a + b)
  {
    forall i, j | 0 <= i < j < |a + b|
      ensures (a + b)[i].path != (a + b)[j].path
    {
      if i < |a| <= j {
        assert (a + b)[i] in a && (a + b)[j] in b;
      }
    }
  }

  /** No path is listed twice. */
  lemma {:induction false} WalkIsDistinct(prefix: string, es: seq<Entry>, k: nat)
    requires WellFormed(es) && k <= |es|
    ensures DistinctPaths(Walk(prefix, es[k..]))
    decreases es, |es| - k
  {
    if k < |es| {
      var e := es[k];
      assert es[k..][1..] == es[k + 1..];
      WalkIsDistinct(prefix, es, k + 1);
      if e.Folder? {
        assert e.children[0..] == e.children;
        WalkIsDistinct(Child(prefix, e.name), e.children, 0);
      }
      forall x, y | x in WalkEntry(prefix, e) && y in Walk(prefix, es[k + 1..])
        ensures x.path != y.path
      {
        EntriesDoNotCollide(prefix, es, k, x, y);
      }
      DistinctConcat(WalkEntry(prefix, e), Walk(prefix, es[k + 1..]));
    }
  }

  lemma EntriesDoNotCollide(prefix: string, es: seq<Entry>, k: nat, x: StorageObject, y: StorageObject)
    requires WellFormed(es) && k < |es| && x in WalkEntry(prefix, es[k]) && y in Walk(prefix, es[k + 1..])
    ensures x.path != y.path
  {
    var e := es[k];
    assert Walk(prefix, [e]) == WalkEntry(prefix, e) + Walk(prefix, []);
    assert WellFormed([e]);
    assert [e][0..] == [e];
    var a := WalkIsSound(prefix, [e], 0, x);
    var b := WalkIsSound(prefix, es, k + 1, y);
    ChildCancels(prefix, a, b);
  }

  /** The walk lists exactly the files of the tree, each once, under the path that leads to it. */
  lemma WalkListsEveryFileOnce(root: seq<Entry>, o: StorageObject)
    requires WellFormed(root)
    ensures o in Walk("", root) <==> FileAt(root, o.path) == Some(o.createdAt)
    ensures DistinctPaths(Walk("", root))
  {
    assert root[0..] == root;
    if o in Walk("", root) {
      var rel := WalkIsSound("", root, 0, o);
    }
    if FileAt(root, o.path) == Some(o.createdAt) {
      WalkIsComplete("", root, o.path);
    }
    WalkIsDistinct("", root, 0);
  }

  // ---------------------------------------------------------------------------
  // Removing files
  // ---------------------------------------------------------------------------

  function RemoveEntry(prefix: string, e: Entry, paths: set<string>): seq<Entry>
    decreases e, 0
  {
    match e
    case File(name, createdAt) => if Child(prefix, name) in paths then [] else [e]
    case Folder(name, children) => [Folder(name, RemoveFiles(Child(prefix, name), children, paths))]
  }

  function RemoveFiles(prefix: string, es: seq<Entry>, paths: set<string>): seq<Entry>
    decreases es, 1
  {
    if es == [] then [] else RemoveEntry(prefix, es[0], paths) + RemoveFiles(prefix, es[1..], paths)
  }

  function Surviving(objs: seq<StorageObject>, paths: set<string>): (r: seq<StorageObject>)
    ensures forall o :: o in r <==> o in objs && o.path !in paths
  {
    if objs == [] then []
    else (if objs[0].path in paths then [] else [objs[0]]) + Surviving(objs[1..], paths)
  }

  lemma {:induction false} SurvivingConcat(a: seq<StorageObject>, b: seq<StorageObject>, paths: set<string>)
    ensures Surviving(a + b, paths) == Surviving(a, paths) + Surviving(b, paths)
  {
    if a == [] {
      assert a + b == b;
    } else {
      assert (a + b)[0] == a[0] && (a + b)[1..] == a[1..] + b;
      SurvivingConcat(a[1..], b, paths);
    }
  }

  lemma {:induction false} SurvivingTwice(objs: seq<StorageObject>, p: set<string>, q: set<string>)
    ensures Surviving(Surviving(objs, p), q) == Surviving(objs, p + q)
  {
    if objs != [] {
      SurvivingTwice(objs[1..], p, q);
      SurvivingConcat(if objs[0].path in p then [] else [objs[0]], Surviving(objs[1..], p), q);
    }
  }

  /** Removing files from the tree removes exactly their objects from the listing, in place. */
  lemma {:induction false} WalkAfterRemoval(prefix: string, es: seq<Entry>, paths: set<string>)
    ensures Walk(prefix, RemoveFiles(prefix, es, paths)) == Surviving(Walk(prefix, es), paths)
    decreases es, 1
  {
    if es != [] {
      EntryAfterRemoval(prefix, es[0], paths);
      WalkAfterRemoval(prefix, es[1..], paths);
      WalkConcat(prefix, RemoveEntry(prefix, es[0], paths), RemoveFiles(prefix, es[1..], paths));
      SurvivingConcat(WalkEntry(prefix, es[0]), Walk(prefix, es[1..]), paths);
    }
  }

  lemma {:induction false} EntryAfterRemoval(prefix: string, e: Entry, paths: set<string>)
    ensures Walk(prefix, RemoveEntry(prefix, e, paths)) == Surviving(WalkEntry(prefix, e), paths)
    decreases e, 0
  {
    if e.Folder? {
      WalkAfterRemoval(Child(prefix, e.name), e.children, paths);
    }
    var kept := RemoveEntry(prefix, e, paths);
    assert kept != [] ==> Walk(prefix, kept) == WalkEntry(prefix, kept[0]) + Walk(prefix, []);
  }

  lemma {:induction false} RemovalAddsNoNames(prefix: string, es: seq<Entry>, paths: set<string>, x: Entry)
    requires x in RemoveFiles(prefix, es, paths)
    ensures exists y | y in es :: x.name == y.name && x.Folder? == y.Folder?
  {
    if x in RemoveEntry(prefix, es[0], paths) {
      assert es[0] in es;
    } else {
      RemovalAddsNoNames(prefix, es[1..], paths, x);
    }
  }

  lemma PrependKeepsShape(e: Entry, rest: seq<Entry>)
    requires e.name != "" && '/' !in e.name && (e.Folder? ==> WellFormed(e.children))
    requires WellFormed(rest)
    requires forall x | x in rest :: x.name == e.name ==> x.Folder? != e.Folder?
    ensures WellFormed([e] + rest)
  {
    var all := [e] + rest;
    forall i, j | 0 <= i < j < |all|
      ensures all[i].name == all[j].name ==> all[i].Folder? != all[j].Folder?
    {
      assert all[j] == rest[j - 1];
      if i > 0 { assert all[i] == rest[i - 1]; }
    }
  }

  lemma {:induction false} RemovalKeepsShape(prefix: string, es: seq<Entry>, paths: set<string>)
    requires WellFormed(es)
    ensures WellFormed(RemoveFiles(prefix, es, paths))
    decreases es
  {
    if es != [] {
      var e, rest := es[0], RemoveFiles(prefix, es[1..], paths);
      RemovalKeepsShape(prefix, es[1..], paths);
      if e.Folder? {
        RemovalKeepsShape(Child(prefix, e.name), e.children, paths);
      }
      forall x | x in rest
        ensures x.name == e.name ==> x.Folder? != e.Folder?
      {
        RemovalAddsNoNames(prefix, es[1..], paths, x);
      }
      var kept := RemoveEntry(prefix, e, paths);
      if kept == [] {
        assert kept + rest == rest;
      } else {
        PrependKeepsShape(kept[0], rest);
        assert kept == [kept[0]];
      }
    }
  }
}
