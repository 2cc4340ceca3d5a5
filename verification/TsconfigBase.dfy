/** The check that every tsconfig extends the base config, directly or through other files. */
module TsconfigBase {
  import opened Basics

  /** The segments of an absolute path. */
  type Path = seq<string>

  /** The text of an "extends" property, split at its slashes. */
  datatype Specifier = Specifier(absolute: bool, segments: seq<string>)

  /** A file with the "extends" specifier found in it, if any, or a directory. */
  datatype Node = File(extended: Option<Specifier>) | Directory

  type FileSystem = map<Path, Node>

  // ---------------------------------------------------------------------------
  // Resolving the "extends" property
  // ---------------------------------------------------------------------------

  /** `path.resolve`, one segment at a time. */
  function Resolve(from: Path, segments: seq<string>): Path
    decreases |segments|
  {
    if segments == [] then from
    else
      var s := segments[0];
      var next :=
        if s == "" || s == "." then from
        else if s == ".." then (if from == [] then [] else from[..|from| - 1])
        else from + [s];
      Resolve(next, segments[1..])
  }

  /** `path.extname(p)` is non-empty: the last name has a dot after its first character. */
  predicate HasExtension(p: Path) {
    p != [] && var name := p[|p| - 1]; exists i | 1 <= i < |name| :: name[i] == '.'
  }

  function WithJson(p: Path): Path {
    if p == [] then [".json"] else p[..|p| - 1] + [p[|p| - 1] + ".json"]
  }

  function Candidates(p: Path): seq<Path> {
    if HasExtension(p) then [p] else [p, WithJson(p), p + ["tsconfig.json"]]
  }

  function FirstExisting(fs: FileSystem, candidates: seq<Path>): (r: Option<Path>)
    ensures r.None? ==> forall c | c in candidates :: c !in fs
    ensures r.Some? ==> r.value in fs && exists i | 0 <= i < |candidates| ::
              candidates[i] == r.value && forall j | 0 <= j < i :: candidates[j] !in fs
  {
    if candidates == [] then None
    else if candidates[0] in fs then Some(candidates[0])
    else FirstExisting(fs, candidates[1..])
  }

  function Parent(p: Path): Path { if p == [] then [] else p[..|p| - 1] }

  /** The file an existing config extends: the first candidate that exists. */
  function Link(fs: FileSystem, config: Path): (r: Option<Path>)
    ensures r.Some? ==> config in fs && r.value in fs
  {
    if config !in fs || fs[config].Directory? || fs[config].extended.None? then None
    else
      var spec := fs[config].extended.value;
      FirstExisting(fs, Candidates(Resolve(if spec.absolute then [] else Parent(config), spec.segments)))
  }

  // ---------------------------------------------------------------------------
  // Where a specifier leads
  // ---------------------------------------------------------------------------

  /** `..` drops the last segment, if any; `.` and empty segments are skipped; names are appended. */
  lemma ResolveLaws(from: Path, name: string, rest: seq<string>)
    ensures Resolve(from, []) == from
    ensures Resolve(from + [name], [".."] + rest) == Resolve(from, rest)
    ensures Resolve([], [".."] + rest) == Resolve([], rest)
    ensures Resolve(from, ["."] + rest) == Resolve(from, [""] + rest) == Resolve(from, rest)
    ensures name !in {"", ".", ".."} ==> Resolve(from, [name] + rest) == Resolve(from + [name], rest)
  {
    assert forall s: string :: ([s] + rest)[0] == s && ([s] + rest)[1..] == rest;
    assert (from + [name])[..|from + [name]| - 1] == from;
  }

  /** Only an existing file with an "extends" property links to anything. */
  lemma NoLink(fs: FileSystem, config: Path)
    requires config in fs ==> fs[config].Directory? || fs[config].extended.None?
    ensures Link(fs, config).None?
  {
  }

  lemma CandidatesAre(d: Path, n: string)
    ensures Candidates(d + [n]) ==
            if exists i | 1 <= i < |n| :: n[i] == '.' then [d + [n]]
            else [d + [n], d + [n + ".json"], d + [n, "tsconfig.json"]]
  {
    var p := d + [n];
    assert p[|p| - 1] == n && p[..|p| - 1] == d && p + ["tsconfig.json"] == d + [n, "tsconfig.json"];
  }

  lemma FirstOf(fs: FileSystem, a: Path, b: Path, c: Path)
    ensures FirstExisting(fs, [a]) == if a in fs then Some(a) else None
    ensures FirstExisting(fs, [a, b, c]) ==
            if a in fs then Some(a) else if b in fs then Some(b) else if c in fs then Some(c) else None
  {
    assert [a, b, c][1..] == [b, c] && [b, c][1..] == [c] && [c][1..] == [] && [a][1..] == [];
  }

  /**
   A config links to the file its specifier names, read from the config's own directory unless it is
   absolute. A name without an extension is tried as it is, with ".json", and as a directory that holds a
   tsconfig.json, in that order.
   */
  lemma LinkIs(fs: FileSystem, dir: Path, name: string, spec: Specifier, d: Path, n: string)
    requires dir + [name] in fs && fs[dir + [name]] == File(Some(spec))
    requires Resolve(if spec.absolute then [] else dir, spec.segments) == d + [n]
    ensures Link(fs, dir + [name]) ==
            if d + [n] in fs then Some(d + [n])
            else if exists i | 1 <= i < |n| :: n[i] == '.' then None
            else if d + [n + ".json"] in fs then Some(d + [n + ".json"])
            else if d + [n, "tsconfig.json"] in fs then Some(d + [n, "tsconfig.json"])
            else None
  {
    assert (dir + [name])[..|dir + [name]| - 1] == dir;
    CandidatesAre(d, n);
    FirstOf(fs, d + [n], d + [n + ".json"], d + [n, "tsconfig.json"]);
    hide Resolve;
    hide Candidates;
    hide FirstExisting;
  }

  /** The same for a specifier that leads to the root directory. */
  lemma LinkAtRoot(fs: FileSystem, dir: Path, name: string, spec: Specifier)
    requires dir + [name] in fs && fs[dir + [name]] == File(Some(spec))
    requires Resolve(if spec.absolute then [] else dir, spec.segments) == []
    ensures Link(fs, dir + [name]) ==
            if [] in fs then Some([])
            else if [".json"] in fs then Some([".json"])
            else if ["tsconfig.json"] in fs then Some(["tsconfig.json"])
            else None
  {
    assert (dir + [name])[..|dir + [name]| - 1] == dir;
    var root: Path := [];
    assert !HasExtension(root) && WithJson(root) == [".json"] && root + ["tsconfig.json"] == ["tsconfig.json"];
    assert Candidates(root) == [root, [".json"], ["tsconfig.json"]];
    FirstOf(fs, root, [".json"], ["tsconfig.json"]);
    hide Resolve;
    hide Candidates;
    hide FirstExisting;
  }

  /** The usual workspace config: "../tsconfig.base.json" from a directory beside the base leads to the base. */
  lemma WorkspaceReachesBase(fs: FileSystem, root: Path, dir: string, name: string)
    requires root + [dir] + [name] in fs && root + ["tsconfig.base.json"] in fs
    requires fs[root + [dir] + [name]] == File(Some(Specifier(false, ["..", "tsconfig.base.json"])))
    ensures Link(fs, root + [dir] + [name]) == Some(root + ["tsconfig.base.json"])
    ensures Reaches(fs, root + [dir] + [name], root + ["tsconfig.base.json"])
  {
    var base: Path := root + ["tsconfig.base.json"];
    ResolveLaws(root, dir, ["tsconfig.base.json"]);
    ResolveLaws(root, "tsconfig.base.json", []);
    assert [".."] + ["tsconfig.base.json"] == ["..", "tsconfig.base.json"];
    assert ["tsconfig.base.json"] + [] == ["tsconfig.base.json"];
    LinkIs(fs, root + [dir], name, Specifier(false, ["..", "tsconfig.base.json"]), root, "tsconfig.base.json");
    FirstStep(fs, root + [dir] + [name], base);
    FirstStep(fs, base, base);
  }

  /** Following n links. */
  function Follow(fs: FileSystem, config: Path, n: nat): Option<Path>
    decreases n
  {
    if n == 0 then Some(config)
    else if Link(fs, config).None? then None
    else Follow(fs, Link(fs, config).value, n - 1)
  }

  ghost predicate Reaches(fs: FileSystem, config: Path, target: Path) {
    exists n: nat :: Follow(fs, config, n) == Some(target)
  }

  ghost predicate ReachesDirectory(fs: FileSystem, config: Path) {
    exists n: nat :: Follow(fs, config, n).Some? && IsDirectory(fs, Follow(fs, config, n).value)
  }

  predicate IsDirectory(fs: FileSystem, p: Path) { p in fs && fs[p].Directory? }

  // ---------------------------------------------------------------------------
  // The check
  // ---------------------------------------------------------------------------

  /** Reading a directory throws, which ends the whole script. */
  datatype Outcome = Extends | DoesNotExtend | Throws

  /** Every visited config links to a visited one or to the current one, and none is the base. */
  ghost predicate Visited(fs: FileSystem, base: Path, visited: set<Path>, current: Path) {
    forall v | v in visited ::
      v != base && v in fs && fs[v].File? && Link(fs, v).Some? && Link(fs, v).value in visited + {current}
  }

  method ExtendsBase(fs: FileSystem, base: Path, config: Path, visited: set<Path>) returns (r: Outcome)
    requires Visited(fs, base, visited, config)
    ensures r == Extends <==> Reaches(fs, config, base)
    ensures r == Throws <==> !Reaches(fs, config, base) && ReachesDirectory(fs, config)
    decreases fs.Keys - visited
  {
    FirstStep(fs, config, base);
    if config == base {
      return Extends;
    }
    if config in visited || config !in fs {
      if config in visited {
        LoopsForever(fs, base, visited, config);
      }
      return DoesNotExtend;
    }
    var seen := visited + {config};
    if fs[config].Directory? {
      return Throws;
    }
    var link := Link(fs, config);
    if link.None? {
      return DoesNotExtend;
    }
    r := ExtendsBase(fs, base, link.value, seen);
  }

  lemma FirstStep(fs: FileSystem, config: Path, base: Path)
    ensures Reaches(fs, config, base) <==>
            config == base || (Link(fs, config).Some? && Reaches(fs, Link(fs, config).value, base))
    ensures ReachesDirectory(fs, config) <==>
            IsDirectory(fs, config) || (Link(fs, config).Some? && ReachesDirectory(fs, Link(fs, config).value))
  {
    assert Follow(fs, config, 0) == Some(config);
    if Link(fs, config).Some? {
      var next := Link(fs, config).value;
      forall n: nat ensures Follow(fs, config, n + 1) == Follow(fs, next, n) {
      }
      if Reaches(fs, config, base) && config != base {
        var n: nat :| Follow(fs, config, n) == Some(base);
        assert Follow(fs, next, n - 1) == Some(base);
      }
      if ReachesDirectory(fs, config) && !IsDirectory(fs, config) {
        var n: nat :| Follow(fs, config, n).Some? && IsDirectory(fs, Follow(fs, config, n).value);
        assert Follow(fs, next, n - 1) == Follow(fs, config, n);
      }
      if Reaches(fs, next, base) {
        var n: nat :| Follow(fs, next, n) == Some(base);
        assert Follow(fs, config, n + 1) == Some(base);
      }
      if ReachesDirectory(fs, next) {
        var n: nat :| Follow(fs, next, n).Some? && IsDirectory(fs, Follow(fs, next, n).value);
        assert Follow(fs, config, n + 1) == Follow(fs, next, n);
      }
    } else {
      assert forall n: nat | n > 0 :: Follow(fs, config, n) == None;
    }
  }

  /** The files of a loop of links that avoids the base. */
  ghost predicate Loop(fs: FileSystem, base: Path, files: set<Path>) {
    forall v | v in files ::
      v != base && v in fs && fs[v].File? && Link(fs, v).Some? && Link(fs, v).value in files
  }

  lemma {:induction false} StaysInLoop(fs: FileSystem, base: Path, files: set<Path>, config: Path, n: nat)
    requires config in files && Loop(fs, base, files)
    ensures Follow(fs, config, n).Some? && Follow(fs, config, n).value in files
    decreases n
  {
    hide Link;
    if n > 0 {
      StaysInLoop(fs, base, files, Link(fs, config).value, n - 1);
    }
  }

  /** Coming back to a visited config closes a loop that never leaves the visited files. */
  lemma LoopsForever(fs: FileSystem, base: Path, visited: set<Path>, config: Path)
    requires config in visited && Visited(fs, base, visited, config)
    ensures !Reaches(fs, config, base) && !ReachesDirectory(fs, config)
  {
    hide Link;
    assert visited + {config} == visited;
    forall n: nat ensures Follow(fs, config, n).Some? && Follow(fs, config, n).value in visited {
      StaysInLoop(fs, base, visited, config, n);
    }
  }

  /** The configs that are neither exempt nor lead to the base, in order. */
  ghost function Unextended(fs: FileSystem, base: Path, configs: seq<Path>, referencesOnly: set<Path>): seq<Path> {
    if configs == [] then []
    else
      var last := configs[|configs| - 1];
      Unextended(fs, base, configs[..|configs| - 1], referencesOnly)
      + if last in referencesOnly || Reaches(fs, last, base) then [] else [last]
  }

  /** The loop over all configs; a config that only holds references is exempt. None stands for an exception. */
  method CheckConfigs(fs: FileSystem, base: Path, configs: seq<Path>, referencesOnly: set<Path>)
    returns (failures: Option<seq<Path>>)
    ensures failures.Some? ==> forall c :: c in failures.value <==>
              c in configs && c !in referencesOnly && !Reaches(fs, c, base)
    ensures failures.Some? ==> failures.value == Unextended(fs, base, configs, referencesOnly)
    ensures failures.None? <==>
            exists c | c in configs :: c !in referencesOnly && !Reaches(fs, c, base) && ReachesDirectory(fs, c)
  {
    var list: seq<Path> := [];
    for i := 0 to |configs|
      invariant forall c :: c in list <==> c in configs[..i] && c !in referencesOnly && !Reaches(fs, c, base)
      invariant list == Unextended(fs, base, configs[..i], referencesOnly)
      invariant forall c | c in configs[..i] :: c in referencesOnly || Reaches(fs, c, base) || !ReachesDirectory(fs, c)
    {
      assert configs[..i + 1] == configs[..i] + [configs[i]];
      assert configs[..i + 1][..i] == configs[..i];
      if configs[i] !in referencesOnly {
        var r := ExtendsBase(fs, base, configs[i], {});
        if r == Throws {
          return None;
        }
        if r == DoesNotExtend {
          list := list + [configs[i]];
        }
      }
    }
    assert configs[..|configs|] == configs;
    return Some(list);
  }
}
