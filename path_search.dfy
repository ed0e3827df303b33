/** `getPath` of src/helpers.h: the search of the PATH environment variable for
    an executable. The environment and the file system are parameters: the
    value of PATH (absent when the variable is unset), the delimiter and
    directory separator of the platform, and the `std::filesystem::exists` test of the file
    system, which holds for directories as well as files. */
module PathSearch {
  import opened Results
  import opened Strings

  /** The path tried for `cmd` in directory `dir`. */
  function Candidate(dir: string, slash: char, cmd: string): (p: string)
    ensures |p| == |dir| + 1 + |cmd|
    ensures p[..|dir|] == dir && p[|dir|] == slash && p[|dir| + 1..] == cmd
  {
    dir + [slash] + cmd
  }

  /** The paths tried, in order: for each directory, the plain name and then
      the name with `.exe` appended. */
  function Candidates(dirs: seq<string>, slash: char, cmd: string): (cs: seq<string>)
    ensures |cs| == 2 * |dirs|
    ensures forall i :: 0 <= i < |dirs| ==>
      cs[2 * i] == Candidate(dirs[i], slash, cmd) && cs[2 * i + 1] == Candidate(dirs[i], slash, cmd) + ".exe"
  {
    if dirs == [] then []
    else
      var c := Candidate(dirs[0], slash, cmd);
      [c, c + ".exe"] + Candidates(dirs[1..], slash, cmd)
  }

  /** The first path in `cs` that exists, or the empty string when none does
      (the empty string is also what `getPath` reports for "not found"). */
  function FirstExisting(cs: seq<string>, pathExists: string -> bool): (r: string)
    ensures r == [] || (pathExists(r) && exists k :: (0 <= k < |cs| && cs[k] == r
                                                      && forall j :: 0 <= j < k ==> !pathExists(cs[j])))
    ensures (forall i :: 0 <= i < |cs| ==> cs[i] != []) ==>
              (r == [] <==> forall i :: 0 <= i < |cs| ==> !pathExists(cs[i]))
  {
    if cs == [] then []
    else if pathExists(cs[0]) then cs[0]
    else
      var r := FirstExisting(cs[1..], pathExists);
      assert r != [] ==> exists k :: 0 <= k < |cs[1..]| && cs[1..][k] == r
                                     && forall j :: 0 <= j < k ==> !pathExists(cs[1..][j]);
      r
  }

  /** The search over a list of directories. */
  function Search(dirs: seq<string>, slash: char, cmd: string, pathExists: string -> bool): string
  {
    FirstExisting(Candidates(dirs, slash, cmd), pathExists)
  }

  /** What `getPath` returns: nothing when PATH is unset, otherwise the search
      over the PATH entries split at the delimiter, empty entries included. */
  function PathLookup(pathEnv: Option<string>, delim: char, slash: char, cmd: string, pathExists: string -> bool): (r: string)
    ensures pathEnv.None? ==> r == []
    ensures r != [] ==> pathExists(r)
  {
    match pathEnv
    case None => []
    case Some(env) => Search(Split(env, delim), slash, cmd, pathExists)
  }

  /** Neither candidate of directory `dir` exists. */
  predicate Missing(dir: string, slash: char, cmd: string, pathExists: string -> bool) {
    !pathExists(Candidate(dir, slash, cmd)) && !pathExists(Candidate(dir, slash, cmd) + ".exe")
  }

  /** `r` is what a search reaching directory `dir` picks there: the plain
      candidate, or the `.exe` one when the plain one does not exist. */
  predicate PickedIn(r: string, dir: string, slash: char, cmd: string, pathExists: string -> bool) {
    || r == Candidate(dir, slash, cmd)
    || (r == Candidate(dir, slash, cmd) + ".exe" && !pathExists(Candidate(dir, slash, cmd)))
  }

  /** `getPath`: reads PATH entry by entry as `std::getline` does, and returns
      the first existing `entry + slash + cmd`, or that path with `.exe`
      appended. `rest` is what is left in the string stream and `eof` its end
      flag. */
  method GetPath(pathEnv: Option<string>, delim: char, slash: char, cmd: string, pathExists: string -> bool)
    returns (p: string)
    ensures p == PathLookup(pathEnv, delim, slash, cmd, pathExists)
  {
    if pathEnv.None? {
      return [];
    }
    var rest := pathEnv.value;
    var eof := false;
    while !eof
      invariant PathLookup(pathEnv, delim, slash, cmd, pathExists)
                == if eof then [] else FirstExisting(Candidates(Split(rest, delim), slash, cmd), pathExists)
      decreases if eof then 0 else |rest| + 1
    {
      // std::getline(ss, path, delim)
      var path: string;
      if delim in rest {
        var k := IndexOf(rest, delim);
        path := rest[..k];
        rest := rest[k + 1..];
      } else {
        path := rest;
        rest := [];
        eof := true;
      }
      var absolutePath := path + [slash] + cmd;
      if pathExists(absolutePath) {
        return absolutePath;
      }
      absolutePath := absolutePath + ".exe";
      if pathExists(absolutePath) {
        return absolutePath;
      }
    }
    return [];
  }

  /** The search in terms of directories: a found path exists, it is what the
      search picks in some directory, and no earlier directory has an
      existing candidate; nothing is found exactly when no directory has one. */
  lemma SearchSpec(dirs: seq<string>, slash: char, cmd: string, pathExists: string -> bool)
    ensures Search(dirs, slash, cmd, pathExists) == [] <==>
              forall i :: 0 <= i < |dirs| ==> Missing(dirs[i], slash, cmd, pathExists)
    ensures Search(dirs, slash, cmd, pathExists) != [] ==>
              && pathExists(Search(dirs, slash, cmd, pathExists))
              && exists i :: 0 <= i < |dirs| && PickedIn(Search(dirs, slash, cmd, pathExists), dirs[i], slash, cmd, pathExists)
                             && forall j :: 0 <= j < i ==> Missing(dirs[j], slash, cmd, pathExists)
  {
    var cs := Candidates(dirs, slash, cmd);
    var r := FirstExisting(cs, pathExists);
    forall k | 0 <= k < |cs|
      ensures cs[k] != []
    {
      var i := k / 2;
      assert k == 2 * i || k == 2 * i + 1;
      assert cs[2 * i] == Candidate(dirs[i], slash, cmd);
      assert cs[2 * i + 1] == Candidate(dirs[i], slash, cmd) + ".exe";
    }
    if r == [] {
      forall i | 0 <= i < |dirs|
        ensures Missing(dirs[i], slash, cmd, pathExists)
      {
        assert !pathExists(cs[2 * i]) && !pathExists(cs[2 * i + 1]);
      }
    } else {
      var k :| 0 <= k < |cs| && cs[k] == r && forall j :: 0 <= j < k ==> !pathExists(cs[j]);
      var i := k / 2;
      assert k == 2 * i || k == 2 * i + 1;
      assert cs[2 * i] == Candidate(dirs[i], slash, cmd);
      assert cs[2 * i + 1] == Candidate(dirs[i], slash, cmd) + ".exe";
      if k == 2 * i + 1 {
        assert !pathExists(cs[2 * i]);
      }
      assert PickedIn(r, dirs[i], slash, cmd, pathExists);
      forall j | 0 <= j < i
        ensures Missing(dirs[j], slash, cmd, pathExists)
      {
        assert !pathExists(cs[2 * j]) && !pathExists(cs[2 * j + 1]);
      }
      assert !Missing(dirs[i], slash, cmd, pathExists);
    }
  }

  /** With PATH unset nothing is found, whatever exists. */
  lemma UnsetPathFindsNothing(delim: char, slash: char, cmd: string, pathExists: string -> bool)
    ensures PathLookup(None, delim, slash, cmd, pathExists) == []
  {
  }

  /** An empty PATH still yields one empty entry, so `slash + cmd` is tried. */
  lemma EmptyPathTriesRoot(delim: char, slash: char, cmd: string, pathExists: string -> bool)
    ensures pathExists([slash] + cmd) ==> PathLookup(Some([]), delim, slash, cmd, pathExists) == [slash] + cmd
  {
    assert Split([], delim) == [[]];
    assert Candidate([], slash, cmd) == [slash] + cmd;
  }

  /** A trailing delimiter adds one empty entry at the end, so `slash + cmd`
      is tried after every other entry. */
  lemma {:induction false} TrailingDelimiterAddsEmptyEntry(env: string, delim: char)
    ensures Split(env + [delim], delim) == Split(env, delim) + [[]]
    decreases |env|
  {
    if delim in env {
      var k := IndexOf(env, delim);
      var a, b := env[..k], env[k + 1..];
      assert env == a + [delim] + b;
      assert env + [delim] == a + [delim] + (b + [delim]);
      SplitAtFirst(a, delim, b);
      SplitAtFirst(a, delim, b + [delim]);
      TrailingDelimiterAddsEmptyEntry(b, delim);
    } else {
      assert env + [delim] == env + [delim] + [];
      SplitAtFirst(env, delim, []);
      assert delim !in [];
    }
  }
}
