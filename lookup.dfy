/**
 * The environment the script reads, and `find_exe`: where the script looks
 * for an executable, and which match wins.
 */
module Lookup {
  import opened Wrappers
  import opened PathRules
  import opened TreeState

  /**
   * What the script reads from its environment: for `find_exe`, whether
   * `sys.platform` is "win32", `PROGRAMFILES` and the entries of `PATH` split
   * at `os.pathsep`; for `__main__`, `TR_TORRENT_DIR` (the empty string when
   * it is unset) and the directory the script file itself resolves to.
   */
  datatype Env = Env(win32: bool, programFiles: string, path: seq<string>, torrentDir: string, scriptDir: string)

  /** `get_unrar_exe`: the file name of the unrar executable on this platform. */
  function GetUnrarExe(win32: bool): (r: string)
    ensures r != [] && '/' !in r
  {
    if win32 then "UnRAR.exe" else "unrar"
  }

  /** The directories `find_exe` tries, in order: on win32 `PROGRAMFILES/unrar` first, then `PATH`. */
  function ExeCandidates(env: Env): seq<string>
  {
    (if env.win32 then [Join(env.programFiles, "unrar")] else []) + env.path
  }

  /** `os.path.exists(d)` and `name in os.listdir(d)`. */
  predicate Holds(dirs: Tree, d: string, name: string)
  {
    d in dirs && name in dirs[d]
  }

  /** The path of `name` in the first candidate directory that lists it; None stands for Python's `False`. */
  function FirstContaining(dirs: Tree, candidates: seq<string>, name: string): Option<string>
  {
    if candidates == [] then None
    else if Holds(dirs, candidates[0], name) then Some(Join(candidates[0], name))
    else FirstContaining(dirs, candidates[1..], name)
  }

  /**
   * The lookup returns `join(d, name)` for the first candidate `d` that exists
   * and lists `name`, and None exactly when no candidate does.
   */
  lemma {:induction false} FirstMatchIndex(dirs: Tree, candidates: seq<string>, name: string) returns (k: nat)
    ensures k <= |candidates|
    ensures forall j :: 0 <= j < k ==> !Holds(dirs, candidates[j], name)
    ensures k < |candidates| ==> Holds(dirs, candidates[k], name)
    ensures FirstContaining(dirs, candidates, name) ==
      if k == |candidates| then None else Some(Join(candidates[k], name))
  {
    if candidates == [] || Holds(dirs, candidates[0], name) {
      return 0;
    }
    var rest := FirstMatchIndex(dirs, candidates[1..], name);
    k := rest + 1;
  }
}
