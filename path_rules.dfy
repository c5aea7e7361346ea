/**
 * The parts of Python's `posixpath` the script relies on: `splitext`, which
 * decides whether an entry is an archive, and `join`, which builds the paths
 * it hands to `unrar` and returns from the executable lookup.
 */
module PathRules {

  /** `s.rfind(c)`: the index of the last `c` in `s`, or -1 when there is none. */
  function LastIndexOf(s: string, c: char): (r: int)
    ensures -1 <= r < |s|
    ensures r >= 0 ==> s[r] == c
    ensures forall i :: r < i < |s| ==> s[i] != c
  {
    if |s| == 0 then -1
    else if s[|s| - 1] == c then |s| - 1
    else LastIndexOf(s[..|s| - 1], c)
  }

  /**
   * `os.path.splitext(p)`: the extension runs from the last '.' after the
   * last '/', provided some character other than '.' precedes that dot in the
   * last path component (leading dots do not start an extension); otherwise
   * it is empty. The root is what precedes the extension.
   */
  function SplitExt(p: string): (r: (string, string))
    ensures r.0 + r.1 == p
    ensures r.1 == [] || (r.1[0] == '.' && '.' !in r.1[1..] && '/' !in r.1)
  {
    var sepIndex := LastIndexOf(p, '/');
    var dotIndex := LastIndexOf(p, '.');
    if dotIndex > sepIndex && exists k :: sepIndex + 1 <= k < dotIndex && p[k] != '.' then
      assert '/' !in p[dotIndex..] by {
        forall i | 0 <= i < |p[dotIndex..]| ensures p[dotIndex..][i] != '/' {
          assert p[dotIndex..][i] == p[dotIndex + i];
        }
      }
      (p[..dotIndex], p[dotIndex..])
    else
      (p, [])
  }

  /** The extension part of `os.path.splitext`. */
  function Ext(p: string): string
  {
    SplitExt(p).1
  }

  /**
   * A name has an extension exactly when some '.' follows a character other
   * than '.' within the last path component.
   */
  lemma HasExtensionIff(p: string)
    ensures Ext(p) != [] <==>
      exists i, j :: 0 <= j < i < |p| && p[j] != '.' && p[i] == '.' && '/' !in p[j..]
  {
    var sepIndex := LastIndexOf(p, '/');
    var dotIndex := LastIndexOf(p, '.');
    if Ext(p) != [] {
      var k :| sepIndex + 1 <= k < dotIndex && p[k] != '.';
      assert '/' !in p[k..] by {
        forall t | 0 <= t < |p[k..]| ensures p[k..][t] != '/' {
          assert p[k..][t] == p[k + t];
        }
      }
    }
    if exists i, j :: 0 <= j < i < |p| && p[j] != '.' && p[i] == '.' && '/' !in p[j..] {
      var i, j :| 0 <= j < i < |p| && p[j] != '.' && p[i] == '.' && '/' !in p[j..];
      assert i <= dotIndex;
      assert sepIndex + 1 <= j < dotIndex && p[j] != '.';
    }
  }

  /**
   * When `p` ends in a '.' followed by no further '.' or '/', and some
   * character other than '.' stands before that dot in the last component,
   * that suffix is the extension.
   */
  lemma ExtIsLastDotSuffix(stem: string, e: string, j: nat)
    requires |e| > 0 && e[0] == '.' && '.' !in e[1..] && '/' !in e
    requires j < |stem| && stem[j] != '.' && '/' !in stem[j..]
    ensures Ext(stem + e) == e
  {
    var p := stem + e;
    assert '/' !in p[j..] by {
      assert p[j..] == stem[j..] + e;
    }
    assert p[|stem|] == '.';
    HasExtensionIff(p);
    var x := Ext(p);
    var root := SplitExt(p).0;
    assert p == root + x;
    assert x == p[|root|..] && e == p[|stem|..];
  }

  /** `os.path.join(a, b)` on POSIX. */
  function Join(a: string, b: string): (r: string)
    ensures |b| > 0 && b[0] == '/' ==> r == b
    ensures (|b| == 0 || b[0] != '/') ==> |r| >= |a| + |b| && r[..|a|] == a
    ensures |r| >= |b| && r[|r| - |b|..] == b
  {
    if |b| > 0 && b[0] == '/' then b
    else if a == [] || a[|a| - 1] == '/' then a + b
    else a + "/" + b
  }

  /** `os.path.basename(p)`: what follows the last '/'. */
  function Basename(p: string): (r: string)
    ensures '/' !in r
    ensures |r| <= |p| && p[|p| - |r|..] == r
    ensures |r| < |p| ==> p[|p| - |r| - 1] == '/'
  {
    p[LastIndexOf(p, '/') + 1..]
  }

  /** An index holding `c` with no `c` after it is the last index of `c`. */
  lemma LastIndexOfIs(s: string, c: char, k: int)
    requires -1 <= k < |s| && (k >= 0 ==> s[k] == c)
    requires forall i :: k < i < |s| ==> s[i] != c
    ensures LastIndexOf(s, c) == k
  {
  }

  /** Joining a directory and an entry name yields a path whose last component is that name. */
  lemma JoinThenBasename(a: string, name: string)
    requires name != [] && '/' !in name
    ensures Basename(Join(a, name)) == name
  {
    var r := Join(a, name);
    var cut := |r| - |name| - 1;
    assert r == if a == [] then name else if a[|a| - 1] == '/' then a + name else a + "/" + name;
    assert r[cut + 1..] == name;
    forall i | cut < i < |r| ensures r[i] != '/' {
      assert r[i] == name[i - cut - 1];
    }
    if a != [] {
      assert r[cut] == '/';
    }
    LastIndexOfIs(r, '/', cut);
  }
}
