/** POSIX path strings, as the file browser builds them with os.path.join and
    os.path.dirname (the posixpath rules; Windows rules are not modelled). */
module Paths {

  /** Every character of s is the separator '/'. */
  predicate AllSlashes(s: string) {
    forall k :: 0 <= k < |s| ==> s[k] == '/'
  }

  /** Index of the last '/' in p, or -1 when p has none (Python's p.rfind('/')). */
  function LastSlash(p: string): (r: int)
    ensures -1 <= r < |p|
    ensures r >= 0 ==> p[r] == '/'
    ensures forall k :: r < k < |p| ==> p[k] != '/'
  {
    if p == [] then -1
    else if p[|p| - 1] == '/' then |p| - 1
    else LastSlash(p[..|p| - 1])
  }

  /** s without its trailing slashes (Python's s.rstrip('/')). */
  function RStripSlashes(s: string): (r: string)
    ensures |r| <= |s| && r == s[..|r|]
    ensures r == [] || r[|r| - 1] != '/'
    ensures AllSlashes(s[|r|..])
  {
    if s != [] && s[|s| - 1] == '/' then
      var r := RStripSlashes(s[..|s| - 1]);
      assert s[|r|..] == s[..|s| - 1][|r|..] + "/";
      r
    else s
  }

  /** os.path.join(p, n): an absolute n replaces p; otherwise n is appended,
      with a separator unless p is empty or already ends in one. */
  function Join(p: string, n: string): (r: string)
    ensures |n| <= |r| && r[|r| - |n|..] == n
    ensures (n == [] || n[0] != '/') ==> |p| <= |r| && r[..|p|] == p
  {
    if |n| > 0 && n[0] == '/' then n
    else if p == [] || p[|p| - 1] == '/' then p + n
    else p + "/" + n
  }

  /** os.path.dirname(p): everything up to the last '/', with trailing slashes
      stripped unless that prefix consists of slashes only. */
  function Dirname(p: string): (r: string)
    ensures |r| <= |p| && r == p[..|r|]
    ensures '/' !in p ==> r == []
    ensures r == [] || AllSlashes(r) || r[|r| - 1] != '/'
  {
    var head := p[..LastSlash(p) + 1];
    if head != [] && !AllSlashes(head) then RStripSlashes(head) else head
  }

  /** Joining yields "." only when joining "." onto the empty path. */
  lemma JoinIsDot(p: string, n: string)
    ensures Join(p, n) == "." <==> p == [] && n == "."
  {
    var j := Join(p, n);
    if |n| > 0 && n[0] == '/' {
      assert j[0] == '/';
    } else if p == [] {
      assert j == n;
    } else if p[|p| - 1] == '/' {
      assert j[|p| - 1] == '/';
    } else {
      assert |j| >= 2;
    }
  }

  /** Going into a slash-free name and then to the parent restores the path,
      provided the path does not end in a separator (or is all separators). */
  lemma DirnameOfJoin(p: string, n: string)
    requires '/' !in n
    requires p == [] || p[|p| - 1] != '/' || AllSlashes(p)
    ensures Dirname(Join(p, n)) == p
  {
    var j := Join(p, n);
    assert n == [] || n[0] != '/';
    if p == [] {
      assert j == n;
      assert LastSlash(j) == -1;
    } else if p[|p| - 1] == '/' {
      assert j == p + n;
      assert j[|p| - 1] == '/';
      assert forall k :: |p| <= k < |j| ==> j[k] == n[k - |p|];
      assert LastSlash(j) == |p| - 1;
      assert j[..|p|] == p;
    } else {
      assert j == p + "/" + n;
      assert j[|p|] == '/';
      assert forall k :: |p| < k < |j| ==> j[k] == n[k - |p| - 1];
      assert LastSlash(j) == |p|;
      var head := j[..|p| + 1];
      assert head == p + "/";
      assert !AllSlashes(head) by { assert head[|p| - 1] != '/'; }
      var r := RStripSlashes(head);
      assert |r| == |p|;
    }
  }
}
