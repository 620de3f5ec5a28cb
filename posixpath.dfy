/**
 * `os.path.join` as Python implements it on POSIX systems: components are
 * added left to right, a `/` goes between two components unless the path so
 * far is empty or already ends in `/`, and a component that starts with `/`
 * is absolute and throws away everything joined before it.
 */
module PosixPath {
  import opened PyStrings

  /** Adds one component `b` to the path joined so far. */
  function JoinStep(path: string, b: string): string {
    if StartsWith(b, "/") then b
    else if path == "" || EndsWith(path, "/") then path + b
    else path + "/" + b
  }

  /** `os.path.join(a, *parts)` */
  function Join(a: string, parts: seq<string>): (r: string)
    ensures parts != [] ==> EndsWith(r, Last(parts))
    ensures (forall k :: 0 <= k < |parts| ==> !StartsWith(parts[k], "/")) ==> StartsWith(r, a)
    decreases |parts|
  {
    if parts == [] then a
    else
      var r := Join(JoinStep(a, parts[0]), parts[1..]);
      assert parts[1..] != [] ==> Last(parts[1..]) == Last(parts);
      r
  }

  /**
   * An absolute component makes the result independent of everything before
   * it: joining from there on gives the same path.
   */
  lemma {:induction false} AbsoluteComponentResets(a: string, parts: seq<string>, k: nat)
    requires k < |parts| && StartsWith(parts[k], "/")
    ensures Join(a, parts) == Join(parts[k], parts[k + 1..])
    decreases k
  {
    if k > 0 {
      AbsoluteComponentResets(JoinStep(a, parts[0]), parts[1..], k - 1);
      assert parts[1..][k - 1 + 1..] == parts[k + 1..];
    }
  }

  /** Joining a single component is one step. */
  lemma JoinSingle(a: string, b: string)
    ensures Join(a, [b]) == JoinStep(a, b)
  {
    assert [b][0] == b && [b][1..] == [];
    assert Join(a, [b]) == Join(JoinStep(a, b), []);
  }

  /** Joining two components is two steps. */
  lemma JoinPair(a: string, b: string, c: string)
    ensures Join(a, [b, c]) == JoinStep(JoinStep(a, b), c)
  {
    assert [b, c][0] == b && [b, c][1..] == [c];
    JoinSingle(JoinStep(a, b), c);
  }

  /**
   * With a non-empty base that does not end in `/` and a relative
   * component, joining is concatenation around a single `/`.
   */
  lemma JoinRelative(a: string, b: string)
    requires a != "" && !EndsWith(a, "/") && !StartsWith(b, "/")
    ensures Join(a, [b]) == a + "/" + b
  {
    JoinSingle(a, b);
  }

  /**
   * A relative file name `stem + ext` joined onto a directory: a `/` goes in
   * between unless the directory is empty or ends in `/`.
   */
  lemma JoinFile(dir: string, stem: string, ext: string)
    requires !StartsWith(stem + ext, "/")
    ensures dir != "" && !EndsWith(dir, "/") ==> Join(dir, [stem + ext]) == dir + "/" + stem + ext
    ensures dir == "" || EndsWith(dir, "/") ==> Join(dir, [stem + ext]) == dir + stem + ext
  {
    JoinSingle(dir, stem + ext);
    assert (dir + "/") + (stem + ext) == ((dir + "/") + stem) + ext;
    assert dir + (stem + ext) == (dir + stem) + ext;
  }

  /** A string whose first character is not `/` does not start with `/`. */
  lemma NotAbsolute(s: string)
    requires s != [] && s[0] != '/'
    ensures !StartsWith(s, "/")
  {
    assert s[..1][0] == s[0];
  }
}
