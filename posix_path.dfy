/**
 * The string side of paths: `os.path.join` of two POSIX path strings and
 * `os.path.relpath` of an entry below a directory. Object-store keys are
 * built from these.
 */
module PosixPath {
  import opened Filesystem

  /** `"/".join(names)`: the string of a relative path. */
  function JoinNames(names: seq<Name>): (r: string)
    requires |names| > 0
    ensures |r| > 0 && r[|r| - 1] != '/'
    ensures '/' in r <==> |names| > 1
  {
    if |names| == 1 then names[0] else names[0] + "/" + JoinNames(names[1..])
  }

  /** `os.path.join(a, b)` for a relative `b`: one separator between them, none added after a trailing one. */
  function Join(a: string, b: string): string {
    if a == "" || a[|a| - 1] == '/' then a + b else a + "/" + b
  }

  /** `os.path.relpath(p, d)` for an entry `p` below `d`. */
  function RelPath(d: Path, p: Path): string
    requires Below(d, p)
  {
    JoinNames(p[|d|..])
  }

  /** The position of the first separator. */
  function SlashIndex(s: string): (i: nat)
    requires '/' in s
    ensures i < |s| && s[i] == '/' && '/' !in s[..i]
  {
    if s[0] == '/' then 0 else 1 + SlashIndex(s[1..])
  }

  lemma {:induction false} SlashIndexAfter(u: string, v: string)
    requires '/' !in u
    ensures SlashIndex(u + "/" + v) == |u|
  {
    if u != [] {
      assert (u + "/" + v)[1..] == u[1..] + "/" + v;
      SlashIndexAfter(u[1..], v);
    }
  }

  /** The first separator splits a joined string back into its two halves. */
  lemma SplitAtFirstSlash(u: string, v: string, u': string, v': string)
    requires '/' !in u && '/' !in u'
    requires u + "/" + v == u' + "/" + v'
    ensures u == u' && v == v'
  {
    var w := u + "/" + v;
    SlashIndexAfter(u, v);
    SlashIndexAfter(u', v');
    assert u == w[..|u|] && u' == w[..|u'|];
    assert v == w[|u| + 1..] == v';
  }

  lemma {:induction false} JoinNamesInjective(s: seq<Name>, t: seq<Name>)
    requires |s| > 0 && |t| > 0
    ensures JoinNames(s) == JoinNames(t) <==> s == t
  {
    if JoinNames(s) == JoinNames(t) && |s| > 1 && |t| > 1 {
      SplitAtFirstSlash(s[0], JoinNames(s[1..]), t[0], JoinNames(t[1..]));
      JoinNamesInjective(s[1..], t[1..]);
      assert s == [s[0]] + s[1..] && t == [t[0]] + t[1..];
    }
  }

  lemma JoinInjective(a: string, b: string, c: string)
    ensures Join(a, b) == Join(a, c) <==> b == c
  {
    var k := if a == "" || a[|a| - 1] == '/' then |a| else |a| + 1;
    if Join(a, b) == Join(a, c) {
      assert b == Join(a, b)[k..] && c == Join(a, c)[k..];
    }
  }

  /** `b`'s last character ends the joined string. */
  lemma JoinLast(a: string, b: string)
    requires |b| > 0
    ensures |Join(a, b)| > 0 && Join(a, b)[|Join(a, b)| - 1] == b[|b| - 1]
  {
  }

  /** Distinct entries below one directory have distinct relative paths. */
  lemma RelPathInjective(d: Path, p: Path, q: Path)
    requires Below(d, p) && Below(d, q)
    ensures RelPath(d, p) == RelPath(d, q) <==> p == q
  {
    if RelPath(d, p) == RelPath(d, q) {
      JoinNamesInjective(p[|d|..], q[|d|..]);
      assert p == p[..|d|] + p[|d|..] && q == q[..|d|] + q[|d|..];
    }
  }
}
