/** Identifiers, which ST compares without regard to case, and paths of names that depend on one
    another. */
module DepGraph {
  function Upper(c: char): char { if 'a' <= c <= 'z' then c - 'a' + 'A' else c }

  /** The case-folded spelling of an identifier. */
  function Fold(s: string): (r: string)
    ensures |r| == |s|
  {
    seq(|s|, i requires 0 <= i < |s| => Upper(s[i]))
  }

  function Elements(p: seq<string>): set<string> { set x | x in p }

  function Last(p: seq<string>): string
    requires p != []
  {
    p[|p| - 1]
  }

  /** The path comes back to a name it has visited. */
  predicate Repeats(p: seq<string>) { |p| > 1 && Last(p) in p[..|p| - 1] }

  /** Names the path has left behind: walking on within `all` uses up one more. */
  lemma WalkOn(p: seq<string>, n: string, all: set<string>)
    requires p != [] && !Repeats(p) && Last(p) in all && Elements(p[..|p| - 1]) <= all
    ensures var q := p + [n];
            && q[..|q| - 1] == p && Last(q) == n
            && Elements(q[..|q| - 1]) <= all
            && all - Elements(q[..|q| - 1]) < all - Elements(p[..|p| - 1])
  {
    var q := p + [n];
    assert q[..|q| - 1] == p && p == p[..|p| - 1] + [Last(p)];
    assert Last(p) !in Elements(p[..|p| - 1]) && Last(p) in Elements(p);
  }
}
