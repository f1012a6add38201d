/**
 * Goal-path comparison used by the declarative debugger back end.
 *
 * A goal path is a C string of components, each terminated by ';'
 * (for example "c2;t;d1;"), listed outermost first.  A string is modelled
 * as the sequence of characters before its terminating NUL, so "the walk
 * has reached the NUL" is "the remaining sequence is empty".
 */
module GoalPath {

  /** No component terminator occurs in `s`. */
  predicate NoSemicolon(s: string) {
    forall k :: 0 <= k < |s| ==> s[k] != ';'
  }

  /**
   * MR_trace_single_component: skip characters up to the first ';' (failing
   * at the end of the string), step over it, and succeed iff the string ends
   * there.  So the text is exactly one component followed by its terminator.
   */
  function SingleComponent(p: string): (b: bool)
    ensures b <==> |p| > 0 && p[|p| - 1] == ';' && NoSemicolon(p[..|p| - 1])
  {
    if |p| == 0 then false
    else if p[0] == ';' then |p| == 1
    else
      assert |p| > 1 ==> p[1..][..|p| - 2] == p[1..|p| - 1];
      SingleComponent(p[1..])
  }

  /** Length of the longest common prefix: where the lock-step walk stops. */
  function CommonPrefixLength(p1: string, p2: string): (k: nat)
    ensures k <= |p1| && k <= |p2|
    ensures p1[..k] == p2[..k]
    ensures k < |p1| && k < |p2| ==> p1[k] != p2[k]
  {
    if |p1| > 0 && |p2| > 0 && p1[0] == p2[0] then
      var k := 1 + CommonPrefixLength(p1[1..], p2[1..]);
      assert p1[..k] == [p1[0]] + p1[1..][..k - 1];
      assert p2[..k] == [p2[0]] + p2[1..][..k - 1];
      k
    else 0
  }

  /**
   * MR_trace_same_construct: walk both paths while their characters agree;
   * if both end together they are identical (true); otherwise what is left
   * of each must be a single component.
   */
  function SameConstruct(p1: string, p2: string): bool
  {
    if |p1| == 0 && |p2| == 0 then true
    else if |p1| > 0 && |p2| > 0 && p1[0] == p2[0] then SameConstruct(p1[1..], p2[1..])
    else SingleComponent(p1) && SingleComponent(p2)
  }

  /**
   * Two paths are in the same construct exactly when they are equal, or
   * when, after the prefix they share, each is one final component.
   */
  lemma {:induction false} SameConstructCharacterised(p1: string, p2: string)
    ensures SameConstruct(p1, p2) <==>
              p1 == p2 || (var k := CommonPrefixLength(p1, p2);
                           SingleComponent(p1[k..]) && SingleComponent(p2[k..]))
  {
    if |p1| > 0 && |p2| > 0 && p1[0] == p2[0] {
      SameConstructCharacterised(p1[1..], p2[1..]);
      var k := CommonPrefixLength(p1, p2);
      assert p1[k..] == p1[1..][k - 1..] && p2[k..] == p2[1..][k - 1..];
      assert p1 == [p1[0]] + p1[1..] && p2 == [p2[0]] + p2[1..];
    } else if |p1| > 0 || |p2| > 0 {
      assert p1[0..] == p1 && p2[0..] == p2;
    }
  }

  /** Every path denotes the same construct as itself. */
  lemma {:induction false} SameConstructReflexive(p: string)
    ensures SameConstruct(p, p)
  {
    if |p| > 0 {
      SameConstructReflexive(p[1..]);
    }
  }

  /** The relation does not depend on the order of its arguments. */
  lemma {:induction false} SameConstructSymmetric(p1: string, p2: string)
    ensures SameConstruct(p1, p2) == SameConstruct(p2, p1)
  {
    if |p1| > 0 && |p2| > 0 && p1[0] == p2[0] {
      SameConstructSymmetric(p1[1..], p2[1..]);
    }
  }

  /**
   * Completeness: paths that share a prefix and then each have exactly one
   * component (siblings in one disjunction, switch or if-then-else) are in
   * the same construct.
   */
  lemma {:induction false} SiblingsSameConstruct(c: string, x: string, y: string)
    requires NoSemicolon(x) && NoSemicolon(y)
    ensures SameConstruct(c + x + ";", c + y + ";")
  {
    if |c| > 0 {
      assert (c + x + ";")[1..] == c[1..] + x + ";";
      assert (c + y + ";")[1..] == c[1..] + y + ";";
      SiblingsSameConstruct(c[1..], x, y);
    } else {
      assert c + x + ";" == x + ";" && c + y + ";" == y + ";";
      FinalComponentsSameConstruct(x, y);
    }
  }

  /** Any two single components are in the same construct. */
  lemma {:induction false} FinalComponentsSameConstruct(x: string, y: string)
    requires NoSemicolon(x) && NoSemicolon(y)
    ensures SameConstruct(x + ";", y + ";")
  {
    if |x| > 0 && |y| > 0 && x[0] == y[0] {
      assert (x + ";")[1..] == x[1..] + ";";
      assert (y + ";")[1..] == y[1..] + ";";
      FinalComponentsSameConstruct(x[1..], y[1..]);
    } else if x != y {
      assert (x + ";")[0] != (y + ";")[0];
      assert (x + ";")[..|x|] == x && (y + ";")[..|y|] == y;
      assert SingleComponent(x + ";") && SingleComponent(y + ";");
    } else {
      SameConstructReflexive(x + ";");
    }
  }

  /**
   * A path and a strictly longer path that extends it are never in the same
   * construct: the walk reaches the end of the shorter one, and an empty
   * remainder is not a single component.
   */
  lemma {:induction false} ExtensionNotSameConstruct(p: string, q: string)
    requires |q| > 0
    ensures !SameConstruct(p, p + q)
  {
    if |p| > 0 {
      assert (p + q)[1..] == p[1..] + q;
      ExtensionNotSameConstruct(p[1..], q);
    } else {
      assert p + q == q;
    }
  }

  /** The worked examples: sibling branches match, a nested path does not. */
  lemma SameConstructExamples()
    ensures SameConstruct("a;b;", "a;c;")
    ensures !SameConstruct("a;b;", "a;b;c;")
  {
    var p, q := "a;b;", "a;c;";
    SiblingsSameConstruct("a;", "b", "c");
    assert "a;" + "b" + ";" == p && "a;" + "c" + ";" == q;
    ExtensionNotSameConstruct(p, "c;");
    assert p + "c;" == "a;b;c;";
  }

  /**
   * MR_trace_first_disjunct: scan every suffix of the path and succeed iff one
   * of them is exactly "d1;", i.e. the path ends with those three characters.
   */
  function FirstDisjunct(path: string): (b: bool)
    ensures b <==> |path| >= 3 && path[|path| - 3..] == "d1;"
  {
    if |path| == 0 then false
    else if path == "d1;" then true
    else
      assert |path| > 3 ==> path[1..][|path| - 4..] == path[|path| - 3..];
      FirstDisjunct(path[1..])
  }
}
