/**
 * The proposed "separate input" policy for a fork: the remaining input is
 * split between the forking parent and its child so that each gets an
 * exclusive portion.
 */
module InputDivision {
  import opened Program

  /** The two portions. The child's is a string in JavaScript; here both are code sequences. */
  datatype Division = Division(parent: seq<CharCode>, child: seq<CharCode>)

  /** `Math.ceil(n / 2)` for a length `n`. */
  function SplitPoint(n: nat): (k: nat)
    ensures n <= 2 * k <= n + 1
  {
    (n + 1) / 2
  }

  /**
   * Empty input gives two empty portions; a single character goes to the
   * child; otherwise the parent takes the first half, rounded up, and the
   * child the rest, in order.
   */
  function DivideInput(input: seq<CharCode>): (d: Division)
    ensures d.parent + d.child == input
    ensures |input| <= 1 ==> d.parent == []
    ensures |input| >= 2 ==> |d.parent| == SplitPoint(|input|)
  {
    if |input| == 0 then Division([], [])
    else if |input| == 1 then Division([], [input[0]])
    else
      var k := SplitPoint(|input|);
      Division(input[..k], input[k..])
  }

  /** For two or more characters, both portions are non-empty and the parent's is longer by at most one. */
  lemma DivisionIsBalanced(input: seq<CharCode>)
    requires |input| >= 2
    ensures var d := DivideInput(input);
      && d.parent != [] && d.child != []
      && |d.child| <= |d.parent| <= |d.child| + 1
  {
  }

  /** No character is lost or handed to both: the portions partition the input's multiset. */
  lemma DivisionIsExclusive(input: seq<CharCode>)
    ensures var d := DivideInput(input);
      multiset(d.parent) + multiset(d.child) == multiset(input)
  {
    var d := DivideInput(input);
    assert d.parent + d.child == input;
  }
}
