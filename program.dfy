/**
 * The program loader: the instruction alphabet, character codes, and the
 * filter that reduces raw source text to the eight instruction characters.
 */
module Program {

  /** A UTF-16 code unit, as produced by `charCodeAt` on one character. */
  type CharCode = c: int | 0 <= c < 0x1_0000

  /** The eight instruction characters of the language. */
  predicate IsInstruction(c: char) {
    c in "><+-.,[]"
  }

  /** A loaded program: text made of instruction characters only. */
  predicate IsProgram(code: string) {
    forall i :: 0 <= i < |code| ==> IsInstruction(code[i])
  }

  /**
   * Keeps the instruction characters of `source`, in their original order,
   * and drops every other character; nothing is ever rejected.
   */
  function Filter(source: string): (code: string)
    ensures IsProgram(code)
    ensures |code| <= |source|
    ensures forall c :: IsInstruction(c) ==> multiset(code)[c] == multiset(source)[c]
    ensures forall c :: !IsInstruction(c) ==> multiset(code)[c] == 0
  {
    if source == [] then []
    else
      assert source == [source[0]] + source[1..];
      if IsInstruction(source[0]) then [source[0]] + Filter(source[1..])
      else Filter(source[1..])
  }

  /** Filtering distributes over concatenation: the relative order of the kept characters is preserved. */
  lemma {:induction false} FilterAppend(a: string, b: string)
    ensures Filter(a + b) == Filter(a) + Filter(b)
  {
    if a == [] {
      assert a + b == b;
    } else {
      assert (a + b)[0] == a[0];
      assert (a + b)[1..] == a[1..] + b;
      FilterAppend(a[1..], b);
    }
  }

  /** A text that is already a program is left unchanged, so filtering is idempotent. */
  lemma {:induction false} FilterKeepsProgram(code: string)
    requires IsProgram(code)
    ensures Filter(code) == code
  {
    if code != [] {
      FilterKeepsProgram(code[1..]);
    }
  }

  /** Filtering twice is the same as filtering once. */
  lemma FilterIdempotent(source: string)
    ensures Filter(Filter(source)) == Filter(source)
  {
    FilterKeepsProgram(Filter(source));
  }
}
