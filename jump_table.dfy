/**
 * The jump table: bracket depth, the matching relation between a `[` and
 * its `]`, and the stack-based scan that builds the symmetric table or
 * reports the first bracket that cannot be matched.
 */
module JumpTable {

  /** The loader's errors; JavaScript throws them as `Error`s with these details in the message. */
  datatype SyntaxError =
    | UnmatchedClose(index: nat)   // a `]` at `index` with no pending `[`
    | UnmatchedOpen(count: nat)    // `count` `[` still pending at the end of the scan

  datatype Result<+T, +E> = Success(value: T) | Failure(error: E)

  predicate IsBracket(c: char) {
    c == '[' || c == ']'
  }

  function Delta(c: char): int {
    if c == '[' then 1 else if c == ']' then -1 else 0
  }

  /** Number of `[` minus number of `]` in `s`. */
  function Depth(s: seq<char>): int {
    if s == [] then 0 else Depth(s[..|s| - 1]) + Delta(s[|s| - 1])
  }

  lemma DepthStep(code: seq<char>, i: nat)
    requires i < |code|
    ensures Depth(code[..i + 1]) == Depth(code[..i]) + Delta(code[i])
  {
    assert code[..i + 1][..i] == code[..i];
  }

  /** Every prefix has at least as many `[` as `]`, and the whole text has equally many. */
  ghost predicate Balanced(code: seq<char>) {
    && (forall k :: 0 <= k <= |code| ==> Depth(code[..k]) >= 0)
    && Depth(code) == 0
  }

  /**
   * The `]` at `close` matches the `[` at `open`: the depth returns to its
   * level before `open` just after `close`, and stays above it in between.
   */
  ghost predicate Matched(code: seq<char>, open: int, close: int) {
    && 0 <= open < close < |code|
    && code[open] == '['
    && code[close] == ']'
    && Depth(code[..close + 1]) == Depth(code[..open])
    && forall k :: open < k <= close ==> Depth(code[..k]) > Depth(code[..open])
  }

  /**
   * `m` is the jump table of `code`: its keys are exactly the bracket
   * positions, each `[` maps to its matching `]` and each `]` to its matching `[`.
   */
  ghost predicate IsJumpTable(code: seq<char>, m: map<int, int>) {
    && (forall k :: k in m <==> 0 <= k < |code| && IsBracket(code[k]))
    && LinksAreMatches(code, m)
  }

  /** Each `[` in `m` is linked to its matching `]`, and each `]` to its matching `[`. */
  ghost predicate LinksAreMatches(code: seq<char>, m: map<int, int>) {
    && (forall o :: 0 <= o < |code| && o in m && code[o] == '[' ==> Matched(code, o, m[o]))
    && (forall c :: 0 <= c < |code| && c in m && code[c] == ']' ==> Matched(code, m[c], c))
  }

  /** What each error says about the program. */
  ghost predicate Explains(code: seq<char>, e: SyntaxError) {
    match e
    case UnmatchedClose(i) =>
      && i < |code| && code[i] == ']'
      && Depth(code[..i]) == 0
      && forall k :: 0 <= k <= i ==> Depth(code[..k]) >= 0
    case UnmatchedOpen(n) =>
      && n > 0 && Depth(code) == n
      && forall k :: 0 <= k <= |code| ==> Depth(code[..k]) >= 0
  }

  /** A `[` has at most one matching `]`. */
  lemma CloseIsUnique(code: seq<char>, open: int, c1: int, c2: int)
    requires Matched(code, open, c1) && Matched(code, open, c2)
    ensures c1 == c2
  {
  }

  /** A `]` has at most one matching `[`. */
  lemma OpenIsUnique(code: seq<char>, o1: int, o2: int, close: int)
    requires Matched(code, o1, close) && Matched(code, o2, close)
    ensures o1 == o2
  {
  }

  /** The table is symmetric, sends `[` forward and `]` backward, and links a `[` with a `]`. */
  lemma JumpTableSymmetric(code: seq<char>, m: map<int, int>, i: int)
    requires IsJumpTable(code, m) && i in m
    ensures m[i] in m && m[m[i]] == i
    ensures code[i] == '[' ==> m[i] > i && code[m[i]] == ']'
    ensures code[i] == ']' ==> m[i] < i && code[m[i]] == '['
  {
    if code[i] == '[' {
      var c := m[i];
      assert Matched(code, i, c);
      OpenIsUnique(code, m[c], i, c);
    } else {
      var o := m[i];
      assert Matched(code, o, i);
      CloseIsUnique(code, o, m[o], i);
    }
  }

  /**
   * What the scan knows about its stack after reading `code[..i]`: the
   * stack holds the pending `[` positions, the one at height `j` sitting at
   * depth `j`, and no prefix ending after it drops back to that depth.
   */
  ghost predicate StackInvariant(code: seq<char>, i: nat, stack: seq<int>) {
    && i <= |code|
    && Depth(code[..i]) == |stack|
    && (forall k :: 0 <= k <= i ==> Depth(code[..k]) >= 0)
    && (forall j :: 0 <= j < |stack| ==>
          0 <= stack[j] < i && code[stack[j]] == '[' && Depth(code[..stack[j]]) == j)
    && (forall j, k :: 0 <= j < |stack| && stack[j] < k <= i ==> Depth(code[..k]) > j)
  }

  /** The scan's table has linked exactly the brackets before `i` that are not pending. */
  ghost predicate KeysInvariant(code: seq<char>, i: nat, stack: seq<int>, m: map<int, int>) {
    forall k :: k in m <==> 0 <= k < i && i <= |code| && IsBracket(code[k]) && k !in stack
  }

  lemma StackOther(code: seq<char>, i: nat, stack: seq<int>)
    requires StackInvariant(code, i, stack) && i < |code| && !IsBracket(code[i])
    ensures StackInvariant(code, i + 1, stack)
  {
    DepthStep(code, i);
  }

  lemma StackOpen(code: seq<char>, i: nat, stack: seq<int>)
    requires StackInvariant(code, i, stack) && i < |code| && code[i] == '['
    ensures StackInvariant(code, i + 1, stack + [i])
  {
    DepthStep(code, i);
  }

  /** Popping the top of the stack at a `]` matches the two brackets; the top occurs only once. */
  lemma StackClose(code: seq<char>, i: nat, stack: seq<int>)
    requires StackInvariant(code, i, stack) && i < |code| && code[i] == ']' && stack != []
    ensures StackInvariant(code, i + 1, stack[..|stack| - 1])
    ensures Matched(code, stack[|stack| - 1], i)
    ensures stack[|stack| - 1] !in stack[..|stack| - 1]
  {
    DepthStep(code, i);
    var n := |stack| - 1;
    forall j | 0 <= j < n ensures stack[j] != stack[n] {
      assert Depth(code[..stack[j]]) == j;
    }
  }

  lemma KeysOther(code: seq<char>, i: nat, stack: seq<int>, m: map<int, int>)
    requires KeysInvariant(code, i, stack, m) && i < |code| && !IsBracket(code[i])
    ensures KeysInvariant(code, i + 1, stack, m)
  {
  }

  lemma KeysOpen(code: seq<char>, i: nat, stack: seq<int>, m: map<int, int>)
    requires KeysInvariant(code, i, stack, m) && i < |code| && code[i] == '['
    ensures KeysInvariant(code, i + 1, stack + [i], m)
  {
    forall k ensures k in m <==> 0 <= k < i + 1 && i + 1 <= |code| && IsBracket(code[k]) && k !in stack + [i] {
      assert k in stack + [i] <==> k in stack || k == i;
    }
  }

  lemma KeysClose(code: seq<char>, i: nat, stack: seq<int>, m: map<int, int>)
    requires KeysInvariant(code, i, stack, m) && i < |code| && code[i] == ']' && stack != []
    requires forall j :: 0 <= j < |stack| ==> 0 <= stack[j] < i
    requires code[stack[|stack| - 1]] == '[' && stack[|stack| - 1] !in stack[..|stack| - 1]
    ensures var open := stack[|stack| - 1];
            KeysInvariant(code, i + 1, stack[..|stack| - 1], m[open := i][i := open])
  {
    var n := |stack| - 1;
    var open := stack[n];
    var rest := stack[..n];
    assert stack == rest + [open];
    var m' := m[open := i][i := open];
    forall k ensures k in m' <==> 0 <= k < i + 1 && i + 1 <= |code| && IsBracket(code[k]) && k !in rest {
      assert k in stack <==> k in rest || k == open;
    }
  }

  lemma LinksClose(code: seq<char>, m: map<int, int>, open: int, close: int)
    requires LinksAreMatches(code, m) && Matched(code, open, close)
    ensures LinksAreMatches(code, m[open := close][close := open])
  {
  }

  /** A `]` met with nothing pending makes the program unbalanced, and is reported by its index. */
  lemma ScanUnmatchedClose(code: seq<char>, i: nat)
    requires StackInvariant(code, i, []) && i < |code| && code[i] == ']'
    ensures !Balanced(code) && Explains(code, UnmatchedClose(i))
  {
    DepthStep(code, i);
  }

  /** At the end of the scan, the stack is empty exactly for a balanced program. */
  lemma ScanEnd(code: seq<char>, stack: seq<int>, m: map<int, int>)
    requires StackInvariant(code, |code|, stack) && KeysInvariant(code, |code|, stack, m)
    requires LinksAreMatches(code, m)
    ensures stack == [] ==> Balanced(code) && IsJumpTable(code, m)
    ensures stack != [] ==> !Balanced(code) && Explains(code, UnmatchedOpen(|stack|))
  {
    assert code[..|code|] == code;
  }

  /**
   * One left-to-right scan with a stack of pending `[` positions. On a `]`
   * with an empty stack it fails naming that index; with `[` left over at
   * the end it fails naming how many; otherwise it returns the jump table.
   */
  method BuildLoopMap(code: seq<char>) returns (r: Result<map<int, int>, SyntaxError>)
    ensures r.Success? <==> Balanced(code)
    ensures r.Success? ==> IsJumpTable(code, r.value)
    ensures r.Failure? ==> Explains(code, r.error)
  {
    var m: map<int, int> := map[];
    var stack: seq<int> := [];
    for i := 0 to |code|
      invariant StackInvariant(code, i, stack)
      invariant KeysInvariant(code, i, stack, m)
      invariant LinksAreMatches(code, m)
    {
      if code[i] == '[' {
        StackOpen(code, i, stack);
        KeysOpen(code, i, stack, m);
        stack := stack + [i];
      } else if code[i] == ']' {
        if stack == [] {
          ScanUnmatchedClose(code, i);
          return Failure(UnmatchedClose(i));
        }
        var open := stack[|stack| - 1];
        StackClose(code, i, stack);
        KeysClose(code, i, stack, m);
        LinksClose(code, m, open, i);
        stack := stack[..|stack| - 1];
        m := m[open := i][i := open];
      } else {
        StackOther(code, i, stack);
        KeysOther(code, i, stack, m);
      }
    }
    ScanEnd(code, stack, m);
    if |stack| > 0 {
      return Failure(UnmatchedOpen(|stack|));
    }
    return Success(m);
  }
}
