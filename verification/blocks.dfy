/** The line structure both passes share: a file as a sequence of lines, the
    block of metadata lines below a task line, and a pass's outcome. */
module Blocks {
  import opened Wrappers
  import opened Text
  import opened Patterns

  /** A pass's outcome: the lines as the loop leaves them, and its `changed` flag. */
  datatype PassResult = PassResult(lines: seq<string>, changed: bool)

  /** The number of metadata lines directly below a task line: the lines the
      `while (j < lines.length && /^[ \t]+- /.test(lines[j]))` scans visit. */
  function BlockLength(below: seq<string>): (n: nat)
    ensures n <= |below|
    ensures forall k :: 0 <= k < n ==> IsSubLine(below[k])
    ensures n == |below| || !IsSubLine(below[n])
    decreases |below|
  {
    if |below| == 0 || !IsSubLine(below[0]) then 0 else 1 + BlockLength(below[1..])
  }

  /** The first line of the block below a task line that `f` reads a value
      from: that value and the line's index. The loop that finds it `break`s
      there, so later lines are never consulted. */
  function FirstHit<T>(below: seq<string>, f: string -> Option<T>): (r: Option<(T, nat)>)
    ensures r.Some? ==> r.value.1 < BlockLength(below) && f(below[r.value.1]) == Some(r.value.0)
    ensures r.Some? ==> forall m :: 0 <= m < r.value.1 ==> f(below[m]).None?
    ensures r.None? ==> forall k :: 0 <= k < BlockLength(below) ==> f(below[k]).None?
    decreases |below|
  {
    if |below| == 0 || !IsSubLine(below[0]) then None
    else match f(below[0])
      case Some(v) => Some((v, 0))
      case None =>
        var r := FirstHit(below[1..], f);
        assert forall k :: 0 < k < |below| ==> below[k] == below[1..][k - 1];
        if r.None? then None else Some((r.value.0, r.value.1 + 1))
  }

  /** The line whose block holds line `k`: the nearest line at or above `k`
      that is not a metadata line (None when every line up to `k` is one). */
  function Owner(lines: seq<string>, k: nat): (r: Option<nat>)
    requires k < |lines|
    ensures r.Some? ==> r.value <= k && !IsSubLine(lines[r.value])
    ensures r.Some? ==> forall m :: r.value < m <= k ==> IsSubLine(lines[m])
    ensures r.None? ==> forall m :: 0 <= m <= k ==> IsSubLine(lines[m])
  {
    if !IsSubLine(lines[k]) then Some(k)
    else if k == 0 then None
    else Owner(lines, k - 1)
  }

  /** Every line of a block belongs to the line the block hangs from. */
  lemma {:induction false} OwnerOfBlock(lines: seq<string>, i: nat, k: nat)
    requires i < k < |lines| && !IsSubLine(lines[i])
    ensures k <= i + BlockLength(lines[i + 1..]) <==> Owner(lines, k) == Some(i)
  {
    var n := BlockLength(lines[i + 1..]);
    if k <= i + n {
      forall m | i < m <= k ensures IsSubLine(lines[m]) {
        assert lines[m] == lines[i + 1..][m - i - 1];
      }
      OwnerSkipsSubLines(lines, i, k);
    } else {
      assert !IsSubLine(lines[i + 1 + n]) by { assert lines[i + 1..][n] == lines[i + 1 + n]; }
      if Owner(lines, k) == Some(i) {
        assert false;
      }
    }
  }

  lemma {:induction false} OwnerSkipsSubLines(lines: seq<string>, i: nat, k: nat)
    requires i <= k < |lines| && !IsSubLine(lines[i])
    requires forall m :: i < m <= k ==> IsSubLine(lines[m])
    ensures Owner(lines, k) == Some(i)
    decreases k - i
  {
    if k > i {
      OwnerSkipsSubLines(lines, i, k - 1);
    }
  }
}
