// What replaceNode and deleteNode do to the sequence of symbols, and what a
// run of them does: all replacements in argument order, then all deletions in
// argument order, each deletion walking from a counter that starts at
// 1 + numsDeleted (protein.c:113-159, 233-278).

module Edits {
  import opened Commands

  // ---------------------------------------------------------------------------
  // Replacements

  /** Every edit is a replacement whose 1-based position lies inside a sequence of length n. */
  predicate ReplacesInRange(n: nat, edits: seq<Command>)
  {
    forall i :: 0 <= i < |edits| ==> edits[i].Replace? && 1 <= edits[i].position <= n
  }

  /** The sequence after replaceNode has run for each edit in turn. */
  function ApplyReplaces(s: seq<char>, edits: seq<Command>): (r: seq<char>)
    requires ReplacesInRange(|s|, edits)
    ensures |r| == |s|
    decreases |edits|
  {
    if edits == [] then s
    else
      var e := edits[|edits| - 1];
      ApplyReplaces(s, edits[..|edits| - 1])[e.position - 1 := e.symbol]
  }

  /** Running one more edit of a valid list: the prefix stays valid and the edit is applied last. */
  lemma ApplyReplacesStep(s: seq<char>, edits: seq<Command>, i: nat)
    requires ReplacesInRange(|s|, edits) && i < |edits|
    ensures ReplacesInRange(|s|, edits[..i]) && ReplacesInRange(|s|, edits[..i + 1])
    ensures ApplyReplaces(s, edits[..i + 1]) == ApplyReplaces(s, edits[..i])[edits[i].position - 1 := edits[i].symbol]
  {
    ReplacesPrefix(|s|, edits, i);
    ReplacesPrefix(|s|, edits, i + 1);
    LongerPrefix(edits, i);
    var longer := edits[..i + 1];
    var e := longer[|longer| - 1];
    assert ApplyReplaces(s, longer) == ApplyReplaces(s, longer[..|longer| - 1])[e.position - 1 := e.symbol];
  }

  /** A prefix of edits in range is in range. */
  lemma ReplacesPrefix(n: nat, edits: seq<Command>, i: nat)
    requires ReplacesInRange(n, edits) && i <= |edits|
    ensures ReplacesInRange(n, edits[..i])
  {
    assert forall k :: 0 <= k < i ==> edits[..i][k] == edits[k];
  }

  /** The prefix of length i + 1 is the prefix of length i and element i. */
  lemma LongerPrefix(edits: seq<Command>, i: nat)
    requires i < |edits|
    ensures var longer := edits[..i + 1];
      longer[..|longer| - 1] == edits[..i] && longer[|longer| - 1] == edits[i]
  {
  }

  /**
   * After the replacements, a position nobody targets keeps its symbol, and a
   * targeted position holds the symbol of the last edit that targets it.
   */
  lemma {:induction false} ReplacesLastWins(s: seq<char>, edits: seq<Command>, j: nat)
    requires ReplacesInRange(|s|, edits) && j < |s|
    ensures (forall i :: 0 <= i < |edits| ==> edits[i].position != j + 1) ==> ApplyReplaces(s, edits)[j] == s[j]
    ensures forall i :: 0 <= i < |edits| && edits[i].position == j + 1
                        && (forall k :: i < k < |edits| ==> edits[k].position != j + 1)
                        ==> ApplyReplaces(s, edits)[j] == edits[i].symbol
    decreases |edits|
  {
    if edits != [] {
      var init := edits[..|edits| - 1];
      assert forall i :: 0 <= i < |init| ==> init[i] == edits[i];
      ReplacesLastWins(s, init, j);
    }
  }

  // ---------------------------------------------------------------------------
  // Deletions

  /** The sequence without the element at 0-based index k, the others in order. */
  function RemoveAt<T>(s: seq<T>, k: nat): (r: seq<T>)
    requires k < |s|
    ensures |r| == |s| - 1
    ensures forall i :: 0 <= i < k ==> r[i] == s[i]
    ensures forall i :: k <= i < |r| ==> r[i] == s[i + 1]
  {
    s[..k] + s[k + 1..]
  }

  /**
   * Each deletion finds its node: with `nd` deletions done before it, the k-th
   * position must exceed 1 + nd + k (deleteNode cannot remove the head) and lie
   * within the current length plus the deletions done so far, which is n + nd.
   */
  predicate DeletesInRange(n: nat, nd: nat, positions: seq<int>)
  {
    forall k :: 0 <= k < |positions| ==> nd + k + 1 < positions[k] <= n + nd
  }

  /** The sequence after deleteNode has run for each position in turn, starting from `nd` deletions. */
  function DeleteAll(s: seq<char>, nd: nat, positions: seq<int>): (r: seq<char>)
    requires DeletesInRange(|s|, nd, positions)
    ensures |r| == |s| - |positions|
    decreases |positions|
  {
    if positions == [] then s
    else
      assert positions[|positions| - 1] <= |s| + nd;
      DeleteAll(RemoveAt(s, positions[0] - 1 - nd), nd + 1, positions[1..])
  }

  /** The first deletion of a valid run finds its node, and the rest of the run stays valid. */
  lemma DeleteAllStep(s: seq<char>, nd: nat, positions: seq<int>)
    requires DeletesInRange(|s|, nd, positions) && positions != []
    ensures 0 < positions[0] - 1 - nd < |s|
    ensures DeletesInRange(|s| - 1, nd + 1, positions[1..])
    ensures DeleteAll(s, nd, positions) == DeleteAll(RemoveAt(s, positions[0] - 1 - nd), nd + 1, positions[1..])
  {
    assert forall k :: 0 <= k < |positions| - 1 ==> positions[1..][k] == positions[k + 1];
  }

  /** Strictly increasing positions. */
  predicate Increasing(positions: seq<int>)
  {
    forall i, j :: 0 <= i < j < |positions| ==> positions[i] < positions[j]
  }

  /**
   * `t` holds the symbols at original positions off+1, off+2, ...; the result
   * keeps those whose position is not listed: the stretch before the first
   * listed position, then the same for the rest after it.
   */
  function Without(t: seq<char>, positions: seq<int>, off: nat): (r: seq<char>)
    requires Increasing(positions)
    requires forall k :: 0 <= k < |positions| ==> off < positions[k] <= off + |t|
    decreases |positions|
  {
    if positions == [] then t
    else
      var p := positions[0];
      t[..p - 1 - off] + Without(t[p - off..], positions[1..], p)
  }

  lemma {:induction false} WithoutLength(t: seq<char>, positions: seq<int>, off: nat)
    requires Increasing(positions)
    requires forall k :: 0 <= k < |positions| ==> off < positions[k] <= off + |t|
    ensures |Without(t, positions, off)| == |t| - |positions|
    decreases |positions|
  {
    if positions != [] {
      WithoutLength(t[positions[0] - off..], positions[1..], positions[0]);
    }
  }

  lemma {:induction false} DeleteAllFrom(prefix: seq<char>, t: seq<char>, nd: nat, off: nat, positions: seq<int>)
    requires |prefix| + nd == off
    requires Increasing(positions)
    requires forall k :: 0 <= k < |positions| ==> off < positions[k] <= off + |t|
    requires DeletesInRange(|prefix + t|, nd, positions)
    ensures DeleteAll(prefix + t, nd, positions) == prefix + Without(t, positions, off)
    decreases |positions|
  {
    if positions != [] {
      var p, rest := positions[0], positions[1..];
      var kept, t' := t[..p - 1 - off], t[p - off..];
      DeleteFirst(prefix, t, nd, off, positions);
      DeleteAllFrom(prefix + kept, t', nd + 1, p, rest);
      JoinDeleted(DeleteAll(prefix + t, nd, positions), DeleteAll(prefix + kept + t', nd + 1, rest),
                  prefix, kept, Without(t', rest, p), prefix + Without(t, positions, off));
    }
  }

  /**
   * The first deletion of a run over `prefix + t` removes original position
   * p = positions[0] from t: the symbols of t before it join the prefix and
   * the rest of the run works on what follows it.
   */
  lemma DeleteFirst(prefix: seq<char>, t: seq<char>, nd: nat, off: nat, positions: seq<int>)
    requires |prefix| + nd == off && positions != []
    requires Increasing(positions)
    requires forall k :: 0 <= k < |positions| ==> off < positions[k] <= off + |t|
    requires DeletesInRange(|prefix + t|, nd, positions)
    ensures var p := positions[0]; var rest := positions[1..];
      var kept, t' := t[..p - 1 - off], t[p - off..];
      |prefix + kept| + nd + 1 == p &&
      Increasing(rest) && (forall k :: 0 <= k < |rest| ==> p < rest[k] <= p + |t'|) &&
      DeletesInRange(|prefix + kept + t'|, nd + 1, rest) &&
      DeleteAll(prefix + t, nd, positions) == DeleteAll(prefix + kept + t', nd + 1, rest) &&
      Without(t, positions, off) == kept + Without(t', rest, p)
  {
    var p := positions[0];
    DeleteAllStep(prefix + t, nd, positions);
    RemoveAtSplit(prefix, t, p - 1 - off);
    IncreasingTail(positions, off, |t|);
  }

  /** Removing from the second part of a sequence. */
  lemma RemoveAtSplit(prefix: seq<char>, t: seq<char>, i: nat)
    requires i < |t|
    ensures RemoveAt(prefix + t, |prefix| + i) == (prefix + t[..i]) + t[i + 1..]
  {
  }

  /** After the first of increasing positions, the rest lie beyond it. */
  lemma IncreasingTail(positions: seq<int>, off: nat, n: nat)
    requires positions != [] && Increasing(positions)
    requires forall k :: 0 <= k < |positions| ==> off < positions[k] <= off + n
    ensures Increasing(positions[1..])
    ensures forall k :: 0 <= k < |positions| - 1 ==> positions[0] < positions[1..][k] <= positions[0] + (n - (positions[0] - off))
  {
    assert forall k :: 0 <= k < |positions| - 1 ==> positions[1..][k] == positions[k + 1];
  }

  /**
   * The text kept before and after the first deletion, joined.
   * A lemma over plain sequence values, so that the caller hands the solver this
   * regrouping directly instead of leaving it to search among long concatenations.
   */
  lemma JoinDeleted(whole: seq<char>, afterFirst: seq<char>, prefix: seq<char>, kept: seq<char>, rest: seq<char>,
                    expected: seq<char>)
    requires whole == afterFirst && afterFirst == (prefix + kept) + rest && expected == prefix + (kept + rest)
    ensures whole == expected
  {
  }

  /**
   * With strictly increasing positions, the 1 + numsDeleted offset makes each
   * delete command remove the symbol at its position in the ORIGINAL numbering,
   * and the result is shorter by the number of commands.
   */
  lemma IncreasingDeletesUseOriginalPositions(s: seq<char>, positions: seq<int>)
    requires Increasing(positions) && DeletesInRange(|s|, 0, positions)
    ensures DeleteAll(s, 0, positions) == Without(s, positions, 0)
    ensures |DeleteAll(s, 0, positions)| == |s| - |positions|
  {
    assert [] + s == s;
    DeleteAllFrom([], s, 0, 0, positions);
  }
}
