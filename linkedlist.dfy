// The singly linked list of protein.c (protein.c:18-159): nodes holding one
// symbol each, the global deletion counter `numsDeleted`, and the three list
// operations replaceNode, deleteNode and printList. The insertion main performs
// while reading its input (protein.c:185-190) is InsertAfter.
//
// A ProteinList owns the chain from `head`; the ghost `nodes` lists the chain
// in order and `Contents` the symbols it holds. The file-level static
// `numsDeleted` is a field of the list, the only list the program builds.

module LinkedList {
  import opened CText
  import opened Rendering
  import Edits

  /** `struct ListNode`, as createNode makes it: its symbol and no successor. */
  class ListNode {
    var data: char
    var next: ListNode?

    constructor (data: char)
      ensures this.data == data && next == null
    {
      this.data := data;
      next := null;
    }
  }

  class ProteinList {
    var head: ListNode
    /** Deletions done so far; deleteNode counts positions from 1 + numsDeleted. */
    var numsDeleted: nat

    ghost var nodes: seq<ListNode>
    ghost var Contents: seq<char>
    ghost var Repr: set<object>

    /**
     * The chain from `head` visits `nodes` in order, each once, and ends in
     * null; node i holds Contents[i]. The list is never empty.
     */
    ghost predicate Valid()
      reads this, Repr
    {
      this in Repr &&
      |nodes| == |Contents| >= 1 && nodes[0] == head &&
      (forall i :: 0 <= i < |nodes| ==> nodes[i] in Repr && nodes[i].data == Contents[i]) &&
      (forall i :: 0 <= i < |nodes| - 1 ==> nodes[i].next == nodes[i + 1]) &&
      nodes[|nodes| - 1].next == null &&
      (forall i, j :: 0 <= i < j < |nodes| ==> nodes[i] != nodes[j])
    }

    /** `head = createNode(c)`: a one-symbol list, no deletions yet. */
    constructor (c: char)
      ensures Valid() && fresh(Repr)
      ensures Contents == [c] && numsDeleted == 0
    {
      var node := new ListNode(c);
      head := node;
      numsDeleted := 0;
      nodes := [node];
      Contents := [c];
      Repr := {this, node};
    }

    /**
     * `newNode = createNode(c); newNode->next = current->next;
     * current->next = newNode;` with `current` the k-th node: c is inserted
     * right after position k.
     */
    method InsertAfter(current: ListNode, ghost k: nat, c: char) returns (newNode: ListNode)
      requires Valid() && k < |nodes| && nodes[k] == current
      modifies this, current
      ensures Valid() && fresh(newNode)
      ensures Contents == old(Contents)[..k + 1] + [c] + old(Contents)[k + 1..]
      ensures nodes == old(nodes)[..k + 1] + [newNode] + old(nodes)[k + 1..]
      ensures Repr == old(Repr) + {newNode}
      ensures head == old(head) && numsDeleted == old(numsDeleted)
    {
      ghost var ns, cs := nodes, Contents;
      newNode := new ListNode(c);
      newNode.next := current.next;
      current.next := newNode;
      nodes := ns[..k + 1] + [newNode] + ns[k + 1..];
      Contents := cs[..k + 1] + [c] + cs[k + 1..];
      Repr := Repr + {newNode};
      InsertedAt(ns, newNode, k, nodes);
      InsertedAt(cs, c, k, Contents);
      forall i | 0 <= i < |nodes| - 1
        ensures nodes[i].next == nodes[i + 1]
      {
        if i < k {
          assert nodes[i] == ns[i] != current;
        } else if i > k + 1 {
          assert nodes[i] == ns[i - 1] != current;
        }
      }
      forall i | 0 <= i < |nodes|
        ensures nodes[i] in Repr && nodes[i].data == Contents[i]
      {
        if i <= k {
          assert nodes[i] == ns[i] && Contents[i] == cs[i];
        } else if i > k + 1 {
          assert nodes[i] == ns[i - 1] && Contents[i] == cs[i - 1];
        }
      }
      forall i, j | 0 <= i < j < |nodes|
        ensures nodes[i] != nodes[j]
      {
        var i', j' := if i <= k then i else i - 1, if j <= k then j else j - 1;
        if i != k + 1 && j != k + 1 {
          assert nodes[i] == ns[i'] && nodes[j] == ns[j'] && i' < j';
        }
      }
      assert nodes[|nodes| - 1].next == null by {
        if k + 1 < |ns| {
          assert nodes[|nodes| - 1] == ns[|ns| - 1] != current;
        }
      }
    }

    /**
     * replaceNode: walk from the head with a counter starting at 1 until it
     * equals `position`, then overwrite that node's symbol.
     */
    method ReplaceNode(position: int, c: char)
      requires Valid() && 1 <= position <= |Contents|
      modifies Repr
      ensures Valid()
      ensures Contents == old(Contents)[position - 1 := c]
      ensures |Contents| == |old(Contents)|
      ensures nodes == old(nodes) && Repr == old(Repr)
      ensures head == old(head) && numsDeleted == old(numsDeleted)
    {
      var current := head;
      var i := 1;
      while i != position
        invariant 1 <= i <= position
        invariant current == nodes[i - 1]
        decreases position - i
      {
        current := current.next;
        i := i + 1;
      }
      current.data := c;
      Contents := Contents[position - 1 := c];
    }

    /**
     * deleteNode: the counter starts at 1 + numsDeleted, so the node removed is
     * the one at 0-based index `position - 1 - numsDeleted`. The walk must take
     * at least one step, otherwise `prevPosition` is still NULL; that is why
     * the head cannot be deleted and position must exceed 1 + numsDeleted.
     */
    method DeleteNode(position: int)
      requires Valid() && 1 + numsDeleted < position <= |Contents| + numsDeleted
      modifies Repr
      ensures Valid()
      ensures var k := position - 1 - old(numsDeleted);
        Contents == old(Contents)[..k] + old(Contents)[k + 1..] &&
        nodes == old(nodes)[..k] + old(nodes)[k + 1..] &&
        Repr == old(Repr) - {old(nodes)[k]}
      ensures numsDeleted == old(numsDeleted) + 1 && head == old(head)
    {
      ghost var nd := numsDeleted;
      var prevPosition, current := FindDeleted(position);
      ghost var k := position - 1 - nd;
      ghost var ns, cs := nodes, Contents;
      prevPosition.next := current.next;
      numsDeleted := numsDeleted + 1;
      nodes := Edits.RemoveAt(ns, k);
      Contents := Edits.RemoveAt(cs, k);
      Repr := Repr - {current};
      forall i | 0 <= i < |nodes| - 1
        ensures nodes[i].next == nodes[i + 1]
      {
        if i < k - 1 {
          assert nodes[i] == ns[i] != prevPosition;
        } else if i >= k {
          assert nodes[i] == ns[i + 1] != prevPosition;
        }
      }
      forall i | 0 <= i < |nodes|
        ensures nodes[i] in Repr && nodes[i].data == Contents[i]
      {
        if i < k {
          assert nodes[i] == ns[i] != current && Contents[i] == cs[i];
        } else {
          assert nodes[i] == ns[i + 1] != current && Contents[i] == cs[i + 1];
        }
      }
      forall i, j | 0 <= i < j < |nodes|
        ensures nodes[i] != nodes[j]
      {
        var i', j' := if i < k then i else i + 1, if j < k then j else j + 1;
        assert nodes[i] == ns[i'] && nodes[j] == ns[j'] && i' < j';
      }
      assert nodes[|nodes| - 1].next == null by {
        if k < |ns| - 1 {
          assert nodes[|nodes| - 1] == ns[|ns| - 1] != prevPosition;
        }
      }
    }

    /**
     * The walk of deleteNode: from 1 + numsDeleted up to `position`, keeping
     * the node before the current one.
     */
    method FindDeleted(position: int) returns (prevPosition: ListNode?, current: ListNode?)
      requires Valid() && 1 + numsDeleted < position <= |Contents| + numsDeleted
      ensures prevPosition == nodes[position - 2 - numsDeleted]
      ensures current == nodes[position - 1 - numsDeleted]
    {
      var i := 1 + numsDeleted;
      prevPosition := null;
      current := head;
      while i < position
        invariant 1 + numsDeleted <= i <= position
        invariant current == nodes[i - 1 - numsDeleted]
        invariant i == 1 + numsDeleted ==> prevPosition == null
        invariant i > 1 + numsDeleted ==> prevPosition == nodes[i - 2 - numsDeleted]
        decreases position - i
      {
        prevPosition := current;
        current := current.next;
        i := i + 1;
      }
    }

    /**
     * printList: before symbols 0, 50, 100, ... the label line from the
     * `currentGroup` array, which then moves on by 50; each symbol; a space
     * or newline after it as Separator says; a final newline.
     */
    method PrintList(listSize: int) returns (out: string)
      requires Valid()
      ensures out == Printed(Contents, listSize, numsDeleted)
    {
      var currentGroup := [10, 20, 30, 40, 50];
      ghost var row: nat := 0;
      ghost var s, limit := Contents, listSize - numsDeleted + 1;
      var current: ListNode? := head;
      var protein := 0;
      out := "";
      while current != null
        invariant 0 <= protein <= |nodes|
        invariant current == (if protein < |nodes| then nodes[protein] else null)
        invariant protein <= 50 * row < protein + 50
        invariant |currentGroup| == 5 && forall i :: 0 <= i < 5 ==> currentGroup[i] == LabelValue(row, i + 1)
        invariant out == Span(s, 0, protein, listSize, limit)
        decreases |nodes| - protein
      {
        ghost var before, header := out, "";
        RowOfCount(protein, row);
        if protein % 50 == 0 {
          var labels := PrintLabels(currentGroup, row, listSize);
          out := out + labels;
          header := labels;
          currentGroup := AdvanceLabels(currentGroup, row);
          row := row + 1;
        }
        assert out == before + header;
        assert current.data == s[protein];
        out := out + [current.data];
        current := current.next;
        protein := protein + 1;
        ghost var afterSymbol := out;
        if protein % 10 == 0 && protein % 50 != 0 && protein < listSize - numsDeleted + 1 {
          out := out + " ";
        } else if protein % 50 == 0 {
          out := out + "\n";
        }
        PieceAppend(before, header, afterSymbol, s, protein - 1, listSize, limit, out);
      }
      assert protein == |s|;
      PrintedOf(out, s, listSize, numsDeleted);
      out := out + "\n";
    }
  }

  /**
   * Once every symbol has had its pass, the final newline completes the printout.
   * A lemma over plain string values, so that the caller hands the solver this
   * regrouping directly instead of leaving it to search among long concatenations.
   */
  lemma PrintedOf(out: string, s: seq<char>, listSize: int, numsDeleted: int)
    requires out == Span(s, 0, |s|, listSize, listSize - numsDeleted + 1)
    ensures out + "\n" == Printed(s, listSize, numsDeleted)
  {
  }

  /** Index by index, the sequence with x inserted after position k. */
  lemma InsertedAt<T>(s: seq<T>, x: T, k: nat, r: seq<T>)
    requires k < |s| && r == s[..k + 1] + [x] + s[k + 1..]
    ensures |r| == |s| + 1 && r[k + 1] == x
    ensures forall i :: 0 <= i <= k ==> r[i] == s[i]
    ensures forall i :: k + 1 < i < |r| ==> r[i] == s[i - 1]
  {
  }

  /** The label line of printList (protein.c:66-82), printed from the `currentGroup` array. */
  method PrintLabels(currentGroup: seq<int>, ghost row: nat, listSize: int) returns (line: string)
    requires |currentGroup| == 5
    requires forall i :: 0 <= i < 5 ==> currentGroup[i] == LabelValue(row, i + 1)
    ensures line == Header(row, listSize)
  {
    line := "";
    var i := 0;
    while i < 5
      invariant 0 <= i <= 5
      invariant line == HeaderFields(row, i, listSize)
    {
      if currentGroup[i] > listSize {
        line := line + PadLeft([' '], 10);
      } else {
        line := line + PadLeft(Decimal(currentGroup[i]), 10);
      }
      if i != 4 {
        line := line + " ";
      }
      i := i + 1;
    }
    line := line + "\n";
  }

  /** `currentGroup[i] = currentGroup[i] + 50` for every label (protein.c:85-86): on to the next row. */
  method AdvanceLabels(labels: seq<int>, ghost row: nat) returns (currentGroup: seq<int>)
    requires |labels| == 5
    requires forall i :: 0 <= i < 5 ==> labels[i] == LabelValue(row, i + 1)
    ensures |currentGroup| == 5
    ensures forall i :: 0 <= i < 5 ==> currentGroup[i] == LabelValue(row + 1, i + 1)
  {
    currentGroup := labels;
    var i := 0;
    while i < 5
      invariant 0 <= i <= 5 && |currentGroup| == 5
      invariant forall j :: 0 <= j < i ==> currentGroup[j] == LabelValue(row + 1, j + 1)
      invariant forall j :: i <= j < 5 ==> currentGroup[j] == LabelValue(row, j + 1)
    {
      currentGroup := currentGroup[i := currentGroup[i] + 50];
      i := i + 1;
    }
  }

  /** `protein` symbols have been printed under `row` label lines. */
  lemma RowOfCount(protein: nat, row: nat)
    requires protein <= 50 * row < protein + 50
    ensures protein % 50 == 0 <==> protein == 50 * row
    ensures protein % 50 == 0 ==> row == protein / 50
  {
    if protein == 50 * row {
      DivMod50(row, 0);
    } else {
      DivMod50(row - 1, protein - 50 * (row - 1));
    }
  }

  /** One pass of printList's loop appends the Piece for symbol p. */
  lemma PieceAppend(before: string, header: string, afterSymbol: string, s: seq<char>, p: nat, listSize: int, limit: int, out: string)
    requires p < |s|
    requires header == (if p % 50 == 0 then Header(p / 50, listSize) else "")
    requires afterSymbol == before + header + [s[p]]
    requires out == afterSymbol + Separator(p + 1, limit)
    ensures before == Span(s, 0, p, listSize, limit) ==> out == Span(s, 0, p + 1, listSize, limit)
  {
    assert out == before + Piece(s, p, listSize, limit);
  }
}
