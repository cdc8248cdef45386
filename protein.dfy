// The program as main runs it (protein.c:165-283): build the list from the
// input, split the command arguments, run every replace command, then every
// delete command, then print the title line and the table.

module Protein {
  import opened CText
  import opened Commands
  import opened Edits
  import opened Rendering
  import opened LinkedList

  // ---------------------------------------------------------------------------
  // Building the list

  /** The input without its newline characters, in input order. */
  function DropNewlines(s: seq<char>): seq<char>
    decreases |s|
  {
    if s == [] then []
    else DropNewlines(s[..|s| - 1]) + (if s[|s| - 1] == '\n' then [] else [s[|s| - 1]])
  }

  /** Dropping newlines works piece by piece, so the kept characters stay in input order. */
  lemma {:induction false} DropNewlinesAppend(a: seq<char>, b: seq<char>)
    ensures DropNewlines(a + b) == DropNewlines(a) + DropNewlines(b)
    decreases |b|
  {
    if b == [] {
      assert a + b == a;
    } else {
      var init := b[..|b| - 1];
      DropNewlinesAppend(a, init);
      assert (a + b)[..|a + b| - 1] == a + init;
    }
  }

  /** No newline is left. */
  lemma {:induction false} DropNewlinesHasNone(s: seq<char>)
    ensures '\n' !in DropNewlines(s)
    decreases |s|
  {
    if s != [] {
      DropNewlinesHasNone(s[..|s| - 1]);
    }
  }

  /** Every character other than a newline is kept, as often as it occurs. */
  lemma {:induction false} DropNewlinesKeeps(s: seq<char>)
    ensures forall c :: c != '\n' ==> multiset(DropNewlines(s))[c] == multiset(s)[c]
    decreases |s|
  {
    if s != [] {
      var init, last := s[..|s| - 1], s[|s| - 1];
      DropNewlinesKeeps(init);
      assert s == init + [last];
      var kept := if last == '\n' then [] else [last];
      assert multiset(DropNewlines(s)) == multiset(DropNewlines(init)) + multiset(kept);
      assert multiset(s) == multiset(init) + multiset{last};
    }
  }

  /** The symbols of the list main builds: the first input byte, then every later byte but '\n'. */
  function Built(input: seq<char>): (r: seq<char>)
    requires |input| >= 1
    ensures |r| >= 1 && r[0] == input[0]
  {
    [input[0]] + DropNewlines(input[1..])
  }

  /**
   * The input loop of main: the first byte becomes the head, each later byte
   * other than '\n' is inserted after the last node, and listSize counts the
   * insertions.
   */
  method BuildList(input: seq<char>) returns (list: ProteinList, listSize: int)
    requires |input| >= 1
    ensures fresh(list.Repr) && list.Valid()
    ensures list.Contents == Built(input) && list.numsDeleted == 0
    ensures listSize == |list.Contents| - 1
  {
    list := new ProteinList(input[0]);
    var currentNode := list.head;
    listSize := 0;
    var i := 1;
    while i < |input|
      invariant 1 <= i <= |input|
      invariant fresh(list.Repr) && list.Valid()
      invariant list.Contents == [input[0]] + DropNewlines(input[1..][..i - 1])
      invariant currentNode == list.nodes[|list.nodes| - 1]
      invariant listSize == |list.Contents| - 1 && list.numsDeleted == 0
    {
      var c := input[i];
      ghost var before := list.Contents;
      BuiltStep(input, i, before);
      if c != '\n' {
        ghost var last := |list.nodes| - 1;
        var newNode := list.InsertAfter(currentNode, last, c);
        AppendedLast(before, last, c, list.Contents);
        currentNode := newNode;
        listSize := listSize + 1;
      }
      i := i + 1;
    }
    assert input[1..][..i - 1] == input[1..];
  }

  /** One more input byte: the symbols read so far gain it unless it is a newline. */
  lemma BuiltStep(input: seq<char>, i: nat, before: seq<char>)
    requires 1 <= i < |input| && before == [input[0]] + DropNewlines(input[1..][..i - 1])
    ensures [input[0]] + DropNewlines(input[1..][..i]) == before + (if input[i] == '\n' then [] else [input[i]])
  {
    DropNewlinesStep(input[1..], i - 1);
  }

  /** Inserting after the last element appends. */
  lemma AppendedLast(s: seq<char>, k: nat, c: char, r: seq<char>)
    requires k + 1 == |s| && r == s[..k + 1] + [c] + s[k + 1..]
    ensures r == s + [c]
  {
    assert s[..|s|] == s && s[|s|..] == [];
  }

  lemma DropNewlinesStep(t: seq<char>, j: nat)
    requires j < |t|
    ensures DropNewlines(t[..j + 1]) == DropNewlines(t[..j]) + (if t[j] == '\n' then [] else [t[j]])
  {
    assert t[..j + 1][..j] == t[..j];
  }

  /** listSize counts the symbols after the first, i.e. the non-newline bytes after the first byte. */
  lemma BuiltCounts(input: seq<char>)
    requires |input| >= 1
    ensures |Built(input)| - 1 == |input| - 1 - multiset(input[1..])['\n']
    ensures forall c :: c != '\n' ==> multiset(Built(input)[1..])[c] == multiset(input[1..])[c]
  {
    var t := input[1..];
    DropNewlinesKeeps(t);
    assert Built(input)[1..] == DropNewlines(t);
    NewlineCount(t);
  }

  /** The symbols left after dropping newlines are the rest. */
  lemma {:induction false} NewlineCount(s: seq<char>)
    ensures |DropNewlines(s)| == |s| - multiset(s)['\n']
    decreases |s|
  {
    if s != [] {
      NewlineCount(s[..|s| - 1]);
      assert s == s[..|s| - 1] + [s[|s| - 1]];
    }
  }

  // ---------------------------------------------------------------------------
  // Running the commands

  /**
   * The replace loop: for each replace command in argument order, shift and
   * parse it and call replaceNode.
   */
  method RunReplaceCommands(list: ProteinList, replaceCmds: seq<string>)
    requires list.Valid()
    requires forall i :: 0 <= i < |replaceCmds| ==> '\0' !in replaceCmds[i]
    requires ReplacesInRange(|list.Contents|, ReplaceEdits(replaceCmds))
    modifies list.Repr
    ensures list.Valid() && list.Repr == old(list.Repr)
    ensures list.Contents == ApplyReplaces(old(list.Contents), ReplaceEdits(replaceCmds))
    ensures list.numsDeleted == old(list.numsDeleted)
  {
    ghost var start := list.Contents;
    ghost var edits := ReplaceEdits(replaceCmds);
    var i := 0;
    while i < |replaceCmds|
      invariant 0 <= i <= |replaceCmds|
      invariant list.Valid() && list.Repr == old(list.Repr)
      invariant ReplacesInRange(|start|, edits[..i])
      invariant list.Contents == ApplyReplaces(start, edits[..i])
      invariant list.numsDeleted == old(list.numsDeleted)
    {
      RunReplaceCommand(list, replaceCmds, i, start);
      i := i + 1;
    }
    assert edits[..i] == edits;
  }

  /**
   * One pass of the replace loop, on the i-th replace command: shift, parse,
   * replaceNode. The list goes from the first i edits applied to the first
   * i + 1.
   */
  method RunReplaceCommand(list: ProteinList, cmds: seq<string>, i: nat, ghost start: seq<char>)
    requires list.Valid() && i < |cmds| && '\0' !in cmds[i]
    requires ReplacesInRange(|start|, ReplaceEdits(cmds))
    requires ReplacesInRange(|start|, ReplaceEdits(cmds)[..i])
    requires list.Contents == ApplyReplaces(start, ReplaceEdits(cmds)[..i])
    modifies list.Repr
    ensures list.Valid() && list.Repr == old(list.Repr)
    ensures ReplacesInRange(|start|, ReplaceEdits(cmds)[..i + 1])
    ensures list.Contents == ApplyReplaces(start, ReplaceEdits(cmds)[..i + 1])
    ensures list.numsDeleted == old(list.numsDeleted)
  {
    ghost var edits := ReplaceEdits(cmds);
    ApplyReplacesStep(start, edits, i);
    MapAt(ParseReplace, cmds, i);
    var position, symbol := ReadReplaceCommand(cmds[i]);
    list.ReplaceNode(position, symbol);
  }

  /**
   * The delete loop: for each delete command in argument order, shift and
   * parse it and call deleteNode, which counts from 1 + numsDeleted.
   */
  method RunDeleteCommands(list: ProteinList, deleteCmds: seq<string>)
    requires list.Valid()
    requires forall i :: 0 <= i < |deleteCmds| ==> '\0' !in deleteCmds[i]
    requires DeletesInRange(|list.Contents|, list.numsDeleted, DeletePositions(deleteCmds))
    modifies list.Repr
    ensures list.Valid() && list.Repr <= old(list.Repr)
    ensures list.Contents == DeleteAll(old(list.Contents), old(list.numsDeleted), DeletePositions(deleteCmds))
    ensures list.numsDeleted == old(list.numsDeleted) + |deleteCmds|
  {
    ghost var positions := DeletePositions(deleteCmds);
    ghost var target := DeleteAll(list.Contents, list.numsDeleted, positions);
    assert positions[0..] == positions;
    var i := 0;
    while i < |deleteCmds|
      invariant 0 <= i <= |deleteCmds|
      invariant list.Valid() && list.Repr <= old(list.Repr)
      invariant list.numsDeleted == old(list.numsDeleted) + i
      invariant DeletesInRange(|list.Contents|, list.numsDeleted, positions[i..])
      invariant DeleteAll(list.Contents, list.numsDeleted, positions[i..]) == target
    {
      assert positions[i..][1..] == positions[i + 1..];
      MapAt(DeletePosition, deleteCmds, i);
      RunDeleteCommand(list, deleteCmds[i], positions[i..], target);
      i := i + 1;
    }
    assert positions[i..] == [];
  }

  /**
   * One pass of the delete loop: shift, parse, deleteNode. `rest` are the
   * positions of this and the later delete commands; the deletions still to
   * come end in `target`.
   */
  method RunDeleteCommand(list: ProteinList, cmd: string, ghost rest: seq<int>, ghost target: seq<char>)
    requires list.Valid() && '\0' !in cmd
    requires rest != [] && rest[0] == DeletePosition(cmd)
    requires DeletesInRange(|list.Contents|, list.numsDeleted, rest)
    requires DeleteAll(list.Contents, list.numsDeleted, rest) == target
    modifies list.Repr
    ensures list.Valid() && list.Repr <= old(list.Repr)
    ensures list.numsDeleted == old(list.numsDeleted) + 1
    ensures DeletesInRange(|list.Contents|, list.numsDeleted, rest[1..])
    ensures DeleteAll(list.Contents, list.numsDeleted, rest[1..]) == target
  {
    var position := ReadDeleteCommand(cmd);
    ghost var cur, nd := list.Contents, list.numsDeleted;
    DeleteAllStep(cur, nd, rest);
    list.DeleteNode(position);
    DeleteStepDone(cur, nd, rest, target, list.Contents, list.numsDeleted);
  }

  lemma DeleteStepDone(cur: seq<char>, nd: nat, rest: seq<int>, target: seq<char>, next: seq<char>, nd': nat)
    requires rest != [] && DeletesInRange(|cur|, nd, rest) && DeleteAll(cur, nd, rest) == target
    requires 0 <= rest[0] - 1 - nd < |cur|
    requires next == cur[..rest[0] - 1 - nd] + cur[rest[0] - nd..] && nd' == nd + 1
    ensures DeletesInRange(|next|, nd', rest[1..]) && DeleteAll(next, nd', rest[1..]) == target
  {
    DeleteAllStep(cur, nd, rest);
  }

  // ---------------------------------------------------------------------------
  // The whole run

  function ReplaceCommandsOf(argv: seq<string>): seq<Command>
  {
    ReplaceEdits(ReplaceArgs(CommandArgs(argv)))
  }

  function DeleteCommandsOf(argv: seq<string>): seq<int>
  {
    DeletePositions(DeleteArgs(CommandArgs(argv)))
  }

  /**
   * Every command finds its node: each replace position lies in the built
   * list, and the k-th delete position lies in (k + 1, |Built|].
   */
  predicate CommandsInRange(input: seq<char>, argv: seq<string>)
    requires |input| >= 1
  {
    ReplacesInRange(|Built(input)|, ReplaceCommandsOf(argv)) &&
    DeletesInRange(|Built(input)|, 0, DeleteCommandsOf(argv))
  }

  /** The symbols after all replacements and then all deletions. */
  function Edited(input: seq<char>, argv: seq<string>): (r: seq<char>)
    requires |input| >= 1 && CommandsInRange(input, argv)
    ensures |r| == |Built(input)| - |DeleteArgs(CommandArgs(argv))|
  {
    DeleteAll(ApplyReplaces(Built(input), ReplaceCommandsOf(argv)), 0, DeleteCommandsOf(argv))
  }

  /** What main prints: the title with argv[1], then the table of the edited symbols. */
  function Output(input: seq<char>, argv: seq<string>): string
    requires |input| >= 1 && |argv| >= 2 && CommandsInRange(input, argv)
  {
    "Spike protein sequence for " + argv[1] + ":\n" + Layout(Edited(input, argv), |Built(input)| - 1)
  }

  /** main from reading the input to printing the table. */
  method Run(input: seq<char>, argv: seq<string>) returns (out: string)
    requires |input| >= 1 && |argv| >= 2
    requires forall i :: 0 <= i < |argv| ==> '\0' !in argv[i]
    requires CommandsInRange(input, argv)
    ensures out == Output(input, argv)
  {
    var list, listSize := BuildList(input);
    var deleteCmds, replaceCmds := SplitCommands(argv);
    CommandsHaveNoNul(argv);
    ghost var built := list.Contents;
    RunReplaceCommands(list, replaceCmds);
    ghost var replaced := list.Contents;
    assert |replaced| == |built|;
    RunDeleteCommands(list, deleteCmds);
    ghost var edited := list.Contents;
    assert edited == Edited(input, argv);
    assert listSize - list.numsDeleted + 1 == |edited|;
    var table := list.PrintList(listSize);
    PrintedIsLayout(edited, listSize, list.numsDeleted);
    assert table == Layout(Edited(input, argv), |Built(input)| - 1);
    out := "Spike protein sequence for " + argv[1] + ":\n" + table;
  }

  /** Commands are taken from argv, so they carry no NUL either. */
  lemma CommandsHaveNoNul(argv: seq<string>)
    requires forall i :: 0 <= i < |argv| ==> '\0' !in argv[i]
    ensures forall i :: 0 <= i < |ReplaceArgs(CommandArgs(argv))| ==> '\0' !in ReplaceArgs(CommandArgs(argv))[i]
    ensures forall i :: 0 <= i < |DeleteArgs(CommandArgs(argv))| ==> '\0' !in DeleteArgs(CommandArgs(argv))[i]
  {
    var args := CommandArgs(argv);
    SplitByFirstChar(args);
    assert forall a :: a in args ==> a in argv;
    var rs, ds := ReplaceArgs(args), DeleteArgs(args);
    assert forall i :: 0 <= i < |rs| ==> rs[i] in rs;
    assert forall i :: 0 <= i < |ds| ==> ds[i] in ds;
  }
}
