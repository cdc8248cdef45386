// The command line of protein.c: arguments from index 2 on are split into
// delete commands (`d<digits>`) and replace commands (`<old><digits><new>`),
// each buffer loses its first character by an in-place left shift, and
// `strtol` reads the position (protein.c:204-227, 233-278).

module Commands {
  import opened CText

  /** An edit as main hands it to replaceNode or deleteNode. */
  datatype Command = Replace(position: int, symbol: char) | Delete(position: int)

  // ---------------------------------------------------------------------------
  // Splitting argv

  /** `arg[0]` of a C string: the terminator when the string is empty. */
  function FirstChar(arg: string): char
  {
    if arg == [] then '\0' else arg[0]
  }

  predicate IsDeleteArg(arg: string) { FirstChar(arg) == 'd' }

  /** The arguments main reads as commands: argv[2], argv[3], ... */
  function CommandArgs(argv: seq<string>): seq<string>
  {
    if |argv| <= 2 then [] else argv[2..]
  }

  /** The delete commands among `args`, in argument order. */
  function DeleteArgs(args: seq<string>): seq<string>
    decreases |args|
  {
    if args == [] then []
    else DeleteArgs(args[..|args| - 1]) + (if IsDeleteArg(args[|args| - 1]) then [args[|args| - 1]] else [])
  }

  /** The replace commands among `args`, in argument order. */
  function ReplaceArgs(args: seq<string>): seq<string>
    decreases |args|
  {
    if args == [] then []
    else ReplaceArgs(args[..|args| - 1]) + (if IsDeleteArg(args[|args| - 1]) then [] else [args[|args| - 1]])
  }

  /** The command loop of main: every argument from index 2 on goes to exactly one list. */
  method SplitCommands(argv: seq<string>) returns (deleteCmds: seq<string>, replaceCmds: seq<string>)
    ensures deleteCmds == DeleteArgs(CommandArgs(argv))
    ensures replaceCmds == ReplaceArgs(CommandArgs(argv))
  {
    deleteCmds, replaceCmds := [], [];
    var i := 2;
    while i < |argv|
      invariant i == 2 || 2 < i <= |argv|
      invariant i <= |argv| ==> deleteCmds == DeleteArgs(argv[2..i]) && replaceCmds == ReplaceArgs(argv[2..i])
      invariant i > |argv| ==> deleteCmds == [] && replaceCmds == []
    {
      assert argv[2..i + 1][..i - 2] == argv[2..i];
      var initialChar := FirstChar(argv[i]);
      if initialChar == 'd' {
        deleteCmds := deleteCmds + [argv[i]];
      } else {
        replaceCmds := replaceCmds + [argv[i]];
      }
      i := i + 1;
    }
    if |argv| > 2 {
      assert argv[2..i] == argv[2..];
    }
  }

  /** No argument is lost or duplicated: together the two lists are a permutation of the arguments. */
  lemma {:induction false} SplitIsPartition(args: seq<string>)
    ensures multiset(DeleteArgs(args)) + multiset(ReplaceArgs(args)) == multiset(args)
    decreases |args|
  {
    if args != [] {
      var init, last := args[..|args| - 1], args[|args| - 1];
      SplitIsPartition(init);
      assert args == init + [last];
    }
  }

  /** Each argument lands in the delete list iff it starts with 'd', otherwise in the replace list. */
  lemma {:induction false} SplitByFirstChar(args: seq<string>)
    ensures forall a :: a in DeleteArgs(args) <==> a in args && IsDeleteArg(a)
    ensures forall a :: a in ReplaceArgs(args) <==> a in args && !IsDeleteArg(a)
    decreases |args|
  {
    if args != [] {
      var init, last := args[..|args| - 1], args[|args| - 1];
      SplitByFirstChar(init);
      assert args == init + [last];
    }
  }

  /** Splitting keeps argument order: the delete list of a concatenation is the concatenated lists. */
  lemma {:induction false} DeleteArgsAppend(a: seq<string>, b: seq<string>)
    ensures DeleteArgs(a + b) == DeleteArgs(a) + DeleteArgs(b)
    decreases |b|
  {
    if b == [] {
      assert a + b == a;
    } else {
      var init, last := b[..|b| - 1], b[|b| - 1];
      DeleteArgsAppend(a, init);
      var tail := if IsDeleteArg(last) then [last] else [];
      assert (a + b)[..|a + b| - 1] == a + init && (a + b)[|a + b| - 1] == last;
      assert DeleteArgs(a + b) == (DeleteArgs(a) + DeleteArgs(init)) + tail;
      assert DeleteArgs(b) == DeleteArgs(init) + tail;
    }
  }

  /** The same for the replace list. */
  lemma {:induction false} ReplaceArgsAppend(a: seq<string>, b: seq<string>)
    ensures ReplaceArgs(a + b) == ReplaceArgs(a) + ReplaceArgs(b)
    decreases |b|
  {
    if b == [] {
      assert a + b == a;
    } else {
      var init, last := b[..|b| - 1], b[|b| - 1];
      ReplaceArgsAppend(a, init);
      var tail := if IsDeleteArg(last) then [] else [last];
      assert (a + b)[..|a + b| - 1] == a + init && (a + b)[|a + b| - 1] == last;
      assert ReplaceArgs(a + b) == (ReplaceArgs(a) + ReplaceArgs(init)) + tail;
      assert ReplaceArgs(b) == ReplaceArgs(init) + tail;
    }
  }

  // ---------------------------------------------------------------------------
  // The in-place left shift

  /** The string without its first character: what the shift leaves in the buffer. */
  function DropFirst(s: string): string
  {
    if s == [] then [] else s[1..]
  }

  /** The whole buffer after the shift loop: bytes 1..n move down one place, the rest stay. */
  function ShiftedBuffer(b: seq<char>): (r: seq<char>)
    requires '\0' in b
    ensures |r| == |b|
  {
    b[1..NulIndex(b) + 1] + b[NulIndex(b)..]
  }

  /** The shift drops the first character of the C string; on an empty string it does nothing. */
  lemma ShiftedCString(b: seq<char>)
    requires '\0' in b
    ensures '\0' in ShiftedBuffer(b)
    ensures CString(ShiftedBuffer(b)) == DropFirst(CString(b))
    ensures CString(b) == [] ==> ShiftedBuffer(b) == b
  {
    var n := NulIndex(b);
    var r := ShiftedBuffer(b);
    if n == 0 {
      assert r == b;
    } else {
      assert r[n - 1] == '\0';
      assert forall i :: 0 <= i < n - 1 ==> r[i] == b[i + 1];
      var m := NulIndex(r);
      assert m == n - 1;
      assert r[..m] == b[1..n];
    }
  }

  /** The loop `while (cmd[j] != 0) { cmd[j] = cmd[j+1]; j++; }`. */
  method ShiftLeft(buf: array<char>)
    requires '\0' in buf[..]
    modifies buf
    ensures buf[..] == ShiftedBuffer(old(buf[..]))
  {
    ghost var b := buf[..];
    ghost var n := NulIndex(b);
    var j := 0;
    while buf[j] != '\0'
      invariant 0 <= j <= n
      invariant forall k :: 0 <= k < j ==> buf[k] == b[k + 1]
      invariant forall k :: j <= k < buf.Length ==> buf[k] == b[k]
      decreases n - j
    {
      buf[j] := buf[j + 1];
      j := j + 1;
    }
    assert buf[..] == ShiftedBuffer(b);
  }

  // ---------------------------------------------------------------------------
  // Reading a command

  /** `strcpy` of an argument into a fresh buffer: its characters, then the terminator. */
  method CopyArgument(arg: string) returns (buf: array<char>)
    requires '\0' !in arg
    ensures fresh(buf) && buf[..] == arg + ['\0']
  {
    buf := new char[|arg| + 1](i requires 0 <= i <= |arg| => if i < |arg| then arg[i] else '\0');
    assert buf[..] == arg + ['\0'];
  }

  /** The shift loop run over a copied argument leaves the argument without its first character. */
  lemma ShiftedArgument(arg: string)
    requires '\0' !in arg
    ensures '\0' in ShiftedBuffer(arg + ['\0'])
    ensures CString(ShiftedBuffer(arg + ['\0'])) == DropFirst(arg)
  {
    CStringOfCopy(arg, []);
    assert arg + ['\0'] + [] == arg + ['\0'];
    ShiftedCString(arg + ['\0']);
  }

  /** Position and new symbol main takes from a replace argument `<old><digits><new>`. */
  function ParseReplace(arg: string): Command
  {
    var t := DropFirst(arg);
    var conv := StrToLong(t);
    Replace(ToCInt(conv.value), if conv.end < |t| then t[conv.end] else '\0')
  }

  /** Position main takes from a delete argument `d<digits>`. */
  function ParseDelete(arg: string): Command
  {
    Delete(ToCInt(StrToLong(DropFirst(arg)).value))
  }

  /** The command text that replaces the symbol `oldSymbol` at `position` by `newSymbol`. */
  function FormatReplace(oldSymbol: char, position: nat, newSymbol: char): string
  {
    [oldSymbol] + Decimal(position) + [newSymbol]
  }

  /** The command text that deletes `position`. */
  function FormatDelete(position: nat): string
  {
    ['d'] + Decimal(position)
  }

  /** `<old><digits><tail>`: the position is the digits' value, the new symbol the character after them. */
  lemma ParseReplaceDigits(oldSymbol: char, ds: string, tail: string)
    requires AllDigits(ds) && ds != [] && DigitsValue(ds) <= INT_MAX
    requires tail == [] || !IsDigit(tail[0])
    ensures ParseReplace([oldSymbol] + (ds + tail)) == Replace(DigitsValue(ds), FirstChar(tail))
  {
    var t := ds + tail;
    assert DropFirst([oldSymbol] + t) == t;
    StrToLongOfDigits(ds, tail);
    var conv := StrToLong(t);
    assert conv.value == DigitsValue(ds) && conv.end == |ds|;
    if tail != [] {
      assert t[conv.end] == tail[0];
    }
  }

  /** `d<digits><tail>`: the position is the digits' value. */
  lemma ParseDeleteDigits(ds: string, tail: string)
    requires AllDigits(ds) && ds != [] && DigitsValue(ds) <= INT_MAX
    requires tail == [] || !IsDigit(tail[0])
    ensures ParseDelete(['d'] + (ds + tail)) == Delete(DigitsValue(ds))
  {
    assert DropFirst(['d'] + (ds + tail)) == ds + tail;
    StrToLongOfDigits(ds, tail);
  }

  /** Reading a formatted replace command gives back its position and new symbol. */
  lemma ReplaceRoundTrip(oldSymbol: char, position: nat, newSymbol: char)
    requires position <= INT_MAX && !IsDigit(newSymbol)
    ensures ParseReplace(FormatReplace(oldSymbol, position, newSymbol)) == Replace(position, newSymbol)
  {
    DecimalRoundTrip(position);
    assert FormatReplace(oldSymbol, position, newSymbol) == [oldSymbol] + (Decimal(position) + [newSymbol]);
    ParseReplaceDigits(oldSymbol, Decimal(position), [newSymbol]);
  }

  /** Reading a formatted delete command gives back its position. */
  lemma DeleteRoundTrip(position: nat)
    requires position <= INT_MAX
    ensures ParseDelete(FormatDelete(position)) == Delete(position)
  {
    DecimalRoundTrip(position);
    assert FormatDelete(position) == ['d'] + (Decimal(position) + []);
    ParseDeleteDigits(Decimal(position), []);
  }

  /**
   * The body of main's replace loop up to the call: `strcpy` into a fresh
   * buffer, the left shift, then `strtol(cmd, &tempother, 10)`; the new symbol
   * is `tempother[0]`.
   */
  method ReadReplaceCommand(arg: string) returns (position: int, symbol: char)
    requires '\0' !in arg
    ensures Replace(position, symbol) == ParseReplace(arg)
  {
    var buf := CopyArgument(arg);
    ShiftedArgument(arg);
    ShiftLeft(buf);
    var t := CString(buf[..]);
    var conv := StrToLong(t);
    position := ToCInt(conv.value);
    CStringAt(buf[..], conv.end);
    symbol := buf[conv.end];
    ReplaceRead(arg, t, conv, symbol);
  }

  lemma ReplaceRead(arg: string, t: string, conv: Conversion, symbol: char)
    requires t == DropFirst(arg) && conv == StrToLong(t)
    requires symbol == if conv.end < |t| then t[conv.end] else '\0'
    ensures Replace(ToCInt(conv.value), symbol) == ParseReplace(arg)
  {
  }

  /** The body of main's delete loop up to the call: copy, left shift, `strtol`. */
  method ReadDeleteCommand(arg: string) returns (position: int)
    requires '\0' !in arg
    ensures Delete(position) == ParseDelete(arg)
  {
    var buf := CopyArgument(arg);
    ShiftedArgument(arg);
    ShiftLeft(buf);
    var conv := StrToLong(CString(buf[..]));
    position := ToCInt(conv.value);
  }

  // ---------------------------------------------------------------------------
  // The two command lists as edits

  /** f applied to each element, in order. */
  function Map<A, B>(f: A -> B, xs: seq<A>): (r: seq<B>)
    ensures |r| == |xs|
  {
    if xs == [] then [] else [f(xs[0])] + Map(f, xs[1..])
  }

  lemma {:induction false} MapAt<A, B>(f: A -> B, xs: seq<A>, i: nat)
    requires i < |xs|
    ensures Map(f, xs)[i] == f(xs[i])
  {
    if i > 0 {
      MapAt(f, xs[1..], i - 1);
      assert xs[1..][i - 1] == xs[i];
    }
  }

  /** The replace commands, parsed, in argument order. */
  function ReplaceEdits(args: seq<string>): seq<Command>
  {
    Map(ParseReplace, args)
  }

  /** The position a delete argument names. */
  function DeletePosition(arg: string): int
  {
    ParseDelete(arg).position
  }

  /** The positions of the delete commands, parsed, in argument order. */
  function DeletePositions(args: seq<string>): seq<int>
  {
    Map(DeletePosition, args)
  }
}
