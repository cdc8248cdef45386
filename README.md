# protein.c in Dafny

A model of `protein.c`, a small command-line editor for protein sequences.

## What it does

The program reads a sequence of one-letter symbols from standard input into a singly linked list, dropping newline bytes. It applies two kinds of command-line edits:

- A replace command `o<digits>n` puts symbol `n` at position `<digits>`.
- A delete command `d<digits>` removes the symbol at a position.

All replace commands run first, in argument order, then all delete commands in argument order. The program then prints a title line and the sequence as a table:

- Rows of 50 symbols, each row in groups of 10.
- Each row sits under a label line of five right-justified, ten-column labels.

## Modules

The model has one module per concern:

| file | module | models |
|---|---|---|
| `ctext.dfy` | `CText` | The C library behaviour the program relies on:<br>• NUL-terminated buffers.<br>• `strtol(s, &end, 10)` with a 64-bit `long`: white space, sign, longest digit run, clamping.<br>• Passing a `long` to an `int` parameter, which wraps modulo 2^32.<br>• The numerals of `printf("%d")`. |
| `commands.dfy` | `Commands` | • The split of `argv[2..]` into delete and replace lists.<br>• The `strcpy` into a fresh buffer.<br>• The in-place left shift over an `array<char>`.<br>• The parse of a command into a `Command` value.<br>• Round trips between formatted commands and their parse. |
| `edits.dfy` | `Edits` | What a run of replaceNode calls and a run of deleteNode calls does to the sequence of symbols. This includes the `1 + numsDeleted` starting counter of deleteNode. |
| `layout.dfy` | `Rendering` | • `Printed`: the text printList writes, symbol by symbol, as its loop does.<br>• `Layout`: an independent row-by-row statement of the table.<br>• The proof that the two agree. |
| `linkedlist.dfy` | `LinkedList` | `ListNode` and the list as a class with the fields `head` and `numsDeleted`, plus a ghost view `nodes` / `Contents`.<br>• The insertion of main's input loop.<br>• replaceNode and deleteNode as heap-updating methods.<br>• printList as a loop over the nodes. |
| `protein.dfy` | `Protein` | main: build the list, split the commands, run the two command loops, print. Ends in `Run`, whose output is tied to a pure `Output` function. |

The two positional rules to keep in mind:

- replaceNode counts from 1.
- deleteNode counts from `1 + numsDeleted`. So its k-th call (0-based) removes index `position - 1 - k` of the current sequence.
  - `Edits.IncreasingDeletesUseOriginalPositions` shows what this means: with strictly increasing positions, every delete command removes the symbol at its position in the numbering before any deletion.

## Behaviour worth knowing


- **Label blanking.** printList blanks a label when it exceeds `listSize`, and main's `listSize` counts the symbols after the first, so it is the node count minus one (protein.c:70, 178-191).
  - For the input `ABCDE` the label `10` is therefore blank, not shown.
  - For 55 symbols the label `60` is blank.
  - Deletions do not change `listSize`, so labels are compared against the count before any deletion.
- **The left shift.** The shift loop copies the terminator down one place as well (protein.c:240-246). The C string that `strtol` then reads is exactly the argument without its first character. No stray trailing character remains in it.
- **Group separators.** Symbols inside a group are printed with no space between them. A single space follows the 10th, 20th, 30th and 40th symbol of a row, but only when another symbol follows (protein.c:96-97).

## Model

| member | source | states |
|---|---|---|
| CText.DecimalRoundTrip | protein.c:73 | reading back the numeral `%d` prints for n gives n |
| CText.DigitsRoundTrip | protein.c:249 | a digit string without a leading zero is the numeral of its value |
| CText.DecimalLength | protein.c:71-73 | a value below 10^k has at most k digits, so a `%10d` field never overflows ten columns for the labels |
| CText.NulIndex | protein.c:240 | the index the shift loop stops at holds the terminator and no earlier byte does |
| CText.CString | protein.c:249 | the string a buffer denotes is its prefix up to, not including, the first NUL |
| CText.CStringAt | protein.c:252 | `tempother[0]` reads the string's character at `end`, or the terminator when `end` is the string's length |
| CText.CStringOfCopy | protein.c:215 | a string copied with its terminator reads back unchanged |
| CText.SpaceRunIsLongest | protein.c:249 | strtol skips exactly the leading white space |
| CText.DigitRunIsLongest | protein.c:249 | strtol reads exactly the longest run of digits after the sign |
| CText.StrToLong | protein.c:249 | strtol's end offset lies within the string and its value is within the range of `long` |
| CText.StrToLongOfDigits | protein.c:273 | strtol on digits followed by a non-digit returns their value (clamped to LONG_MAX) and stops at the non-digit |
| CText.ToCInt | protein.c:252 | a `long` passed as an `int` lands in [INT_MIN, INT_MAX] and is unchanged when it already fits |
| CText.ToCIntCongruent | protein.c:276 | the `long`-to-`int` conversion keeps the value modulo 2^32 |
| Commands.SplitCommands | protein.c:204-227 | the loop over argv[2..] builds exactly the delete list and the replace list of those arguments |
| Commands.SplitIsPartition | protein.c:204-227 | every argument from index 2 on lands in exactly one list: the two lists together are a permutation of the arguments |
| Commands.SplitByFirstChar | protein.c:208-225 | an argument is in the delete list iff it starts with 'd', and in the replace list iff it does not |
| Commands.DeleteArgsAppend | protein.c:211-216 | the delete list keeps argument order: splitting a concatenation concatenates the lists |
| Commands.ReplaceArgsAppend | protein.c:218-224 | the replace list keeps argument order in the same sense |
| Commands.CopyArgument | protein.c:215 | the fresh copy holds the argument's characters and then its terminator |
| Commands.ShiftedCString | protein.c:240-246 | the shift turns the C string s into s without its first character, and leaves an empty string's buffer as it was |
| Commands.ShiftLeft | protein.c:264-270 | the in-place loop leaves the buffer as bytes 1..n moved down one place, terminator included, and the rest untouched |
| Commands.ShiftedArgument | protein.c:240-246 | a copied argument, once shifted, reads as the argument without its first character |
| Commands.ParseReplaceDigits | protein.c:249-252 | for `o<digits><tail>` the position is the digits' value and the new symbol is the character right after them (NUL if none) |
| Commands.ParseDeleteDigits | protein.c:273-276 | for `d<digits><tail>` the position is the digits' value |
| Commands.ReplaceRoundTrip | protein.c:249-252 | parsing the replace command formatted from (old, position, new) gives back position and new symbol |
| Commands.DeleteRoundTrip | protein.c:273-276 | parsing the delete command formatted from a position gives back that position |
| Commands.ReadReplaceCommand | protein.c:237-252 | copy, in-place shift, `strtol` and `tempother[0]` compute exactly ParseReplace of the argument |
| Commands.ReadDeleteCommand | protein.c:261-276 | copy, in-place shift and `strtol` compute exactly ParseDelete of the argument |
| Edits.ApplyReplaces | protein.c:233-254 | the replacements never change the length of the sequence |
| Edits.ApplyReplacesStep | protein.c:233-254 | running one more replace command applies its edit on top of the earlier ones |
| Edits.ReplacesLastWins | protein.c:233-254 | after all replacements, an untargeted position keeps its symbol and a targeted one holds the symbol of the last command naming it |
| Edits.RemoveAt | protein.c:130 | unlinking one node keeps the symbols before it and shifts those after it down by one |
| Edits.DeleteAll | protein.c:257-278 | k deletions shorten the sequence by k |
| Edits.DeleteAllStep | protein.c:116-131 | the first delete of a valid run finds a node other than the head, and the rest of the run stays valid with the counter one higher |
| Edits.WithoutLength | protein.c:257-278 | removing k listed original positions leaves |t| - k symbols |
| Edits.DeleteAllFrom | protein.c:116-131 | with increasing positions, each delete removes the symbol at its original position, whatever came before |
| Edits.IncreasingDeletesUseOriginalPositions | protein.c:116-131 | with strictly increasing positions the delete commands remove exactly the symbols at those positions of the sequence before any deletion |
| Rendering.HeaderShape | protein.c:66-82 | a label line is five ten-column fields for 50r+10 ... 50r+50, separated by single spaces, ended by a newline: 55 characters |
| Rendering.FieldShape | protein.c:70-73 | a label above listSize is ten spaces; any other is its numeral right-justified in ten columns and reads back as the label |
| Rendering.FieldBlankIff | protein.c:70-73 | a field is blank iff its label exceeds listSize |
| Rendering.PieceAt | protein.c:64-102 | symbol i of group k of row r gets the label line only when it starts the row and a separator only when it ends its group |
| Rendering.GroupSpan | protein.c:91-102 | the loop prints a group's symbols with nothing between them and the group end after the tenth |
| Rendering.RowSpan | protein.c:61-103 | from a group start to the end of its row, the loop prints the groups joined by single spaces and a newline after a full row |
| Rendering.RowOutput | protein.c:61-103 | the loop output for one row is its label line followed by its symbols in groups of ten |
| Rendering.RowsSpan | protein.c:61-103 | the loop output from a row start to the last symbol is the rows from there on, each under its label line |
| Rendering.PrintedIsLayout | protein.c:50-105 | when `listSize - numsDeleted + 1` is the symbol count, printList's output is exactly the row layout plus a final newline |
| LinkedList.ListNode.constructor | protein.c:36-42 | createNode: a node with the given symbol and no successor |
| LinkedList.ProteinList.constructor | protein.c:173-175 | the head node alone: a one-symbol list, no deletions |
| LinkedList.ProteinList.InsertAfter | protein.c:185-190 | the new node is linked right after the k-th node; the symbols gain c at index k+1 and nothing else moves |
| LinkedList.ProteinList.ReplaceNode | protein.c:144-159 | the symbol at 1-based position becomes c; length, nodes and every other symbol stay |
| LinkedList.ProteinList.FindDeleted | protein.c:115-127 | the walk from 1 + numsDeleted stops with `current` at index position-1-numsDeleted and `prevPosition` just before it |
| LinkedList.ProteinList.DeleteNode | protein.c:113-136 | exactly the node at index position-1-numsDeleted is unlinked, order is kept, the list stays well formed and numsDeleted grows by one |
| LinkedList.ProteinList.PrintList | protein.c:50-105 | the loop over the nodes writes exactly Printed(Contents, listSize, numsDeleted) |
| LinkedList.PrintLabels | protein.c:66-82 | the label loop over currentGroup writes the label line of the current row |
| LinkedList.AdvanceLabels | protein.c:85-86 | adding 50 to each label moves currentGroup to the next row's labels |
| LinkedList.RowOfCount | protein.c:64 | `protein % 50 == 0` holds exactly when the count reaches the next row start |
| Protein.DropNewlinesAppend | protein.c:179-193 | newlines are dropped piece by piece, so the kept bytes stay in input order |
| Protein.DropNewlinesHasNone | protein.c:182 | no newline byte enters the list after the head |
| Protein.DropNewlinesKeeps | protein.c:179-193 | every other byte is kept as often as it occurs |
| Protein.NewlineCount | protein.c:182-191 | the bytes kept are all but the newlines |
| Protein.Built | protein.c:173-175 | the list starts with the first input byte |
| Protein.BuildList | protein.c:172-193 | the input loop builds a well-formed list holding Built(input), with listSize the node count minus one and no deletions |
| Protein.BuiltCounts | protein.c:178-193 | listSize is the number of bytes after the first minus their newlines, and the symbols after the head are those bytes without newlines |
| Protein.RunReplaceCommands | protein.c:233-254 | the replace loop applies every replace command in argument order and changes nothing else |
| Protein.RunReplaceCommand | protein.c:235-253 | one pass of the replace loop takes the list from the first i edits to the first i+1 |
| Protein.RunDeleteCommands | protein.c:257-278 | the delete loop applies every delete command in argument order and numsDeleted ends at its start plus their number |
| Protein.RunDeleteCommand | protein.c:259-277 | one pass of the delete loop performs the next deletion of the run and leaves the rest of the run valid |
| Protein.Edited | protein.c:233-278 | after both loops the list is shorter than the built one by the number of delete commands |
| Protein.CommandsHaveNoNul | protein.c:204-227 | the commands are arguments, so they hold no NUL |
| Protein.Run | protein.c:165-283 | main prints the title with argv[1] and then the row layout of the edited symbols |

## Left out

- Input and output: `getchar` is modelled by the input `seq<char>` and `printf` by the returned string. Buffering and output errors are not modelled.
- BuildList: requires at least one input byte. With empty input `getchar` returns EOF and the source stores it, cast to `char`, as the head; that case is not modelled.
- `malloc` and `free` are not modelled: the command arrays, the list teardown and the frees of the command buffers (protein.c:199-200, 286-302). They have no observable effect on the output.
- CopyArgument: allocates `|arg| + 1` characters. The source allocates `argc * sizeof(char*)` bytes (protein.c:214, 222), which can be too small for a long argument. That overflow is not modelled.
- RunReplaceCommands and RunDeleteCommands: run only the real commands. The source's loops also visit the uninitialised slot at index `size - 1` and compare it with NULL (protein.c:233-235, 257-259), which is undefined behaviour.
- Run: requires `|argv| >= 2`: with no sequence name, main passes the NULL `argv[1]` to `%s` (protein.c:281), which is undefined behaviour. It also requires every replace position to lie within the list and every delete position to find a node other than the head (`CommandsInRange`). Outside these bounds the source walks off the list or dereferences NULL.
- ReplaceNode: requires `1 <= position <= length`. Otherwise the source's walk never meets `position` and runs off the list.
- DeleteNode: requires `1 + numsDeleted < position <= length + numsDeleted`. Otherwise `prevPosition` is NULL or the walk runs off the list.
- The missing return values of deleteNode and replaceNode (protein.c:113, 144) are not modelled; both are treated as returning nothing.
- The static `numsDeleted` is a field of the one list the program builds.
- PrintList: `currentGroup` is a sequence value reassigned by AdvanceLabels, not an `int[5]` updated in place. The array is local and never aliased, so the values printed are the same.
- The unused variables `totalGroups` (protein.c:54-55) and `initial` (protein.c:237, 261) are not modelled.
- `int` overflow of `listSize`, `protein` and the labels is not modelled: counts are unbounded integers. HeaderShape and FieldShape assume labels below 10^10.
- strtol: `errno`, locales and bases other than 10 are not modelled.
