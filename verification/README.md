# The front end of the C shell

This project models the front end of the C shell in `bin/csh` and proves what it is for.
Code that rewrites buffers, vectors and linked lists in place is modelled with arrays and
classes, by methods proved against functions on sequences; the laws are lemmas about those
functions.

A character is a Dafny `char`; the quote bit is an offset of `0x8000` on a byte
(`Shared.dfy`). An error that the source raises by a long jump, or keeps in `seterr`, is a
value of a result.

| files | component |
|---|---|
| `BraceExpansion`, `BraceMeaning` | brace expansion on the word vector, and the words a brace pattern means |
| `GlobMatch`, `GlobMeaning` | the pattern matcher, and a declarative meaning of patterns |
| `PathSpec`, `PathCanon` | path canonicalisation in a NUL-terminated buffer |
| `DirSpec`, `DirRing`, `DirStack`, `DirLaws` | the directory stack on its doubly linked ring |
| `Parser`, `ParserScan`, `ParserShow`, `ParserRound`, `ParserFits` | the command parser, its scanning loops, a printer, and the round trip |
| `CommandWords`, `CommandErrors`, `ParserGrammar`, `ParserErrors` | the grammar of commands on words: which tree the parser gives, and which error |
| `AliasSpec`, `WordRing`, `AliasExpand`, `AliasStarts` | alias expansion on the circular word list, and the words it looks up, by their places |
| `LexSpec`, `LexRound`, `LexPieces`, `Lexer` | words and lines of input, the characters they are made of, printing and reading them again |
| `InputBuffer` | the seekable window and the block buffer behind the lexer |
| `Numbers`, `Expr`, `ExprTree`, `ExprLaws`, `ExprGrammar`, `ExprMeaning` | the one-pass expression evaluator, its trees, its laziness, its grammar, and what its operators compute |
| `Keywords`, `Search` | the keyword table, its binary search, and the scanner for control structures |
| `PathHash` | the bit table in front of the command path |
| `Completion` | file name completion |
| `Modifiers` | word modifiers and their repetition |

Where the code differs from what is said about it, the code is followed:

- Two stars at the end of a pattern want a character (`GlobMeaning.ExactlyWhen` says for
  which patterns that shows).
- A negated class accepts the end of the string, and the matcher then goes on behind it
  (`GlobMeaning.OverrunsExactly` says for which patterns, `GlobMeaning.NegatedClassExample`).
- A final `.` behind the root is kept by canonicalisation, and a directory with that name
  spoils the names reached from it until `..` backs out of it (`PathSpec.ExactlyWhen`,
  `DirLaws.GoToSettles`, `DirLaws.KeptDotSpreads`).
- Canonicalisation reads behind its buffer when the text is canonical but for one slash at
  its end, as in `cd /` or `cd /usr/`: the end of the empty component is looked for from
  behind the NUL, up to the next NUL or `/`, and that `/` is overwritten. Once any text has
  been moved down, as for `/usr//`, the loop stays in the buffer (`PathCanon.DCanon`,
  `PathSpec.LoneSlashIs`). The model stops where the buffer is left.
- The comment at the counter speaks of 20 alias expansions; the twentieth always ends in the
  loop error, so nineteen can succeed (`AliasSpec.TwentyIsALoop`).
- `breaksw` takes one loop away for every `end` it meets at loop nesting zero. Of two `end`s
  in a row the second is not counted, and too few loops are taken away; behind one `end` the
  `end` of a loop that only comes later in the switch is counted as well, and too many are
  (`Search.BreakSwExactly`, `Search.BreakSwTooFewTooMany`).
- An operand that `||` or `&&` leaves out is still walked: its words are expanded, and read
  as numbers where they stand alone, so that `1 || abc` fails (`ExprLaws.WalkIsLazy`,
  `ExprGrammar.SkippedWordFails`).
- Without `:g` only the first word of a variable is meant to be modified. The count falls by
  one for every modifier applied and stops the rest when it is exactly zero, so with two
  modifiers on a word it is passed over and all words are modified; with `:g`, where it is
  10000, words behind exactly so many applications stay (`Modifiers.EachWord`,
  `Modifiers.JustTheFirst`).
- The table of the path hides a command in a directory that can be searched but not listed
  (`PathHash.UnreadableHides`, with `PathHash.TableExactly` for the exact condition).

## Model

| member | source | states |
|---|---|---|
| BraceExpansion.GlobBrace | bin/csh/glob.c:126-212 | the loops over a word find the alternatives of its first brace group, in order, or report the bracket that is missing |
| BraceExpansion.ExpBrace | bin/csh/glob.c:214-275 | the in-place worklist ends with the left-to-right flattening of the recursive expansion of all words, or its first error; no word it leaves can be expanded further |
| BraceExpansion.Splice | bin/csh/glob.c:241-268 | a word is replaced by its alternatives in the vector, the words before and behind it unchanged and in order |
| BraceExpansion.AlternativesShrink | bin/csh/glob.c:126-212 | every alternative has fewer opening braces than the word it replaces |
| BraceExpansion.ExpandReplace | bin/csh/glob.c:233-266 | expanding one word in place does not change the expansion of the whole vector |
| BraceMeaning.ExpandIsMeaning | bin/csh/glob.c:126-275 | for every pattern of literals, classes and nested groups the expansion of its text is the product of its choices, left choices varying slowest |
| BraceMeaning.MeaningConcat | bin/csh/glob.c:126-212 | the meaning of patterns one after the other is the product of their meanings |
| BraceMeaning.MissingBrace | bin/csh/glob.c:126-212 | a group that is not closed lacks its brace, whatever alternatives it holds |
| BraceMeaning.MissingBracket | bin/csh/glob.c:126-212 | a class that is not closed, behind an opening brace, lacks its bracket |
| BraceMeaning.BracesAlone | bin/csh/glob.c:233-241 | the words { and {} stand for themselves |
| GlobMatch.Gmatch | bin/csh/glob.c:793-818 | any brace alternative matches, the answer flipped by a leading ^; which error or overrun comes first is kept |
| GlobMatch.Pmatch | bin/csh/glob.c:820-872 | the loop over string and pattern answers as the recursive specification, * trying the non-empty suffixes through Gmatch |
| GlobMatch.MatchClass | bin/csh/glob.c:843-866 | the loop over a character class consumes it and answers as specified, without stopping at its end when it is not closed |
| GlobMeaning.MatcherMeaning | bin/csh/glob.c:820-872 | on patterns without ^ behind * the matcher decides the relation on tokens, or overruns just when it does on the tokens |
| GlobMeaning.OverrunsExactly | bin/csh/glob.c:843-866 | some string is run past exactly when a negated class has tokens in front of it that can be filled and no star directly in front |
| GlobMeaning.NegatedClassExample | bin/csh/glob.c:843-866 | [^a] runs past the end of the empty string |
| GlobMeaning.ClassText | bin/csh/glob.c:843-866 | the text of a class, of single characters and of two with a dash between them, is one token that takes exactly those characters and those between, or, behind ^, all others |
| GlobMeaning.TokenText | bin/csh/glob.c:830-872 | ?, * and any other character are one token each |
| GlobMeaning.CodeMeaning | bin/csh/glob.c:835-842 | what the code decides is the declarative relation with two or more final stars read as ?* |
| GlobMeaning.NothingMatchesOnlyStars | bin/csh/glob.c:835-842 | a pattern matches the empty string exactly when it is made of stars |
| GlobMeaning.ExactlyWhen | bin/csh/glob.c:820-872 | for every plain pattern: the matcher is right for every string exactly when no string is run past and the pattern does not end in two stars behind something that can be matched |
| GlobMeaning.DoubleStarExample | bin/csh/glob.c:835-842 | the pattern x** does not match x, although it means to |
| GlobMeaning.GlobMeaning | bin/csh/glob.c:793-818 | Gmatch overruns exactly when some brace alternative does, and else is true exactly when some alternative matches the whole string, flipped by a leading ^ |
| PathCanon.DCanon | bin/csh/dir.c:639-836 | in a buffer of just the size of the text the in-place loop ends with the canonical text of the whole path; it leaves the buffer exactly when the text has proper names, single slashes and one slash at the end, and has changed nothing then |
| PathCanon.OneComponent | bin/csh/dir.c:639-836 | one round takes one component off the text and leaves the names it has been pushed on in front of the rest, or leaves the buffer at an empty last component when nothing was moved |
| PathCanon.EndOfComponent | bin/csh/dir.c:646-653 | the search for the end of a component leaves the buffer exactly when it starts at its last NUL, and else stops at the next slash or NUL |
| PathCanon.BackUp | bin/csh/dir.c:744-748 | backing up from a slash finds the slash in front of the name before it, never above the root |
| PathCanon.DGoto | bin/csh/dir.c:375-408 | an absolute path is canonicalised from the root, another one from the working directory, in the space allocated unless the text has a lone slash at its end |
| PathSpec.CanonStep | bin/csh/dir.c:639-836 | a component with more behind it is pushed: empty and . are dropped, .. pops |
| PathSpec.ComponentsMean | bin/csh/dir.c:639-836 | in front of more text an empty component and a . are dropped, .. drops the name in front or nothing at the root, and a name is added |
| PathSpec.LastMeans | bin/csh/dir.c:639-836 | at the end a name is put behind those there are, and a slash leaves them, or the root |
| PathSpec.LastDotDot | bin/csh/dir.c:670-676 | at the end .. leaves the names but for the last, or the root |
| PathSpec.LastDot | bin/csh/dir.c:660-668 | at the end a . leaves the names, but stays behind the root |
| PathSpec.CanonIsFixed | bin/csh/dir.c:604-608 | canonicalising twice is canonicalising once, and the result is made of proper names |
| PathSpec.ExactlyWhen | bin/csh/dir.c:660-668 | the text is that of the folded stack exactly when no final . lies behind the root |
| PathSpec.LoneSlashIs | bin/csh/dir.c:640-659 | the texts that make the loop leave the buffer are the canonical ones with a slash behind them |
| PathCanon.OverrunExamples | bin/csh/dir.c:640-659 | / and /usr/ leave the buffer, /usr and /usr// do not |
| DirRing.Unlink | bin/csh/dir.c:492-493 | an entry taken out of the ring leaves a well formed ring of the others in their order |
| DirRing.Link | bin/csh/dir.c:494-497 | an entry put in front of another leaves a well formed ring with it there |
| DirStack.DirStack.constructor | bin/csh/dir.c:129-135 | the ring starts with the sentinel and one entry |
| DirStack.DirStack.DFind | bin/csh/dir.c:522-548 | the i-th entry for +i with 0 < i below the size, an error for more, and none for other arguments |
| DirStack.DirStack.DoPushd | bin/csh/dir.c:471-520 | the sequence read by di_prev past the sentinel is swapped, pushed on or rotated as specified; errors change nothing |
| DirStack.DirStack.DoPopd | bin/csh/dir.c:550-586 | one entry is deleted, the next becoming the top when it was the top; errors change nothing |
| DirStack.DirStack.DoChngd | bin/csh/dir.c:331-373 | the top is replaced, or dropped and another entry brought up; errors change nothing |
| DirStack.DirStack.PerformAll | bin/csh/dir.c:331-602 | over any sequence of commands the ring stays well formed, dcwd is never the sentinel, the stack is that of the commands one by one, and on top is the directory entered last |
| DirStack.TurnWithout | bin/csh/dir.c:578-579 | deleting the i-th entry of the ring is deleting the i-th entry of the sequence read from the top |
| DirLaws.SwapTwice | bin/csh/dir.c:483-498 | pushd without arguments done twice changes nothing |
| DirLaws.PushThenPop | bin/csh/dir.c:507-586 | popd undoes the pushd of a directory |
| DirLaws.RotationsCancel | bin/csh/dir.c:501-506 | pushd +i and then pushd +(n-i) changes nothing |
| DirLaws.CdIsPushdThenPopd | bin/csh/dir.c:347-359 | cd +i is pushd +i and then popd of the directory left behind |
| DirLaws.PushdEntries | bin/csh/dir.c:471-520 | pushd keeps all entries, and adds exactly the one it followed an argument to |
| DirLaws.PopdEntries | bin/csh/dir.c:550-586 | popd takes exactly the entry named away, or the top |
| DirLaws.CdEntries | bin/csh/dir.c:331-373 | cd takes exactly the top away, putting one in its place unless a number was given |
| DirLaws.PushdSwaps | bin/csh/dir.c:483-498 | pushd without arguments succeeds exactly with a second entry that can be entered, and exchanges the top two, all others staying |
| DirLaws.PushdTurns | bin/csh/dir.c:499-506 | pushd +i brings the i-th entry up, those in front of it going behind the last, in order |
| DirLaws.PushdPushes | bin/csh/dir.c:507-519 | pushd with a name puts the directory followed to on top of all entries |
| DirLaws.PopdDrops | bin/csh/dir.c:550-586 | popd takes the top away, popd +i the i-th entry, all others staying in order |
| DirLaws.CdReplaces | bin/csh/dir.c:331-373 | cd puts the home, or the directory followed to, in place of the top |
| DirLaws.CdTurns | bin/csh/dir.c:347-359 | cd +i leaves the top and brings the i-th entry up |
| DirLaws.WrongArguments | bin/csh/dir.c:331-586 | two arguments, a number as large as the stack, and a popd of a name are the errors they are |
| DirLaws.IndexIs | bin/csh/dir.c:522-548 | an argument stands for the i-th entry exactly when it is a + and the digits of i, with i positive |
| DirLaws.EnteredOnTop | bin/csh/dir.c:331-602 | after every command that succeeds the directory entered is on top, or the old top when none was |
| DirLaws.RunOnTop | bin/csh/dir.c:331-602 | over every run of commands the shell is in the directory on top |
| DirLaws.GoToSettles | bin/csh/dir.c:375-408 | from any directory the name reached is settled exactly when the text does not end with a . behind the root and the names left over are proper |
| DirLaws.KeptDotSpreads | bin/csh/dir.c:660-668 | from any directory a relative path reaches a settled name exactly when it does not end with a . behind the root and the names it does not back out of are proper |
| DirLaws.LeftOver | bin/csh/dir.c:639-836 | after any components the stack of names is proper exactly when the names of the start not backed out of are |
| DirLaws.KeptDotExample | bin/csh/dir.c:660-668 | /. keeps its name, and x from there is /./x |
| DirLaws.RunSettled | bin/csh/dir.c:331-586 | over every run of commands that hand texts to dgoto, all names stay settled exactly when no command follows a text that ends with a . behind the root |
| Parser.FindTop | bin/csh/parse.c:230-436 | the first operator of a kind outside parentheses |
| Parser.Syn0 | bin/csh/parse.c:225-284 | the descent ends for every segment whose parenthesis count never goes negative, and gives a tree for every balanced one |
| Parser.Cut | bin/csh/parse.c:230-436 | a segment cut at an operator outside parentheses falls into segments that are balanced when it is |
| Parser.FillFromSound | bin/csh/parse.c:520-602 | what the fill loop has gathered keeps its open and closed parentheses in step with the segment |
| Parser.PairBalanced | bin/csh/parse.c:520-602 | an opening parenthesis that was seen has its closing one, and what they enclose is balanced, in malformed segments too |
| ParserScan.ScanAmp | bin/csh/parse.c:236-281 | the loop of syn0 finds the first & that is an operator, and counts the parentheses |
| ParserScan.ScanFor | bin/csh/parse.c:297-434 | the loops of syn1, syn1a, syn1b and syn2 find their first operator |
| ParserScan.CountWords | bin/csh/parse.c:476-513 | the counting pass computes the number of argument slots |
| ParserScan.CountGrows | bin/csh/parse.c:476-513 | the count is never less than what is counted in front of any word, a redirection name still to come included |
| ParserScan.StepInStep | bin/csh/parse.c:520-597 | as long as no error was raised, a round of the fill pass saves no more words than were counted |
| ParserScan.SlotIsFree | bin/csh/parse.c:520-597 | there is a slot for every word the fill pass saves |
| ParserScan.ScanCommand | bin/csh/parse.c:476-608 | the two passes write inside the vector, leave it NULL-terminated, and gather what is specified |
| ParserRound.ShowParsed | bin/csh/parse.c:214-608 | parsing what is printed for a tree that fits its level gives the tree back |
| ParserFits.SyntaxFits | bin/csh/parse.c:214-608 | every tree the parser builds fits: the operators nest in the order &, ;, then the two double ones, then the pipe, and lean right |
| ParserFits.RoundTrip | bin/csh/parse.c:214-608 | for every word list that parses, printing the tree and parsing that gives the same tree up to the F_NOFORK hint |
| ParserGrammar.SyntaxIs | bin/csh/parse.c:214-608 | a word list is parsed to a tree, or to nothing, without an error exactly when its parentheses are balanced and the grammar of commands, told by literal operators, derives that from it |
| ParserGrammar.Grammar | bin/csh/parse.c:225-608 | at every level the parser gives exactly the tree derived: the weakest operator outside parentheses splits first, at its first place |
| ParserGrammar.SimpleGrammar | bin/csh/parse.c:446-608 | a simple command is one group of parentheses, or words, with redirections among them in any order, and nothing else |
| ParserGrammar.SpecialIs | bin/csh/parse.c:449-474 | exit, foreach, if, @, set, switch and while, behind any else, take parentheses as words |
| ParserGrammar.DepthCounts | bin/csh/parse.c:233-243 | the parentheses open are the words that begin with ( less those that begin with ) |
| ParserErrors.SyntaxFails | bin/csh/parse.c:214-608 | an error comes out of the parser exactly when it is the first one met in the words from left to right |
| ParserErrors.ErrorIs | bin/csh/parse.c:225-608 | at every level the error raised is that in front of the splitting operator, or else the one behind it |
| CommandWords.ItemsGathered | bin/csh/parse.c:520-602 | for every list of arguments, redirections and groups in any order: gathering fails exactly when they are not permitted together, and else gives the words in order, each redirection its last name, and each flag as soon as one sign carries it |
| CommandWords.GatheredExactly | bin/csh/parse.c:520-602 | the segments gathered without an error are the texts of the item lists that are permitted |
| CommandErrors.GatherFails | bin/csh/parse.c:520-602 | an error is raised exactly when permitted items are followed by something that may not stand there, and it is the error of that |
| WordRing.MakeList | bin/csh/lex.c:152-171 | the list lex builds is a well formed circle of the words and a newline behind a head |
| WordRing.FreeNod | bin/csh/parse.c:188-202 | cutting nodes out of the circle leaves a well formed circle of the others |
| WordRing.Insert | bin/csh/parse.c:176-183 | a list put in without its last word leaves a well formed circle, also when it has no other word |
| AliasExpand.SpliceAlias | bin/csh/parse.c:169-183 | the words are then the old ones in front, those of the alias, and the untouched rest |
| AliasExpand.ASyn0 | bin/csh/parse.c:103-135 | the scan of a command on the linked list splices, fails or changes nothing exactly as specified |
| AliasExpand.Alias | bin/csh/parse.c:72-89 | the passes over the list end with the words of the specification or its error, the list a well formed circle throughout |
| AliasSpec.CommandEnds | bin/csh/parse.c:103-135 | finding the end of a command first and looking at the command then is the one scan of the source |
| AliasSpec.ExpandSettles | bin/csh/parse.c:72-89 | expansion succeeds exactly when few enough splices lead to words no alias applies to |
| AliasSpec.TwentyIsALoop | bin/csh/parse.c:62-89 | for every alias table at most nineteen splices happen in an expansion that succeeds, and twenty are the loop error, exactly |
| AliasSpec.ExpandedIsNonNegative | bin/csh/parse.c:103-135 | words that come out of alias expansion never close a parenthesis too many, which is what the parser needs |
| AliasSpec.SelfAliasOnce | bin/csh/parse.c:169-174 | a simple command whose alias begins with its own name is expanded just once |
| AliasStarts.PassFinds | bin/csh/parse.c:91-185 | with the words looked up told by their places (the first of a segment, the one behind an operator outside parentheses, and those in parentheses that start a command): a pass puts in the alias of the first of them that has one, changes nothing exactly when none has, and fails for a bad alias or a ) too many |
| AliasStarts.NothingLeft | bin/csh/parse.c:72-89 | in words that come out of expansion no word that is looked up has an alias |
| LexSpec.WordShrinks | bin/csh/lex.c:256-375 | every word takes input and is not empty |
| LexRound.WordAgain | bin/csh/lex.c:256-375 | a word printed and read again, whatever blank or newline follows, is the same word with the same quote bits |
| LexRound.LexAgain | bin/csh/lex.c:137-189 | the words of a line printed and read again are the same words, whatever input follows |
| LexPieces.BodyIs | bin/csh/lex.c:308-371 | a word is read off the input exactly when that is plain characters, escaped ones and quoted stretches, whatever blanks and operators the stretches hold, up to the first blank, newline or operator outside them |
| LexPieces.UnmatchedIs | bin/csh/lex.c:317-344 | a word fails for a quote exactly when one is left open at the end of its line |
| LexPieces.WordIs | bin/csh/lex.c:256-316 | the ampersand, the bar, < and > are words alone or doubled, ;, parentheses and newlines stand alone, blanks and escaped newlines are passed over, and everything else begins a word of pieces |
| LexPieces.CommentIs | bin/csh/lex.c:284-299 | a comment is its newline, and goes on with the next line behind a backslash |
| LexPieces.LineIs | bin/csh/lex.c:137-173 | a line is the words up to the first newline, and what is behind it is left |
| Lexer.Lexer.GetC | bin/csh/lex.c:131-135 | reading takes the character put back, or the next one of the input |
| Lexer.Lexer.ReadBody | bin/csh/lex.c:308-371 | the loop with its quote state reads the characters of a word as specified, and leaves the one that ended it |
| Lexer.Lexer.ReadWord | bin/csh/lex.c:256-375 | operators, comments, continued lines and words are read as specified |
| Lexer.Lexer.Lex | bin/csh/lex.c:137-173 | a line is read word by word up to its newline |
| InputBuffer.Replays | bin/csh/lex.c:1561-1602 | a position kept, read on from and gone back to gives the same characters again |
| InputBuffer.ReadsText | bin/csh/lex.c:1413-1540 | reading on gives the text from the position on, and its end |
| InputBuffer.SeekBuffer.BGetc | bin/csh/lex.c:1427-1449 | the character of the file at the seek pointer, whatever the window shows; the descriptor stands at the end of the window |
| InputBuffer.SeekBuffer.PerformAll | bin/csh/lex.c:1413-1602 | however reading and seeking are mixed, what is read is the file |
| InputBuffer.BlockBuffer.BGetc | bin/csh/lex.c:1451-1539 | the next character of the stream, from the blocks or from one more read |
| InputBuffer.BlockBuffer.BFree | bin/csh/lex.c:1541-1559 | giving blocks back renumbers the positions and keeps the unread text and its position |
| InputBuffer.BlockBuffer.PerformAll | bin/csh/lex.c:1413-1602 | however reading, keeping positions, going back and freeing are mixed, what is read is the stream |
| Numbers.PutNRoundTrip | bin/csh/set.c:365-412 | what putn prints, getn reads back |
| Numbers.NumberText | bin/csh/set.c:392-412 | the texts getn reads are the printed numbers with zeros in front, a - for negative ones and a + that may stand in front of all, and the empty text, which is 0 |
| ExprTree.IntRefines | bin/csh/exp.c:97-247 | the one-pass evaluator is the parser followed by the walk over the tree: where the words parse, the same value, cursor and failure; where they do not, it fails |
| ExprTree.TextRefines | bin/csh/exp.c:249-394 | the same for the levels that work on text |
| ExprTree.CursorIgnoresValues | bin/csh/exp.c:97-139 | where evaluation succeeds the cursor depends on the words alone, not on what is ignored or on values |
| ExprLaws.SkipsExactly | bin/csh/exp.c:97-394 | walking an ignored operand succeeds exactly when every word in it expands and those that stand alone as a number, under ! or ~ or at a shift are numbers |
| ExprLaws.WalkIsLazy | bin/csh/exp.c:97-139 | the walk that computes ignored operands is the lazy value exactly when the operands laziness leaves out can be skipped, a condition on their words, and else it fails |
| ExprLaws.ExpressionValue | bin/csh/exp.c:91-118 | an expression evaluates to a value exactly when it parses and that is the lazy value of its tree |
| ExprLaws.SkippingNeverDivides | bin/csh/exp.c:352-394 | an ignored operand never reports a division by zero |
| ExprLaws.DivisionIsWanted | bin/csh/exp.c:352-394 | a division by zero is reported only when the lazy value asks for the division |
| ExprGrammar.TreeOfWords | bin/csh/exp.c:97-470 | the tree stands for exactly the words taken, leans right at every level and has no operator of its own level at the equality level |
| ExprGrammar.TreeIsRead | bin/csh/exp.c:97-470 | the words of every such tree of plain operands are parsed to that tree |
| ExprGrammar.SkippedWordFails | bin/csh/exp.c:97-118 | behind 1 and two bars any number is passed over, and another plain word, such as abc, fails |
| ExprMeaning.NumbersCompute | bin/csh/exp.c:91-394 | two numbers with an operator between them: sums, differences and products, quotients rounded toward zero with remainders that have the sign of the dividend, the four comparisons, bits one by one, and the logical operators; the cursor is behind them, and a division by zero is reported |
| ExprMeaning.WordsCompare | bin/csh/exp.c:207-247 | == and != say whether two words are the same, =~ and !~ whether the right one as a pattern means the left one |
| ExprMeaning.TextOperator | bin/csh/exp.c:249-394 | what the operators on text leave for two texts that are numbers |
| ExprMeaning.BitsCombine | bin/csh/exp.c:141-205 | the bitwise or, exclusive or and and work on every bit by itself |
| ExprMeaning.BindsRight | bin/csh/exp.c:97-394 | of two operators the right one takes the operand between them when it binds as strongly as the left one or more so |
| ExprMeaning.BindsLeft | bin/csh/exp.c:97-394 | the left one takes it when it binds more strongly |
| ExprMeaning.SpelledAs | bin/csh/exp.c:589-634 | the spellings of the operators between operands are all there are |
| ExprMeaning.OperatorWords | bin/csh/exp.c:589-634 | the words that are operators where a file name is wanted, literally |
| ExprMeaning.SignComputes | bin/csh/exp.c:396-424 | ! is 1 exactly for zero, ~ turns every bit |
| ExprMeaning.CommandComputes | bin/csh/exp.c:437-469 | a command in braces is 1 exactly when it succeeds |
| ExprMeaning.InquiryComputes | bin/csh/exp.c:473-547 | a file inquiry is 1 exactly when the file is what its letter asks |
| ExprMeaning.ParensCompute | bin/csh/exp.c:425-435 | parentheses take the value, or the failure, of what they hold |
| ExprMeaning.NumberOf | bin/csh/exp.c:636-642 | the words that are numbers in an expression: as getn reads them, but without a + in front |
| ExprMeaning.Unfinished | bin/csh/exp.c:425-455 | no words, a parenthesis and a brace that are not closed are the errors they are |
| ExprMeaning.WrongInquiry | bin/csh/exp.c:473-490 | an inquiry of more letters, without a name, with an operator for a name that is no file, or with a name that does not expand is the error it is |
| Keywords.Srchx | bin/csh/func.c:565-586 | the binary search finds exactly the keywords |
| Keywords.SortedApart | bin/csh/init.c:111-131 | the keyword table is sorted |
| Search.Find | bin/csh/func.c:591-690 | the loop with its nesting counters stops where the specification does |
| Search.PassBlock | bin/csh/func.c:613-690 | a well nested block in which nothing ends the search is passed over whole and leaves the counters as they were |
| Search.EveryScript | bin/csh/func.c:591-690 | for every script and nesting, T_BREAK, T_IF, T_ELSE, T_SWITCH and T_BRKSW stop at the first line that ends them where openings and closings since the start have brought the nesting to zero, and fail exactly when there is none; only T_BRKSW takes loops away |
| Search.EveryLine | bin/csh/func.c:591-690 | the same on the words of the lines: the first line whose first word ends the search, a case by its value without the colon, where the openings and closings told by words balance |
| Search.LineEndsIs | bin/csh/func.c:613-690 | the lines that end a search at nesting zero, by their words |
| Search.LineTurnIs | bin/csh/func.c:613-690 | the lines that open and close what is counted, and loops, by their words |
| Search.DefaultIsNoKeyword | bin/csh/func.c:679-687 | the label of a default, or a label with a colon, is never taken for a keyword |
| Search.StopsAtItsOwn | bin/csh/func.c:591-690 | the search stops exactly at the first line of the structure it is in, behind any well nested block |
| Search.AlwaysSilent | bin/csh/func.c:613-690 | nothing in a well nested block ends the search for an end, an endif or an endsw |
| Search.GotoFindsLabel | bin/csh/func.c:602-690 | goto stops exactly at the first line that is the keyword and the label, or the label and a colon, at any nesting |
| Search.BreakSwTakes | bin/csh/func.c:634-651 | breaksw takes away one loop for every end met at loop nesting zero, as long as there is one |
| Search.LeftIsLargest | bin/csh/func.c:634-651 | the loops left are the largest excess of ends over loop heads in front of some line scanned |
| Search.BreakSwExactly | bin/csh/func.c:634-651 | the loops taken away are those left exactly when as many ends are met at loop nesting zero, or when both are all there are |
| Search.BreakSwTooFewTooMany | bin/csh/func.c:634-651 | out of two loops one is taken away; out of one loop two are when another comes later in the switch |
| PathHash.HashName | bin/csh/exec.c:494-503 | the loop computes the hash of the name, which lies in range |
| PathHash.BitIsWeight | bin/csh/exec.c:492-503 | the bit of a name in a directory is that of the whole name as a number in base 243, reduced once |
| PathHash.HashTable.DoHash | bin/csh/exec.c:436-474 | exactly the bits of the names in the readable absolute directories are set |
| PathHash.HashTable.IsCommand | bin/csh/exec.c:504-548 | the search with the table, or without it, finds the first directory that is not passed over |
| PathHash.DirBitsAre | bin/csh/exec.c:455-471 | a bit belongs to a directory exactly when a name in it hashes there |
| PathHash.PathBitsAre | bin/csh/exec.c:454-473 | a bit is in the table exactly when a listed name of some readable absolute directory hashes there |
| PathHash.LinearFirst | bin/csh/exec.c:504-548 | the plain search stops at the first component with the command, and fails exactly when there is none |
| PathHash.FindsFirst | bin/csh/exec.c:504-548 | a name with a slash, or any name without a path, is looked up by itself alone; else the directory found is the first of the path with the command |
| PathHash.HashedExactly | bin/csh/exec.c:526-545 | the table gives the answer of the plain search exactly when it does not pass over the directory found there |
| PathHash.TableExactly | bin/csh/exec.c:436-548 | the table of a path gives that answer exactly when it is nothing, not in an absolute directory, or a listed name of some readable absolute directory hashes to its bit |
| PathHash.NothingHidden | bin/csh/exec.c:504-548 | with the directories as they were hashed no command is hidden |
| PathHash.UnreadableHides | bin/csh/exec.c:457-459 | for every path whose absolute directories cannot be listed, exactly the commands found in them are hidden |
| PathHash.HiddenExample | bin/csh/exec.c:457-459 | a command in /bin is hidden when /bin cannot be listed |
| PathHash.HashTable.HashThenFind | bin/csh/exec.c:436-548 | after rehashing the search by the table is the plain search |
| Completion.SuffixTest | bin/csh/file.c:620-639 | the loop from the ends back decides whether one string ends with another |
| Completion.Recognize | bin/csh/file.c:577-603 | the text is cut in place to its common prefix with the entry |
| Completion.CommonAllIsLongest | bin/csh/file.c:577-603 | the prefix kept is common to all entries, and every common prefix is a prefix of it |
| Completion.PrefixSettled | bin/csh/file.c:599-601 | a common prefix that has shrunk to the name typed stays what it is |
| Completion.Scan | bin/csh/file.c:510-541 | a pass over the directory, stopped early or not, leaves the longest common prefix of everything it would have looked at |
| Completion.TSearch | bin/csh/file.c:479-568 | the word becomes its directory and the longest common prefix of the entries not ignored, or of all when all are; it only grows |
| Completion.ChosenExactly | bin/csh/file.c:479-568 | an entry counts as often as it is in the directory exactly when it goes on from the name typed, an entry with a dot in front only when something is typed or for a user, and fignore does not hide it, or hides all there are |
| Completion.PartsAre | bin/csh/file.c:479-505 | the directory and the name are the only two parts of the word where the name has no slash, or the ~ and a user |
| Modifiers.DoModify | bin/csh/lex.c:985-1027 | the loops of the modifiers compute head, tail, root, extension and quoting |
| Modifiers.HeadAndTail | bin/csh/lex.c:999-1010 | head, slash and tail are the word, and the tail has no slash |
| Modifiers.RootAndExtension | bin/csh/lex.c:1011-1022 | root, dot and extension are the word, and the extension has neither dot nor slash |
| Modifiers.NoExtension | bin/csh/lex.c:1011-1022 | without a dot in the last component the root is the word and the extension is empty |
| Modifiers.BeforeExactly | bin/csh/lex.c:999-1005 | only a word whose slashes are all quoted is searched past its front |
| Modifiers.NoSlash | bin/csh/lex.c:999-1003 | a word without a slash, quoted or not, is its own tail and has no head |
| Modifiers.QuotesMark | bin/csh/lex.c:989-998 | q marks every byte of the word as quoted, x every one but blanks and tabs |
| Modifiers.ModifiersInOrder | bin/csh/dol.c:674-768 | the modifiers are applied from the first to the last that applies |
| Modifiers.ModifyWord | bin/csh/dol.c:737-757 | the :a loop ends after at most one round more than the word has characters |
| Modifiers.ApplySettles | bin/csh/dol.c:737-757 | modified again the result is the same, or it cannot be modified |
| Modifiers.AllHeads | bin/csh/dol.c:737-757 | :ah takes everything from the first slash on, in every word without quoted slashes |
| Modifiers.AllExtensions | bin/csh/dol.c:737-757 | :ae leaves nothing |
| Modifiers.ModifyAll | bin/csh/dol.c:674-768 | a word goes through the modifiers as specified, the count falling by one for each |
| Modifiers.CountFalls | bin/csh/dol.c:674-768 | the count falls by the number of modifiers applied, and a word to which none is stays the same |
| Modifiers.EachWord | bin/csh/dol.c:674-768 | for every count, words and modifiers: a word stays as it is exactly when the modifiers applied to some of the words in front sum to the count, and else is modified |
| Modifiers.FirstWordOnly | bin/csh/dol.c:674-768 | without :g words no modifier applies to are passed over, the first other one is modified, and those behind stay when one modifier applied to it and are all modified when more did |
| Modifiers.JustTheFirst | bin/csh/dol.c:674-768 | whatever words come behind, just the first word is modified exactly when one modifier applies to it |
| Modifiers.TwoModifiersAllWords | bin/csh/dol.c:674-768 | r modifies a.c of a.c b.c, rr modifies both |

## Left out

- Process and terminal work: forking, signals, job control, terminal modes, here documents, mail checks, and the editing branch of the input buffer.
- The file system: directory contents, whether a command can be run, whether a directory can be entered and the result of following an argument are parameters. Symbolic links are not followed by canonicalisation, and the rewriting of names under the home directory is not modelled.
- History substitution and the collection of `$` references in the lexer; text with `!` or `$` is outside the round trip of lines. The prefix `STRQNULL` of a self-referring alias is modelled, the history references of an alias are a parameter.
- Fixed buffer sizes, the freeing of memory, and the overflow of C integers; shifts by amounts outside the word are a parameter of the expression evaluator.
- The `s` modifier, which need not end under `:a`, and the reading of modifiers.
- What the parser builds after its first error: the source throws the tree away, so the model keeps the first error and a tree it does not claim anything of. `ERR_TOOMANYRP` is not raised by the model's parser, since alias expansion has excluded it.
- Listing, printing and option parsing of the directory commands, and the `cdpath` search.
- The search loop of `doexec`, which asks the same table in the same order as `iscommand` but runs what it finds.
- The word stream of `search`: its lines come as lists of words, and `case` labels are tested by a parameter.
- Seeks into alias and `eval` text, and seeks of a loop's end.
- Read errors of the input buffer; a read gives at least one character before the end.
- GlobMeaning.MatcherMeaning: patterns with a ^ behind a star are left to the specification `GMatch`, since there the source negates the rest of the pattern and no declarative reading of stars applies.
- GlobMeaning.GlobMeaning: alternatives with a ^ behind a star, or with a class that is not closed, are left to the specification `GMatch`.
- BraceMeaning.ExpandIsMeaning: a word that is just `{}` is kept by the code, and counts as the empty word it stands for elsewhere; the text of a class holds no brace.
- PathCanon.DCanon: what is read and overwritten behind the buffer is not modelled; the run ends where the buffer is left.
- DirLaws.RunSettled: which text a directory argument is looked up as (itself, or what `cdpath` or a variable makes of it) is a parameter.
- ExprTree.IntRefines: where the words do not parse, which of several failures is reported first is not stated, since values are computed on the way.
- ExprTree.TextRefines: as for `ExprTree.IntRefines`, only that evaluation fails is stated where the words do not parse.
- ExprGrammar.TreeIsRead: trees with an empty operand, and file names that look like operators, do not read back, because their words do not tell them apart.
- Lexer.Lexer.GetC: of the sources of characters, the text of aliases, history and variables is left out.
- Lexer.Lexer.ReadBody: `$`, history in a word and the limit on the length of a word are left out.
- Lexer.Lexer.ReadWord: `$`, history in a word and the limit on the length of a word are left out.
- Lexer.Lexer.Lex: history at the beginning of a line is left out.
- InputBuffer.BlockBuffer.BGetc: reading from a terminal and errors of a read are left out.
- Modifiers.ModifyAll: for a word whose slashes are all quoted the source reads in front of the word; the model stops there.
