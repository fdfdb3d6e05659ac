# Template compiler, shell text codecs and config parser: a Dafny model

The project models three parts of the repository and proves what they are for.

* **The tag compiler of Smarty** (`Smarty_Compiler.class.php`). A template is a
  list of tags that have already been lexed; the compiler turns them into PHP
  control tokens with a tag stack, a strip depth and a no-cache counter.
  `Template.dfy` has the tags and the trees an author has in mind,
  `TagMachine.dfy` the compiler, as an object and as a function, `TagStack.dfy`,
  `Zippers.dfy` and `TagGrammar.dfy` the language its stack decides,
  `PhpTokens.dfy` and `PhpControl.dfy` how PHP nests and runs the emitted tokens,
  `Emission.dfy` that these are the program of the tree, `Meaning.dfy` what a tree
  means, `Sharing.dfy` what it does with loop records shared by name, `Running.dfy`
  and `Printing.dfy` that the program does just that, `NameClash.dfy` and
  `ForeachClash.dfy` when this still is the meaning if nested sections or foreachs
  have one name, `SectionLoop.dfy` the arithmetic of `{section}`, `LoopViews.dfy` what
  the tags inside a tag see, `Regions.dfy` and `Caching.dfy` the no-cache regions,
  `StripPass.dfy` and `LineJoining.dfy` the strip regions, `IfTokens.dfy`,
  `IfRuns.dfy` and `IfRewriter.dfy` the rewriting of `{if}` conditions, and
  `Operators.dfy` what conditions mean.
* **The text codecs of the SQLite shell** (`shell.c`): CSV output against
  `.import` (`Csv.dfy`, `CsvImport.dfy`, `CsvBuffer.dfy`, `CsvFile.dfy`), C
  strings against the in-place un-escaper (`CStrings.dfy`), quoted strings and
  the two-pass buffers (`Quoting.dfy`), the `.tables` listing
  (`TableLayout.dfy`) and the recogniser of blank input (`AllWhitespace.dfy`).
  `Bytes.dfy` has bytes and C strings.
* **The config-file parser** (`Config_File.class.php`): its lines and patterns
  (`ConfigLexer.dfy`), the fold it is (`ConfigStore.dfy`), the loop with its
  aliased section reference (`ConfigParser.dfy`), and what follows for the
  parsed tables (`ConfigLaws.dfy`), hidden data (`ConfigHidden.dfy`), multiline
  values (`ConfigMultiline.dfy`) and values on one line (`PlainLines.dfy`,
  `PlainValues.dfy`).

`PhpStrings.dfy` has the PHP string functions that both the strip pass and the
config parser use, `Options.dfy` the small definitions every part shares.

Methods follow the source's loops and in-place updates and are proved against
functions; the lemmas then say what these functions mean. Verify with
`dafny verify dfyconfig.toml`.

## Where the code does not do what one would expect

* A condition that begins with `is` has no operand. The position becomes -1,
  the last token is taken instead, and the loop returns to the same `is`. If its
  words are still there the scan never ends, as on `{if is even x}`; otherwise
  it is a syntax error, as on `{if is even}`. `IfRewriter.HaltsExactly` has the
  exact token lists, and `IfRewriter.CompileIfTokens` covers all others.
* `is` behind a group with parentheses inside, as in `((a) + b) is even`, takes
  only a part of the group as its operand. `IfRewriter.ConditionRewritten` shows
  that a condition is rewritten as its author means it exactly if no group that is
  tested has an opening parenthesis inside, but for those of further tests.
* Nested loops of one name share their record. `Printing.CompiledSharesRecords`
  says for every tree what the compiled code does, and that the meaning is
  preserved exactly if evaluation with shared records is the meaning. An inner
  section ends the outer one of its name with the pass in which it is run; an
  empty section and a text inside a section print what they mean exactly if the
  names differ or the outer section has at most one pass
  (`NameClash.NestingPreservedExactly`). An inner foreach overwrites the total of
  an outer one; the outer total in front of an empty foreach prints what it means
  exactly if the names differ, the outer array has at most one entry, or both
  arrays have the same size (`ForeachClash.ForeachNestingExactly`).
* The stack accepts several else tags on one section or foreach, but the
  emitted PHP is then not properly nested: `Emission.NestedExactly`.
* A quote as CSV separator, and a newline between two or more columns, do not
  round trip: `CsvImport.SeparatorCondition` is the exact condition.
* With `read_hidden` on, the header `[.]` opens section `0`, because in PHP 5 the
  `substr` of a one-character string from 1 is false: `ConfigLaws.DotSection`.
  No other header changes its name (`ConfigLaws.OpensOwnSection`).
* What `output_c_string` writes for a string with a double quote does not come back
  as the argument of a command: the argument is cut in front of the escaped quote
  and ends in its backslash. `CStrings.ArgumentComesBack` shows that all other
  strings come back.

## Model

| member | source | states |
|---|---|---|
| SectionLoop.SectionSafeAndExact | web/service/movie_upload/libs/Smarty_Compiler.class.php:1101-1145 | For all attribute values, the emitted loop visits what it should: its indices lie in [0, loop) and are pairwise distinct; it stops only because total equals max or the next index leaves [0, loop), and has no pass at all if the section is not to be shown. Where it begins is said by BeginsWhere |
| SectionLoop.TotalExact | web/service/movie_upload/libs/Smarty_Compiler.class.php:1125-1134 | The emitted total is the number of indices an independently defined walk from the start of the record visits, and the section is shown exactly when it visits one; PlanExactly and BeginsWhere say the same from the attributes |
| SectionLoop.ShortcutTotal | web/service/movie_upload/libs/Smarty_Compiler.class.php:1126-1129 | The total emitted when start, step and max are absent equals the general formula |
| SectionLoop.PlanExactly | web/service/movie_upload/libs/Smarty_Compiler.class.php:1067-1134 | From the attributes alone: the number of entries, the step (0 is 1), the maximum (a negative one is none), and the indices, which go from the start by the step inside [0, entries) for as long as that and the maximum allow, unless the section is not to be shown |
| SectionLoop.BeginsWhere | web/service/movie_upload/libs/Smarty_Compiler.class.php:1113-1122 | For all attributes: a start from -entries to -1 gives the record and the plan of the start counted from the end; one inside begins there; further off, a section towards the entries begins at the near end and one away from them visits nothing; without a start it begins at 0 or at the last entry |
| TagMachine.TagCompiler.PushTag | web/service/movie_upload/libs/Smarty_Compiler.class.php:2298-2301 | One entry goes on the tag stack |
| TagMachine.TagCompiler.PopTag | web/service/movie_upload/libs/Smarty_Compiler.class.php:2309-2339 | The recursive pop terminates on the height of the stack, and pops and reports what the stack function says, None being the mismatch error |
| TagMachine.TagCompiler.PushCacheableState | web/service/movie_upload/libs/Smarty_Compiler.class.php:2266-2275 | Only the first open uncached plugin writes a marker, with the current number |
| TagMachine.TagCompiler.PopCacheableState | web/service/movie_upload/libs/Smarty_Compiler.class.php:2284-2291 | Only the last one closed writes the closing marker, with the same number, and then counts up |
| TagMachine.TagCompiler.CompileTag | web/service/movie_upload/libs/Smarty_Compiler.class.php:464-594 | One tag changes stack, strip depth, newline, no-cache counter and number, and emits its code and its markers, exactly as the step function says, for which MarkersExactly says which markers these are; None is a fatal error |
| TagMachine.TagCompiler.CompileTags | web/service/movie_upload/libs/Smarty_Compiler.class.php:307-319 | The tag loop computes the fold of the step, and rejects if a tag is still open |
| TagGrammar.AcceptedExactly | web/service/movie_upload/libs/Smarty_Compiler.class.php:309-319 | Tags compile without an error and with an empty stack if and only if they are the text of a tree of the block grammar: if with elseifs and at most one else, section and foreach with any number of else tags, strip, named block plugins |
| TagStack.CloseOwnBlock | web/service/movie_upload/libs/Smarty_Compiler.class.php:2309-2333 | A fitting closing tag removes exactly the entries of its own block, leaves everything below, and reports the else of a loop if there was one |
| TagStack.CloseOtherBlock | web/service/movie_upload/libs/Smarty_Compiler.class.php:2309-2339 | Any other closing tag is a mismatch |
| TagStack.BlockKeepsStack | web/service/movie_upload/libs/Smarty_Compiler.class.php:464-594 | The text of every tree is accepted on every stack and leaves it as it was |
| TagStack.StrayRejected | web/service/movie_upload/libs/Smarty_Compiler.class.php:511-530 | A section or foreach else outside of its loop is accepted where it stands, but no continuation brings the stack back to empty |
| TagGrammar.BuildTree | web/service/movie_upload/libs/Smarty_Compiler.class.php:309-319 | From every accepted continuation a tree can be read back whose text is exactly the tags |
| Emission.TreeCompiles | web/service/movie_upload/libs/Smarty_Compiler.class.php:464-594 | Compiling the text of a tree succeeds in every state, keeps the stack, and emits the code of the tree |
| Emission.NestedExactly | web/service/movie_upload/libs/Smarty_Compiler.class.php:507-538 | PHP's alternative syntax nests the emitted tokens if and only if no section or foreach has two else tags, and the result is then the program of the tree |
| Printing.CompiledSharesRecords | web/service/movie_upload/libs/Smarty_Compiler.class.php:464-538 | For every tree of if, section and foreach (at most one else per loop), whatever the loops are called and however they are nested, and every environment: the compiled code prints what evaluation with shared loop records prints; output and environment are those the tree means if and only if that evaluation is its meaning, and the output is if and only if it has the same output |
| Printing.CompilationPreservesMeaning | web/service/movie_upload/libs/Smarty_Compiler.class.php:464-538 | For every such tree whose nested loops are named apart, which SectionNamesExactly and ForeachNamesExactly show to be needed, and every environment, running the emitted PHP prints what evaluating the tree prints and leaves the same environment |
| Printing.PluginBlockCompiles | web/service/movie_upload/libs/Smarty_Compiler.class.php:731-756 | The tags of a block plugin around any tree with at most one else per loop become the two ends of its block around the program of the tree |
| LoopViews.IfDoes | web/service/movie_upload/libs/Smarty_Compiler.class.php:464-505 | For all conditions, outputs and environments, compiled code of if, elseif and else prints the output behind the first condition that holds, and changes nothing |
| LoopViews.CallDoes | web/service/movie_upload/libs/Smarty_Compiler.class.php:813-826 | A function plugin prints its output, and what comes behind it sees the variables it leaves |
| LoopViews.SectionDoes | web/service/movie_upload/libs/Smarty_Compiler.class.php:1101-1145 | For every section around plain output: the compiled code prints the output once for each index of the plan, with index, iteration, row number, neighbouring indices, first and last as they are in that pass, or the output of the else part if there is none; and what record is left |
| LoopViews.NeighbouringPasses | web/service/movie_upload/libs/Smarty_Compiler.class.php:1142-1143 | index_prev and index_next are the indices of the neighbouring passes |
| LoopViews.ForeachDoes | web/service/movie_upload/libs/Smarty_Compiler.class.php:1159-1206 | The same for every foreach, over null, a single value or an array, with or without key and name: item, key, total and iteration as they are in each pass, and what is left behind |
| Sharing.SharedIsMeant | web/service/movie_upload/libs/Smarty_Compiler.class.php:1101-1206 | Where nested loops are named apart, evaluation with shared records is the meaning of the tree |
| Sharing.BlockKeepsOrSpends | web/service/movie_upload/libs/Smarty_Compiler.class.php:1137-1145 | Whatever a tree contains, running it keeps the record of a section, or leaves it so that every loop on it is over, and takes no foreach counter away |
| Meaning.SetupIsPlan | web/service/movie_upload/libs/Smarty_Compiler.class.php:1101-1134 | The section record the emitted code sets up has the plan's total, and its plan goes from the start of the record by the step inside [0, loop); PlanExactly and BeginsWhere say which plan that is |
| Meaning.BlockFrame | web/service/movie_upload/libs/Smarty_Compiler.class.php:1137-1145 | A tree does not touch the loop records of sections and foreachs around it that it may not name |
| NameClash.SectionPreservedExactly | web/service/movie_upload/libs/Smarty_Compiler.class.php:1054-1145 | For a section whose body is itself named apart, but in which sections of the section's own name may occur at any depth: the output is the tree's if and only if the passes behind the first one that runs such a section have no output |
| NameClash.NestingPreservedExactly | web/service/movie_upload/libs/Smarty_Compiler.class.php:1054-1145 | For all names, attributes, texts and environments: an empty section and a non-empty text inside a section print what they mean if and only if the names differ or the outer section has at most one pass |
| NameClash.SectionNamesExactly | web/service/movie_upload/libs/Smarty_Compiler.class.php:1054-1145 | All such nestings of two sections keep their meaning if and only if their names differ |
| NameClash.SameNameChangesMeaning | web/service/movie_upload/libs/Smarty_Compiler.class.php:1054-1145 | The input on which it fails: two outer passes around a section of the same name with one, in every environment |
| ForeachClash.ForeachPreservedExactly | web/service/movie_upload/libs/Smarty_Compiler.class.php:1159-1206 | An instance, for a foreach with any body: all its passes are printed, each with the counter the pass before has left, and the output is the tree's if and only if the two texts agree |
| ForeachClash.ForeachNestingExactly | web/service/movie_upload/libs/Smarty_Compiler.class.php:1159-1206 | For all names and outer arrays and any inner array of a fixed size: the outer total, written so that numbers can be told apart, in front of an empty foreach keeps its meaning if and only if the names differ, the outer array has at most one entry, or the sizes are equal |
| ForeachClash.ForeachNamesExactly | web/service/movie_upload/libs/Smarty_Compiler.class.php:1159-1206 | All such nestings of two foreachs keep their meaning if and only if their names differ |
| ForeachClash.SameForeachNameChangesMeaning | web/service/movie_upload/libs/Smarty_Compiler.class.php:1159-1206 | The input on which it fails: two outer entries around a foreach of the same name over one entry |
| Regions.RunKeepsRegions | web/service/movie_upload/libs/Smarty_Compiler.class.php:540-556 | Over every run: strip depth is the number of strip entries on the stack, the no-cache counter the number of open uncached plugins and never negative; markers strictly alternate, both ends of a no-cache region carry one number, and the numbers count up by one |
| Regions.CompiledRegionsClosed | web/service/movie_upload/libs/Smarty_Compiler.class.php:2266-2291 | A compiled template numbers its no-cache regions 0, 1, 2, ... and closes all of them and all strip regions |
| Caching.MarkersExactly | web/service/movie_upload/libs/Smarty_Compiler.class.php:2266-2291 | For every accepted template and every tag of it: with no uncached block open, an uncached function has the two ends of a region around its code, with the number of regions before; the outermost uncached block has one at each of its tags; no other tag has any |
| Caching.UncachedExactly | web/service/movie_upload/libs/Smarty_Compiler.class.php:810-826 | The code of a tag stands inside a no-cache region if and only if the tag is a function registered as uncached, a tag of a block registered so, or inside such a block |
| StripPass.StripRegions | web/service/movie_upload/libs/Smarty_Compiler.class.php:321-350 | The pass rewrites each text inside an outermost strip region exactly once, leaves all others unchanged, and leaves no marker |
| StripPass.StripRegion | web/service/movie_upload/libs/Smarty_Compiler.class.php:332-348 | The inner loop rewrites the texts behind the opening marker through the closing one, and stops there |
| StripPass.StripFrom | web/service/movie_upload/libs/Smarty_Compiler.class.php:325-349 | A whole region: its two markers are gone and its texts rewritten, everything passed before stays as it is |
| StripPass.AcceptedIsBalanced | web/service/movie_upload/libs/Smarty_Compiler.class.php:540-556 | Every accepted template hands the pass balanced markers, which is what it requires |
| StripPass.StrippedPrints | web/service/movie_upload/libs/Smarty_Compiler.class.php:329-340 | With PHP's functions, a text inside a region becomes one echo of a literal that ends where the echo does, and what PHP reads from it are the lines of the text put together without the blanks at their ends, trimmed at the ends of the region, on one line |
| LineJoining.JoinLinesIsTogether | web/service/movie_upload/libs/Smarty_Compiler.class.php:335-335 | Deleting every match of the pattern is, for every text: cut it at the line ends, drop the blanks at the end of every line but the last and in front of every line but the first, put the lines together |
| StripPass.UnquoteEscape | web/service/movie_upload/libs/Smarty_Compiler.class.php:340-340 | Read up to its first quote that is not escaped, the written literal ends at its closing quote, whatever follows, and is the text that was escaped |
| LineJoining.JoinLinesJoins | web/service/movie_upload/libs/Smarty_Compiler.class.php:335-335 | No line end is left in a joined text |
| LineJoining.JoinLinesKeepsLine | web/service/movie_upload/libs/Smarty_Compiler.class.php:335-335 | A text without line ends is kept, blanks included |
| StripPass.InsideExactly | web/service/movie_upload/libs/Smarty_Compiler.class.php:325-349 | A text is inside exactly if an opening marker stands in front of it with no marker in between |
| LineJoining.JoinedAwayExactly | web/service/movie_upload/libs/Smarty_Compiler.class.php:335-335 | In front of something visible, joining deletes a character exactly if it ends a line; in front of a line end, exactly if it is a blank or tab or ends a line |
| StripPass.TrimmedExactly | web/service/movie_upload/libs/Smarty_Compiler.class.php:329-338 | Trimming takes away exactly blanks, tabs, line ends, the zero byte and the vertical tab |
| StripPass.MarkersLeave | web/service/movie_upload/libs/Smarty_Compiler.class.php:325-349 | Nothing is left of the opening marker, and a line end of the closing one |
| IfRewriter.CompileIfTokens | web/service/movie_upload/libs/Smarty_Compiler.class.php:1267-1414 | The scan over a token list it splices itself terminates on every list it can terminate on, and computes the rewriting function, errors included, of which PlainConditionExactly and PlacesMean say what it means |
| IfRewriter.ReplaceTest | web/service/movie_upload/libs/Smarty_Compiler.class.php:1362-1392 | The `is` case, a leading `is` with its position -1 included, replaces the operand and the test by one token, or fails, as the step function says |
| IfTokens.StepShrinks | web/service/movie_upload/libs/Smarty_Compiler.class.php:1282-1414 | Each iteration lowers a measure, count(tokens) - i or how soon a leading `is` must fail, although the list is spliced under the loop, on every list that does not loop |
| IfRewriter.ConditionRewritten | web/service/movie_upload/libs/Smarty_Compiler.class.php:1280-1414 | A condition of plain tokens and `is` tests on one token, on another test or on a group, nested as one likes, becomes its item-by-item rewriting, which PlacesMean and TestMeans show to mean the same, if and only if in no group that is tested there is an opening parenthesis but for those of further tests: closing ones never leave the stack of operand starts |
| IfRewriter.GroupExactly | web/service/movie_upload/libs/Smarty_Compiler.class.php:1358-1377 | So a test on a group anywhere in a condition, with or without a function name, becomes one token for the whole group if and only if there is no opening parenthesis inside |
| IfRewriter.TargetLength | web/service/movie_upload/libs/Smarty_Compiler.class.php:1362-1392 | That rewriting has one token per item, in order: each test exactly one, every other token respelled or compiled in its place |
| Operators.PlainConditionExactly | web/service/movie_upload/libs/Smarty_Compiler.class.php:1267-1414 | For every token list without `is`: it is an error exactly if it is empty, has opening parentheses but not as many closing ones, or has a bad token or a call of a variable; otherwise there is one token for each, and each of the thirteen words becomes a symbol that computes for all integers what its author means by the word |
| Operators.PlacesMean | web/service/movie_upload/libs/Smarty_Compiler.class.php:1280-1414 | In conditions with tests as well, each token that is not part of a test means the same in its place behind the rewriting |
| Operators.TestMeans | web/service/movie_upload/libs/Smarty_Compiler.class.php:1463-1515 | For every test, negated or not, with or without a divisor, and all integers: its words and no others are used up, and the code written for it is true exactly if the number, or its quotient, is even or odd, or is divisible by the divisor |
| Operators.TestsExactly | web/service/movie_upload/libs/Smarty_Compiler.class.php:1463-1515 | A test is recognised exactly if an optional `not` in small letters is followed by even, odd, or div and by |
| IfTokens.ParseIsWords | web/service/movie_upload/libs/Smarty_Compiler.class.php:1463-1515 | The words `is [not] kind [by arg]` are recognised as such in front of anything that cannot be mistaken for their continuation, and exactly they are used up |
| IfRewriter.FindOperand | web/service/movie_upload/libs/Smarty_Compiler.class.php:1362-1374 | The operand begins at the token before `is`, or at the opening parenthesis noted last, or at the function name in front of that; in front of the first token it is -1 |
| IfRewriter.HaltsExactly | web/service/movie_upload/libs/Smarty_Compiler.class.php:1362-1392 | For every token list the scan ends, with a result or a syntax error, if and only if the list does not begin with `is`, an optional `not`, a kind and, for `div`, `by`, and at least one more token |
| IfRewriter.LeadingIsDiverges | web/service/movie_upload/libs/Smarty_Compiler.class.php:1362-1392 | So the scan stops on every continuation of a first token if and only if that token is not `is` |
| Csv.OutputCsv | cpp/lib/SQLite3/SQLite3/source/shell.c:628-657 | The loop writes a field, plainly or quoted with its quotes doubled, and the separator behind it if wanted; FieldExactly says when it is quoted |
| Csv.FieldExactly | cpp/lib/SQLite3/SQLite3/source/shell.c:604-657 | For every field and separator: the field is written as it is if and only if it is not empty and all its bytes are from 33 to 126, none of them a quote, an apostrophe or the separator; otherwise it is written between quotes |
| Csv.OutputRow | cpp/lib/SQLite3/SQLite3/source/shell.c:815-828 | A row is its fields with separators between them and a newline |
| Csv.LocalGetline | cpp/lib/SQLite3/SQLite3/source/shell.c:338-379 | Reading in chunks into a growing buffer gives the line up to the first newline outside quotes (in CSV mode), without its line end, and the rest of the input; chunk borders do not show |
| Csv.LineRead | cpp/lib/SQLite3/SQLite3/source/shell.c:338-379 | A line without quotes is read up to its newline; one carriage return in front of that goes with it, and nothing else |
| Csv.ToggleQuotes | cpp/lib/SQLite3/SQLite3/source/shell.c:366-369 | The quote state after the bytes of a chunk |
| CsvBuffer.CutColumns | cpp/lib/SQLite3/SQLite3/source/shell.c:1915-1927 | The in-place cutting loop leaves the columns as zero-terminated texts and notes where each begins |
| CsvBuffer.DequoteColumn | cpp/lib/SQLite3/SQLite3/source/shell.c:1938-1945 | The in-place dequoting loop turns one column into its dequoted text, never overtakes its own reading, and changes nothing outside of the column |
| CsvBuffer.BindColumns | cpp/lib/SQLite3/SQLite3/source/shell.c:1937-1947 | The bound texts are the dequoted columns |
| CsvFile.ImportBuffer | cpp/lib/SQLite3/SQLite3/source/shell.c:1914-1947 | One line becomes its row, or an error if the number of columns is wrong |
| CsvFile.ImportFile | cpp/lib/SQLite3/SQLite3/source/shell.c:1910-1957 | The reading loop computes the import of the whole file, None being its error exit |
| CsvFile.WriteAndImport | cpp/lib/SQLite3/SQLite3/source/shell.c:1910-1957 | The writer's loops and the in-place reading loop in sequence: every table of C strings comes back unless the separator is one of those two, and otherwise what is imported is the import of its text |
| CsvFile.RowsNulFree | cpp/lib/SQLite3/SQLite3/source/shell.c:815-828 | The written text of C strings has no zero byte, which is what the reader requires |
| CsvImport.CsvRoundTrip | cpp/lib/SQLite3/SQLite3/source/shell.c:1910-1947 | For every table and every one-byte separator but a double quote or newline, writing the table and importing it gives back exactly the same fields, embedded quotes, separators and newlines included |
| CsvImport.SeparatorCondition | cpp/lib/SQLite3/SQLite3/source/shell.c:628-657 | All tables of a width survive if and only if the separator is not the quote, and not the newline unless there is one column |
| CsvImport.DequoteField | cpp/lib/SQLite3/SQLite3/source/shell.c:1938-1945 | Dequoting undoes the quoting of a field |
| CsvImport.SplitJoined | cpp/lib/SQLite3/SQLite3/source/shell.c:1915-1927 | Splitting a written row gives back its quoted fields |
| CsvImport.GetLineOfRow | cpp/lib/SQLite3/SQLite3/source/shell.c:338-379 | Reading a written row consumes exactly that row, newlines in fields included |
| CsvImport.PlainLineImported | cpp/lib/SQLite3/SQLite3/source/shell.c:1910-1947 | For every line without quotes: its fields are imported as they are, blanks and empty ones included, if there are as many as columns, and otherwise it is an error |
| CsvImport.QuoteGivesWay | cpp/lib/SQLite3/SQLite3/source/shell.c:1938-1945 | In a quoted column a quote gives way to the byte behind it, whatever that is, and the last one just goes |
| CStrings.OutputCString | cpp/lib/SQLite3/SQLite3/source/shell.c:538-564 | The text in quotes with every byte escaped as its class requires |
| CStrings.ResolveBackslashes | cpp/lib/SQLite3/SQLite3/source/shell.c:1508-1535 | The in-place loop decodes the buffer as the pure decoder does, its write index never passing its read index, and touches nothing behind the string |
| CStrings.SpelledExactly | cpp/lib/SQLite3/SQLite3/source/shell.c:538-564 | Every byte as it is written: tab, newline, carriage return, double quote and backslash behind a backslash, other printable ones as they are, the rest as a backslash and the three octal digits of its number |
| CStrings.OctalRead | cpp/lib/SQLite3/SQLite3/source/shell.c:1521-1531 | One, two or three octal digits behind a backslash are read as their number, of which the low 8 bits are kept |
| CStrings.EscapeRead | cpp/lib/SQLite3/SQLite3/source/shell.c:1508-1535 | Any other byte behind a backslash stands for itself, but for n, t and r |
| CStrings.ResolveEscape | cpp/lib/SQLite3/SQLite3/source/shell.c:1508-1535 | Un-escaping the body written by output_c_string restores every string |
| CStrings.EscapeAndResolve | cpp/lib/SQLite3/SQLite3/source/shell.c:538-564 | Writer and in-place reader in sequence restore the string in the buffer |
| CStrings.CutArgument | cpp/lib/SQLite3/SQLite3/source/shell.c:1620-1625 | A quoted argument ends in front of the next quote, escaped or not |
| CStrings.ArgumentComesBack | cpp/lib/SQLite3/SQLite3/source/shell.c:1619-1626 | What output_c_string has written, cut as an argument and un-escaped, is the string if and only if it has no double quote; otherwise the argument ends in a backslash with nothing behind it |
| CStrings.WriteAndCut | cpp/lib/SQLite3/SQLite3/source/shell.c:1619-1626 | Writer, cut and in-place reader in sequence: the string comes back exactly in that case |
| Quoting.OutputQuotedString | cpp/lib/SQLite3/SQLite3/source/shell.c:508-533 | The chunked loop, fast path and slow path alike, writes the quoted text with every single quote doubled |
| Quoting.UnquoteQuote | cpp/lib/SQLite3/SQLite3/source/shell.c:508-533 | Un-doubling the body of a quoted text gives the text back |
| Quoting.SizeOfAppend | cpp/lib/SQLite3/SQLite3/source/shell.c:919-928 | The first pass counts the bytes of the result, with its zero byte |
| Quoting.AppendText | cpp/lib/SQLite3/SQLite3/source/shell.c:916-951 | The buffer of that size is filled to its last byte with the prior text, the quoted and doubled argument, and a zero byte |
| Quoting.DumpQuoting | cpp/lib/SQLite3/SQLite3/source/shell.c:1322-1326 | The two layers of quoting around a table name are undone layer by layer to the name |
| Quoting.SizeOfName | cpp/lib/SQLite3/SQLite3/source/shell.c:885-892 | The first pass decides whether to quote and counts the bytes |
| Quoting.CallbackData.SetTableName | cpp/lib/SQLite3/SQLite3/source/shell.c:875-906 | The stored name is the identifier itself or the quoted name, in a buffer of exactly the counted size |
| Quoting.TableNameReads | cpp/lib/SQLite3/SQLite3/source/shell.c:875-906 | A quoted table name reads back as the name, an identifier is kept |
| Quoting.NameExactly | cpp/lib/SQLite3/SQLite3/source/shell.c:875-906 | For all names: stored as it is exactly if it is a letter or underscore and then letters, digits and underscores; otherwise between single quotes |
| Quoting.AppendedExactly | cpp/lib/SQLite3/SQLite3/source/shell.c:916-951 | Without a quote the text is appended as it is, and otherwise between quotes, plainly if it has none itself |
| AllWhitespace.IsAllWhitespace | cpp/lib/SQLite3/SQLite3/source/shell.c:2598-2617 | The nested scanning loops terminate, do not pass the terminator, and compute the recogniser |
| AllWhitespace.AcceptsExactly | cpp/lib/SQLite3/SQLite3/source/shell.c:2598-2617 | The recogniser accepts exactly the texts made of whitespace, closed block comments and line comments, of which only the last may lack its newline |
| AllWhitespace.OneByteExactly | cpp/lib/SQLite3/SQLite3/source/shell.c:2598-2617 | A text of one byte is white space exactly if that is a blank, tab, newline, carriage return, vertical tab or form feed |
| TableLayout.PrintTables | cpp/lib/SQLite3/SQLite3/source/shell.c:2377-2394 | The loops print the listing line by line, and the places on its lines are every index in [0, nRow) exactly once |
| TableLayout.CountLines | cpp/lib/SQLite3/SQLite3/source/shell.c:2385-2387 | Enough lines for all entries with nPrintCol on each, and one line fewer would not be enough |
| TableLayout.PrintedIsPermutation | cpp/lib/SQLite3/SQLite3/source/shell.c:2388-2394 | The strided loops print every index in [0, nRow) exactly once |
| TableLayout.LinesArePlaces | cpp/lib/SQLite3/SQLite3/source/shell.c:2388-2394 | The printed lines are the entries at the strided places, which put together are the printed order |
| TableLayout.ColumnsFit | cpp/lib/SQLite3/SQLite3/source/shell.c:2385-2386 | The number of columns is the largest whose entries, two blanks between them, fit into 80 characters, and one for longer names |
| TableLayout.StridedAt | cpp/lib/SQLite3/SQLite3/source/shell.c:2389-2392 | The c-th entry of a line is c line-counts after its first, and the line stops at the last index |
| TableLayout.LineWidth | cpp/lib/SQLite3/SQLite3/source/shell.c:2389-2392 | The exact width of a line |
| TableLayout.LayoutFits | cpp/lib/SQLite3/SQLite3/source/shell.c:2377-2394 | For every list of names: each printed once, a line is the entries at its strided places, no line has more than nPrintCol entries, and none is wider than 78 characters unless the longest name is |
| TableLayout.CellExactly | cpp/lib/SQLite3/SQLite3/source/shell.c:2389-2392 | For every entry: at the left of its column, padded with blanks to the width, two blanks behind the column before |
| TableLayout.MaxLenExactly | cpp/lib/SQLite3/SQLite3/source/shell.c:2381-2384 | The width of a column is the length of the longest name, and 0 without names |
| ConfigParser.SetConfigVar | web/service/movie_upload/libs/Config_File.class.php:352-379 | Stores a value in the container it is given as the pure store does: hidden and badly named variables are dropped, booleans converted, values overwritten or accumulated |
| ConfigParser.ConfigData.Attach | web/service/movie_upload/libs/Config_File.class.php:307-309 | A new section starts empty, a known one is reopened, and the reference is to its table |
| ConfigParser.ConfigData.Detach | web/service/movie_upload/libs/Config_File.class.php:299-302 | After a hidden header nothing that is stored reaches the result |
| ConfigParser.ConfigData.OpenSection | web/service/movie_upload/libs/Config_File.class.php:292-311 | A header moves the reference as the fold does |
| ConfigParser.ConfigData.Assign | web/service/movie_upload/libs/Config_File.class.php:337-337 | An assignment through the aliased reference changes the table of the current section and no other |
| ConfigParser.CollectLines | web/service/movie_upload/libs/Config_File.class.php:318-328 | The inner loop gathers a multiline value and stops on the line of its closing quotes, or behind the last line |
| ConfigParser.ReadEvent | web/service/movie_upload/libs/Config_File.class.php:289-338 | The line at i says what the lexing function finds there, and the loop goes on behind the lines it took; AssignmentRead, HeaderRead, CommentIgnored and MultilineRoundTrip say what lines mean |
| ConfigParser.ParseContents | web/service/movie_upload/libs/Config_File.class.php:271-342 | The loop with its aliased reference refines the fold over the events of the file, consumes each line once and terminates; what the events are is said by AssignmentRead, SectionRead, CommentIgnored and MultilineRoundTrip |
| ConfigLaws.ParsedTables | web/service/movie_upload/libs/Config_File.class.php:282-341 | Each table holds exactly the assignments whose most recent header names it, in order; lines before any header go to the globals; the sections are those some header names |
| ConfigLaws.RepeatedNames | web/service/movie_upload/libs/Config_File.class.php:366-378 | Overwriting keeps the last value of each name; accumulating keeps a single value or the ordered list of two or more, booleans included |
| ConfigLaws.ParsedValues | web/service/movie_upload/libs/Config_File.class.php:282-379 | For every file, section and name: the stored value is the last one assigned under that section, or the single value or ordered list of all of them, as overwriting is on or off; nothing is stored under a name that is not assigned |
| ConfigLaws.OpensOwnSection | web/service/movie_upload/libs/Config_File.class.php:292-311 | A file with one header, for every name without a bracket or line end, parses to just the section of that name, its dot removed, if and only if the name is not a dotted one with read_hidden off or a single dot |
| ConfigLaws.DotSection | web/service/movie_upload/libs/Config_File.class.php:292-311 | A file with the one line `[.]` parses to the empty section `0` with read_hidden on, and to nothing with it off |
| ConfigHidden.HiddenIrrelevant | web/service/movie_upload/libs/Config_File.class.php:292-338 | With read_hidden off, deleting every dot-named assignment with its multiline body and every dot-named section up to the next header leaves the configuration unchanged |
| ConfigHidden.HiddenIsDeletion | web/service/movie_upload/libs/Config_File.class.php:292-338 | read_hidden off on a file equals read_hidden on after that deletion: no hidden name is left |
| ConfigHidden.SplitIsProper | web/service/movie_upload/libs/Config_File.class.php:286-287 | The lines of a file put together are the file, and only the last may lack its newline |
| ConfigHidden.SplitJoin | web/service/movie_upload/libs/Config_File.class.php:286-287 | Lines of that shape, put together and split, are the same lines |
| ConfigMultiline.MultilineRoundTrip | web/service/movie_upload/libs/Config_File.class.php:313-329 | Printing name = """value""" and parsing it returns the value unchanged and unbooleanized if and only if it has no triple double quote inside, no double quote at its end, and no carriage return when fix_newlines is on |
| ConfigMultiline.CollectText | web/service/movie_upload/libs/Config_File.class.php:318-328 | Gathering line by line gives the text before the first closing quotes and uses up their line |
| PlainValues.AssignmentRead | web/service/movie_upload/libs/Config_File.class.php:313-338 | For every name, value, white space and line end: the file `name = value` holds exactly that variable; its value is the text in matching quotes, or as it is, without the white space around it, and a truth value exactly if booleans are on and it is on, true, yes, off, false or no in any case; names that begin with a digit, and hidden ones while these are not read, are dropped |
| PlainValues.SectionRead | web/service/movie_upload/libs/Config_File.class.php:292-338 | The same behind a header: the variable is in the section of that name, and nothing else is anywhere |
| PlainValues.HeaderRead | web/service/movie_upload/libs/Config_File.class.php:292-311 | A header is what is between the brackets, up to the first closing one; the rest of its line does not matter |
| PlainValues.CommentIgnored | web/service/movie_upload/libs/Config_File.class.php:313-340 | A line whose first visible character is no letter, digit, underscore, dot or bracket says nothing |
| PlainValues.StoredAgain | web/service/movie_upload/libs/Config_File.class.php:352-379 | A further value of a variable replaces the ones before, or is put behind them |
| PlainLines.FixesEnds | web/service/movie_upload/libs/Config_File.class.php:273-276 | Each carriage return with a newline, and each without, becomes one newline, and everything else stays |

## Left out

- TagMachine.TagCompiler.CompileTag: does not model line numbers, which only show in error messages; a fatal syntax error is the result None.
- Printing.CompiledSharesRecords: gives strip and plugin blocks no meaning, because what they print is decided by the strip pass on text blocks and by plugin code; the other tags are covered.
- IfRewriter.CompileIfTokens: requires that the list is not one of those on which the scan never ends, since the method would not return there; HaltsExactly says which these are, and a list the parentheses check rejects needs nothing.
- CStrings.ResolveBackslashes: requires that no unpaired backslash ends the string; the source reads past the terminator there.
- CsvImport.CsvRoundTrip: one-byte separators and fields that are not NULL, because NULL is written as a text of its own; the methods are about C strings, without zero bytes.
- StripPass.StripRegions: is stated for any functions on texts in place of PHP's; StrippedPrints is the instance with PHP's own.
- ConfigParser.ParseContents: the patterns are functions on characters with PHP 5 and the C locale; the order of keys in a PHP array and the warning about a bad name are not modelled.
- Lexing of tags, variables, modifiers and attributes by regular expressions: tags and tokens are taken as lexed, and an expression is an arbitrary function of the environment.
- The attribute expressions of a section are all evaluated when its record has been unset and before any property of the new one is stored, so they do not see the section's own earlier properties.
- Section arithmetic is over unbounded integers; PHP's overflow to floating point is not modelled.
- A block plugin with the name of a control word, capture tags, registered objects, insert, include, php and literal tags, and compiler plugins.
- foreach over an object, and assignments a plugin makes to loop records.
- Security switches of the if-tag, plugin loading, filters, template caching and the files they need.
- Columns whose value is NULL in CSV output, multi-byte separators, and bytes of 128 and more as printable characters.
- The calls into the SQLite library around `.import` and `.tables`, terminal input, and out-of-memory exits.
- Memory is never exhausted: growing the line buffer of local_getline always succeeds.
