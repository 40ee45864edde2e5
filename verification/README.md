# A verified model of the developer guide's cJSON, CAS and bulk examples

The repository collects example programs. Four of them carry logic of their own, and this project models
those in Dafny and proves what they are for:

* **cJSON** (`c/bincoding/cJSON.c`): the parser, the printer, the node allocator with its pools, deletion, and
  the operations on child lists. The text level (`NumberText`, `StringText`, `Parser`, `Grammar`, `Cuts`,
  `OddStrings`, `Printer`, `RoundTrip`) is functions over strings with the grammar of RFC 8259 beside them. The memory level
  (`Memory`, `Heaps`, `Trees`, `HeapTrees`, `HeapParser`, `ChildLists`, `ListSeries`, `ObjectKeys`,
  `Subtrees`, `Contents`, `Creation`, `Forests`, `Programs`, `BufferPrinter`) is the code: a class `Heap` whose fields are the nodes, strings and pools in use,
  methods with the loops and stores of the C functions, and char arrays for the buffers. Every method is proved
  against the text level or against a tree of nodes (`Trees.Tree`) whose child lists are sequences.
* **Optimistic concurrency**: adding to a shared list with unbounded retries (`CasList`, for C, Java and Python),
  with a budget and create-if-missing (`CasBudget`, for PHP), and counting with a budget (`CasCounter`) and
  without compare-and-swap (`PlainCounter`, for .NET). The server is a document with a version that is new
  after every mutation; the clients take atomic steps in any order, given by a schedule, in any number. The
  retry loops themselves are methods of the classes `Program`, in which the other clients may take any turns
  before every operation; they are proved to do what the steps say.
* **The windowed driver** of `nodejs/bulkES6.js` (`WindowDriver`).
* **The profile codec** of `c/bincoding/bincoding.c` (`Base64`, `Profiles`, `ProfileCode`), and the list kept as
  a text by `c/cas.cc` (`StringList`).

Main results, in a sentence each:

* Every text of the grammar of RFC 8259 is parsed in full to the value it denotes, strings being C strings: one
  comes out unchanged exactly if it holds no `\u0000`. What the printer writes is such a text; hence printing and
  parsing, in either format, at any depth and before any text that does not go on as a number, give the tree
  back, exactly if no string holds a byte that printing drops.
* The parser builds exactly that tree in memory, in a pool of its own; if it fails, memory is as before.
* In every state a pool's reference count is the number of its live nodes, free and live slots together
  fill its blocks, and the pool goes exactly with its last live node. Deletion gives back what the tree owns,
  each node once, children first, and nothing that a reference borrows.
* Whole programs on documents: any series of parse, create, append, detach, replace and delete calls, by position
  and by key, on lists at any depth and with detached items that outlive their documents, does to the nodes in
  memory what the same series does to a sequence of JSON documents, and keeps all trees well linked and apart;
  every pool made on the way is in use exactly as long as one of its nodes is held, and is destroyed once; and
  deleting what is left brings nodes, strings and pools back to what they were, but for one string for every
  replacement by key that overwrote a name.
* Child lists behave as sequences under any series of append, detach, replace and delete calls, detached items
  going in again as new ones; exactly the deleted subtrees are given back; keyed operations act on the first
  match of a case-insensitive equivalence.
* Every write of the printer lies in the buffer it allocated, and the unused rest has an exact size.
* No update is lost under compare-and-swap; failures are bounded, the bounds are met, and every run ends; PHP's
  throw is reachable exactly from 11 workers on (12 if the list is missing), a .NET increment can be lost
  exactly if the other threads make at least 101, and ten threads of a hundred increments end with 920 to 1000.
* The preload promise is fulfilled exactly if no error comes before the last document is done, and rejected
  exactly if one does; the other two loops fulfil theirs unless every lane fails.

Texts are C strings: sequences of characters without NUL. Statements about texts hold for every Dafny character,
so for all bytes. `valuedouble` is an exact real.

A parse is `Malformed`, and nothing is claimed about the code's result, exactly on the texts that `Cuts` describes.
In a string these are: a backslash that ends the text, and a `\u` with less than four bytes behind it, where the code
steps over the terminating NUL; a `\u` from which `sscanf` with `%4x` (C11 section 7.21.6.2) does not determine a code
unit, because there is no digit and no unit was read before (the variable is unset), or `0x` without a digit (C
libraries differ), or a negative number (its unsigned value depends on the width of `long`); and a second pass that
writes more bytes than the first has counted. In a number: a `.` that ends the text, where the code steps over the NUL,
or stands before a byte outside ASCII, where it depends on the sign of `char`. Every other text, odd or not, is read as
the code reads it: `\u41zz`, `\u0x41` and `\u+041` are an A, `\u0041\uzzzz` is two, and `1.x` has the digits 1 and
'x' - '0'.

## Model

| member | source | states |
|---|---|---|
| NumberText.ParseNumberComplete | c/bincoding/cJSON.c:223-260 | every number of RFC 8259 section 6, before a text that does not continue it, is read in full, to sign * (whole + fraction) * 10^exponent over the reals |
| NumberText.AccumulateDigits | c/bincoding/cJSON.c:234-252 | the accumulating digit loops, run from the front, compute the positional value of the digits |
| NumberText.ScaledValue | c/bincoding/cJSON.c:254-256 | scaling all digits together by scale plus exponent is the value of whole and fraction scaled by the exponent |
| NumberText.PrintedNumberLiteral | c/bincoding/cJSON.c:263-269 | the `%d` text of an int is a number of the RFC grammar that denotes this int |
| StringText.Utf8Decodes | c/bincoding/cJSON.c:325-346 | the bytes written for a non-surrogate code unit are UTF-8 (RFC 3629 section 3): decoding them, before any text, gives the unit and their number back |
| StringText.PassesAgree | c/bincoding/cJSON.c:294-356 | if four plain bytes follow every `\u`, the first pass over a string counts at least the bytes the second pass writes, and both stop at the same byte |
| StringText.ScanUnit | c/bincoding/cJSON.c:325-326 | four hexadecimal digits are read by `%4x` as the unit they are, whatever stands behind them and was read before |
| StringText.ParseStringNeverFails | c/bincoding/cJSON.c:284-360 | behind an opening quote a string never fails to parse: a missing closing quote is accepted |
| StringText.ParseStringComplete | c/bincoding/cJSON.c:284-360 | every string of RFC 8259 section 7, `\u0000` and surrogates included, is read in full, and stored as the bytes of its chars and code units up to the first NUL |
| StringText.StoredExactIff | c/bincoding/cJSON.c:325-353 | those are all the bytes exactly if no unit is `\u0000` |
| StringText.PrintedStringLiteral | c/bincoding/cJSON.c:363-418 | a printed string is a string of the RFC grammar that denotes the string without the dropped control bytes |
| Parser.ParseValue | c/bincoding/cJSON.c:475-506 | a value that is parsed takes at least one byte: the mutual recursion moves strictly forward |
| Parser.ParseElements | c/bincoding/cJSON.c:552-573 | so does every element of an array, with its comma or bracket |
| Parser.ParseMembers | c/bincoding/cJSON.c:654-687 | so does every member of an object |
| Grammar.ParseValueComplete | c/bincoding/cJSON.c:475-506 | parse_value reads every value of RFC 8259 sections 2 to 7 in full, to what it denotes (strings as C strings), and stops there |
| Grammar.ParseElementsComplete | c/bincoding/cJSON.c:541-574 | the same for the elements of an array with their white space |
| Grammar.ParsePairsComplete | c/bincoding/cJSON.c:643-688 | the same for the members of an object with their white space |
| Grammar.ParseComplete | c/bincoding/cJSON.c:442-462 | cJSON_Parse reads every JSON text, with white space around it and any text behind it, to what it denotes |
| Cuts.StringCutIff | c/bincoding/cJSON.c:284-360 | parse_string has no definite result exactly if one of its passes meets a cut, or the second writes more bytes than the first has counted |
| Cuts.FirstCutIff | c/bincoding/cJSON.c:294-296 | the first pass leaves the text exactly if, behind single bytes and escaped bytes, a backslash ends it |
| Cuts.SecondCutIff | c/bincoding/cJSON.c:302-355 | the second pass has no definite result exactly if, behind bytes, escapes and units, a backslash ends the text, or a `\u` has less than four bytes behind it or no unit that `%4x` determines |
| Cuts.OverrunIsUneven | c/bincoding/cJSON.c:294-356 | the measured buffer can be too small only if a quote, a backslash or a control byte is among the four bytes behind some `\u` |
| Cuts.NumberCutIff | c/bincoding/cJSON.c:237-242 | parse_number has none exactly if, behind sign and digits, a `.` ends the text or stands before a byte outside ASCII |
| Cuts.ParseCutIff | c/bincoding/cJSON.c:442-462 | cJSON_Parse has none exactly if a scan that keeps nothing but a stack of open brackets meets such a string or number |
| Cuts.ValueCut | c/bincoding/cJSON.c:475-506 | the recursive parser and the scan meet the same cuts, whatever brackets are open |
| Cuts.NumberExamples | c/bincoding/cJSON.c:237-242 | `1.` and `-.` at the end of the text have no definite result; `1.x` has the digits 1 and 'x' - '0' |
| OddStrings.OneUnit | c/bincoding/cJSON.c:325-345 | any four plain bytes from which `%4x` gets a unit are read as that unit |
| OddStrings.QuoteAmongFour | c/bincoding/cJSON.c:294-356 | a quote among the four bytes ends the first pass only: the string has a definite value, the unit and the bytes up to the next quote, exactly if they are no more than the bytes counted before it |
| OddStrings.BackslashAmongFour | c/bincoding/cJSON.c:294-345 | a backslash among the four bytes escapes nothing for the second pass |
| OddStrings.StaleUnit | c/bincoding/cJSON.c:325-345 | four plain bytes without a digit behind a unit: what the shifts have left of that unit is written once more |
| OddStrings.CutExamples | c/bincoding/cJSON.c:325-326 | strings with no definite result: one that ends in a backslash, `\u12` before a quote at the end, `\uzzzz`, `\u0xzz` |
| OddStrings.OverrunExample | c/bincoding/cJSON.c:294-356 | behind `\u800"` one more byte before the next quote fits the buffer, two do not |
| OddStrings.UnitExamples | c/bincoding/cJSON.c:325-345 | `\u41zz`, `\u0x41`, `\u+041` and `\u 041` are read as A |
| OddStrings.PartingExamples | c/bincoding/cJSON.c:294-345 | `\u12"x"` is the byte 0x12, `\u41\"x` is Ax, `\u0041\uzzzz` is AA |
| RoundTrip.PrintedTextConforms | c/bincoding/cJSON.c:509-538 | what print_value writes for a tree of null, booleans, ints, strings, arrays and objects is derivable in the RFC grammar, at any depth and in both formats |
| RoundTrip.ParsePrinted | c/bincoding/cJSON.c:465-538 | parsing a printed value followed by any text (that does not go on as a number) gives the value, less dropped bytes, and stops exactly at that text |
| RoundTrip.FormatsAgree | c/bincoding/cJSON.c:465-472 | compact and indented output parse to the same tree |
| RoundTrip.CleanString | c/bincoding/cJSON.c:382-414 | a string comes back unchanged exactly if it holds no control byte other than backspace, form feed, newline, return and tab; printing it again prints the same |
| RoundTrip.RoundTripExact | c/bincoding/cJSON.c:465-538 | a tree comes back unchanged exactly if all its strings and keys are of that kind |
| Scanner.SkipBlanks | c/bincoding/cJSON.c:434-439 | the loop of skip ends where the white space ends |
| Scanner.ScanDigits | c/bincoding/cJSON.c:234-236 | a digit loop leaves the number and the position that the specification says |
| Scanner.ScanNumber | c/bincoding/cJSON.c:223-260 | the pointer code of parse_number reads the parts of the number that the specification reads, and leaves the text exactly on a cut |
| Scanner.MeasureString | c/bincoding/cJSON.c:294-296 | the first loop of parse_string counts the bytes to allocate |
| Scanner.WriteUnit | c/bincoding/cJSON.c:327-344 | writing the bytes of a code unit from last to first leaves its UTF-8 in place, nothing before it changes, and `uc` is left shifted |
| Scanner.DecodeInto | c/bincoding/cJSON.c:302-356 | the second loop leaves the decoded string and a NUL in the buffer, unless it meets a cut or more bytes than the buffer has room for |
| Scanner.ScanString | c/bincoding/cJSON.c:284-360 | parse_string returns the string and the position of the specification, for every text on which it has a definite result, and stops on exactly the others |
| Memory.BlockConsistent | c/bincoding/cJSON.c:85-113 | a new block keeps the memory consistent: free and live slots fill all blocks, the reference count is the number of live nodes |
| Memory.TakeConsistent | c/bincoding/cJSON.c:149-164 | so does taking the first free item, which was not live |
| Memory.GiveConsistent | c/bincoding/cJSON.c:165-177 | so does pushing an item back |
| Memory.DestroyConsistent | c/bincoding/cJSON.c:136-146 | so does releasing a pool with all its slots |
| Memory.MallocConsistent | c/bincoding/cJSON.c:186-191 | so does a node from malloc |
| Memory.FreeConsistent | c/bincoding/cJSON.c:195-203 | so does its return |
| Heaps.LinkItems | c/bincoding/cJSON.c:107-110 | the loop over a new block pushes its items on the free list one by one, the last one first |
| Heaps.LastOfPool | c/bincoding/cJSON.c:170-171 | the reference count falls to zero exactly when the last live item of the pool is given back |
| Heaps.Heap.NewPool | c/bincoding/cJSON.c:116-133 | a new pool is empty and different from all others |
| Heaps.Heap.NewPoolBlock | c/bincoding/cJSON.c:85-113 | a block more, a free item at hand, no live node touched |
| Heaps.Heap.PoolNewItem | c/bincoding/cJSON.c:149-164 | a node that was not live, zero except for its pool; the pool counts one more and has grown by a block only if it was exhausted |
| Heaps.Heap.PoolFreeItem | c/bincoding/cJSON.c:165-177 | the node is live no more, no other live node changes, and the pool is destroyed exactly if it has no live node left |
| Heaps.Heap.NewItem | c/bincoding/cJSON.c:180-193 | a zeroed node from the parent's pool, or of its own |
| Heaps.Heap.FreeItem | c/bincoding/cJSON.c:195-203 | gives back the node and, with the last one, its pool; all else stays |
| Heaps.Heap.DestroyPool | c/bincoding/cJSON.c:136-146 | with its last node gone the pool and all its slots go; it was never destroyed before, and no other node or pool is touched |
| Trees.Delete | c/bincoding/cJSON.c:206-220 | on a chained list of trees: every node and every string that the list owns is given back, nothing else changes, no node is read after it was given back, and of the pools concerned exactly those without a live node go |
| Trees.DeleteNode | c/bincoding/cJSON.c:209-219 | one turn of that loop deletes one tree and leaves the rest of the list deletable |
| Trees.FreeStrings | c/bincoding/cJSON.c:213-216 | the name goes, and the valuestring unless it is borrowed |
| Trees.OrderOnce | c/bincoding/cJSON.c:206-220 | the order in which nodes are given back names every node of the list exactly once |
| Trees.RootBehindKids | c/bincoding/cJSON.c:211-217 | in that order a node follows directly on the nodes below it |
| HeapParser.ParseStringNode | c/bincoding/cJSON.c:284-360 | the node owns a new string with the decoded bytes; on failure nothing has changed |
| HeapParser.AddChild | c/bincoding/cJSON.c:560-565 | a zeroed node from the parent's pool is linked behind the last child |
| HeapParser.ParseValue | c/bincoding/cJSON.c:475-506 | returns where Parser.ParseValue says; on success the nodes below the item are that value; in every case only new nodes and strings hang below the item and all other live nodes are untouched |
| HeapParser.ParseArray | c/bincoding/cJSON.c:541-574 | the same for an array, its children doubly linked in order and without names |
| HeapParser.ParseItems | c/bincoding/cJSON.c:552-573 | the loop over the elements reads what Parser.ParseElements reads |
| HeapParser.ParseObject | c/bincoding/cJSON.c:643-688 | the same for an object, its children doubly linked in order |
| HeapParser.ParsePairs | c/bincoding/cJSON.c:654-687 | the loop over the members reads what Parser.ParseMembers reads |
| HeapParser.ParsePair | c/bincoding/cJSON.c:668-682 | a member: the string read into the child becomes its name, and the value follows behind a colon |
| HeapParser.Parse | c/bincoding/cJSON.c:442-462 | succeeds and fails as Parser.Parse does; on success all nodes of the tree lie in a new pool that counts exactly them and every string is new; on failure nodes, strings and pools in use are as before |
| HeapParser.PoolIsTree | c/bincoding/cJSON.c:444-455 | the reference count of the new pool is the number of nodes of the tree |
| HeapParser.DeleteRoot | c/bincoding/cJSON.c:206-220 | deleting a parsed tree leaves nodes, strings and pools as they were before parsing it |
| ChildLists.GetArrayItem | c/bincoding/cJSON.c:793-799 | the child at the position, a negative position counting as 0; null exactly if there is none; in a list of the node's own or one that a reference borrows |
| ChildLists.GetArraySize | c/bincoding/cJSON.c:785-792 | the number of children, own or borrowed |
| ChildLists.AddItemToArray | c/bincoding/cJSON.c:826-836 | append: the list is well linked and is the old one with the item at the end; only links changed, and of the array node only `child` |
| ChildLists.DetachItemFromArray | c/bincoding/cJSON.c:853-868 | remove-at: the list is well linked and is the old one without the child, which is returned unlinked; of the array node only `child` changed; beyond the end nothing happens |
| ChildLists.DeleteItemFromArray | c/bincoding/cJSON.c:869-872 | remove-at, and exactly the nodes and strings of the one subtree are given back, with the pools left empty; the array node changes in `child` only, nodes outside the list not at all |
| ChildLists.ReplaceItemInArray | c/bincoding/cJSON.c:889-906 | update-at: the new item stands in the place of the child, whose subtree alone is given back; the array node changes in `child` only, nodes outside list and item not at all |
| ChildLists.DeleteLoose | c/bincoding/cJSON.c:206-220 | deleting a tree that is in no list leaves every list apart from it intact |
| ChildLists.AppendLinks | c/bincoding/cJSON.c:809-813 | next and prev of all children agree after an append |
| ChildLists.UnlinkLinks | c/bincoding/cJSON.c:860-866 | and after a detach |
| ChildLists.SwapLinks | c/bincoding/cJSON.c:896-904 | and after a replace |
| ChildLists.AppendedItems | c/bincoding/cJSON.c:826-836 | the values of the list after an append |
| ChildLists.DetachedItems | c/bincoding/cJSON.c:853-868 | the values of the list after a detach, and the value of the detached child |
| ChildLists.DeletedItems | c/bincoding/cJSON.c:869-872 | the values of the list after a delete |
| ChildLists.ReplacedItems | c/bincoding/cJSON.c:889-906 | the values of the list after a replace |
| ListSeries.Perform | c/bincoding/cJSON.c:826-906 | any series of append, detach, delete and replace calls, on items that are detached at the time: list and items end as the same series on sequences says, well linked and disjoint; the nodes and strings given back are those of the deleted subtrees, in order; the array node changes in `child` only, and no node outside list and items changes |
| ListSeries.Do | c/bincoding/cJSON.c:826-906 | one call of the series, with the same frame |
| ListSeries.Conserved | c/bincoding/cJSON.c:826-906 | after any series every subtree is in exactly one place: in the list, detached, or deleted |
| ListSeries.StillSupplied | c/bincoding/cJSON.c:826-906 | an operation on the list leaves every other detached item detached and intact |
| Subtrees.Graft | c/bincoding/cJSON.c:826-906 | a subtree at any depth changes, its root in `child` only: the tree around it stays well linked and owns nothing twice, and its own root changes in `child` at most |
| Subtrees.Walk | c/bincoding/cJSON.c:793-799 | cJSON_GetArrayItem level by level, through references as well, reaches what is shown at the path, or null exactly if there is nothing |
| Subtrees.OwnersShow | c/bincoding/cJSON.c:793-799 | a tree without references shows exactly the children it owns, on every level |
| Subtrees.CopiesShow | c/bincoding/cJSON.c:815-824 | a copy of a node shows the children of the node |
| Contents.IsMeans | c/bincoding/cJSON.c:475-506 | the nodes of a tree are a JSON value exactly if what they hold, read without addresses, means it |
| Contents.FrameData | c/bincoding/cJSON.c:826-906 | trees whose nodes keep all but their links, and whose strings are kept, hold the same documents |
| Contents.PutData | c/bincoding/cJSON.c:826-906 | another subtree at a path of a tree in memory is another document at that path of the document |
| Creation.Create | c/bincoding/cJSON.c:920-964 | a new node from malloc, beside everything that was in use, that is the value |
| Forests.Do | c/bincoding/cJSON.c:442-906 | one call that parses, appends, detaches, replaces or deletes, on a list at any depth: the old trees and the new ones are related by Step, and the documents they hold by DataStep, a parsed text adding its value |
| Forests.AfterData | c/bincoding/cJSON.c:826-906 | append, detach, replace and delete on trees of nodes are append, remove-at, update-at and delete on the documents they hold |
| Forests.StepData | c/bincoding/cJSON.c:826-906 | a step on trees that keeps what nodes and strings hold is that step on documents |
| Forests.Finish | c/bincoding/cJSON.c:206-220 | deleting all trees that are left restores nodes, strings and pools |
| Forests.KeepFirstChild | c/bincoding/cJSON.c:165-177 | a child detached from its document outlives the root: only its nodes are left, and the pool of the document is in use and counts exactly these |
| Forests.EditForest | c/bincoding/cJSON.c:826-906 | a change of a subtree at any depth of one tree leaves the forest well formed |
| Forests.PoolCounts | c/bincoding/cJSON.c:149-177 | the reference count of a pool is the number of nodes of the forest that lie in it |
| Forests.SinceStep | c/bincoding/cJSON.c:165-220 | a step that gives back nodes of the forest, with the pools left empty, keeps everything that was in use before as it was |
| Forests.NothingLeft | c/bincoding/cJSON.c:206-220 | without any tree held, nodes, strings and pools in use are those of the beginning |
| Programs.Execute | c/bincoding/cJSON.c:442-964 | one statement: such a call, a new value, or an item added, detached, deleted or replaced by key; trees and documents change as the statement says, and a string leaks exactly if a replacement by key overwrites a name |
| Programs.DoAddKey | c/bincoding/cJSON.c:837-843 | the item's document gets the key for its name and becomes the last child of the list |
| Programs.Resolve | c/bincoding/cJSON.c:873-886 | detaching and deleting by key is the call by the position of the first document with that name |
| Programs.DoReplaceKey | c/bincoding/cJSON.c:907-917 | replacing by key gives the item's document the key for its name and puts it in the place of the first document with that name; it leaks the old name if there was one |
| Programs.Run | c/bincoding/cJSON.c:116-964 | any series of statements: every step has done to the trees and to the documents what the statement says; after it the trees held are well linked, in no list and share nothing; in use are only they, what was in use before, and exactly as many strings as replacements by key have overwritten names; every pool made lives exactly as long as one of its nodes, counts them, and has otherwise been destroyed once |
| Programs.Program | c/bincoding/cJSON.c:442-964 | such a series from no documents at all, and the deletion of everything it leaves: the documents on the way are those of the statements, every pool made has been destroyed exactly once, and nodes, strings and pools are what they were before, but for the strings leaked |
| Programs.NameLeaks | c/bincoding/cJSON.c:837-917 | a new name leaks one string if the old one is there and is not freed, and none otherwise |
| ObjectKeys.StrCaseCmp | c/bincoding/cJSON.c:36-46 | zero exactly for keys equal up to case, null being equal to null only |
| ObjectKeys.FindFirst | c/bincoding/cJSON.c:800-806 | lookup stops at the first key that is the same |
| ObjectKeys.GetObjectItem | c/bincoding/cJSON.c:800-806 | the child with the first key that is the same, or null |
| ObjectKeys.DetachItemFromObject | c/bincoding/cJSON.c:873-882 | the first match leaves the list, the keys of the others stay in order; of the object node only `child` changes; without a match nothing happens |
| ObjectKeys.DeleteItemFromObject | c/bincoding/cJSON.c:883-886 | the first match is deleted with what it owns and nothing else; nodes outside the object do not change |
| ObjectKeys.ReplaceItemInObject | c/bincoding/cJSON.c:907-917 | the new item, named with a copy of the key, takes the place of the first match, which is deleted; all other nodes keep their data, those outside object and item everything |
| ObjectKeys.ReplaceLeaks | c/bincoding/cJSON.c:914 | the old name of the new item is overwritten and not freed: exactly one string more is in use without an owner if the item had a name, none if it had not |
| ObjectKeys.AddLeaksNothing | c/bincoding/cJSON.c:837-843 | adding to an object leaves no string in use without an owner |
| ObjectKeys.AddItemToObject | c/bincoding/cJSON.c:837-843 | the item, its old name freed and named with a copy of the key, becomes the last child; only object (in `child`), last child and item change |
| ObjectKeys.DetachExposesNext | c/bincoding/cJSON.c:873-882 | after a detach the key finds its next match |
| ObjectKeys.DetachKeepsOthers | c/bincoding/cJSON.c:873-882 | and every other key what it found before |
| ObjectKeys.ReplaceIsFound | c/bincoding/cJSON.c:907-917 | after a replace the key finds the new item and every other key what it found before |
| ObjectKeys.AddIsFound | c/bincoding/cJSON.c:837-843 | an added item is found unless its key was there before; every other lookup is unchanged |
| ObjectKeys.CreateReference | c/bincoding/cJSON.c:815-824 | a new node that copies the item, has no name and no neighbours, and owns nothing but itself |
| ObjectKeys.DeleteReference | c/bincoding/cJSON.c:206-220 | deleting a reference, with or without a name of its own, gives back that node and the name: its target keeps children and strings |
| BufferPrinter.MeasureFits | c/bincoding/cJSON.c:372-378 | the measured length is the escaped length and two bytes for every byte dropped |
| BufferPrinter.PrintStringPtr | c/bincoding/cJSON.c:363-418 | all writes lie in the buffer, which holds the printed string and has two bytes to spare for every byte dropped |
| BufferPrinter.ArrayFits | c/bincoding/cJSON.c:577-640 | the buffer of an array has room for its text, the NUL, and exactly 2 bytes if it is empty, else n + 3 (n + 4 if indented) |
| BufferPrinter.ObjectFits | c/bincoding/cJSON.c:691-782 | the buffer of an object has room for its text, the NUL, and exactly 5 bytes, 4 if it is empty |
| BufferPrinter.ComposeArray | c/bincoding/cJSON.c:621-639 | all writes of print_array lie in the buffer, which ends up holding the text |
| BufferPrinter.ComposeObject | c/bincoding/cJSON.c:748-781 | all writes of print_object lie in the buffer, which ends up holding the text |
| BufferPrinter.PrintNumberText | c/bincoding/cJSON.c:263-269 | 21 bytes are enough for an int |
| BufferPrinter.PrintEntries | c/bincoding/cJSON.c:585-603 | the printed children in order, and the length added up over them |
| BufferPrinter.PrintPairs | c/bincoding/cJSON.c:699-727 | the printed names and children in order, and the length added up over them |
| BufferPrinter.PrintValue | c/bincoding/cJSON.c:509-538 | for every node that is a value: a fresh buffer with the text of the value and exactly the stated number of bytes to spare |
| BufferPrinter.PrintedArray | c/bincoding/cJSON.c:621-639 | the composed text of an array is the one the specification prints |
| BufferPrinter.PrintedObject | c/bincoding/cJSON.c:748-781 | the composed text of an object is the one the specification prints |
| BufferPrinter.Print | c/bincoding/cJSON.c:465-468 | the indented text of the value |
| BufferPrinter.PrintUnformatted | c/bincoding/cJSON.c:469-472 | the compact text of the value |
| CasList.NoLostUpdates | c/cas.cc:101-144 | in every state of every run the list is the initial one followed by the items of the clients past their loops, each once, in the order of their successes |
| CasList.FailsBounded | python/cas.py:35-46 | with n clients no client's replace fails more than n - 1 times |
| CasList.FailsReached | python/cas.py:35-46 | and a schedule on which one fails n - 1 times |
| CasList.AllFailsBounded | c/cas.cc:106-140 | on every schedule all n clients together fail at most n * (n - 1) / 2 times |
| CasList.AllFailsReached | c/cas.cc:106-140 | and a schedule on which they fail that often |
| CasList.RunsEnd | java/src/main/java/com/couchbase/devguide/Cas.java:60-75 | a global measure: n * (n + 2) steps of clients that are not done bring every run to its end |
| CasList.LatchMeansAll | java/src/main/java/com/couchbase/devguide/Cas.java:57-98 | when the latch is down to zero the list holds the initial items and all new ones, each once |
| CasList.Program.Replace | c/cas.cc:119-140 | stores exactly if the CAS is still that of the document, which then gets a new one |
| CasList.Program.IterationWithCas | java/src/main/java/com/couchbase/devguide/Cas.java:57-76 | the retry loop of one thread, whatever the others do in between, ends with its item in the list, and is a run of the steps |
| CasBudget.Always | php/cas.php:17-61 | in every state of every run the list is the initial one, or none, followed by the items of the workers that returned, and no budget is overdrawn |
| CasBudget.ReturnsTrueIffAdded | php/cas.php:33-52 | a worker has returned true exactly if its item is in the list, once; a worker that throws has added nothing |
| CasBudget.LostInsertIsFree | php/cas.php:37-45 | a lost insert happens at most once per worker, only if the list was missing, and costs no retry |
| CasBudget.NobodyThrows | php/cas.php:59-60 | up to 10 workers, or 11 if the list is missing at first, never exhaust a budget |
| CasBudget.ThrowsIff | php/cas.php:17-61 | the throw can be reached exactly with 11 workers or more on a list that is there, 12 on one that is missing |
| CasBudget.Program.AddToCouchbaseList | php/cas.php:17-61 | the loop of one worker, whatever the others do in between, ends, is a run of the steps, and returns true or throws as they say |
| CasBudget.Program.Attempt | php/cas.php:21-58 | one turn of that loop adds the item or costs one retry, or none after a lost insert |
| CasCounter.NumberCountsSuccesses | dotnet/Cas.cs:61-85 | in every state of every run the number is the initial one plus the successful replaces |
| CasCounter.AbandonedBounded | dotnet/Cas.cs:67-82 | a thread abandons at most (n - 1) * count / 101 increments |
| CasCounter.FinalNumber | dotnet/Cas.cs:61-85 | at the end the number is n * count less the abandoned increments, which are at most n times that bound |
| CasCounter.TenTimesHundred | dotnet/Cas.cs:37-42 | ten threads of a hundred increments end with 920 to 1000, on every schedule |
| CasCounter.AbandonsIff | dotnet/Cas.cs:61-85 | an increment can be abandoned exactly if the other threads together make at least 101 |
| CasCounter.Program.UpdateNumberWithCas | dotnet/Cas.cs:61-85 | the counting loop of one thread, whatever the others do in between, ends and is a run of the steps |
| CasCounter.Program.Increment | dotnet/Cas.cs:67-82 | the do-while loop with its decremented budget deals with one increment |
| PlainCounter.FinalNumber | dotnet/Cas.cs:45-59 | without compare-and-swap, threads of at least two increments end with at least 2 and at most n * count |
| PlainCounter.MostReached | dotnet/Cas.cs:45-59 | a schedule that reaches n * count |
| PlainCounter.LeastReached | dotnet/Cas.cs:45-59 | a schedule that reaches 2 |
| WindowDriver.Driver | nodejs/bulkES6.js:93-141 | in every state of the preload loop and of the other two: resolve is called at most once, at the callback that completes the last document; never more than W operations in flight; W - 1 less the errors at that moment; keys recorded and issued without gaps, key 0 once per lane |
| WindowDriver.PreloadSettles | nodejs/bulkES6.js:99-136 | preload's promise is fulfilled exactly if the first T callbacks all bring results, and rejected exactly if one of them brings an error |
| WindowDriver.ResolvedUnlessAllFailed | nodejs/bulkES6.js:174-214 | in the loops that only print errors, when nothing is in flight any more the promise is fulfilled exactly if fewer than W operations failed, and else still pending |
| WindowDriver.RunsEnd | nodejs/bulkES6.js:222-264 | after T + W - 1 callbacks at the latest nothing is in flight |
| WindowDriver.NoDocuments | nodejs/bulkES6.js:93-141 | with no documents the promise resolves at once and yet W - 1 operations on key 0 are started |
| WindowDriver.Promise.UpsertOne | nodejs/bulkES6.js:99-136 | resolve is called, for the first time, when all documents are done, or the next key is recorded and in flight, or nothing happens |
| WindowDriver.Promise.Fill | nodejs/bulkES6.js:139-141 | the launching loop fills the window and establishes the invariant of the driver |
| WindowDriver.Promise.OnCallback | nodejs/bulkES6.js:122-133 | a callback, which rejects on an error in the preload loop and goes on with a result, keeps the invariant |
| StringList.AddItemToList | c/cas.cc:54-67 | from the text of a list whose first item is not empty, the text of the list with the item at its end; from any text, what Added says |
| StringList.AddedIsAppended | c/cas.cc:54-67 | adding to the text of a list whose first item is not empty gives the text of the longer list |
| StringList.AddAllJoinsIff | c/cas.cc:54-67 | from `[]`, adding items gives their bracketed join exactly if there is at most one or the first is not empty |
| StringList.CountListItems | c/cas.cc:171-188 | on a text that does not start with a comma: the commas plus one, or 1 or 0 if there is none |
| StringList.LoopsForeverIff | c/cas.cc:171-188 | the loop goes on for ever exactly on a text that starts with a comma |
| StringList.CountIsExactIff | c/cas.cc:171-188 | for all items: the count is the number of items added exactly if they hold as many commas as there are empty items at the front |
| StringList.CountOf | c/cas.cc:171-188 | the count is the number of items, plus the commas in them, less the empty items at the front |
| StringList.AddAllPrints | c/cas.cc:54-67 | adding printed values gives what cJSON prints for the array of them |
| Base64.DecodeEncode | c/bincoding/base64.c:6-52 | decoding inverts encoding (RFC 4648 section 4) |
| Base64.Encoded | c/bincoding/base64.c:6-30 | four allowed characters for every three bytes begun |
| Base64.NotEscaped | c/bincoding/bincoding.c:109-111 | base 64 passes through the escaping of the printer unchanged |
| Profiles.KeysDiffer | c/bincoding/bincoding.c:77-85 | the three keys never collide under case-insensitive lookup |
| Profiles.GetProfile | c/bincoding/bincoding.c:94-112 | lookup by the three keys in the object that encode_profile builds |
| Profiles.DecodeEncode | c/bincoding/bincoding.c:68-114 | decoding an encoded profile gives it back, up to dropped bytes of the name and an empty avatar, for every int age |
| Profiles.DecodeEncodeExact | c/bincoding/bincoding.c:68-114 | it comes back unchanged exactly if the name has no such byte and the avatar is not empty |
| ProfileCode.EncodeProfile | c/bincoding/bincoding.c:94-114 | the object built node by node prints to the text of Profiles.Encode; its tree alone stays behind, and all nodes, strings and pools in use before are as they were |
| ProfileCode.LookupAgrees | c/bincoding/bincoding.c:77-85 | lookup in the nodes of a parsed text finds what lookup in its value finds |
| ProfileCode.DecodeProfile | c/bincoding/bincoding.c:68-92 | the profile of Profiles.Decode; on every text without a cut, memory as it was before |

## Left out

- IEEE rounding, `%f`, `%e` and `%.0f`, the conversion of a double outside int, and exponents beyond double: numbers are exact reals, and printing is for numbers that are ints.
- Scanner.ScanString: does not follow the code behind a cut in a string, because there it leaves the text or the buffer, or its code unit is not determined.
- Scanner.ScanNumber: does not follow the code behind a cut in a number, because there it leaves the text or depends on the sign of `char`.
- What surrogate pairs denote: each half is stored as three bytes, which no UTF-8 decoder accepts (`StringText.Utf8Decodes`); the code says that it does not support them.
- Nodes without a name in print_object (`print_string_ptr` of a null pointer), and printing of references.
- Failing allocations: malloc always succeeds. The block list of a pool is kept as its length, and an address from malloc is never used again.
- Custom malloc hooks, and tolower outside the C locale.
- Programs.Run: no references among its statements; `ObjectKeys.CreateReference` and `DeleteReference` state what they do.
- References that outlive their target, and the nodes that encode_profile leaves behind (they stay in use in the model, too).
- An avatar that is no base 64, which OpenSSL answers in its own way: the profile is `Undetermined`. The OpenSSL calls are their specification.
- All client libraries beyond a document with get, insert and replace by version: a version is a number that grows with every mutation, and the only errors are a missing document, an existing one and a mismatch.
- The scheduling of threads is any interleaving of atomic server operations; the local code between two operations is part of the one before it.
- Embedded NUL characters in texts, N1QL, full-text search, sub-documents, HTTP handlers, encryption and the other examples: library plumbing.
