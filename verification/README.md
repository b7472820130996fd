# Game trees, traversals, escaping and dates of libsgfc++

libsgfc++ keeps, edits, walks, reads and writes SGF (Smart Game Format, FF[4]) game trees. This project models the parts
where most can go wrong and proves what they promise:

- **The tree of nodes.** `SgfcNode` objects are linked by parent, first child and next sibling. `Forests` says without a heap
  what these links mean (a parent map and child sequences that agree, no cycles), `Relinking` and `Edits` give the helpers
  and the seven edits of the tree builder on such forests, `EditEffects` says in one piece what each edit does to the child
  sequences, `Refusals` when it is refused, and `Nodes` and `TreeBuilder` hold the methods that walk and relink the heap,
  each proved to do what the edit does.
- **The walks with an explicit stack.** `NodeIterator` (the visitor; `Visits` says what its four answers mean), `Game` (the
  game info searches), `Document` (building the trees of all games from what was read; `GameTrees` puts their forests side by
  side) and `DocumentEncoder` (writing it) are loops over a stack, proved equal to structural recursions over a `Level`, the
  first child / next sibling form of an ordered forest.
- **Writing and reading back.** `Rendering` is the text by structural recursion, `Lines` its lines and their indentation,
  `Grammar` a recursive-descent parser for the EBNF of SGF FF[4], `WellWritten` says what such a parser can have read, and
  `EncodingRoundTrip` and `DocumentRoundTrip` connect text and parser, in both directions.
- **Escaping.** `Escaping` shows that the chains of global replacements are single passes that undo each other, and that
  escaped values end where they should.
- **Dates.** `Dates` and `DateRoundTrip` hold the encoder and decoder of DT date lists, with their different states;
  `DateReading` says which texts are read as which dates, `DateWriting` which text is written for each date, `Numbers` which
  strings are numbers, and `Calendar` which dates are valid.

A heap method takes the forest it works on as a ghost parameter `f` with `Represents(f)`; `Nodes.ForestIsDetermined` shows that
the links leave nothing of that forest open. An exception of the original is a result value (`Thrown`, `PropertyResult`,
`NoRootNode`), and the forest after a refused edit is the forest before.

Where the original does not do what its header comments say, or loses something they do not mention, the model follows the code:

- `SetFirstChild` and `SetNextSibling` are to replace everything below the node, or all later siblings, but return early when
  their argument is already in place, and then keep the siblings behind it. `EditEffects.SetFirstChildReplacesIff` and
  `EditEffects.SetNextSiblingReplacesIff` say exactly when they do replace everything.
- `InsertChild` with `child == referenceChild` passes the checks, takes the child out and then finds no previous sibling to
  link it to (`TreeBuilder.InsertBeforeItselfFindsNoPreviousSibling`). The model has a result of its own for the null pointer
  this ends at, `NullDereferenced`, and `Edits.RunEndsIff` says which runs of edits never get there.
- `ToPropertyValue` shortens a `YYYY-MM` date after a `YYYY-MM-DD` date of the same year and another month, and then rejects its
  own shortcut: `DateRoundTrip.OverShorteningExample`, and in general `DateRoundTrip.DatedListFailsIff`. All such lists have a
  property value that the decoder reads: `DateRoundTrip.EveryDatedListIsWritable`.
- `SetProperty` with a property that is already present is to do nothing, but moves it to the end; it changes nothing exactly
  if the property is the last one: `Properties.SetPropertyChangesNothingIff`.
- A property without values and a property with one empty value are both written as `XY[]` (`EncodingRoundTrip.SameTextIff`).
- A root node with siblings is written as a text the grammar rejects (`EncodingRoundTrip.CannotParseSiblings`).
- Any property name and any unknown value is accepted and written, so that a document can be written that is not read back:
  `EncodingRoundTrip.LoneBackslashExample` and `EncodingRoundTrip.LowerCaseNameExample`. `EncodingRoundTrip.EncodedDocumentIsRead`
  says exactly which documents are.

## Model
| member | source | states |
|---|---|---|
| Edits.RejectsExactlyCycles | src/document/SgfcTreeBuilder.cpp:42-259 | For all seven edits: with arguments that pass the other checks, the ancestor check throws exactly if the relinking would make a cycle |
| Refusals.RefusedIff | src/document/SgfcTreeBuilder.cpp:42-259 | For all seven edits, by children and ancestors: a call is refused exactly if a needed node is null, a root is to get a sibling, a node is to be moved to itself, a named child is not one, or a node is to be moved below itself; the first of these is the reason |
| Refusals.RemoveChildTakesOut | src/document/SgfcTreeBuilder.cpp:139-153 | An accepted removal takes the child out of the child sequence of the node, where it was, and changes no other child sequence |
| Refusals.NothingToMove | src/document/SgfcTreeBuilder.cpp:155-259 | A node that is given the parent it has, or is replaced by itself, stays where it is |
| Edits.StepValid | src/document/SgfcTreeBuilder.cpp:42-259 | Every accepted edit leaves a well-formed forest: parent map and child sequences agree, no node is listed twice, every parent chain ends; no node comes or goes |
| Edits.Run | src/document/SgfcTreeBuilder.cpp:42-259 | Any sequence of edits, accepted or refused, leaves a well-formed forest on the same nodes, unless one of them runs into a null pointer, where the run ends |
| Edits.RunEndsIff | src/document/SgfcTreeBuilder.cpp:42-259 | A run gets to its end exactly if no step inserts a child before itself in the forest reached so far |
| Edits.BeforeItselfIsNotCaught | src/document/SgfcTreeBuilder.cpp:114-130 | None of the argument checks refuses to insert a child before itself |
| EditEffects.PerformIsExpected | src/document/SgfcTreeBuilder.cpp:42-259 | The relinking steps of each edit add up to its intended effect on the child sequences, also when the moved node is in the part that is cut off; all other child sequences lose at most the moved node |
| EditEffects.SetFirstChildReplacesIff | src/document/SgfcTreeBuilder.cpp:42-81 | The child is then the only one exactly if it was not the first child already, or was the only child; without a child none is left |
| EditEffects.SetNextSiblingReplacesIff | src/document/SgfcTreeBuilder.cpp:190-233 | The argument is then the next sibling, and it is the last one exactly if it was not the next sibling already, or was the last |
| EditEffects.MovedSubtreeKept | src/document/SgfcTreeBuilder.cpp:42-259 | Whatever the edit, everything below its child argument keeps its shape and order |
| Edits.MoveToSamePlace | src/document/SgfcTreeBuilder.cpp:96-98 | Moving a node to where it already is changes nothing, so the early returns of AppendChild and InsertChild are only shortcuts |
| Relinking.DetachValid | src/document/SgfcTreeBuilder.cpp:272-298 | Taking a node out of its place keeps the forest well-formed |
| Relinking.CutValid | src/document/SgfcTreeBuilder.cpp:316-345 | Cutting off a node with all its next siblings keeps the forest well-formed |
| Relinking.InsertAcyclicIff | src/document/SgfcTreeBuilder.cpp:362-392 | Inserting a root below a node makes no cycle exactly if it is not that node or above it |
| TreeBuilder.SgfcTreeBuilder.RemoveNodeFromCurrentLocation | src/document/SgfcTreeBuilder.cpp:272-298 | On the heap: the node is a root, its former siblings close the gap, no other link differs |
| TreeBuilder.SgfcTreeBuilder.RemoveNodeAndAllNextSiblingsFromParent | src/document/SgfcTreeBuilder.cpp:316-345 | On the heap: the node and all siblings after it are roots without next siblings, the siblings before it stay |
| TreeBuilder.SgfcTreeBuilder.InsertNodeAtNewLocation | src/document/SgfcTreeBuilder.cpp:362-392 | On the heap: the node comes before the given sibling, or last; before itself there is no sibling to link it to, and nothing changes |
| TreeBuilder.SgfcTreeBuilder.LinkFromTheLeft | src/document/SgfcTreeBuilder.cpp:371-388 | Only the parent's first child link or the previous sibling's next sibling link changes, to the node; no previous sibling is found exactly if the node is to be inserted before itself |
| TreeBuilder.InsertChildEnds | src/document/SgfcTreeBuilder.cpp:109-137 | How a call ends that passes the first four checks: early return, exception, move, or null pointer |
| TreeBuilder.SgfcTreeBuilder.SetFirstChild | src/document/SgfcTreeBuilder.cpp:42-81 | Which exception is thrown, or the forest the heap then holds |
| TreeBuilder.SgfcTreeBuilder.AppendChild | src/document/SgfcTreeBuilder.cpp:83-107 | Which exception is thrown, or the forest the heap then holds |
| TreeBuilder.SgfcTreeBuilder.InsertChild | src/document/SgfcTreeBuilder.cpp:109-137 | Which exception is thrown, or the forest the heap then holds; for a child inserted before itself the null pointer, with the child already taken out |
| TreeBuilder.SgfcTreeBuilder.RemoveChild | src/document/SgfcTreeBuilder.cpp:139-153 | Which exception is thrown, or the forest the heap then holds |
| TreeBuilder.SgfcTreeBuilder.ReplaceChild | src/document/SgfcTreeBuilder.cpp:155-188 | Which exception is thrown, or the forest the heap then holds |
| TreeBuilder.SgfcTreeBuilder.SetNextSibling | src/document/SgfcTreeBuilder.cpp:190-233 | Which exception is thrown, or the forest the heap then holds |
| TreeBuilder.SgfcTreeBuilder.SetParent | src/document/SgfcTreeBuilder.cpp:235-259 | Which exception is thrown, or the forest the heap then holds |
| TreeBuilder.InsertBeforeItselfFindsNoPreviousSibling | src/document/SgfcTreeBuilder.cpp:384-387 | A node that is taken out of its place has no previous sibling, so inserting it before itself has nothing to link to |
| Nodes.ForestIsDetermined | src/document/SgfcNode.h:122-124 | The three links of every node determine the forest |
| Nodes.SgfcNode.GetLastChild | src/document/SgfcNode.cpp:51-64 | The walk ends, at the last of the child sequence or with null |
| Nodes.SgfcNode.GetChildren | src/document/SgfcNode.cpp:66-79 | The walk collects exactly the child sequence |
| Nodes.SgfcNode.GetPreviousSibling | src/document/SgfcNode.cpp:101-121 | The walk finds the node directly before this one in the child sequence, or null |
| Nodes.SgfcNode.IsDescendantOf | src/document/SgfcNode.cpp:144-160 | Ends, throws exactly for null, and decides whether the argument is on this node's parent chain |
| Nodes.SgfcNode.IsAncestorOf | src/document/SgfcNode.cpp:162-178 | Ends, throws exactly for null, and decides whether this node is on the argument's parent chain: the converse of IsDescendantOf |
| Nodes.SgfcNode.SetProperties | src/document/SgfcNode.cpp:301-309 | Accepted exactly if no element is null and the list is a property collection; otherwise nothing changes |
| Nodes.SgfcNode.SetProperty | src/document/SgfcNode.cpp:311-341 | All properties unrelated by name and known type keep their order, the new one comes last, the result is a property collection |
| Nodes.SgfcNode.AppendProperty | src/document/SgfcNode.cpp:343-361 | Accepted exactly if the property is new and the longer list is a property collection |
| Nodes.SgfcNode.RemoveProperty | src/document/SgfcNode.cpp:363-371 | Refused exactly if the property is not there; otherwise the list without just this one element, and the property is no longer in it |
| Nodes.ValidateProperties | src/document/SgfcNode.cpp:400-440 | True exactly if no element is null, all names differ and all known types differ |
| Properties.SetPropertyKeepsCollection | src/document/SgfcNode.cpp:311-341 | In a collection, erasing the first of the name and then the first of the type erases all related properties; with the new one it is a collection again |
| Properties.SetPropertyChangesNothingIff | src/document/SgfcNode.cpp:311-341 | For a property that is already present, SetProperty changes nothing exactly if it is the last one |
| Properties.EraseTakesOut | src/document/SgfcNode.cpp:363-371 | Erasing takes out the property at its first position and leaves everything else; in a collection it is then gone |
| Properties.EraseKeepsCollection | src/document/SgfcNode.cpp:363-371 | A collection without one of its properties is a collection of the others |
| Properties.CollectionMeans | src/document/SgfcNode.cpp:400-440 | In a collection all names differ, and only the unknown type occurs more than once |
| Nodes.SgfcNode.GetInheritedProperties | src/document/SgfcNode.cpp:455-499 | The first inheritable property of each name along the way from the node to the root |
| Properties.FirstOfEachNameFinds | src/document/SgfcNode.cpp:455-499 | Exactly the nearest occurrence of each inheritable name, each name once, none left out |
| Properties.FirstOfEachNameIsInOrder | src/document/SgfcNode.cpp:455-499 | They are ordered by their distance from the node |
| Nodes.InheritedIff | src/document/SgfcNode.cpp:455-499 | On the way from a node to the root: exactly the inheritable properties of a node of which no nearer node has one of the same name |
| Nodes.InheritedAreOrdered | src/document/SgfcNode.cpp:455-499 | The nearer node's properties come first |
| Nodes.SgfcNode.GetGameInfoNode | src/document/SgfcNode.cpp:232-245 | The nearest game info node on the way up, the node itself included, or null |
| NodeIterator.SgfcNodeIterator.IterateOverNodesDepthFirst | src/document/SgfcNodeIterator.cpp:34-45 | No visit for null, otherwise the visits of the structural recursion |
| NodeIterator.SgfcNodeIterator.IterateOverNodesDepthFirstPrivate | src/document/SgfcNodeIterator.cpp:47-99 | For every callback and every well-formed forest the loop ends and makes exactly the visits of the structural recursion, in its order |
| NodeIterator.StacksAreTheWaysUp | src/document/SgfcNodeIterator.cpp:47-99 | At every visit the stack holds exactly the ancestors of the visited node, as far as the level the walk started on |
| Visits.AnswersAreObeyed | src/document/SgfcNodeIterator.cpp:47-99 | The walk begins with the start node, and each of the four answers decides which visit is next: down, on to the next sibling, up to the nearest node above that has one, or none |
| Visits.AllAreVisited | src/document/SgfcNodeIterator.cpp:47-99 | If the answer is always VerticalAndLateral, every node is visited once, in preorder |
| Game.SgfcGame.GetGameInfoNodes | src/document/SgfcGame.cpp:107-128 | The visitor collects the topmost game info nodes of the level of the root node |
| Game.SgfcGame.GetFirstGameInfoNode | src/document/SgfcGame.cpp:173-194 | The first of the nodes GetGameInfoNodes returns, or null if there is none |
| Game.GameInfoNodesAreTheTopmost | src/document/SgfcGame.cpp:107-128 | From a true root node: in preorder and without duplicates exactly the game info nodes with none above them; every game info node has one of them at or above it |
| Game.NearestIsTopmostIff | src/document/SgfcNode.cpp:232-245 | GetGameInfoNode finds a node exactly if there is one on the way up, and one that GetGameInfoNodes returns exactly if it is the only one on the way up |
| Game.OneTopmostPerWay | src/document/SgfcGame.cpp:107-128 | No two of the returned nodes are at or above the same node |
| Preorders.PreorderLists | src/document/SgfcNodeIterator.cpp:47-99 | The preorder of a level lists exactly the nodes at or below its nodes |
| Preorders.PreorderIsDistinct | src/document/SgfcNodeIterator.cpp:47-99 | The preorder of a level lists no node twice |
| Document.SgfcDocument.ParseGameTreeDepthFirst | src/document/SgfcDocument.cpp:93-157 | The loop ends; the tree below the root node has the content, shape and child order of the input; the siblings of the input's root are not entered; only the root node and new nodes are touched |
| Document.SgfcDocument.AddNode | src/document/SgfcDocument.cpp:111-116 | A new node with the decoded properties is the last child of the given one; nothing else changes |
| Document.SgfcDocument.ReadGames | src/document/SgfcDocument.cpp:64-91 | One game for each root node of the input, in order, each with a true root node; together their trees are the whole input |
| GameTrees.OneMoreGame | src/document/SgfcDocument.cpp:71-90 | The nodes of a new game leave the trees of the games before it as they are |
| Document.AppendNew | src/document/SgfcDocument.cpp:114-115 | Appending a new node is never rejected |
| Document.GrowKeepsFinished | src/document/SgfcDocument.cpp:108-126 | Adding the first pending child, with everything below and after it pending, does not change what the whole tree will be |
| DocumentEncoder.SgfcDocumentEncoder.Encode | src/parsing/SgfcDocumentEncoder.cpp:44-78 | Fails at the first game without root node; otherwise the texts of the games, one after the other |
| DocumentEncoder.SgfcDocumentEncoder.ParseDepthFirst | src/parsing/SgfcDocumentEncoder.cpp:80-133 | The loop ends and writes the text that the structural recursion writes, at the given indentation |
| DocumentEncoder.SgfcDocumentEncoder.HasSiblingNodes | src/parsing/SgfcDocumentEncoder.cpp:101-119 | A next or previous sibling link exactly if the node has a sibling |
| DocumentEncoder.SgfcDocumentEncoder.EncodeNode | src/parsing/SgfcDocumentEncoder.cpp:135-150 | The indented node token and all properties in their order, on one line |
| DocumentEncoder.SgfcDocumentEncoder.EncodeProperty | src/parsing/SgfcDocumentEncoder.cpp:152-170 | The name and all values in brackets, or empty brackets if there is no value |
| DocumentEncoder.SgfcDocumentEncoder.EncodeIndentation | src/parsing/SgfcDocumentEncoder.cpp:351-360 | Two spaces for each level, none below level 1 |
| EncodingRoundTrip.ForestIsReadIff | src/parsing/SgfcDocumentEncoder.cpp:80-133 | Variations written in parentheses are read back as the same siblings, with everything below them, exactly if all their properties are readable |
| EncodingRoundTrip.TreeIsReadIff | src/parsing/SgfcDocumentEncoder.cpp:80-133 | A node with everything below it is read back, with parentheses exactly where there are several children, exactly if all its properties are readable |
| EncodingRoundTrip.EncodedDocumentIsRead | src/parsing/SgfcDocumentEncoder.cpp:44-133 | The text of any document is read back as the same collection of ordered trees exactly if there is a game, no root node has siblings, and all properties have identifiers as names and closed values; with such properties it is otherwise rejected |
| EncodingRoundTrip.LoneBackslashExample | src/parsing/SgfcDocumentEncoder.cpp:250-254 | A document with one unknown value of a single backslash is not read back |
| EncodingRoundTrip.LowerCaseNameExample | src/parsing/SgfcDocumentEncoder.cpp:152-157 | A document with a property named foo is not read back |
| DocumentRoundTrip.EncodedTreesAreRead | src/parsing/SgfcDocumentEncoder.cpp:44-133 | What Encode writes from the heap is read back as exactly the game trees at the root nodes if and only if there is one, none of them has siblings, and all properties in these trees are readable |
| DocumentRoundTrip.ReadTreeIsReadAgain | src/document/SgfcDocument.cpp:93-157 | A game tree built while reading is written as a text that is read as the same tree, without the game trees that came behind it, exactly if all its properties are readable |
| DocumentRoundTrip.ReadAndEncode | src/document/SgfcDocument.cpp:64-91 | Reading all games into nodes and encoding the document gives a text that is read back as the whole input, every game in order, exactly if there is a game and all properties are readable |
| Lines.GameIsIndented | src/parsing/SgfcDocumentEncoder.cpp:63-75 | In the text of a game every line begins with exactly two spaces for each parenthesis open around it, followed by its token, and at the end all parentheses are closed |
| Lines.IndentationIsSpaces | src/parsing/SgfcDocumentEncoder.cpp:351-360 | The indentation of a level is two spaces for each level and nothing else, none below level 1 |
| Lines.LineIsIndented | src/parsing/SgfcDocumentEncoder.cpp:339-349 | A line is its indentation, its token and a line end |
| Lines.LevelsAreBalanced | src/parsing/SgfcDocumentEncoder.cpp:80-133 | Parentheses balance, every line is at the level of the open ones, none below the start level |
| Lines.RenderedInLines | src/parsing/SgfcDocumentEncoder.cpp:339-360 | The text consists of exactly these lines |
| EncodingRoundTrip.ValuesAreReadableIff | src/parsing/SgfcDocumentEncoder.cpp:172-337 | A single value of any kind ends at its bracket, and a composed value of any two kinds ends there and is split at its separator, exactly if texts, mandatory-only values with even backslash runs and closed raw values are all it is made of; unescaping always gives back what was meant |
| EncodingRoundTrip.TextValuesAreRead | src/parsing/SgfcDocumentEncoder.cpp:187-248 | Every single or composed SimpleText or Text value ends at its bracket, is split at its separator, and unescapes to what was written |
| EncodingRoundTrip.TypedTextIsWritten | src/parsing/SgfcDocumentEncoder.cpp:227-248 | What is written of a SimpleText or Text value is its typed value if it has one, and its raw value otherwise |
| EncodingRoundTrip.MandatoryValuesAreReadableIff | src/parsing/SgfcDocumentEncoder.cpp:250-329 | Single unknown values and non-Go points, moves and stones always unescape to what was written, and end at their bracket exactly if their backslash runs are even |
| EncodingRoundTrip.SameTextIff | src/parsing/SgfcDocumentEncoder.cpp:152-170 | Readable properties are written alike exactly if they have the same name and value texts, with no value as one empty value; the values are recovered exactly if there is at least one |
| Escaping.ThreePassesAreOne | src/parsing/SgfcPropertyDecoder.cpp:1085-1159 | The three replacements are one left-to-right unescape, on every string and in every context |
| Escaping.BackslashIsRemovedIff | src/parsing/SgfcPropertyDecoder.cpp:1085-1159 | A backslash goes if a backslash, "]" or, in both halves of a composed value, ":" follows, and stays otherwise, whatever comes behind |
| Escaping.OthersStay | src/parsing/SgfcPropertyDecoder.cpp:1085-1159 | Every other character stays, and so does a backslash at the end |
| Escaping.EscapedColonExample | src/parsing/SgfcPropertyDecoder.cpp:1115-1131 | An escaped colon loses its backslash in both halves of a composed value, and keeps it in a value on its own |
| Escaping.SimpleTextIsOnePass | src/parsing/SgfcDocumentEncoder.cpp:362-374 | The chain of replacements puts one backslash before each backslash, "]" and, in a first value, ":" |
| Escaping.MandatoryIsOnePass | src/parsing/SgfcDocumentEncoder.cpp:376-401 | The replacements put one backslash before each "]" and, in a first value, ":" |
| Escaping.SimpleTextRoundTrip | src/parsing/SgfcPropertyDecoder.cpp:1085-1159 | Unescaping an escaped SimpleText or Text value gives the value, for every string and context |
| Escaping.MandatoryRoundTrip | src/parsing/SgfcPropertyDecoder.cpp:1161-1214 | Undoing mandatory escaping gives the raw value, for every string and context |
| Escaping.SingleValueIsFramed | src/parsing/SgfcDocumentEncoder.cpp:362-374 | The first unescaped "]" behind an escaped value is its terminator |
| Escaping.ComposedFramingIff | src/parsing/SgfcDocumentEncoder.cpp:187-205 | For any two texts: the first unescaped ":" is the separator and the first unescaped "]" the terminator exactly if neither text has an unescaped one of its own, or a lone backslash at its end |
| Escaping.ComposedValueIsFramed | src/parsing/SgfcDocumentEncoder.cpp:187-205 | For two SimpleText or Text values the separator and the terminator are found, and the slices unescape to the two values |
| Escaping.MandatoryFramingIff | src/parsing/SgfcDocumentEncoder.cpp:376-401 | With mandatory escaping only, the terminator is found exactly if all backslash runs before a terminator or at the end are even |
| Text.SplitString | src/SgfcUtility.cpp:263-301 | The pieces between the delimiters, for one-character delimiters |
| Text.SplitOfJoin | src/SgfcUtility.cpp:263-301 | Pieces without the delimiter, joined by it, are split into the same pieces |
| Text.JoinOfSplit | src/SgfcUtility.cpp:263-301 | The pieces of any string contain no delimiter and, joined by it, give the string |
| Numbers.NumberIsRead | src/parsing/SgfcValueConverter.cpp:35-66 | A plus sign, white space, a sign, digits and anything behind them are the number of the digits, if it is a 32-bit number; only digits are needed |
| Numbers.NumberIsRefused | src/parsing/SgfcValueConverter.cpp:35-66 | Without digits at that place there is no number |
| Calendar.ValidIff | src/game/SgfcDate.cpp:544-655 | A date is valid exactly if it is a day of a month by the number of days of each month, a month, a year, or a shortcut of these |
| Calendar.DaysInYear | src/game/SgfcDate.cpp:595-643 | The days of the months make 365 days, or 366 in a leap year |
| Dates.ReadParts | src/game/SgfcDate.cpp:46-87 | One to three parts of the right lengths, converted to numbers, or failure |
| Dates.FromPropertyValue | src/game/SgfcDate.cpp:30-234 | All dates, each completed by its predecessor, or none at all |
| DateReading.DecodedIff | src/game/SgfcDate.cpp:44-231 | The dates read are exactly those the pieces between the commas stand for, by the lengths of their numbers and by what the piece before ends in |
| DateReading.AcceptedIff | src/game/SgfcDate.cpp:44-231 | A property value is accepted exactly if all its pieces stand for dates |
| DateReading.ShortcutAfterYearExample | src/game/SgfcDate.cpp:165-171 | 2019,02-02 is refused |
| Dates.ToPropertyValue | src/game/SgfcDate.cpp:236-527 | All dates, each shortened against its predecessor, or the empty value |
| DateWriting.WrittenAs | src/game/SgfcDate.cpp:303-526 | Which text each date of a list gets: in full, or as which shortcut, behind the completed date before it |
| DateWriting.NeighboursAreShortened | src/game/SgfcDate.cpp:303-416 | For dates with years: DD for another day of the month, MM-DD or MM for another month of the year, in full otherwise |
| DateRoundTrip.EncodedIsDecoded | src/game/SgfcDate.cpp:284-526 | From the same preceding date and flags, the decoder reads the text of a date as the completed date and ends with the encoder's flags |
| DateRoundTrip.DatesRoundTrip | src/game/SgfcDate.cpp:30-527 | What is written for a list is read back as the list with every shortcut completed |
| DateRoundTrip.NothingToComplete | src/game/SgfcDate.cpp:236-527 | A list without shortcuts is its own completion, so it comes back unchanged |
| DateRoundTrip.EncodeFailsIff | src/game/SgfcDate.cpp:284-526 | The empty value is returned exactly for the empty list and for lists with a date that cannot follow its predecessor |
| DateRoundTrip.DatedListFailsIff | src/game/SgfcDate.cpp:303-416 | For valid dates with years: exactly if the list is empty, has equal neighbours, or has a date without day after one with a day, in the same year and another month |
| DateRoundTrip.OverShorteningExample | src/game/SgfcDate.cpp:360-368 | 2019-02 after 2019-01-01 is not written |
| DateRoundTrip.EveryDatedListIsWritable | src/game/SgfcDate.cpp:30-234 | Every non-empty list of valid dates with years has a property value that is read as this list |
| DateRoundTrip.DecodedAreValid | src/game/SgfcDate.cpp:30-234 | Whatever the property value, only valid dates are returned, and the first has a year |

## Left out
- TreeBuilder.SgfcTreeBuilder.InsertChild: what a program does after it has dereferenced null is not modelled; the method ends there.
- Document.SgfcDocument.ParseGameTreeDepthFirst: the child and sibling nodes of the SGFC library are a datatype value whose nodes carry their decoded properties; comparing node addresses is comparing these values. Decoding the properties, the game type and the board size, and the exceptions this can throw, are not part of this model.
- DocumentEncoder.SgfcDocumentEncoder.Encode: the document is given by the root nodes of its games; HasSiblingNodes, BeginNode, EndNode and EncodeGame are parts of the original loops as methods.
- Text.SplitString: delimiters of one character only, as all callers have; with longer ones the original advances by one character and splits wrongly.
- The SGFC library itself, files, command line arguments, messages, exit codes and UUIDs: foreign calls and I/O.
- Shared and weak pointers: references are garbage collected and the parent link is a plain one, so that nothing is said about when a removed subtree is freed.
- TreeBuilder.SgfcTreeBuilder.RemoveNodeAndAllNextSiblingsFromParent: the original's loop holds the next sibling by a raw pointer only, while it clears the link that may be its last owner; its contract is that of the original only while something else owns each of the siblings that are cut off.
- Document.SgfcDocument.ParseProperties: the original sets the decoded properties with SetProperties, which throws for a list that is no property collection, and so ends the reading; here the decoded properties are set as they are, and are a property collection only if the input's are.
- The texts of exceptions: `Edits.Fault` tells apart why an edit is refused, but not which of its arguments was null.
- Callbacks are functions of all visits so far and of the stack at each visit; callbacks that edit the tree during the walk are not modelled.
- Property and value objects do not change; whether a property is inheritable is a field, and whether a node is a game info node is a function given by the caller, where the original looks both up in tables.
- Real values, locales, and the streams' number formatting beyond leading zeros.
- Removing line breaks from Text values: one replacement pass can leave soft line breaks.
- The escape processing of the decoder is modelled as enabled; in the original a flag switches it off by default, because SGFC unescapes first. Decoding value lists and value types around it is left out.
- What the grammar makes of a document that is not read back: only that it is not the document that was written, and that it is rejected if all properties are readable. Which values are readable is said by `EncodingRoundTrip.ValuesAreReadableIff`.
- The game field of the tree builder, GetRoot, GetMainVariationNodes, SetRootNode, game info objects and their getters and setters, factories and typed property wrappers: they would add only easy members.
- The test for a complete calendar date, and comparing dates: no modelled operation uses them.
- Go point notations: their implementation is not part of this model.
