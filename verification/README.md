# Verification of suss's summary files, construction copies, interpreter and diff

suss reads source code into behavioural summaries, which are JSON trees, writes them to files one
summary to a line, specialises them for the objects a method runs on, judges their conditions
against known inputs and compares two versions of them. This project models the parts of
`packages/behavioral-ir/src` that do this, and the choice of contract files in `packages/cli/src`,
and proves what they promise. Run `dafny verify dfyconfig.toml` to check all of it.

| files | what they model |
|---|---|
| `Sequences`, `Sorting` | sequences without repeats, and sorting by a text key |
| `Json`, `JsonText`, `JsonParse`, `JsonGrammar`, `Utf8` | JSON values, the text `JSON.stringify` prints (section 7 of RFC 8259), a parser for the JSON of RFC 8259 whose strings escape no lone surrogate, its grammar, and UTF-8 (section 3 of RFC 3629) |
| `SharedSurvey`, `SharedWriter`, `SharedReader` | the two passes of the shared-value writer and its reader, as the classes and loops of the source and as functions they are proved equal to |
| `SharedRoundTrip`, `SharedExact`, `PrintedSize` | that what is written is read back, that nothing is written in full twice, and which values are long enough to share |
| `DocumentFile`, `DocumentReader`, `DocumentRoundTrip` | the line layout: printing it, cutting a file into lines, parsing it |
| `DocumentGrammar`, `DocumentErrors`, `DocumentCuts` | exactly which files are documents and of what value, what an error says of any other file, and documents cut short |
| `SummaryFile` | both codecs together, from summaries to bytes and back |
| `Constructions`, `ConstructionCopies`, `ConstructionResult`, `ConstructionMeaning`, `ConstructionLimits`, `ConstructionPruning` | the constructions each summary depends on, the worklist that copies summaries and relinks calls, what the result lists, what the copies mean, two inputs on which they mean something else, and the pruning of receiver records |
| `Predicates`, `ConditionMeaning`, `Interpreter`, `PredicateRefs`, `Guards` | conditions, what they say of values, their three-valued reading, replacing the values they read, and the polarity of guards |
| `Diff` | the diff of two versions of a summary |
| `Texts`, `ContractCopies` | the order of texts, and which contract files are kept |
| `Placements`, `CallLinks` | where calls are placed, and the join over the placements |
| `StableTexts`, `EffectIdentity` | the canonical text of a value, the key of an effect, and folding repeats |

How the model reads the source:

- A JSON object is a list of names and a list of items, in enumeration order, so an array and an
  object are one constructor, as the codec treats them. A number is the literal that is printed for it.
- The hashes of a container are a parameter, `digest`, that gives any value any key and any check.
  No theorem about the cursor, the survey or the order of definitions assumes anything of it. The
  round trip assumes that no two different shareable values of the summaries agree on both key and
  check (`NoClash`); sharing being exact assumes that no two agree on the key (`KeysApart`).
- A file is a sequence of reads, each a sequence of bytes, of any lengths.
- The id of a construction's copy is a pair of an id and a construction. `OwnIds` says that no two
  summaries share an id, and `NoCopiesYet` that no call points at a copy before the copies are made.
- An object's properties are all that a read by name sees, inherited ones included.
- A place's offsets are natural numbers that print in decimal digits.

What turned out not to hold of every input, with the exact condition under which it does:

- A value met again that has a `__proto__` key loses the key: `copied` assigns the key on a fresh
  object, which sets its prototype. The round trip holds exactly when no value met again has one
  (`SharedRoundTrip.RoundTripExactly`, `SharedRoundTrip.ProtoIsLost`).
- A one-line document longer than the longest string a reader takes is refused on reading
  (`DocumentRoundTrip.DocumentRoundTrips` says for exactly which values).
- A call is linked as it runs at a spot a walk comes to, exactly when it is neither misled nor crowded there
  (`ConstructionMeaning.LinkAgreesExactly`). It is misled when the walk stands on a construction its caller
  does nothing different on, and it is on the caller's own receiver, and it also lists a construction its
  callee has a copy for (`ConstructionLimits.BothKindsDisagree`). It is crowded when its receivers lead to
  several callees and it also lists a possible callee that is none of them
  (`ConstructionLimits.PossibleIsForgotten`). Calls with one kind of receiver record and one kind of callee
  are never either (`ConstructionMeaning.OneKindIsLinkedRight`).
- Folding counts each repeat as one whatever count it had (`EffectIdentity.TotalIsKept`,
  `EffectIdentity.CountIsLost`).
- Receivers are compared by their constructions joined with line breaks, so two that differ can compare alike
  (`Placements.OtherTextsShareKeys`). They do exactly when they agree on `own` and their constructions have
  one plain form, which breaks each text at its line breaks and is empty for one empty text
  (`Placements.AlikeExactly`). So a receiver is told from every plain one exactly when its own constructions
  are plain, none with a line break and not one empty text (`Placements.ToldFromPlain`), and from every
  receiver exactly when it was made at a single plain text (`Placements.ToldFromAll`).

## Model

| member | source | states |
|---|---|---|
| `JsonParse.MinifiedParses` | packages/behavioral-ir/src/documentFile.ts:96-98 | a parser for the JSON of RFC 8259, escapes of lone surrogates aside, reads the minified text of any value back as that value, so minified texts differ when values do |
| `JsonGrammar.ParsesExactly` | packages/behavioral-ir/src/documentFile.ts:382-388 | a text is parsed as a value exactly when it spells it by the grammar of RFC 8259: any space, any escapes, any form of number, and of a key written twice the first place and the last value |
| `DocumentFile.MinifiedHasNoNewline` | packages/behavioral-ir/src/documentFile.ts:95-98 | a minified value never has a raw newline |
| `SharedSurvey.Hasher.LogContainer` | packages/behavioral-ir/src/sharedValues.ts:137-176 | hashing a container appends the preorder log of its containers, each with its digest, its kind by printed size and how many follow inside it, and returns the printed size |
| `SharedSurvey.SurveySummary` | packages/behavioral-ir/src/sharedValues.ts:191-224 | compacting one summary's log with the stack of open entries appends exactly the entries of the recursive survey, with `inside` recounted, and updates the counts as it does |
| `SharedSurvey.Surveyed` | packages/behavioral-ir/src/sharedValues.ts:184-226 | the log and the counts of all summaries are those of the recursive survey, for any hashes |
| `SharedWriter.Writer.Write` | packages/behavioral-ir/src/sharedValues.ts:251-282 | the text is the minified shared tree, and the cursor never drifts: entered at a container's entry it leaves at entry + 1 + `inside[entry]`, for any hashes |
| `SharedWriter.Writer.WriteFirst` | packages/behavioral-ir/src/sharedValues.ts:269-281 | a container met first is written with its repeats shared, or in one piece when the prefix sums say nothing inside repeats, with the same text and cursor |
| `SharedWriter.NothingRepeats` | packages/behavioral-ir/src/sharedValues.ts:269-274 | where no entry for a value or inside it repeats, sharing leaves the value as it is |
| `SharedWriter.PrefixRepeats` | packages/behavioral-ir/src/sharedValues.ts:241-247 | the prefix sums count the repeating entries before each entry |
| `SharedWriter.SharedSummaryLines` | packages/behavioral-ir/src/sharedValues.ts:233-297 | the lines are the minified shared trees of the summaries, one a summary; which values those share is in `PrintedSize.ShortIsNeverShared` and `PrintedSize.LongIsSharedOnce` |
| `SharedWriter.Writer.WriteAll` | packages/behavioral-ir/src/sharedValues.ts:284-296 | values written one after another move the cursor by exactly the entries the survey logged for them, so after the last summary it is the length of the log |
| `SharedReader.SharedValueReader.ExpandNode` | packages/behavioral-ir/src/sharedValues.ts:335-359 | the reader's method changes its table and gives the value as the recursive reading does |
| `SharedReader.CopyIsWhole` | packages/behavioral-ir/src/sharedValues.ts:312-324 | a copy equals its value exactly when no object in it has the key `__proto__` |
| `SharedReader.ReadAsItIs` | packages/behavioral-ir/src/sharedValues.ts:335-359 | a value without reserved shapes is read as it is and leaves the table alone |
| `SharedReader.DefinitionExactly` | packages/behavioral-ir/src/sharedValues.ts:302-305 | a definition is an object with a number under `$def`, anything under `$value` and nothing else, in either order |
| `SharedReader.ReferenceExactly` | packages/behavioral-ir/src/sharedValues.ts:299-300 | a reference is an object with a number under `$ref` and nothing else |
| `SharedReader.DefinitionReads` | packages/behavioral-ir/src/sharedValues.ts:350-354 | a definition is read as its value, with what it refers to put back, and the table has that under its number |
| `SharedReader.ReferenceReads` | packages/behavioral-ir/src/sharedValues.ts:345-349 | a reference is read as a copy of what the table has under its number, or as it is when there is nothing |
| `SharedRoundTrip.AgainIsReference` | packages/behavioral-ir/src/sharedValues.ts:262-268 | a value met again is written as a reference to the definition of the first, which is complete |
| `SharedRoundTrip.RoundTripExactly` | packages/behavioral-ir/src/sharedValues.ts:233-360 | expanding all lines in order with one reader gives the summaries back if and only if no value met again has a `__proto__` key, even where keys alone collide |
| `SharedRoundTrip.RoundTrip` | packages/behavioral-ir/src/sharedValues.ts:233-360 | with no `__proto__` key in the summaries the round trip always holds |
| `SharedRoundTrip.ProtoIsLost` | packages/behavioral-ir/src/sharedValues.ts:312-324 | a summary with one `__proto__` object twice is not read back |
| `SharedRoundTrip.ClashLosesAValue` | packages/behavioral-ir/src/sharedValues.ts:262-268 | two different values that agree on key and check are read back as the first, so the collision assumption is needed |
| `SharedExact.DefinedInOrder` | packages/behavioral-ir/src/sharedValues.ts:275-281 | for any hashes definitions are numbered 1 to n in the order they are completed, and each is completed before any reference to it |
| `SharedExact.SharedOnce` | packages/behavioral-ir/src/sharedValues.ts:206-219 | with no key collision no value at or over the size threshold, other than a whole summary, is written in full twice, and each definition is referred to |
| `PrintedSize.SizeIsPrinted` | packages/behavioral-ir/src/sharedValues.ts:137-176 | the size is the length of the text printed with every text in it taken as it stands, and one more for each object or array that is not empty |
| `PrintedSize.ShortIsNeverShared` | packages/behavioral-ir/src/sharedValues.ts:228-282 | whatever the hashes, nothing whose size is under 32 is written as a definition or a reference |
| `PrintedSize.LongIsSharedOnce` | packages/behavioral-ir/src/sharedValues.ts:228-282 | with no key collision nothing whose size is 32 or more is written in full twice, so met again it is a reference, and each definition is referred to |
| `DocumentFile.DocumentPieces` | packages/behavioral-ir/src/documentFile.ts:111-141 | the pieces joined are the document text |
| `DocumentFile.ElementLines` | packages/behavioral-ir/src/documentFile.ts:100-104 | the pieces joined are the minified elements, a comma and a newline between them |
| `DocumentFile.DocumentParses` | packages/behavioral-ir/src/documentFile.ts:106-141 | parsing the document text gives the value, as parsing its minified text does |
| `DocumentFile.DocumentWithoutNewlines` | packages/behavioral-ir/src/documentFile.ts:111-141 | deleting the newlines of the document text gives the minified text |
| `DocumentCuts.LinesOfDocument` | packages/behavioral-ir/src/documentFile.ts:111-141 | the lines of a document: a bracket, one for each element or property, and for a property that is a list one for each of its elements, and a bracket; one line for a single value, an empty one, or an object with the key `toJSON` |
| `DocumentReader.LinesOf` | packages/behavioral-ir/src/documentFile.ts:340-373 | however the bytes are cut into reads, the lines are those of the whole content split at its newlines, numbered from 1, with none after a final newline |
| `DocumentReader.LinesOfChunk` | packages/behavioral-ir/src/documentFile.ts:349-367 | one read completes the lines whose newlines it has and keeps the tail |
| `DocumentReader.ElementsUntilClose` | packages/behavioral-ir/src/documentFile.ts:406-419 | elements up to the closing line, an error naming the line that does not parse, or one at the end of the file |
| `DocumentReader.ExpectNothingAfter` | packages/behavioral-ir/src/documentFile.ts:421-427 | only blank lines may follow the document |
| `DocumentReader.SplitProperty` | packages/behavioral-ir/src/documentFile.ts:477-494 | the key is the text up to its closing quote, escapes passed over, and the rest follows the colon |
| `DocumentReader.LineLayoutObject` | packages/behavioral-ir/src/documentFile.ts:445-474 | the loop gives the recursive reading of the lines; which lines are an object, and which, is in `DocumentGrammar.ObjectDocumentExactly` |
| `DocumentGrammar.ObjectDocumentExactly` | packages/behavioral-ir/src/documentFile.ts:445-474 | a file that opens with a brace reads as an object if and only if its lines are properties, each with its value or with its elements on lines up to one that closes them, then one line with only the brace, then blank lines; the object has each key where it is first and with its last value |
| `DocumentGrammar.ArrayDocumentExactly` | packages/behavioral-ir/src/documentFile.ts:401-443 | a file that opens with a bracket reads as an array if and only if its lines hold the elements, then the bracket alone, then blank lines |
| `DocumentGrammar.OnePieceExactly` | packages/behavioral-ir/src/documentFile.ts:276-319 | any other file reads as a value if and only if it is that one JSON text and no longer than the limit, and over the limit that is the error |
| `DocumentGrammar.PropertyIsSplit` | packages/behavioral-ir/src/documentFile.ts:477-494 | a line that begins with a string and a colon, whatever the string escapes, is split there |
| `DocumentErrors.ErrorExactly` | packages/behavioral-ir/src/documentFile.ts:382-474 | an error at the end: some document begins with all these lines; an error at a line: it is the first after which no document can go on |
| `DocumentReader.ReadJsonFile` | packages/behavioral-ir/src/documentFile.ts:211-250 | a file in the line layout is read by lines and any other in one piece, however its bytes are cut into reads |
| `DocumentRoundTrip.DocumentRoundTrips` | packages/behavioral-ir/src/documentFile.ts:111-141 | reading the bytes of a value's document text gives the value, unless it is one line over the size limit, and then the limit's error |
| `DocumentCuts.CutIsError` | packages/behavioral-ir/src/documentFile.ts:406-474 | of every value's document, any part short of its last bracket that still opens as one is an error |
| `DocumentCuts.CutBetweenLines` | packages/behavioral-ir/src/documentFile.ts:406-474 | cut after a line, the error is that the file ends too early |
| `DocumentCuts.ReadsToCloser` | packages/behavioral-ir/src/documentFile.ts:401-474 | a file that opens with a bracket and reads as a value has a line with only the bracket that closes it, and nothing but blank lines after |
| `DocumentRoundTrip.KeyEndsAtQuote` | packages/behavioral-ir/src/documentFile.ts:485-488 | the scan for a key's end stops at the closing quote of any escaped name |
| `DocumentRoundTrip.ElementsRead` | packages/behavioral-ir/src/documentFile.ts:401-419 | minified elements with their commas are read back, none taken for a closing bracket |
| `Utf8.DecodedEncoded` | packages/behavioral-ir/src/documentFile.ts:375-379 | decoding the UTF-8 of a text gives the text |
| `Utf8.FirstCharIsEncoded` | packages/behavioral-ir/src/documentFile.ts:375-379 | what is decoded as a character is its encoding, and a byte that begins no encoding is decoded as U+FFFD |
| `Utf8.SplitEncoded` | packages/behavioral-ir/src/documentFile.ts:336-339 | splitting encoded bytes at the newline byte splits the text at its newlines and cuts no character |
| `SummaryFile.SummaryFilePieces` | packages/behavioral-ir/src/summaryFile.ts:51-65 | the pieces joined are the summaries' shared lines in the line layout, `[]` for none |
| `SummaryFile.ValidatedElements` | packages/behavioral-ir/src/summaryFile.ts:75-109 | with one reader for the file each element is expanded, normalised and checked; the result is all that fit, ids settled where one was filled in, or else the first fifty issues, each with its element |
| `SummaryFile.FittingAreKept` | packages/behavioral-ir/src/summaryFile.ts:75-109 | where every element fits, the result has what each fits as, in order, with ids settled exactly when one was filled in anywhere |
| `SummaryFile.IssuesAreListed` | packages/behavioral-ir/src/summaryFile.ts:90-109 | where something is wrong, the result is the issues, each in its place and with the number of its element, the fifty-first and later left out |
| `SummaryFile.ReadSummaryFile` | packages/behavioral-ir/src/summaryFile.ts:37-45 | reading is independent of how the bytes are cut into reads |
| `SummaryFile.FileRoundTrip` | packages/behavioral-ir/src/summaryFile.ts:51-109 | current summaries written to a file and read back are the same in the same order, the empty list included, when no value met again has a `__proto__` key, and only then where the schema changes no value it takes |
| `Constructions.OwnFacts` | packages/behavioral-ir/src/constructions.ts:99-127 | the containers each summary lists and the calls on own receivers, from the effects alone |
| `Constructions.ConstructionsDependedOn` | packages/behavioral-ir/src/constructions.ts:96-139 | the worklist terminates with the least fixpoint: a construction is listed for an id exactly when some chain of own-receiver calls reaches a summary listing a container for it |
| `Constructions.GrowCallers` | packages/behavioral-ir/src/constructions.ts:130-136 | every caller takes on what the callee depends on and nothing else changes; exactly the callers to which some of it was new are queued, each once, in order |
| `Constructions.DependencyIsUnique` | packages/behavioral-ir/src/constructions.ts:96-139 | there is one such map |
| `ConstructionCopies.CopyMaker.CopyOf` | packages/behavioral-ir/src/constructions.ts:38-53 | a construction its summary depends on has one copy, listed and queued when it is first asked for, and any other has none |
| `ConstructionCopies.CopyMaker.LinkedToCopies` | packages/behavioral-ir/src/constructions.ts:208-227 | the linked call; exactly the copies it runs on that there were not yet are listed and queued, in order |
| `ConstructionCopies.CopyMaker.WithLinks` | packages/behavioral-ir/src/constructions.ts:177-195 | the linked summary; exactly the copies its calls run on that there were not yet are listed and queued, in order |
| `ConstructionCopies.LinkedPoints` | packages/behavioral-ir/src/constructions.ts:177-227 | a linked summary points at exactly the copies its calls run on |
| `ConstructionCopies.WithConstructions` | packages/behavioral-ir/src/constructions.ts:28-64 | the worklist terminates; the result has every summary linked, in order, and then, once each and linked, exactly the copies some chain of links from a summary leads to, in the order they are made |
| `ConstructionResult.SummaryInResult` | packages/behavioral-ir/src/constructions.ts:28-64 | each summary is listed in its place with its own id and receiver; its calls run on the copies for the constructions they list, and nothing else changes |
| `ConstructionResult.CopyInResult` | packages/behavioral-ir/src/constructions.ts:146-227 | whatever is listed after them is a copy of a summary for a construction it does something different on, with that as its receiver, the containers listed for it in the bindings, and its calls running on it or on those they list |
| `ConstructionResult.CopiesAreReached` | packages/behavioral-ir/src/constructions.ts:38-63 | each copy is listed because links as written lead to it from a summary |
| `ConstructionCopies.CopyMaker.LinkCopies` | packages/behavioral-ir/src/constructions.ts:55-62 | the copies that wait are linked, the last queued first, with those they need in turn, until none waits |
| `ConstructionCopies.CopyOrderIsNeeded` | packages/behavioral-ir/src/constructions.ts:55-63 | that order lists each copy a chain of links leads to, once, and nothing else |
| `ConstructionMeaning.LinkedCopiesExist` | packages/behavioral-ir/src/constructions.ts:38-63 | every link to a copy, from a summary or a copy, points at one that exists |
| `ConstructionMeaning.CopiesPreserveMeaning` | packages/behavioral-ir/src/constructions.ts:28-64 | a walk that carries the construction it is on, of any length and through cycles, reaches exactly the bindings a plain walk over the result reaches, when no call it comes to is misled or crowded |
| `ConstructionMeaning.StepIsLink` | packages/behavioral-ir/src/constructions.ts:198-227 | each step of the walk with constructions is a link between the copies at its ends |
| `ConstructionMeaning.LinkIsStep` | packages/behavioral-ir/src/constructions.ts:198-227 | each link is such a step |
| `ConstructionMeaning.SameBindings` | packages/behavioral-ir/src/constructions.ts:146-170 | the copy for a construction has the bindings the summary has on it |
| `ConstructionMeaning.LinkAgreesExactly` | packages/behavioral-ir/src/constructions.ts:198-227 | where the walk stands, the linked call points at exactly what the call reaches, if and only if the call is neither misled nor crowded there |
| `ConstructionMeaning.OneKindIsLinkedRight` | packages/behavioral-ir/src/constructions.ts:198-206 | a call with one kind of receiver record and one kind of callee is never misled or crowded |
| `ConstructionMeaning.OneKindPreservesMeaning` | packages/behavioral-ir/src/constructions.ts:28-64 | so where all calls are of that kind, both walks reach the same bindings from every summary |
| `ConstructionLimits.BothKindsDisagree` | packages/behavioral-ir/src/constructions.ts:198-206 | three summaries with a misled call, on which the plain walk reaches a binding the other does not |
| `ConstructionLimits.PossibleIsForgotten` | packages/behavioral-ir/src/constructions.ts:208-227 | three summaries with a crowded call, on which the plain walk misses a binding the other reaches |
| `ConstructionPruning.DropIdleReceivers` | packages/behavioral-ir/src/constructions.ts:71-89 | in place, each call keeps just the receiver records a copy could be made from |
| `ConstructionPruning.PrunedDependency` | packages/behavioral-ir/src/constructions.ts:71-139 | the dependency map is the same before and after pruning |
| `ConstructionPruning.PrunedLink` | packages/behavioral-ir/src/constructions.ts:71-89 | a pruned call links to the same callees, whatever construction its summary runs on |
| `ConstructionPruning.PruningIsInvisible` | packages/behavioral-ir/src/constructions.ts:66-89 | pruning changes neither the dependency map, nor the copies made, nor any link, container or other effect of any transition of any summary or copy |
| `ConstructionPruning.KeptListIsUsed` | packages/behavioral-ir/src/constructions.ts:66-70 | constructions a pruned call still lists give it a copy to run on |
| `ConstructionPruning.KeptOwnIsUsed` | packages/behavioral-ir/src/constructions.ts:66-70 | a call still marked as on its own receiver runs on a copy for some construction its caller depends on too |
| `ConstructionPruning.SameOrder` | packages/behavioral-ir/src/constructions.ts:38-63 | pruning keeps the order in which the copies are made |
| `ConstructionPruning.ResultsAgree` | packages/behavioral-ir/src/constructions.ts:55-89 | specialising gives the same list with and without pruning, place by place and transition by transition, but for the receiver records calls still list |
| `Interpreter.ValueSound` | packages/behavioral-ir/src/interpret.ts:50-81 | a value the interpreter knows is the value however what it does not know is filled in |
| `Interpreter.VerdictSound` | packages/behavioral-ir/src/interpret.ts:157-222 | a true verdict holds and a false one fails however the unknown values and truths are filled in; what holds is read off the values, with no part of the interpreter |
| `Interpreter.ConditionsSound` | packages/behavioral-ir/src/interpret.ts:225-230 | a settled transition is taken, or misses a condition, however they are filled in |
| `Interpreter.ValueExactly` | packages/behavioral-ir/src/interpret.ts:37-81 | the interpreter gives a reference a value exactly when the inputs lead to one by properties of objects, and that one |
| `Interpreter.VerdictExactly` | packages/behavioral-ir/src/interpret.ts:87-222 | the verdict is true exactly when the known inputs make the condition hold, false exactly when they make it fail, and unknown otherwise |
| `Interpreter.ConditionsExactly` | packages/behavioral-ir/src/interpret.ts:225-230 | a transition is taken exactly when every condition is made to hold, and not taken exactly when one is made to fail |
| `Interpreter.ComparesAs` | packages/behavioral-ir/src/interpret.ts:119-144 | numbers compare by size, not-a-number with nothing; texts by the first character that differs; the rest only by sameness |
| `Interpreter.ValueSettled` | packages/behavioral-ir/src/interpret.ts:50-81 | adding inputs never changes a known value |
| `Interpreter.VerdictSettled` | packages/behavioral-ir/src/interpret.ts:157-222 | adding inputs never changes a settled verdict |
| `Interpreter.ConditionsSettled` | packages/behavioral-ir/src/interpret.ts:225-230 | adding inputs never changes a settled transition |
| `PredicateRefs.ReplacedRefs` | packages/behavioral-ir/src/statusTests.ts:41-92 | the references of a replaced condition are the replaced references, in order |
| `PredicateRefs.FilledRefs` | packages/behavioral-ir/src/statusTests.ts:41-75 | the references collected are all that stand in the condition: filled in, any list of them comes out in order |
| `PredicateRefs.ReplacedIsFilled` | packages/behavioral-ir/src/statusTests.ts:41-92 | replacing changes the references in their places and nothing else |
| `PredicateRefs.ReplacedVerdict` | packages/behavioral-ir/src/statusTests.ts:77-92 | where each reference reads as its replacement does under other inputs, a condition and its image are judged alike |
| `PredicateRefs.VerdictFromRefs` | packages/behavioral-ir/src/statusTests.ts:41-44 | only the references collected bear on the verdict |
| `Guards.GuardAccumulates` | packages/behavioral-ir/src/conditions.ts:105-138 | the parity carried down gives the polarity of the whole condition, and a guard exists exactly when its subject came from a call that crosses a boundary |
| `Guards.RootExactly` | packages/behavioral-ir/src/conditions.ts:184-200 | the subject is the dependency or input the value stems from, and the path the names read off it, in the order they are read |
| `Guards.PolarityHolds` | packages/behavioral-ir/src/conditions.ts:144-157 | under any depth of negation a guard that says its subject is missing found it falsy, and one that says it is there found it neither null nor undefined |
| `Guards.PresenceSettles` | packages/behavioral-ir/src/conditions.ts:144-181 | a presence check is settled exactly when its subject is known |
| `Guards.PolarityVerdict` | packages/behavioral-ir/src/conditions.ts:140-157 | polarity agrees with the interpreter's verdict on a known subject |
| `Guards.BoundarySubjectUnknown` | packages/behavioral-ir/src/conditions.ts:184-200 | the interpreter never knows the subject of a guard joined to a boundary |
| `Guards.BoundaryCalls` | packages/behavioral-ir/src/conditions.ts:67-84 | each callee that crosses a boundary other than by providing it, with its first crossing |
| `Guards.BoundaryGuardsOf` | packages/behavioral-ir/src/conditions.ts:91-103 | the conditions that can be joined, in order, each with its boundary, path and polarity |
| `Diff.PairGuardChanges` | packages/behavioral-ir/src/index.ts:545-570 | the greedy pairing matches the k-th removed with the k-th added of each outcome and leaves the rest in order |
| `Diff.DiffSummaries` | packages/behavioral-ir/src/index.ts:572-606 | the diff of the two versions keyed by id |
| `Diff.ByIdIds` | packages/behavioral-ir/src/index.ts:576-577 | one entry an id, and transitions with ids of their own are their own entries |
| `Diff.EachBeforeOnce` | packages/behavioral-ir/src/index.ts:572-606 | each transition before is removed, changed or unchanged, exactly once |
| `Diff.EachAfterOnce` | packages/behavioral-ir/src/index.ts:572-606 | each transition after is added, changed or unchanged, exactly once |
| `Diff.BeforeIsOneOf` | packages/behavioral-ir/src/index.ts:572-606 | a transition before is removed, or changed, or kept by the version after, and exactly one of these |
| `Diff.AfterIsOneOf` | packages/behavioral-ir/src/index.ts:572-606 | a transition after is added, or changed, or kept from the version before, and exactly one of these |
| `Diff.NoLeftoverShared` | packages/behavioral-ir/src/index.ts:545-570 | no transition left removed does the same work as one left added |
| `Diff.PairedCount` | packages/behavioral-ir/src/index.ts:545-570 | each outcome is paired as often as the side that has it less often has it |
| `Diff.DiffMirrored` | packages/behavioral-ir/src/index.ts:572-606 | swapping the versions mirrors the diff, up to the order of the changes |
| `Diff.DiffIsEmpty` | packages/behavioral-ir/src/index.ts:506-522 | the diff is empty if and only if each side's transitions do what the other's with their ids do, wherever in the file they are |
| `Diff.ChangedExactly` | packages/behavioral-ir/src/index.ts:506-606 | of two transitions of one id, a change is reported exactly when they differ in conditions, in being the default, in an effect apart from its line, or in anything else but id and line; of two whose ids the other side lacks, exactly when they do the same work and as many that do it come before the one as before the other |
| `Diff.RemovedExactly` | packages/behavioral-ir/src/index.ts:545-606 | a transition is reported as removed exactly when its id is gone and no fewer that are gone and do its work come before it than there are new ones that do |
| `Diff.AddedExactly` | packages/behavioral-ir/src/index.ts:545-606 | the same of one reported as added |
| `Diff.ByIdIsLast` | packages/behavioral-ir/src/index.ts:576-577 | of transitions that share an id the last is compared |
| `Diff.ByIdInOrder` | packages/behavioral-ir/src/index.ts:576-577 | and they are compared in the order their ids first come |
| `ContractCopies.ContentByBoundary` | packages/cli/src/contractCopies.ts:32-48 | every text said under each key, in order; none if and only if a summary has no key |
| `ContractCopies.SaysAll` | packages/cli/src/contractCopies.ts:129-139 | whether each boundary of the small file is in the large one, saying the same |
| `ContractCopies.CoversIsTransitive` | packages/cli/src/contractCopies.ts:112-116 | covering is transitive across the size test and the tie-break |
| `ContractCopies.KeptBeforeIsTransitive` | packages/cli/src/contractCopies.ts:146-160 | the tie-break by depth, bytes and name is transitive |
| `ContractCopies.LeftOutIsCovered` | packages/cli/src/contractCopies.ts:112-127 | every file not kept is covered by a kept one |
| `ContractCopies.NoContentIsLost` | packages/cli/src/contractCopies.ts:95-127 | every boundary of every comparable file, with what it says, is in a kept file of the same reader |
| `ContractCopies.KeptIsTheSelection` | packages/cli/src/contractCopies.ts:112-119 | of all choices of files, the kept ones are the only choice in which no file covers another and every file left out is covered by one chosen |
| `ContractCopies.CoveredFiles` | packages/cli/src/contractCopies.ts:95-127 | of the files read the list has exactly the comparable ones not kept, in order, each with a kept file that covers it |
| `ContractCopies.ListedExactly` | packages/cli/src/contractCopies.ts:95-168 | of the files read, exactly those are listed, in order, that can be compared and that another one of the same reader repeats, saying more, or as much and being in fewer directories, or smaller, or earlier by name; each with the first file that stays and says all it says |
| `Placements.DeclarationKeyIsFaithful` | packages/behavioral-ir/src/callLinks.ts:35-40 | one key means one file and one span |
| `Placements.SamePlaceIsEqual` | packages/behavioral-ir/src/callLinks.ts:295-301 | two places are the same exactly when file, span and receiver class are |
| `Placements.JoinSettles` | packages/behavioral-ir/src/callLinks.ts:238-251 | the join settles on the first placement if and only if there is one and all agree with it |
| `Placements.SameSets` | packages/behavioral-ir/src/callLinks.ts:303-317 | two sorted sets compare alike exactly when they list the same declarations as often |
| `Placements.SortedSet` | packages/behavioral-ir/src/callLinks.ts:303-317 | a set is sorted by file and span, places of one declaration in the order they came |
| `Placements.ReceiverKeyIsFaithful` | packages/behavioral-ir/src/callLinks.ts:319-323 | receivers made at texts without a line break, and not at one empty text, compare alike exactly when they are equal |
| `Placements.AlikeExactly` | packages/behavioral-ir/src/callLinks.ts:319-323 | two receivers compare alike if and only if they agree on `own` and their constructions, broken at line breaks and without one lone empty text, are the same list |
| `Placements.ToldFromPlain` | packages/behavioral-ir/src/callLinks.ts:319-323 | a receiver compares alike with no other receiver made at plain texts if and only if it was made at plain texts |
| `Placements.ToldFromAll` | packages/behavioral-ir/src/callLinks.ts:319-323 | a receiver compares alike with no other at all if and only if it was made at one text, not empty and without a line break |
| `Placements.OtherTextsShareKeys` | packages/behavioral-ir/src/callLinks.ts:319-323 | two pairs of different receivers that compare alike, one for a line break and one for an empty text |
| `CallLinks.TargetPlacements.PlaceCall` | packages/behavioral-ir/src/callLinks.ts:146-151 | a known place is joined under its callee text and changes nothing else |
| `CallLinks.TargetPlacements.PlaceStop` | packages/behavioral-ir/src/callLinks.ts:159-164 | the first stop under a text is kept |
| `CallLinks.TargetPlacements.PlaceArg` | packages/behavioral-ir/src/callLinks.ts:168-173 | a place is joined under its callee text and argument position |
| `CallLinks.TargetPlacements.PlacePossible` | packages/behavioral-ir/src/callLinks.ts:180-194 | a set that is not empty is sorted and joined under its callee text |
| `CallLinks.TargetPlacements.PlaceReceiver` | packages/behavioral-ir/src/callLinks.ts:122-135 | a receiver, or not knowing it, is joined under its callee text |
| `CallLinks.TargetPlacements.Targets` | packages/behavioral-ir/src/callLinks.ts:217-223 | the settled places, with a stop before them |
| `CallLinks.TargetPlacements.PossibleTargets` | packages/behavioral-ir/src/callLinks.ts:202-214 | the settled sets of texts neither placed nor stopped |
| `CallLinks.TargetPlacements.ArgTargets` | packages/behavioral-ir/src/callLinks.ts:226-235 | the settled argument positions, and no text without one |
| `CallLinks.TargetPlacements.Receivers` | packages/behavioral-ir/src/callLinks.ts:138-140 | the settled receivers |
| `CallLinks.PlaceSettles` | packages/behavioral-ir/src/callLinks.ts:142-151 | a text is settled on a place if and only if it was placed there, and nowhere else |
| `CallLinks.ArgSettles` | packages/behavioral-ir/src/callLinks.ts:166-173 | the same of an argument position |
| `CallLinks.ReceiverSettles` | packages/behavioral-ir/src/callLinks.ts:117-140 | a text's receiver is settled if and only if every call written that way is on a known receiver and all of these compare alike |
| `CallLinks.PlainReceiverSettles` | packages/behavioral-ir/src/callLinks.ts:117-140 | where the constructions are plain, the exact case in which a receiver is told from every plain one, a text is settled on a receiver if and only if every call written that way is on that one |
| `CallLinks.StopHidesPossible` | packages/behavioral-ir/src/callLinks.ts:196-214 | any stop, or any placement, takes the text out of the possible targets, and a stop is the target |
| `CallLinks.PossibleSettles` | packages/behavioral-ir/src/callLinks.ts:175-214 | a text has possible targets if and only if all its sets list the same declarations, and it was neither placed nor stopped |
| `CallLinks.StopIsFirst` | packages/behavioral-ir/src/callLinks.ts:153-164 | a stopped text has its first stop as its target |
| `CallLinks.TargetSettles` | packages/behavioral-ir/src/callLinks.ts:216-223 | any other has a target exactly when it was placed there and nowhere else |
| `CallLinks.PossibleIsFirst` | packages/behavioral-ir/src/callLinks.ts:180-214 | the possible targets are the first set placed, sorted by declaration |
| `CallLinks.ReceiverIsFirst` | packages/behavioral-ir/src/callLinks.ts:117-140 | the receiver is that of the first call written so |
| `CallLinks.OrderDoesNotMatter` | packages/behavioral-ir/src/callLinks.ts:142-235 | walks that record the same events, in any order and however often, settle the same texts and positions alike, and the same texts on receivers that compare alike |
| `StableTexts.StableIsMinified` | packages/behavioral-ir/src/effectIdentity.ts:39-54 | the stable text is the minified text of the value with keys sorted, undefined fields gone and undefined items null |
| `Sorting.SortedIsSet` | packages/behavioral-ir/src/effectIdentity.ts:48-50 | sorting entries by key forgets their order and nothing else |
| `StableTexts.StableTextsAgree` | packages/behavioral-ir/src/effectIdentity.ts:38-54 | two values have one stable text if and only if they are equal up to key order and undefined fields, undefined elsewhere read as null |
| `EffectIdentity.KeysAgree` | packages/behavioral-ir/src/effectIdentity.ts:18-62 | two effects have one key if and only if their records agree on every field but `groupId`, `count` and `location` |
| `EffectIdentity.FoldRepeatedEffects` | packages/behavioral-ir/src/effectIdentity.ts:68-89 | for any way to give keys, by the effect or by where it is, the loop with its map of first places gives the recursive fold |
| `EffectIdentity.FoldedKeys` | packages/behavioral-ir/src/effectIdentity.ts:64-89 | for any keys, one entry a key, in the order the keys first appear |
| `EffectIdentity.FoldedEntry` | packages/behavioral-ir/src/effectIdentity.ts:64-89 | for any keys, each entry is the first effect of its key, counting the times the key appears |
| `EffectIdentity.TotalIsKept` | packages/behavioral-ir/src/effectIdentity.ts:84-85 | for any keys, the counts keep their total if and only if no repeat had a count beyond one |
| `EffectIdentity.CountIsLost` | packages/behavioral-ir/src/effectIdentity.ts:84-85 | an effect and a repeat of its key with count two count three before folding and two after |
| `EffectIdentity.FoldedTwice` | packages/behavioral-ir/src/effectIdentity.ts:68-89 | folding what was folded changes nothing, under any key that does not read the count |
| `EffectIdentity.FoldedKeepsKeys` | packages/behavioral-ir/src/effectIdentity.ts:68-89 | under such a key the entries have the keys of the effects, each once, in the order they first appear |
| `EffectIdentity.FoldedByEffectKey` | packages/behavioral-ir/src/effectIdentity.ts:56-89 | both hold of the key of an effect |

## Left out

- SharedReader.SharedValueReader.ExpandNode: gives the expanded value instead of changing the parsed node in place, so sharing between nodes is not modelled.
- SharedSurvey.Hasher.LogContainer: takes the two hashes from a parameter; mixing 32-bit numbers and growing the typed arrays are not modelled.
- SharedWriter.SharedSummaryLines: gives all lines at once where the source yields them one by one.
- DocumentReader.LinesOf: takes the reads as given; bytes that are not UTF-8 decode to one U+FFFD a byte, and the `rewrite` of each line is the identity.
- DocumentReader.ReadJsonFile: errors name the line and the kind of problem, not the message; file names and descriptors are not part of it.
- SummaryFile.ValidatedElements: takes the migration of old elements, the schema check and the settling of filled-in ids as parameters; a document that is not a list is refused without the issues of the list schema.
- ConstructionMeaning.CopiesPreserveMeaning: its condition is exact for one call at one spot (`LinkAgreesExactly`); where a call is linked wrongly, the same bindings may still be reached by other calls.
- ConstructionPruning.DropIdleReceivers: changes each summary in an array; the effects are values inside it.
- Diff.DiffSummaries: compares behaviour and outcome as records of their fields where the source compares their JSON texts.
- ContractCopies.ContentByBoundary: takes what each summary says and its pairing key as given; flattening unions inside unions is not modelled.
- CallLinks.TargetPlacements.PlaceCall: the normalising of callee text is a parameter.
- CallLinks.OrderDoesNotMatter: does not say which of several stops is kept, nor which of several agreeing sets or receivers, since the order decides these.
- EffectIdentity.FoldRepeatedEffects: the count is held beside the fields, so where it comes among them is not modelled.
- EffectIdentity.FoldedTwice: says nothing of keys given by where an effect is, since folding moves the effects.
- Objects parsed from text keep the order of their keys in the text (`JsonParse.WithFirst`, `DocumentReader.WithProperty`), where the source enumerates keys that are array indices first.
- A number parsed from text keeps its spelling (`1.0` is not `1`), where the source has one number for both.
- Text is a sequence of Unicode code points where the source has UTF-16 units, so the order of texts with characters beyond U+FFFF (`Texts`, `Sorting`) and the size of such texts (`SharedSurvey.Size`) differ from the source there.
- Objects with `toJSON`, sparse arrays, lone surrogates, negative zero and infinities, and values `JSON.stringify` drops, other than the undefined fields of `StableTexts`.
- Writing through a temporary file and renaming it, file handles, and the limits of the engine on one line.
- `linkCallsToSummaries`, `disambiguateSummaryIds` and the functions that write placements onto effects.
- `testsStatus` and the members a status is read from.
- Schemas, the adapters, the checker, reports and the command line.
