# Serialized execution of an external classifier

SerializedExecution runs an external classifier (EC, a `.jar`) once for every
combination of input parameters that a configuration describes, on every
(train set, test set) pair the user selected. It then writes all the
classifier's answers to one text file. This project is a Dafny model of its
engine, with proofs about it:

- **Serializer.** It turns a configuration into ranges, enumerates every
  combination by a recursive search that skips tuples it has already seen,
  builds the command lines and collects the answers of each command.
- **RunManager.** It checks the user's selection: exactly one EC, exactly one
  configuration, at least one test set and any number of train sets. It checks
  that the selected files exist, assembles the Serializer's inputs and has the
  output written.
- **ConfigurationManager.** It holds the configuration being edited, checks it
  and stores or loads it.
- **Variable.** The range iterator of a ranged element.
- **Database.** The store is modelled as in-memory tables. The model covers the
  table-name mapping, the selection flags, removal, and the codec between
  numeric elements and configuration-value rows.
- **FileManager.** The per-kind lists of files shown to the user, and their
  selection.
- **Output.** The results map and the line format of `output.txt`.

Numbers are `real`. How numbers are turned into text and read back is a
parameter, `Numeric.NumberText`, with a predicate `Faithful` for a rendering
that reads back exactly and contains no space. Other parameters stand in for
things outside the model:

- the classifier's standard output for a command line, `ec`;
- whether a path names an existing file, `isFile`;
- the platform's file separator, `separator`.

Modules, one per source class (plus shared ones):

- `Wrappers` — `Option`.
- `Text` — Java's `String.split`.
- `Collections` — sequence helpers.
- `Numeric` — `NumericElement` and `toString`.
- `Models` — `FileType` and `Model`.
- `Persistence` — Database.
- `CapturedOutput` — the reading of the classifier's output.
- `Serialization` — Serializer.
- `Ranges` — Variable.
- `Configurations` — ConfigurationManager.
- `Files` — FileManager.
- `Reporting` — Output.
- `Runs` — RunManager.

## Model

| member | source | states |
|---|---|---|
| Models.Ordinal | src/SerializedExecution/src/Database.java:251-264 | each file kind has its own position in the kind order EC, TEST, TRAIN, CONFIGURATION |
| Numeric.Fields | src/SerializedExecution/src/serializedexecution/Parameter.java:34-36 | a Parameter's text has two fields and a Variable's four, the first being the name |
| Numeric.SplitToString | src/SerializedExecution/src/serializedexecution/Variable.java:66-69 | splitting an element's text on spaces gives back its name and numbers, in order, when the name has no space |
| Numeric.StepsIsCeil | src/SerializedExecution/src/SerializerTest.java:116-129 | the number of steps of an ascending range is ceil((end - start) / step) |
| Numeric.StepsBounds | src/SerializedExecution/src/serializedexecution/Serializer.java:204-207 | the k-th value start + k * step lies below `end` exactly when k is below the step count |
| Text.SplitJoined | src/SerializedExecution/src/Database.java:410 | `split` on a separator undoes joining separator-free fields whose last field is not empty |
| Ranges.Next | src/SerializedExecution/src/serializedexecution/Variable.java:37-44 | one step further while that stays at or below `end`, and `end` otherwise |
| Ranges.IterateClosed | src/SerializedExecution/src/serializedexecution/Variable.java:37-44 | the k-th value of an ascending range is start + k * step, cut off at `end` |
| Ranges.IterateBounds | src/SerializedExecution/src/serializedexecution/Variable.java:37-44 | every value of an ascending range lies in [start, end], and no call lowers it |
| Ranges.EndedAfter | src/SerializedExecution/src/serializedexecution/Variable.java:50-52 | the range is at `end` exactly from call ceil((end - start) / step) on |
| Ranges.StaysAtEnd | src/SerializedExecution/src/serializedexecution/Variable.java:37-44 | once at `end`, a further call stays at `end` |
| Ranges.Variable.constructor | src/SerializedExecution/src/serializedexecution/Variable.java:25-30 | name, start, end and step are the arguments, and the getters are these constant fields |
| Ranges.Variable.StartIteration | src/SerializedExecution/src/serializedexecution/Variable.java:32-35 | the current value becomes `start` and is returned, and the iteration invariant holds |
| Ranges.Variable.NextValue | src/SerializedExecution/src/serializedexecution/Variable.java:37-44 | the current value moves by `Next`, and stays the n-th value of the range after n calls |
| Ranges.Variable.EndedAfterCalls | src/SerializedExecution/src/serializedexecution/Variable.java:50-52 | `hasEnded` holds exactly once `nextValue` has run ceil((end - start) / step) times |
| Ranges.Variable.Element | src/SerializedExecution/src/serializedexecution/Variable.java:54-64 | the element carries the variable's name, start, end and step |
| Ranges.Variable.ToStringFields | src/SerializedExecution/src/serializedexecution/Variable.java:66-69 | `toString` is the name, start, end and step separated by spaces |
| Persistence.TableNameInjective | src/SerializedExecution/src/Database.java:251-264 | no two file kinds share a table |
| Persistence.ClickedSnoc | src/SerializedExecution/src/Database.java:315-334 | each further checked row adds its model, with the flag set, at the end of the result |
| Persistence.MarkAll | src/SerializedExecution/src/Database.java:277-291 | with "*", every row is selected when the flag is 1 and none otherwise |
| Persistence.MarkNamed | src/SerializedExecution/src/Database.java:277-291 | with any other name, exactly the rows of that name take the flag and all other rows keep theirs |
| Persistence.LastIdNamedIsLast | src/SerializedExecution/src/Database.java:174-183 | no id exactly when no row has the name, and otherwise the id of the last row that has it |
| Persistence.EncodeRowOwned | src/SerializedExecution/src/Database.java:415-417 | every inserted row carries the configuration id it is inserted for |
| Persistence.EncodedPrefixOwned | src/SerializedExecution/src/Database.java:409-417 | every row an insert adds belongs to its configuration |
| Persistence.EncodeRowFields | src/SerializedExecution/src/Database.java:409-417 | a Parameter is stored as (value, step 0, end 0) and a Variable as its own start, step and end |
| Persistence.DecodeEncode | src/SerializedExecution/src/Database.java:382-385 | a stored Parameter, or a Variable with a positive step, decodes to itself |
| Persistence.DecodeEncodeFlatVariable | src/SerializedExecution/src/Database.java:382-385 | a stored Variable with a step that is not positive decodes to a Parameter holding its start |
| Persistence.DecodedEncoded | src/SerializedExecution/src/Database.java:370-388 | decoding the rows of an insert gives the elements back in order, and no insert fails |
| Persistence.DecodedCons | src/SerializedExecution/src/Database.java:370-388 | rows decode one by one and in order |
| Persistence.RetrieveAfterInsert | src/SerializedExecution/src/Database.java:404-419 | after an insert for an id, retrieving that id gives the inserted elements, whatever the store held before |
| Persistence.NoneOwnedAfterRemoval | src/SerializedExecution/src/Database.java:406-407 | after the delete, no value of the id remains |
| Persistence.InsertKeepsOthers | src/SerializedExecution/src/Database.java:406-417 | an insert leaves the values of every other configuration unchanged |
| Persistence.OtherValuesKept | src/SerializedExecution/src/Database.java:406-407 | deleting one id's values keeps those of every other id, in order |
| Persistence.RemovingEcDropsConfigurationValues | src/SerializedExecution/src/Database.java:203-204 | removing EC 1 deletes the values of configuration 1, which is another entity |
| Persistence.Database.SetTable | src/SerializedExecution/src/Database.java:251-264 | only the table of the given kind changes |
| Persistence.Database.GetClickedModels | src/SerializedExecution/src/Database.java:304-339 | the result is the models of the checked rows, in table order |
| Persistence.Database.ClickedModelsExactly | src/SerializedExecution/src/Database.java:309-332 | a row's model is returned exactly when the row is checked, and every returned model is selected and of the right kind |
| Persistence.Database.RetrieveFromTable | src/SerializedExecution/src/Database.java:50-104 | the result is the models of the kind's table, in order (configurations filtered by EC) |
| Persistence.Database.RetrievedConfigurations | src/SerializedExecution/src/Database.java:57-74 | no configurations when no EC is selected; otherwise exactly those of the first selected EC |
| Persistence.Database.UpdateClicked | src/SerializedExecution/src/Database.java:277-291 | only the kind's table changes, and it is re-flagged as `Marked` says |
| Persistence.Database.FindId | src/SerializedExecution/src/Database.java:174-183 | the id loop ends with the id of the last row of that name, or none |
| Persistence.Database.RemoveFromTableAsWritten | src/SerializedExecution/src/Database.java:168-208 | false and nothing changed for an unknown name; otherwise the rows of that name go, and so do the configuration values under the id, whatever the kind |
| Persistence.Database.RemoveFromTable | src/SerializedExecution/src/Database.java:168-208 | as above, but configuration values go only when a configuration is removed |
| Persistence.Database.RetrieveConfigurationValues | src/SerializedExecution/src/Database.java:356-392 | the elements of the id's rows, decoded in row order |
| Persistence.Database.InsertConfigurationValues | src/SerializedExecution/src/Database.java:404-419 | the id's old values are deleted, then the elements' rows are appended until one cannot be encoded; success exactly when none fails |
| Persistence.Database.InsertRows | src/SerializedExecution/src/Database.java:409-418 | rows are appended in element order up to the first failing element |
| Configurations.RowValues | src/SerializedExecution/src/ConfigurationManager.java:44-56 | there is a value exactly when every row holds a number, and then they are the rows' values in order |
| Configurations.ConfigurationManager.constructor | src/SerializedExecution/src/ConfigurationManager.java:30-34 | a new manager has no element and the id "" |
| Configurations.ConfigurationManager.SetConfigurationFromRow | src/SerializedExecution/src/ConfigurationManager.java:44-56 | all or nothing: true with every row's value in order, or false with an empty configuration |
| Configurations.ConfigurationManager.SetConfigurationFromNumericElement | src/SerializedExecution/src/ConfigurationManager.java:116-126 | the configuration becomes the given elements, same length and order |
| Configurations.ConfigurationManager.CheckValidity | src/SerializedExecution/src/ConfigurationManager.java:139-155 | valid exactly when every Variable has a step that is not negative and a start not above its end |
| Configurations.ConfigurationManager.Write | src/SerializedExecution/src/ConfigurationManager.java:86-90 | an invalid configuration leaves the store as it was; a valid one replaces the id's values, and storable elements load back unchanged |
| Configurations.ConfigurationManager.Load | src/SerializedExecution/src/ConfigurationManager.java:99-106 | the id becomes the argument and the elements become those stored under it |
| Configurations.DecodedValid | src/SerializedExecution/src/Database.java:382-385 | elements loaded from the store never have a step that is not positive |
| Files.WithClicked | src/SerializedExecution/src/FileManager.java:180-193 | setting a flag keeps the list's length |
| Files.Unclicked | src/SerializedExecution/src/FileManager.java:181-187 | every model is deselected and nothing else changes |
| Files.ExclusiveSelection | src/SerializedExecution/src/FileManager.java:180-193 | selecting an EC or a configuration leaves it the only selected model of its kind |
| Files.SingleSelection | src/SerializedExecution/src/FileManager.java:190-193 | for TEST and TRAIN, and for any deselection, only model j's flag changes |
| Files.SelectionCoherent | src/SerializedExecution/src/FileManager.java:176-196 | with the new flag stored, the table's models are again the list's models |
| Files.DeselectionStoresOne | src/SerializedExecution/src/FileManager.java:195 | deselecting a TEST file as written leaves it selected in the store while the list shows it deselected |
| Files.FirstNamed | src/SerializedExecution/src/FileManager.java:234-243 | the index of the first model with the name, or none when no model has it |
| Files.FileManager.constructor | src/SerializedExecution/src/FileManager.java:33-42 | each kind's list is the store's list of that kind |
| Files.FileManager.GetElement | src/SerializedExecution/src/FileManager.java:54-59 | None exactly out of range; otherwise model j of the kind |
| Files.FileManager.GetModelArray | src/SerializedExecution/src/FileManager.java:84-93 | a copy of `getArraySize` elements, element j being `getElement(j)` |
| Files.FileManager.UpdateModelData | src/SerializedExecution/src/FileManager.java:145-151 | only the kind's list is replaced, by the store's list |
| Files.FileManager.UpdateAllModelData | src/SerializedExecution/src/FileManager.java:161-165 | every list becomes the store's list of its kind |
| Files.FileManager.ClearClicked | src/SerializedExecution/src/FileManager.java:181-187 | every model of the kind is deselected, and the other kinds are untouched |
| Files.FileManager.SetClickedAsWritten | src/SerializedExecution/src/FileManager.java:176-196 | out of range nothing changes; otherwise the list is updated and the store receives flag 1 for the name |
| Files.FileManager.SetClicked | src/SerializedExecution/src/FileManager.java:176-196 | as above, with the store receiving the model's new flag |
| Files.FileManager.GetClicked | src/SerializedExecution/src/FileManager.java:207-223 | None exactly when nothing is selected; otherwise the selected models in list order |
| Files.FileManager.GetIdByName | src/SerializedExecution/src/FileManager.java:234-243 | the id of the first model with the name, or -1 |
| Reporting.Block | src/SerializedExecution/src/Output.java:70-74 | an entry prints its key, its answers in order, and one empty line |
| Reporting.Entries | src/SerializedExecution/src/Output.java:69 | entry i is the i-th key visited with its answers |
| Reporting.BlockSizes | src/SerializedExecution/src/Output.java:69-75 | each entry takes its answer count plus two `println` calls |
| Reporting.RenderLength | src/SerializedExecution/src/Output.java:69-75 | `println` is called as many times as the sum, over the entries, of answers plus two |
| Reporting.UntilBlank | test-strutturali/OutputTest.java:128-143 | the position of the first empty line, with no empty line before it |
| Reporting.ParseRender | test-strutturali/OutputTest.java:128-143 | when every key and answer is one non-empty line, reading the file back line by line gives the printed items, and so every entry with its answers in order |
| Reporting.RenderOneLine | src/SerializedExecution/src/Output.java:69-75 | keys and answers without line terminators print as items without line terminators |
| Reporting.MultiLineAnswerSplits | src/SerializedExecution/src/Output.java:72 | `println` of the answer "\na" writes two lines: the file is byte for byte the one for the answers "" and "a", and reads back as the two entries "k" and "a" |
| Reporting.ParseItems | test-strutturali/OutputTest.java:128-143 | when no answer is empty, parsing the printed items gives every entry with its answers in order |
| Reporting.ParseBlock | test-strutturali/OutputTest.java:128-143 | a block reads back as its entry followed by what comes after it |
| Reporting.UntilBlankPast | test-strutturali/OutputTest.java:128-143 | the first empty line after blank-free answers is the one that ends them |
| Reporting.FilePath | src/SerializedExecution/src/Output.java:65 | the folder, the separator and "output.txt", with "null" for a folder never set |
| Reporting.RenderSnoc | src/SerializedExecution/src/Output.java:69-75 | visiting one more entry appends its block to the file |
| Reporting.RenderExample | src/SerializedExecution/src/Output.java:69-75 | an entry without answers renders as key and an empty line |
| Reporting.Output.constructor | src/SerializedExecution/src/Output.java:32-35 | a new Output has an empty map and no folder |
| Reporting.Output.SetMapOfValues | src/SerializedExecution/src/Output.java:37-43 | the getter returns the map that was set |
| Reporting.Output.SetOutputFileFolder | src/SerializedExecution/src/Output.java:45-51 | the getter returns the folder that was set |
| Reporting.Output.WriteToFile | src/SerializedExecution/src/Output.java:64-77 | the map's keys are visited once each in some order, and the printed items are the blocks of the entries in that order |
| Reporting.PrintEntry | src/SerializedExecution/src/Output.java:70-74 | the lines printed for one entry are its block |
| CapturedOutput.LineEnd | src/SerializedExecution/src/serializedexecution/Serializer.java:185 | a line ends at its first line terminator |
| CapturedOutput.ReaderLines | src/SerializedExecution/src/serializedexecution/Serializer.java:184-187 | the lines `readLine` returns hold no line terminator |
| CapturedOutput.NextIndex | src/SerializedExecution/src/serializedexecution/Serializer.java:247-248 | the first position from `from` on holding the character, or the length |
| CapturedOutput.IndexOf | src/SerializedExecution/src/serializedexecution/Serializer.java:247-248 | `indexOf` gives that position, or -1 when there is none |
| CapturedOutput.GetAnswersAsWritten | src/SerializedExecution/src/serializedexecution/Serializer.java:241-260 | the loop as written computes `AsWrittenAnswers` |
| CapturedOutput.GetAnswers | src/SerializedExecution/src/serializedexecution/Serializer.java:241-260 | the corrected loop returns the '\n'-separated lines and drops text after the last '\n' |
| CapturedOutput.NextIndexShift | src/SerializedExecution/src/serializedexecution/Serializer.java:247-248 | a search past a prefix finds the position it finds in the rest, shifted |
| CapturedOutput.LinesAtShift | src/SerializedExecution/src/serializedexecution/Serializer.java:245-258 | the lines after a prefix are those of the rest |
| CapturedOutput.LineEndOfLine | src/SerializedExecution/src/serializedexecution/Serializer.java:185-186 | a line without terminator followed by '\n' ends at the '\n' |
| CapturedOutput.ReaderLinesOfJoined | src/SerializedExecution/src/serializedexecution/Serializer.java:184-187 | reading back lines joined with '\n' gives the same lines |
| CapturedOutput.LinesOfJoined | src/SerializedExecution/src/serializedexecution/Serializer.java:241-260 | the corrected `getAnswers` of lines joined with '\n' gives exactly those lines, and "" gives none |
| CapturedOutput.AnswersAreReaderLines | src/SerializedExecution/src/serializedexecution/Serializer.java:184-187 | with the corrected `getAnswers`, cutting the text `getStringFromInputStream` builds gives back exactly the lines the classifier printed |
| CapturedOutput.StoredAnswersAgree | src/SerializedExecution/src/serializedexecution/Serializer.java:163-165 | the answers `execution` stores, with `getAnswers` as written, are the printed lines whenever the first printed line is not empty |
| CapturedOutput.StoredAnswersLoseLeadingEmptyLine | src/SerializedExecution/src/serializedexecution/Serializer.java:163-165 | a classifier printing "" and then "a" gets the single stored answer "\na" |
| CapturedOutput.AsWrittenAgrees | src/SerializedExecution/src/serializedexecution/Serializer.java:241-260 | the loop as written agrees with the corrected one unless the output starts with '\n' |
| CapturedOutput.AsWrittenLosesLeadingEmptyLine | src/SerializedExecution/src/serializedexecution/Serializer.java:253 | the output "\na\n" yields the one answer "\na" instead of "" and "a" |
| Serialization.Axis | src/SerializedExecution/src/serializedexecution/Serializer.java:203-207 | a coordinate takes one more value than its step count |
| Serialization.AxisBounds | src/SerializedExecution/src/serializedexecution/Serializer.java:203-207 | values start at `start`, all but the last lie below `end`, and the last reaches `end`; a Parameter or a coordinate that cannot climb keeps its start |
| Serialization.AxisOvershoots | src/SerializedExecution/src/SerializerTest.java:37 | start -5, end 6.5 and step 4 give -5, -1, 3 and 7, overshooting `end` |
| Serialization.AxisNoDup | src/SerializedExecution/src/serializedexecution/Serializer.java:209 | no coordinate value repeats |
| Serialization.AxisNext | src/SerializedExecution/src/serializedexecution/Serializer.java:207 | each value is the previous one plus the step |
| Serialization.PairSuffixesLength | src/SerializedExecution/src/serializedexecution/Serializer.java:135 | there are |train| * |test| suffixes |
| Serialization.PairSuffixAt | src/SerializedExecution/src/serializedexecution/Serializer.java:141-147 | suffix j * |test| + k is " " + train[j] + " " + test[k] (train outer, test inner) |
| Serialization.PairSuffixesMember | src/SerializedExecution/src/serializedexecution/Serializer.java:141-147 | a text is a suffix exactly when it is " " + r + " " + t for a train path r and a test path t |
| Serialization.PairInjective | src/SerializedExecution/src/serializedexecution/Serializer.java:141-142 | when the paths hold no space, a suffix gives back its train path and its test path |
| Serialization.PairSuffixesNoDup | src/SerializedExecution/src/serializedexecution/Serializer.java:141-147 | distinct, space-free train paths and test paths give |train| * |test| distinct suffixes |
| Serialization.ProducedStep | src/SerializedExecution/src/serializedexecution/Serializer.java:141-147 | each iteration appends the suffix of the current pair |
| Serialization.CountersStep | src/SerializedExecution/src/serializedexecution/Serializer.java:141-147 | the counters i, j and k stay in step: k wraps to 0 and j advances when k reaches |test| |
| Serialization.ProducedAll | src/SerializedExecution/src/serializedexecution/Serializer.java:141-149 | after |train| * |test| iterations every pair's suffix has been produced |
| Serialization.AnsweredStore | src/SerializedExecution/src/serializedexecution/Serializer.java:160-167 | storing a launched command's answers keeps every stored entry equal to what `getAnswers` as written cuts from that command's output |
| Serialization.CommandLines | src/SerializedExecution/src/serializedexecution/Serializer.java:216-221 | one command per suffix |
| Serialization.AllCommandsLength | src/SerializedExecution/src/serializedexecution/Serializer.java:210-221 | |combinations| * |pairs| commands |
| Serialization.AllCommandsSnoc | src/SerializedExecution/src/serializedexecution/Serializer.java:214-221 | a new tuple's commands come after those of earlier tuples |
| Serialization.AllCommandsMember | src/SerializedExecution/src/serializedexecution/Serializer.java:210-221 | a command is recorded exactly when it is the prefix of a recorded tuple followed by one of the pair suffixes |
| Serialization.AllCommandsSameElems | src/SerializedExecution/src/serializedexecution/Serializer.java:210-221 | the set of recorded commands depends only on the set of recorded tuples, not on their order |
| Serialization.CommandInjective | src/SerializedExecution/src/serializedexecution/Serializer.java:211-220 | under a number text that reads back what it shows and never shows a space, and with space-free paths, a command line gives back its tuple, its train path and its test path |
| Serialization.AllCommandsNoDup | src/SerializedExecution/src/SerializerTest.java:193-199 | distinct tuples with distinct space-free paths give distinct command lines, so none is lost when the map stores them under their text |
| Serialization.EveryPairCommand | src/SerializedExecution/src/SerializerTest.java:172-175 | when the start tuple's commands come first, its prefix followed by " " + r + " " + t is a command for every train path r and test path t |
| Serialization.Serializer.constructor | src/SerializedExecution/src/serializedexecution/Serializer.java:49-78 | a Parameter becomes (value, value, 0) and a Variable (start, end, step), at the element's position, so the grid is the configuration's grid and the start tuple is every element's start; no Variable steps backwards when every Variable's step is positive; no tuple, command or answer yet |
| Serialization.Serializer.Axes | src/SerializedExecution/src/serializedexecution/Serializer.java:203-207 | one axis per coordinate, that coordinate's range |
| Serialization.Serializer.Successor | src/SerializedExecution/src/serializedexecution/Serializer.java:207 | incrementing one coordinate keeps the tuple's length |
| Serialization.Serializer.GenerateTrainAndTestCommand | src/SerializedExecution/src/serializedexecution/Serializer.java:131-150 | an empty train list becomes [""] and a non-empty one is unchanged; the result is every pair's suffix, train outer |
| Serialization.Serializer.BuildCommand | src/SerializedExecution/src/serializedexecution/Serializer.java:210-213 | "java -jar " + EC path followed by " " + each value |
| Serialization.Serializer.AppendCommands | src/SerializedExecution/src/serializedexecution/Serializer.java:216-221 | one command per pair is appended, after those already there |
| Serialization.Serializer.Record | src/SerializedExecution/src/serializedexecution/Serializer.java:209-221 | a new tuple is appended to the combinations and its commands to the commands |
| Serialization.Serializer.CountAllCombinations | src/SerializedExecution/src/serializedexecution/Serializer.java:203-231 | the lists only grow; the successor in coordinate idx is recorded unless the bound stops it; every tuple added is expanded |
| Serialization.Serializer.Visit | src/SerializedExecution/src/serializedexecution/Serializer.java:203-224 | a tuple at its bound or already seen adds nothing; otherwise its successor is recorded |
| Serialization.Serializer.SearchStep | src/SerializedExecution/src/serializedexecution/Serializer.java:226-229 | after the loop's i-th call, coordinates 0..i of the tuple have been stepped in |
| Serialization.Serializer.Execution | src/SerializedExecution/src/serializedexecution/Serializer.java:160-167 | a command that runs stores, under the command line, what `getAnswers` as written cuts from the re-joined output lines; one that cannot be launched fails and stores nothing |
| Serialization.Serializer.Run | src/SerializedExecution/src/serializedexecution/Serializer.java:89-122 | the start tuple and its commands come first; the combinations are the grid, without repeats; the commands are those of every grid tuple with every pair, |grid| * |pairs| of them; the result exists exactly when every command launches, and then maps every command to its as-written answers; the map has a key holding the start tuple with every train path and every test path; under a faithful number text and distinct, space-free paths it has exactly (product of the axis lengths) * |train| * |test| keys |
| Serialization.Serializer.EnumerateCombinations | src/SerializedExecution/src/serializedexecution/Serializer.java:91-116 | the combinations are exactly the grid points, once each, starting at the start tuple |
| Serialization.Serializer.ExecuteAll | src/SerializedExecution/src/serializedexecution/Serializer.java:118-119 | success exactly when every command runs; the keys are the commands and each value is what `getAnswers` as written cuts from its output |
| Serialization.Serializer.GridFits | src/SerializedExecution/src/serializedexecution/Serializer.java:209 | the recorded tuples are grid points, so there are no more of them than grid points |
| Serialization.Serializer.ExpandedGrows | src/SerializedExecution/src/serializedexecution/Serializer.java:209-224 | a tuple whose successors are recorded stays so as the list grows |
| Serialization.Serializer.PointInGrid | src/SerializedExecution/src/serializedexecution/Serializer.java:203-207 | axis indices within bounds name a grid point |
| Serialization.Serializer.SuccessorPoint | src/SerializedExecution/src/serializedexecution/Serializer.java:204-207 | stepping a coordinate below its end moves to the next axis index, or stays put for step 0 |
| Serialization.Serializer.Point | src/SerializedExecution/src/serializedexecution/Serializer.java:203-207 | a tuple of axis values, one per coordinate |
| Serialization.Serializer.Reached | src/SerializedExecution/src/serializedexecution/Serializer.java:226-229 | a closed set of tuples containing the start holds every grid point |
| Serialization.Serializer.GridLength | src/SerializedExecution/src/SerializerTest.java:116-129 | the grid has the product of the axis lengths as its size |
| Serialization.Serializer.GridCovered | src/SerializedExecution/src/SerializerTest.java:116-129 | the combinations are exactly the grid, so their number is the product of the axis lengths |
| Serialization.Serializer.GridReached | src/SerializedExecution/src/serializedexecution/Serializer.java:226-229 | every grid point is reached from the start tuple |
| Serialization.Serializer.GridNoDup | src/SerializedExecution/src/serializedexecution/Serializer.java:209 | grid points are pairwise different |
| Serialization.Serializer.AxisIndex | src/SerializedExecution/src/serializedexecution/Serializer.java:203-207 | every coordinate value is the value at some axis index |
| Runs.FirstRejected | src/SerializedExecution/src/RunManager.java:164-169 | the first kind, in kind order, whose selection is refused, with all kinds before it accepted |
| Runs.EmptyLists | src/SerializedExecution/src/RunManager.java:152-158 | one empty list per kind |
| Runs.Paths | src/SerializedExecution/src/RunManager.java:224-230 | the selected files' paths, in selection order |
| Runs.ConcatEmptyTail | src/SerializedExecution/src/RunManager.java:273-279 | the empty lists after the selection hold no file |
| Runs.InvalidOfSelection | src/SerializedExecution/src/RunManager.java:271-281 | the missing files of the model list are those of the selection |
| Runs.InvalidExactly | src/SerializedExecution/src/RunManager.java:271-281 | a model is reported exactly when it is in some list, its file does not exist and it is not a configuration |
| Runs.CollectPaths | src/SerializedExecution/src/RunManager.java:224-230 | the loop collects the paths in order |
| Runs.MissingOf | src/SerializedExecution/src/RunManager.java:274-278 | the inner loop keeps, in order, the missing files that are not configurations |
| Runs.AcceptedSizes | src/SerializedExecution/src/RunManager.java:78-89 | an accepted selection has one EC, one configuration and at least one test set |
| Runs.InsertAfterPrefix | src/SerializedExecution/src/RunManager.java:194-197 | inserting at the end of the filled prefix extends the prefix |
| Runs.RunManager.constructor | src/SerializedExecution/src/RunManager.java:45-49 | a fresh Output with no folder and an empty map, and one empty list per kind |
| Runs.RunManager.SelectionAt | src/SerializedExecution/src/RunManager.java:164-169 | kind i of the selection is the store's selected models of the i-th kind |
| Runs.RunManager.CheckClickedModels | src/SerializedExecution/src/RunManager.java:70-90 | TRAIN always passes; TEST passes with at least one file; EC and CONFIGURATION pass with exactly one |
| Runs.RunManager.ResetModels | src/SerializedExecution/src/RunManager.java:152-158 | the model list becomes one empty list per kind |
| Runs.RunManager.SetModel | src/SerializedExecution/src/RunManager.java:194-197 | the kind's selected models are inserted at the kind's ordinal, shifting the lists after it |
| Runs.RunManager.LoadModels | src/SerializedExecution/src/RunManager.java:164-185 | kinds are checked in order and loading stops at the first refused one; success exactly when all pass and no selected file is missing |
| Runs.RunManager.CheckAndStore | src/SerializedExecution/src/RunManager.java:165-173 | the accepted kinds' selections come first in the model list; true exactly when every kind is accepted |
| Runs.RunManager.CheckAndStoreOne | src/SerializedExecution/src/RunManager.java:167-169 | an accepted kind is stored after the earlier ones; a refused kind changes nothing |
| Runs.RunManager.ValidatePaths | src/SerializedExecution/src/RunManager.java:271-281 | the missing non-configuration files of all lists, in order |
| Runs.RunManager.AssembleInputs | src/SerializedExecution/src/RunManager.java:216-230 | the first configuration's stored elements, the first EC's path, and the test and train paths in selection order |
| Runs.RunManager.Run | src/SerializedExecution/src/RunManager.java:207-248 | the file is written exactly when the selection is accepted, every selected file exists and every command of the selection launches; then the map's keys are exactly those commands, each holds its as-written answers, and the file holds their blocks; otherwise the map is unchanged or nothing is written |
| Runs.RunManager.RunOn | src/SerializedExecution/src/RunManager.java:209-211 | the same, for a given selection |
| Runs.RunManager.RunLoaded | src/SerializedExecution/src/RunManager.java:216-237 | after a successful load, the output is written exactly when every command of the selection launches, and the map's keys are exactly those commands |
| Runs.RunManager.Serialize | src/SerializedExecution/src/RunManager.java:232-237 | the output is written exactly when every command of the configuration grid and the test/train pairs launches; the map's keys are exactly those commands, and the written lines are its entries' blocks at the output path; the map has a key holding the start tuple with every (padded) train path and every test path; under a faithful number text and distinct, space-free paths it has |grid| * |train| * |test| keys |
| Collections.FilterConcat | src/SerializedExecution/src/RunManager.java:273-279 | filtering a concatenation filters each part |
| Collections.FilterAll | src/SerializedExecution/src/RunManager.java:273-279 | a filter that keeps every element keeps the list, and one that keeps none gives [] |
| Collections.ProductLength | src/SerializedExecution/src/SerializerTest.java:116-129 | the grid has the product of the axis lengths as its size |
| Collections.ProductMember | src/SerializedExecution/src/serializedexecution/Serializer.java:203-231 | a tuple is in the grid exactly when each coordinate is on its axis |
| Collections.ProductNoDup | src/SerializedExecution/src/serializedexecution/Serializer.java:209 | the grid has no repeated tuple when no axis repeats a value |
| Collections.MapWhileSomeAppend | src/SerializedExecution/src/Database.java:409-418 | appending an element adds its row when all before it encoded |
| Collections.MapWhileSomeStops | src/SerializedExecution/src/Database.java:409-418 | rows stop at the first element that cannot be encoded |

## Left out

- JDBC and SQL text are left out: connections, statements, `closeConnection`, `connectionValidator`, `DatabaseCreator` and `ResultContainer`. Tables are in-memory sequences that never fail, so no `SQLException` path is modelled.
- The store's UNIQUE and AUTOINCREMENT constraints are left out. The lemmas that need unique names take them as a precondition (`Files.DistinctNames`).
- `Database.insertIntoTable`, `FileManager.insert` and `FileManager.remove` are not modelled. Their only logic is the SQL text and list add/remove.
- Float semantics are left out: rounding, accumulated drift, `Float.toString` and `Arrays.toString`. Numbers are `real`, and their text form is the `NumberText` parameter.
- Serialization.Serializer.CountAllCombinations: tuples are told apart by value, where the source compares their `Arrays.toString` text. The two agree for a faithful rendering.
- Serialization.Serializer.Run: requires a Serializer that has not run yet. A second `run` on the same object re-adds the start tuple's commands, and that case is not modelled.
- Serialization.Serializer.Run: requires that no Variable has a negative step below its end (`NoBackwardStep`). On such an input the recursion in `countAllCombinations` never reaches the end and does not terminate. `ConfigurationManager.checkValidity` and the decoding of stored rows both exclude it.
- Serialization.Serializer.Run: the key count holds only under a faithful number text and distinct, space-free paths. Otherwise two commands can share one text and `HashMap.put` keeps one entry for both; the model states this case as `results.Keys == Elems(commands)`.
- Runs.RunManager.Serialize: requires a positive step for every Variable. `Configurations.DecodedValid` proves this for every element loaded from the store, which is the only caller in the source.
- Process execution is left out (`Runtime.exec`, input streams). The classifier's output is the parameter `ec`. `None` stands for a command that cannot be launched, which throws `IOException` and aborts the run.
- File existence (`Model.exist`) is the parameter `isFile`. Creating and writing `output.txt` is modelled as returning its path and the items passed to `println`. `FileText` is the text those items print, with "\n" as the line separator; the platform's own separator is not modelled.
- `HashMap` iteration order is left out: `writeToFile` visits the keys in an order chosen nondeterministically, and its contract holds for every such order.
- Model objects are values. Java's sharing of one `Model` object between FileManager's lists and other holders (aliasing) is not captured.
- The GUI is left out: `showRunningWindow`, `hideRunningWindow`, `setParent`, `closeParent`, the message dialogs, and the row widgets that parse text fields (an unparsable row is `None` in `SetConfigurationFromRow`).
- Threads and timing are left out (`Runnable`, `Thread.sleep`).
- Trivial accessors are left out: `getIterator`, `getNumericElementIterator`, `getConfiguration`, `getCurrentValue`, `getOutputSet` and `RunManager.toString`. The Variable getters are the constant fields of `Ranges.Variable`.
- Removing an External Classifier does not remove the configurations whose EC_ID is its id. The comment at `Database.java:159-161` describes this, but the code never does it, and neither `RemoveFromTableAsWritten` nor `RemoveFromTable` models it.
- The Serializer stores the answers as `getAnswers` is written (`StoredAnswers`). `AnswersAreReaderLines` states what the corrected loop would store, and `StoredAnswersAgree` states when the two agree.
- Reading the file back uses the terminators of `readLine` ("\n", "\r", "\r\n"). `Scanner.nextLine`, which the test uses, also ends lines at U+0085, U+2028 and U+2029. That difference is not modelled.
- Reporting.Output.WriteToFile: an `IOException` for an illegal folder is not modelled (`RunManager.run` only prints it).

## Findings

| source | as written | input that shows it | evidently intended | confidence | as-written member | corrected member |
|---|---|---|---|---|---|---|
| src/SerializedExecution/src/serializedexecution/Serializer.java:253 | the first answer starts at index 0 and the search for its end starts at index 1, so a leading '\n' is taken into the first answer | a classifier printing an empty line and then "a" gets the one answer "\na" | the answers "" and "a", one per line read; `output.txt` is byte for byte the same for both (`Reporting.MultiLineAnswerSplits`), so the difference shows only in the map of values | not executed | CapturedOutput.StoredAnswersLoseLeadingEmptyLine | CapturedOutput.AnswersAreReaderLines |
| src/SerializedExecution/src/FileManager.java:195 | the store receives CHECKED = 1 whatever the new flag | deselecting a selected TEST file leaves CHECKED = 1, so the next run still uses it | the store receives the model's new flag | not executed | Files.DeselectionStoresOne | Files.SelectionCoherent |
| src/SerializedExecution/src/Database.java:203-204 | configuration values under the removed row's id are deleted for every kind of table | removing EC 1 deletes the stored values of configuration 1 | delete configuration values only when a configuration is removed; only this wrong deletion is corrected, and the removal of an EC's configurations described at Database.java:159-161 is in neither half | not executed | Persistence.RemovingEcDropsConfigurationValues | Persistence.Database.RemoveFromTable |
