# Models of the home automation server

This project models the parts of the server that carry state or translate between
representations, and proves what they promise.

**Voice commands** (`Text`, `Grammar`, `Dictionary`, `Recognition`). Spoken commands are compiled
into an automaton that reads right to left and a dictionary of words, and a recognised utterance is
turned back into a reading that selects a callback. The main results are the language of the
automaton, the language of automaton and dictionary together, and the end-to-end theorem: whatever
the compiled grammar accepts is rejected, by its call or its first word, or fires the first task
with that reading.

**Macros** (`MacroTable`, `MacroRun`, `MacroStatus`, `MacroGuard`, `MacroEdit`). Actions may call
other actions. A static check with a counter guards the editor, and the executor has a counter of its own. The call tree of an
action is the common reference: the check accepts exactly the finite trees that fit, and accepted
trees run without tripping the executor's guard. The executor is modelled with a stack of a given
depth; a run that needs more ends as a stack overflow. What the appliances are remembered to be
after a run decides which conditional steps are skipped. Saving a macro also gives the action a name,
which changes what the steps of all macros stand for.

**Configuration file** (`ConfigFile`, `ConfigTheorems`, `ConfigFate`, `ConfigLayout`,
`ConfigLastLine`). Saving rewrites an arbitrary old file against a map. Loading inverts it, comments and the order of keys
survive, every key is written once, and blank lines stay up to four in a row.

**Pronunciation dictionary** (`Pronunciation`, `PronunciationIndex`). A table of offsets built in one
pass and filled from the end; lookup through the table is compared with a scan of the file.

**HomeKit messages** (`Bytes`, `Tlv8`, `TlvTheorems`, `MacFeed`). The type-length-value codec with
its fragments of 255 bytes, and the byte string fed to the message authentication code.

**Infrared board** (`SerialLink`, `SerialTheorems`, `IrRemote`, `IrCapture`). Framing with escapes
and a checksum, the session that loads a pattern into the board, the one that reads it out, and the
pattern file.

**Replicated state** (`SessionFile`, `Rooms`, `RoomTheorems`, `RoomOrder`, `CloudSync`,
`CloudReply`, `CloudTheorems`, `Grouping`, with `Numbers` for number texts and sorting and `Wrappers` for shared
notions). Session files, the merge
and the ring of rooms, reconciliation with the cloud server, and the two-level index of appliances.

Code that updates state in the original is a class or a method with loops here; its contract ties the
result to a specification function or predicate, and the lemmas state what is promised about that
specification.

## Where the code falls short

Some expected properties do not hold of the code. Each has its exact condition or a concrete input.

- Two labels that the automaton uses, 2 and 5, have no word in the dictionary
  (`Dictionary.WordsByLabel`).
- A command whose first word, or whose call, begins like the garbage output, "gomi", is rejected as
  garbage (`Recognition.CommandAnswer`). It takes another phone list for such a word to arrive: the converter
  drops readings whose sounds are not listed (`naichichi2/JuliusOnsoUtil.cpp:1794-1833`), and the list
  that ships has no phone that begins this way.
- The executor counts after the nested call, so on its own it can run out of stack; the exact
  condition is `MacroGuard.EndsIffChainsEnd`.
- Saving a macro checks its steps against the table before the edit, under the names before the
  edit, so a macro that calls itself passes (`MacroEdit.EditCheckMissesSelfCall`,
  `MacroEdit.EditCheckMissesNewName`). The exact condition is `MacroEdit.EditFiniteIff`.
- That check starts from 0 and never counts the macro's own steps, while the executor does, so an
  accepted macro can throw the nesting error (`MacroEdit.AcceptedEditCanFail`); the exact condition
  is `MacroEdit.AcceptedEditRunsIff`.
- An entry whose key looks like a comment survives a save only in an old line that already has its
  value, and untrimmed texts never come back (`ConfigTheorems.RoundTripIff`); a lost one becomes a
  comment of the new file (`ConfigLayout.CommentsKeptIff`).
- A configuration file without its last newline can glue the first appended entry to its last line
  (`ConfigLastLine.UnterminatedRoundTripIff`, `ConfigLastLine.UnterminatedLayoutIff`,
  `ConfigLastLine.CommentSwallowsEntry`).
- The offset 0 also means "no line", so a pronunciation group at the very start of the file is never
  found (`PronunciationIndex.FileAgreesIff`, `PronunciationIndex.FirstWordIsLost`).
- The serialiser keeps a length of sixteen bits (`TlvTheorems.WireRoundTripIff`).
- `broadcastMessage` pads a text that ends on a block boundary with a whole block of zeros
  (`MacFeed.BroadcastIsStandardIff`).
- The length field of a serial packet keeps six bits, so a payload of 64 bytes reads as empty
  (`SerialTheorems.DecodeFrameIff`).
- A stored infrared pattern with a zero in it does not load, even when it was learned that way
  (`IrRemote.SaveLoadIff`, `IrCapture.LearnedIsRadiatedIff`).
- Session entries of 10000 bytes or with a zero byte do not survive (`SessionFile.RoundTripIff`).
- A second merge of the same rooms changes the orders of the rooms the first one added
  (`RoomTheorems.SecondMergeIff`), and a room whose uuid has a line break is never added
  (`RoomTheorems.MergeSummary`).
- A local file with an unsafe name is uploaded at every pass (`CloudTheorems.SecondPassIff`), and a
  local file without content never is (`CloudTheorems.FullPass`).
- The server's reply is cut at tabs and at "<>" before names are checked, so a file whose name
  contains them is read as another one (`CloudReply.ReplyIsReadIff`, `CloudTheorems.ForgedLineExample`).

## Model

| member | source | states |
|---|---|---|
| `Grammar.AutomatonLanguage` | `naichichi2/Recognition_JuliusPlusEnglish.cpp:825-986` | The label strings that lead the compiled automaton from state 0 to the final state 2 are exactly 0, 3 or 5, 2 or 4, 1, and for each command 0, its labels last word first, 2 or 4, 1 |
| `Grammar.AutomatonFlags` | `naichichi2/Recognition_JuliusPlusEnglish.cpp:833-984` | The end flag marks the edges of states 0 and 1, the start flag those of states 1 and 2, and no others |
| `Grammar.PathFromChain` | `naichichi2/Recognition_JuliusPlusEnglish.cpp:965-984` | From the state before word j of a command exactly the labels of words j-1 down to 0, a call label and the start label lead to the final state |
| `Grammar.PathFromCall` | `naichichi2/Recognition_JuliusPlusEnglish.cpp:840-844` | From the call state only a call label and the start label remain |
| `Grammar.ChainRowPresent` | `naichichi2/Recognition_JuliusPlusEnglish.cpp:966-983` | Every word of every command has the edge out of its own chain state |
| `Grammar.ChainRowUnique` | `naichichi2/Recognition_JuliusPlusEnglish.cpp:966-983` | No chain state has a second outgoing edge |
| `Grammar.ChainStatesDistinct` | `naichichi2/Recognition_JuliusPlusEnglish.cpp:958-985` | No two words, of one command or of two, share a chain state |
| `Dictionary.LabelsAreFresh` | `naichichi2/Recognition_JuliusPlusEnglish.cpp:968-979` | Different words get different labels, and none gets one of the six reserved labels |
| `Dictionary.WordsByLabel` | `naichichi2/Recognition_JuliusPlusEnglish.cpp:833-844` | Which words the dictionary holds for each label; labels 2 and 5, which the automaton also uses, have no word |
| `Dictionary.UtteranceLanguage` | `naichichi2/Recognition_JuliusPlusEnglish.cpp:825-986` | The automaton and the dictionary together accept exactly a call and a garbage word, or a call and the words of one command in order, between the marks |
| `Dictionary.TextLanguage` | `naichichi2/Recognition_JuliusPlusEnglish.cpp:825-986` | What can be recognised depends on the garbage list, the calls and the commands only: how states and words are numbered is invisible |
| `Recognition.Recogniser.MakeMicrophoneJuliusRule` | `naichichi2/Recognition_JuliusPlusEnglish.cpp:819-986` | The files written are the automaton of the commands and a dictionary for it, and together they understand exactly the texts of the calls, the garbage readings and the commands |
| `Recognition.Recogniser.WriteGarbageAndCalls` | `naichichi2/Recognition_JuliusPlusEnglish.cpp:932-953` | One line for each trimmed non-blank garbage reading and for each call |
| `Recognition.GarbageReadingsAre` | `naichichi2/Recognition_JuliusPlusEnglish.cpp:932-945` | The garbage readings are the texts other than the empty one that lines trim to |
| `Recognition.Recogniser.WriteCommands` | `naichichi2/Recognition_JuliusPlusEnglish.cpp:955-985` | The edges of all commands, and one line for each different word, numbered from 6 |
| `Recognition.Recogniser.WriteChain` | `naichichi2/Recognition_JuliusPlusEnglish.cpp:962-983` | The edges of one command, a cached word keeping its label, a new one getting the next |
| `Recognition.Recogniser.UseWord` | `naichichi2/Recognition_JuliusPlusEnglish.cpp:968-979` | The label of a word, with the cache and the dictionary still in step |
| `Recognition.Recogniser.CommitRule` | `naichichi2/Recognition_JuliusPlusEnglish.cpp:1133-1146` | The tasks that callbacks are searched in are the tasks that were compiled |
| `Recognition.Recogniser.ConvertJuliusYomiJoin` | `naichichi2/Recognition_JuliusPlusEnglish.cpp:372-418` | The reading is the phones of each word up to the next mark, joined by "@"; the confidence is the mean over those words |
| `Recognition.Recogniser.PhoneText` | `naichichi2/Recognition_JuliusPlusEnglish.cpp:397-401` | The phones of a word run together |
| `Recognition.Recogniser.GetCallback` | `naichichi2/Recognition_JuliusPlusEnglish.cpp:1070-1082` | Succeeds exactly when some task has the reading, and returns the first such task |
| `Recognition.Recogniser.OnOutputResult` | `naichichi2/Recognition_JuliusPlusEnglish.cpp:467-815` | The answer to a recognised utterance: the marks, the frame lookup, the garbage checks, the audio filters and the callback, in that order |
| `Recognition.FiresIff` | `naichichi2/Recognition_JuliusPlusEnglish.cpp:467-815` | For every utterance: a callback fires if and only if the frames were found, the audio was accepted, neither the call nor the first word begins like an end mark or like garbage, and it is that of the first task with the joined reading |
| `Recognition.RejectedIff` | `naichichi2/Recognition_JuliusPlusEnglish.cpp:467-815` | For every utterance: exactly when each rejection is answered; marks come before missing frames, those before garbage, and garbage before the audio |
| `Recognition.MeanIsWeighted` | `naichichi2/Recognition_JuliusPlusEnglish.cpp:403-415` | The confidence of two runs of words together is the mean weighted by their lengths, and of one word its own |
| `Recognition.PhonesText` | `naichichi2/Recognition_JuliusPlusEnglish.cpp:397-401` | Running the phones of a dictionary line together drops its blanks and nothing else |
| `Recognition.ReadingOfCommand` | `naichichi2/Recognition_JuliusPlusEnglish.cpp:76-80` | The joined phones of a command are its registered reading without spaces |
| `Recognition.CommandAnswer` | `naichichi2/Recognition_JuliusPlusEnglish.cpp:467-815` | Saying a call and command i fires the first registered task with that reading when the frames were found and the audio was accepted; a call that begins like an end mark or like the garbage output, and a first word that begins like the latter, are answered as such |
| `Recognition.GarbageAnswer` | `naichichi2/Recognition_JuliusPlusEnglish.cpp:467-815` | Saying a call and a garbage word is rejected as garbage whatever the audio is, unless the call begins like an end mark or the frames are missing |
| `Recognition.EndToEnd` | `naichichi2/Recognition_JuliusPlusEnglish.cpp:467-815` | Whether frames were found and audio accepted or not, every utterance the compiled grammar accepts says a call and a garbage word or a command, with the answer for it; with good frames and audio that is a rejection when the call or the first word begins like a mark or garbage, and otherwise the callback of the first registered task with the reading that was said. It is never left without a callback |
| `Text.SplitList` | `naichichi2/XLStringUtil.cpp:622-642` | The pieces between the occurrences found from left to right |
| `Text.JoinSplit` | `naichichi2/XLStringUtil.cpp:622-642` | Joining the pieces with the separator gives the text back |
| `Text.ReplaceCharByNothing` | `naichichi2/XLStringUtil.cpp:1319-1337` | Replacing a character by nothing removes exactly that character |
| `Text.ChopPadded` | `naichichi2/XLStringUtil.cpp:1136-1198` | Blanks behind a trimmed text are exactly what trimming removes |
| `MacroTable.CheckMacro` | `naichichi2/Fire.cpp:460-504` | The recursive check with its shared counter: the verdict and the counter of the specification |
| `MacroTable.AcceptedTree` | `naichichi2/Fire.cpp:460-504` | An accepted action has a finite unrolled call tree, and the counter advanced by its size |
| `MacroTable.TreeDecides` | `naichichi2/Fire.cpp:16-504` | A finite call tree is accepted exactly when its size fits into what is left of 30; otherwise the counter stops one past the limit |
| `MacroTable.CheckIffFits` | `naichichi2/Fire.cpp:460-504` | From every count within the limit the check accepts if and only if a finite call tree exists and fits |
| `MacroTable.CyclesRejected` | `naichichi2/Fire.cpp:460-504` | An action from which calls lead into a cycle is rejected from every count |
| `MacroTable.FiniteIffNoCycle` | `naichichi2/Fire.cpp:460-504` | The unrolled call tree of an action is finite if and only if its calls never come twice to the same action |
| `MacroRun.Fire.FireStringAction` | `naichichi2/Fire.cpp:287-304` | Names that are reserved or that nothing answers to do nothing; everything else runs the action they resolve to |
| `MacroRun.Fire.FireOne` | `naichichi2/Fire.cpp:41-161` | Runs the macro or the leaf action and then remembers the status |
| `MacroRun.Fire.RunSteps` | `naichichi2/Fire.cpp:403-456` | The nine steps in order, conditional ones skipped by status, the counter advanced after each nested call |
| `MacroRun.TreeRuns` | `naichichi2/Fire.cpp:403-456` | A finite call tree whose steps fit runs to its end without the nesting error, whichever steps are skipped and whatever leaf actions do, with as many stack frames as the tree has nodes |
| `MacroRun.CheckedActionsRun` | `naichichi2/Fire.cpp:41-504` | If the check accepts from count n, the action run from any count m up to n ends, never reports the nesting error, and advances the counter by no more than the check did |
| `MacroRun.ExactRun` | `naichichi2/Fire.cpp:403-456` | Without conditional steps and failing leaves, the outcome and the counter of a run are decided by the number of steps alone |
| `MacroStatus.StatusHistory` | `naichichi2/Fire.cpp:41-161` | In every run some actions are done, all of them reached by calls and the action itself last if the run ends; each appliance has the type of the last of them that belongs to it and does not keep the status, or what it had, and as many leaf actions are performed as are among them, one more if one fails |
| `MacroStatus.StatusAfter` | `naichichi2/Fire.cpp:41-161` | After a run that ends an action that does not keep the status leaves its appliance with its own type, a leaf action that keeps it changes nothing, and every appliance has its old status or the type of a reached action that does not keep it |
| `MacroStatus.MacroLeavesSteps` | `naichichi2/Fire.cpp:92-161` | A macro that keeps the status leaves what its steps left; one that does not differs from that at its own appliance alone |
| `MacroStatus.StepDecides` | `naichichi2/Fire.cpp:418-455` | A conditional step whose action the appliance already has as its status performs nothing and counts; every other step whose names are not reserved and resolve performs its action and then counts |
| `MacroStatus.TwiceInARow` | `naichichi2/Fire.cpp:418-455` | Of a leaf action that succeeds and is called by its own type, and the same one again as a conditional step, the second is not performed if the action sets the status or the appliance had it, and is performed otherwise |
| `MacroStatus.NoneDoesNothing` | `naichichi2/Fire.cpp:412-417` | A step with none in either column does nothing and does not count, in the run and in the check |
| `MacroGuard.EndsIffChainsEnd` | `naichichi2/Fire.cpp:403-456` | The executor without the check ends from every state if and only if no chain of first calls goes on for ever, because the counter moves only after the nested call |
| `MacroGuard.ChainExhaustsStack` | `naichichi2/Fire.cpp:433-454` | A chain of first calls as long as the stack exhausts it, in a state that remembers no status, so that no conditional step is skipped |
| `MacroEdit.MacroEditor.CheckUniqElecActionType` | `naichichi2/ScriptRemoconWeb.cpp:1084-1111` | True exactly when no other action of the appliance has the name, which may repeat only for blanks |
| `MacroEdit.MacroEditor.UpdateElecAction` | `naichichi2/ScriptWebRunner.cpp:585-934` | A macro is refused for an empty, reserved or taken name and for steps that do not pass with one counter in the old table; otherwise the table gets the name, the steps and the status flag |
| `MacroEdit.ResolveRenamed` | `naichichi2/ScriptRemoconWeb.cpp:785-836` | A pair of names stands for something else after the edit only if it stood for the edited action or stands for it now |
| `MacroEdit.ResolvesTo` | `naichichi2/ScriptRemoconWeb.cpp:785-836` | A pair of names stands for an action of that name of the first appliance of that type, both with positive numbers |
| `MacroEdit.NamesStayUnique` | `naichichi2/ScriptRemoconWeb.cpp:1084-1111` | A name that passes the test keeps the names of each appliance unique, blanks apart |
| `MacroEdit.UniqueIsNotShared` | `naichichi2/ScriptRemoconWeb.cpp:785-836` | With unique names no other action takes over the old name of an edited action that is no blank |
| `MacroEdit.EditIsSafe` | `naichichi2/ScriptWebRunner.cpp:833-934` | A macro whose steps pass the check and do not lead to it under its new name runs to its end from a fresh counter, if no other action takes over its old name and the count of the check together with the own steps that nothing answers to is at most 30; a failing leaf action ends it earlier |
| `MacroEdit.AcceptedEditRunsIff` | `naichichi2/Fire.cpp:403-456` | Without conditional steps and failing leaves, an accepted macro that does not lead to itself, and whose old name no other action takes over, ends on every deep enough stack if and only if the steps of its call tree, its own included, are at most 30; otherwise it throws the nesting error |
| `MacroEdit.AcceptedEditCanFail` | `naichichi2/ScriptWebRunner.cpp:833-877` | Three calls of a macro of nine steps that nothing answers to, and six more such steps, pass every test of the save with a count of 30, and the saved macro throws the nesting error on its first run, if no leaf action fails |
| `MacroEdit.SavedMacroStatus` | `naichichi2/ScriptWebRunner.cpp:879-934` | A saved macro that ends leaves its appliance with the new name as its status, or what its steps left if it was saved to leave the status alone; all other actions keep or set it as before |
| `MacroEdit.EditFiniteIff` | `naichichi2/ScriptWebRunner.cpp:833-934` | For every edit: the new macro has a finite call tree if and only if, in the table with the new name, no call path leads from a step to it and none from a step into a cycle |
| `MacroEdit.AcceptedEditFiniteIff` | `naichichi2/ScriptWebRunner.cpp:833-934` | If the edit passed the check and no other action takes over the old name, the first half decides: no call path leads from a step to the action under its new name |
| `MacroEdit.EditCheckMissesSelfCall` | `naichichi2/ScriptWebRunner.cpp:837-844` | A step that calls the very action being saved passes the check, and the saved macro exhausts every stack |
| `MacroEdit.EditCheckMissesNewName` | `naichichi2/ScriptWebRunner.cpp:585-934` | So does a step that calls a new action by the name it is saved under, which the check does not know yet |
| `ConfigFile.Config.Set` | `naichichi2/Config.cpp:173-180` | A key or value with a line break, or a key with "=", is ignored; everything else is stored |
| `ConfigFile.Config.LoadConfig` | `naichichi2/Config.cpp:32-69` | The entries are those of the lines of the file, later ones winning |
| `ConfigFile.Config.SaveConfig` | `naichichi2/Config.cpp:71-168` | The new file is the rewritten old lines followed by the remaining entries in some order |
| `ConfigFile.Config.RewriteOldFile` | `naichichi2/Config.cpp:83-149` | Line by line: what is copied, rewritten, dropped, and what is left to append |
| `ConfigTheorems.LinesOfSaved` | `naichichi2/Config.cpp:71-168` | The lines of the file that a save wrote over a file without NUL that ends in a newline are the lines it wrote |
| `ConfigTheorems.LoadedAfterSave` | `naichichi2/Config.cpp:32-168` | Loading that file gives back exactly the entries that survive, for all trimmed keys and values |
| `ConfigTheorems.RoundTripIff` | `naichichi2/Config.cpp:32-168` | For every map that Set accepts without NUL and whose lines fit, loading gives back what was saved if and only if all keys and values are trimmed and, for each key that looks like a comment, the first old line that carries it has exactly its value |
| `ConfigTheorems.RoundTrip` | `naichichi2/Config.cpp:32-168` | So every trimmed map without such keys comes back, whatever duplicate, stale or garbage lines the old file had |
| `ConfigFile.CommentsBeginWithMarks` | `naichichi2/Config.h:26-29` | A line is a comment if and only if it is empty or begins with one of the five marks |
| `ConfigFate.SavedLineByLine` | `naichichi2/Config.cpp:83-164` | The lines of a save are, old line by old line, the blank line unless it is the fifth in a row, the comment, and the entry where its key is first carried, as it stands or with its new value; then the entries of the keys that no old line carries |
| `ConfigFate.BlankRunKept` | `naichichi2/Config.cpp:101-110` | Every run of b blank lines of the old file comes out as min(b, 4) of them, between what is written for the lines before it and after it |
| `ConfigFate.ResaveIff` | `naichichi2/Config.cpp:32-168` | For a file without NUL that ends in a newline and whose entries can be set and fit a line, saving what was loaded from it gives its lines back, blank ones normalised, if and only if it has no garbage line, no key twice and no five blank lines in a row |
| `ConfigTheorems.LoadedIsTrimmed` | `naichichi2/Config.cpp:62-65` | Only trimmed keys and values are ever read |
| `ConfigTheorems.CommentLikeKeyExamples` | `naichichi2/Config.cpp:112-160` | The entry #a=b is lost over an empty old file and survives over one with an indented line for it |
| `ConfigLayout.CommentsKeptIff` | `naichichi2/Config.cpp:112-160` | The comment lines of the new file are those of the old file, verbatim and in order, if and only if every key that looks like a comment has its value in the first old line that carries it |
| `ConfigLayout.CommentsKept` | `naichichi2/Config.cpp:112-116` | So they are when no key looks like a comment |
| `ConfigLayout.KeysOnce` | `naichichi2/Config.cpp:118-160` | For trimmed keys and values, every key that survives is in the lines of the new file exactly once, and no other key is |
| `ConfigLayout.OrderKept` | `naichichi2/Config.cpp:92-160` | For trimmed keys and values, the keys of the lines of the new file are those that old lines keep, in the order of the first lines that carry them, and then those that no old line carries; the empty key stays in a line but is never written into one |
| `ConfigLastLine.UnterminatedRoundTripIff` | `naichichi2/Config.cpp:112-160` | For an old file without its last newline, and every map that Set accepts without NUL and whose lines still fit when glued to the last one, loading gives back what was saved if and only if all keys and values are trimmed, each key that looks like a comment has its value in the first old line that carries it, and the last line is not copied or no entry has to be appended behind it |
| `ConfigLastLine.UnterminatedLayoutIff` | `naichichi2/Config.cpp:112-160` | For trimmed maps without such keys, the keys stay in place, each once, if and only if the last line is not copied or no entry has to be appended behind it; the comments stay unless the copied last line is itself a comment |
| `ConfigLastLine.CommentSwallowsEntry` | `naichichi2/Config.cpp:112-160` | Saving the entry k=v over the file "# c" without a newline leaves one line, the comment "# ck=v", and loading it gives nothing |
| `Pronunciation.CMUDict.Create` | `naichichi2/CMUDict.cpp:15-71` | After both passes every entry of the table has its specified value |
| `Pronunciation.CMUDict.FirstPass` | `naichichi2/CMUDict.cpp:29-55` | The offset of each line that starts a new run of its group is recorded |
| `Pronunciation.CMUDict.BackFill` | `naichichi2/CMUDict.cpp:52-68` | Entries that are 0 take the value of the next one, from the end |
| `Pronunciation.CMUDict.GetYomi` | `naichichi2/CMUDict.cpp:73-127` | The lookup that reads from the offset of the group to that of the next; words without two letters in front have no reading |
| `PronunciationIndex.TableEntry` | `naichichi2/CMUDict.cpp:29-68` | Each entry is the offset of the first line of its own group, or of the next group that has lines, or the file size; the group of an indexed line at offset 0 is skipped |
| `PronunciationIndex.TableMonotone` | `naichichi2/CMUDict.cpp:52-68` | The table never goes down and ends at the file size |
| `PronunciationIndex.LookupIsScan` | `naichichi2/CMUDict.cpp:15-127` | For a file in ascending groups the indexed lookup equals the first match of a scan of the whole file, except for the words of a group whose line is at offset 0, which are never found |
| `PronunciationIndex.LookupAgreesIff` | `naichichi2/CMUDict.cpp:56-68` | For such a file, lookup and scan agree on a word if and only if it is not of that lost group or the scan finds nothing either |
| `PronunciationIndex.LookupGivesText` | `naichichi2/CMUDict.cpp:73-127` | From the text of the file: if the first line of a word outside the lost group is the word in capitals, a space, blanks, a trimmed text and a newline, the lookup gives exactly that text, spaces in it included |
| `PronunciationIndex.FileAgreesIff` | `naichichi2/CMUDict.cpp:15-127` | For such a file, they agree on all words without NUL if and only if the first line of the file is not an indexed line or no line of its group is the first of its headword, free of small letters, and has a reading |
| `PronunciationIndex.FirstWordIsLost` | `naichichi2/CMUDict.cpp:56-68` | In the file of the one line "AB  X" the scan finds "X" for "ab" and the lookup nothing |
| `Tlv8.PHKNetworkMessageData.Parse` | `Personal-HomeKit-HAP/PHKNetworkIP.cpp:1159-1187` | The records are the fragments of the message merged by type |
| `Tlv8.PHKNetworkMessageData.Load` | `Personal-HomeKit-HAP/PHKNetworkIP.cpp:1162-1186` | The parsing loop over the buffer fills the slots accordingly |
| `Tlv8.PHKNetworkMessageData.AbsorbFragment` | `Personal-HomeKit-HAP/PHKNetworkIP.cpp:1165-1185` | A fragment of a new type opens a slot; of a known type it extends that slot |
| `Tlv8.PHKNetworkMessageData.RawData` | `Personal-HomeKit-HAP/PHKNetworkIP.cpp:1189-1205` | The active records in fragments of at most 255 bytes, cut to a length of sixteen bits |
| `Tlv8.PHKNetworkMessageData.RecordIndex` | `Personal-HomeKit-HAP/PHKNetworkIP.cpp:1207-1212` | The first slot of the type, or -1 |
| `Tlv8.PHKNetworkMessageData.AddRecord` | `Personal-HomeKit-HAP/PHKNetworkIP.cpp:1214-1217` | The record is appended |
| `TlvTheorems.MergeGathers` | `Personal-HomeKit-HAP/PHKNetworkIP.cpp:1159-1187` | Merging keeps one record for each type in the order of first fragments, with all its bytes in order |
| `TlvTheorems.FragmentLayout` | `Personal-HomeKit-HAP/PHKNetworkIP.cpp:1189-1205` | Byte k of a value stands in fragment k / 255 behind the type and the length of that fragment |
| `TlvTheorems.ParsedGathers` | `Personal-HomeKit-HAP/PHKNetworkIP.cpp:1159-1187` | Parsing any well-formed message does so |
| `TlvTheorems.RoundTrip` | `Personal-HomeKit-HAP/PHKNetworkIP.cpp:1159-1205` | Records of distinct types with values of any length come back as they were, in their order |
| `TlvTheorems.ParseAgain` | `Personal-HomeKit-HAP/PHKNetworkIP.cpp:1159-1212` | Parsing what is handed out for the records of a parsed message gives the records of the first parse that hold something |
| `TlvTheorems.WireRoundTripIff` | `Personal-HomeKit-HAP/PHKNetworkIP.cpp:1189-1205` | The bytes handed out parse back to the records that hold something if and only if what they cost, two bytes for each fragment, fits sixteen bits |
| `Bytes.LittleEndianRoundTrip` | `Personal-HomeKit-HAP/PHKNetworkIP.cpp:413-429` | A number that fits k bytes is read back from its k bytes |
| `MacFeed.Poly1305GenKey` | `Personal-HomeKit-HAP/PHKNetworkIP.cpp:386-432` | The bytes fed are the MAC input of section 2.8 of RFC 8439 for the additional data and the text of the frame, in both modes; frames under two bytes feed nothing |
| `MacFeed.FrameIsCovered` | `Personal-HomeKit-HAP/PHKNetworkIP.cpp:386-412` | Additional data and text together are the frame, in both modes |
| `MacFeed.FeedFrame` | `Personal-HomeKit-HAP/PHKNetworkIP.cpp:400-412` | The padded additional data and the padded text |
| `MacFeed.FeedLengths` | `Personal-HomeKit-HAP/PHKNetworkIP.cpp:413-429` | The two lengths as eight bytes each |
| `MacFeed.BroadcastFeed` | `Personal-HomeKit-HAP/PHKNetworkIP.cpp:246-261` | What the feed written out in broadcastMessage delivers |
| `MacFeed.MacInputInjective` | `Personal-HomeKit-HAP/PHKNetworkIP.cpp:386-432` | Different additional data or text never give the same MAC input |
| `MacFeed.BroadcastIsStandardIff` | `Personal-HomeKit-HAP/PHKNetworkIP.cpp:246-261` | That feed is the standard input if and only if the data does not end on a block boundary |
| `SerialLink.Commander.EscapeCtrl` | `naichichi2/CapeBord_EndelSCommander.cpp:92-111` | The destination gets the escaped bytes and nothing before them changes |
| `SerialLink.Commander.CalcChecksum` | `naichichi2/CapeBord_EndelSCommander.cpp:113-124` | The sum of the bytes modulo 256 |
| `SerialLink.Commander.EncodePacket` | `naichichi2/CapeBord_EndelSCommander.cpp:176-212` | The destination holds the frame, and the page number alternates |
| `SerialLink.Commander.UnEscapeCtrl` | `naichichi2/CapeBord_EndelSCommander.cpp:126-146` | The destination holds the unescaped bytes, and the position behind them is returned |
| `SerialLink.Commander.DecodePacket` | `naichichi2/CapeBord_EndelSCommander.cpp:148-174` | The packet, a checksum error, or running out of received bytes |
| `SerialLink.Commander.FindPacket` | `naichichi2/CapeBord_EndelSCommander.cpp:271-310` | The packet behind the first start mark that has an end mark after it |
| `SerialTheorems.MarksOnlyAtEnds` | `naichichi2/CapeBord_EndelSCommander.cpp:176-212` | The start mark is only first and the end mark only last, and a frame has at most 12 + 2n bytes |
| `SerialTheorems.HeaderOnWire` | `naichichi2/CapeBord_EndelSCommander.cpp:184-192` | Read back, the header of a frame is the command, the length of the payload and the page modulo 64 |
| `SerialTheorems.UnescapeEscape` | `naichichi2/CapeBord_EndelSCommander.cpp:92-146` | Unescaping undoes escaping, whatever follows |
| `SerialTheorems.ReceiveFrame` | `naichichi2/CapeBord_EndelSCommander.cpp:148-310` | A frame behind bytes without a start mark and before any others is received as what was sent |
| `SerialTheorems.DecodeFrameIff` | `naichichi2/CapeBord_EndelSCommander.cpp:181-193` | A frame decodes to what was sent if and only if the payload is under 64 bytes, because the length field keeps six bits |
| `SerialTheorems.DamageIsNoticed` | `naichichi2/CapeBord_EndelSCommander.cpp:166-173` | Replacing one byte before the checksum, outside the length field and with no escape mark involved, is reported as a checksum error |
| `SerialTheorems.ReceiveDamaged` | `naichichi2/CapeBord_EndelSCommander.cpp:148-310` | The same for a frame in noise: it is reported as a checksum error even when the new byte is a start or an end mark |
| `IrRemote.Remote.Radiate` | `naichichi2/CapeBord_EndelS.cpp:198-268` | Succeeds if and only if no transaction of the session fails and the answer to the verification is no refusal, and then the whole session was sent; otherwise what was sent is the beginning of the session up to the transaction that ended it, none before it did, and the result is the error of that stage |
| `IrRemote.SessionLoadsIff` | `naichichi2/CapeBord_EndelS.cpp:217-264` | A board that received the whole session holds exactly the pattern if and only if its length fits sixteen bits |
| `IrRemote.SaveIRData` | `naichichi2/CapeBord_EndelS.cpp:281-299` | The file is the carrier period, the count and the pulses |
| `IrRemote.FileOfOnePulse` | `naichichi2/CapeBord_EndelS.cpp:281-299` | The bytes of a file with one pulse of small numbers |
| `IrRemote.LoadIRData` | `naichichi2/CapeBord_EndelS.cpp:301-335` | Reads up to the announced number of pulses and fails at the first that is zero in either number |
| `IrRemote.SaveLoadIff` | `naichichi2/CapeBord_EndelS.cpp:281-335` | A saved pattern loads, and loads as it was, if and only if none of its numbers is zero |
| `IrRemote.RadiateFile` | `naichichi2/CapeBord_EndelS.cpp:95-112` | A file that does not load sends nothing; otherwise success is exactly that the board goes along with the whole session of its pattern |
| `IrCapture.CaptureBoard.Capture` | `naichichi2/CapeBord_EndelS.cpp:115-196` | Learning succeeds exactly when the board accepts, ends normally and no transaction is lost, and then delivers the recording as far as its length fits sixteen bits; otherwise it ends with the first transaction that fails it, with the error of that stage and the pulses read before |
| `IrCapture.CaptureBoard.CaptureFile` | `naichichi2/CapeBord_EndelS.cpp:74-93` | The file is kept exactly when learning succeeds and the pattern looks right, and it is the saved recording |
| `IrCapture.CaptureBoard.AwaitEnd` | `naichichi2/CapeBord_EndelS.cpp:126-167` | Waiting ends with the state, the carrier period and the length of the recording, or with the error of the first transaction that is lost or refused |
| `IrCapture.CaptureBoard.AskPulse` | `naichichi2/CapeBord_EndelS.cpp:179-193` | One pulse as the board has it |
| `IrCapture.LearnedIsRadiatedIff` | `naichichi2/CapeBord_EndelS.cpp:74-335` | The file kept of a recording loads, and its session makes the board hold what was recorded, if and only if the recording fits sixteen bits and none of its numbers is zero |
| `SessionFile.LoadSession` | `naichichi2/HttpServer.cpp:867-887` | The reader through its two fixed buffers, adding to the map of its caller |
| `SessionFile.FillBuffer` | `naichichi2/HttpServer.cpp:873-882` | A buffer after a read that may deliver less than asked for |
| `SessionFile.SaveSession` | `naichichi2/HttpServer.cpp:917-930` | The writer, entry by entry |
| `SessionFile.ShortEntry` | `naichichi2/HttpServer.cpp:917-930` | The bytes of an entry of short texts |
| `SessionFile.ReadWritten` | `naichichi2/HttpServer.cpp:867-930` | Reading written entries that fit adds them to what was read before |
| `SessionFile.ReadFits` | `naichichi2/HttpServer.cpp:867-887` | Whatever the file, only texts that fit the buffers are read |
| `SessionFile.EarlierEntriesWin` | `naichichi2/HttpServer.cpp:867-887` | Whatever the file, an entry of the map of the caller is never changed |
| `SessionFile.RoundTripIff` | `naichichi2/HttpServer.cpp:867-930` | Reading a written session gives its storable entries back if and only if each of them is shorter than the buffers and free of zero bytes |
| `Rooms.FindRoom` | `naichichi2/MultiRoomUtil.cpp:143-165` | A room with the uuid, or 0 exactly when there is none |
| `Rooms.NewMultiRoomID` | `naichichi2/MultiRoomUtil.cpp:167-190` | One more than the largest room number |
| `Rooms.NewMultiRoomOrder` | `naichichi2/MultiRoomUtil.cpp:192-222` | One more than the largest order of a room |
| `Rooms.RoomConfig.SetRoom` | `naichichi2/MultiRoomUtil.cpp:63-68` | The six entries of the room are set, except those with a line break, and no other entry changes |
| `Rooms.RoomConfig.MergeRoom` | `naichichi2/MultiRoomUtil.cpp:33-68` | Incomplete rooms and the own one are ignored; a known room takes over the data, a new one gets a number and order after all others |
| `Rooms.IncompleteIgnored` | `naichichi2/MultiRoomUtil.cpp:36-52` | A room without uuid, url or key and the own room change nothing |
| `Rooms.RoomConfig.Merge` | `naichichi2/MultiRoomUtil.cpp:16-70` | The whole merge: what is kept, what is new, what is known afterwards, and the values delivered |
| `RoomTheorems.MergeSummary` | `naichichi2/MultiRoomUtil.cpp:16-70` | Rooms keep their number and uuid, the own room is untouched, at most one room per uuid stays so, new numbers are fresh, and an offered room is known afterwards if and only if it was before or its uuid can be stored |
| `RoomTheorems.OfferedRoomArrives` | `naichichi2/MultiRoomUtil.cpp:28-68` | For room tables without repeated uuids and uuids without a line break: an offered room is there afterwards under exactly one number, with the url, key, name and account of the sender; a known one keeps its number and takes the order, a new one gets a fresh number |
| `RoomTheorems.SecondMerge` | `naichichi2/MultiRoomUtil.cpp:54-68` | For such tables, merging the same table again changes no entry but orders |
| `RoomTheorems.SecondMergeIff` | `naichichi2/MultiRoomUtil.cpp:56-67` | For such tables, it changes nothing at all if and only if the known rooms already have the orders of the sender; a room just added has one of its own |
| `RoomTheorems.ThirdMerge` | `naichichi2/MultiRoomUtil.cpp:16-70` | For such tables, nothing changes from the second merge on |
| `RoomTheorems.NewRoomIsLast` | `naichichi2/MultiRoomUtil.cpp:55-60` | A new room comes after all others in number and in order |
| `Numbers.AtoiOfNum2Str` | `naichichi2/MultiRoomUtil.cpp:59-68` | The text of a number is read back as that number |
| `RoomOrder.OrderedRooms.constructor` | `naichichi2/MultiRoomUtil.cpp:255-291` | All rooms once, sorted by order, and the own room |
| `RoomOrder.GetNextRoom` | `naichichi2/MultiRoomUtil.cpp:302-366` | The neighbour in the ring of the sorted rooms; 0 without an own room or with no other room |
| `RoomOrder.LineUnique` | `naichichi2/MultiRoomUtil.cpp:287-290` | With distinct orders there is one way to sort the rooms |
| `RoomOrder.ThereAndBack` | `naichichi2/MultiRoomUtil.cpp:302-366` | There is nowhere to go exactly for a room that is alone; otherwise the move back undoes the move, in either direction |
| `RoomOrder.FullRound` | `naichichi2/MultiRoomUtil.cpp:302-366` | Going on in one direction visits every room exactly once before it is back at the start |
| `RoomOrder.NextIsNearest` | `naichichi2/MultiRoomUtil.cpp:302-366` | The next room has the smallest order above one's own, the previous one the largest below it; at the end of the line it is the one with the smallest or the largest order of all |
| `CloudSync.Synchroniser.BuildTable` | `naichichi2/ColudSyncConfig.cpp:164-191` | Each line is cut at "<>"; the table has for each key the last line with three columns and a safe name |
| `CloudSync.Synchroniser.SyncLocalFile` | `naichichi2/ColudSyncConfig.cpp:263-306` | The row of a local file is marked, and it is sent when it is missing or newer than there |
| `CloudSync.Synchroniser.ScanLocal` | `naichichi2/ColudSyncConfig.cpp:257-309` | The rows of the local files seen are marked and exactly the due ones sent, up to the point where the stop flag is set |
| `CloudSync.Synchroniser.DeleteServerOnly` | `naichichi2/ColudSyncConfig.cpp:312-328` | Only, and without a stop all, files of the kind that are not local are deleted |
| `CloudSync.Synchroniser.SyncDirectory` | `naichichi2/ColudSyncConfig.cpp:236-329` | Only due local files are uploaded and only files that are not local deleted; all of them when the pass is not stopped; rows of other kinds stay |
| `CloudSync.Synchroniser.SyncAll` | `naichichi2/ColudSyncConfig.cpp:140-195` | The reply text is cut at tabs and the lines at "<>"; then the three directories in turn, against the table of the lines; a reply that is not OK sends nothing |
| `CloudSync.KeysDiffer` | `naichichi2/ColudSyncConfig.cpp:191-265` | Table keys of different files differ, because names have no slash |
| `CloudTheorems.LocalFilesAreSafe` | `naichichi2/ColudSyncConfig.cpp:257-328` | However far a pass gets and whichever of its requests are carried out, no file that is there locally is deleted from the server |
| `CloudReply.ReplyIsReadIff` | `naichichi2/ColudSyncConfig.cpp:148-191` | The columns read from a reply with one line for each file of the server are those of the files if and only if no name and no kind contains a tab or "<>" |
| `CloudReply.StatusIsRead` | `naichichi2/ColudSyncConfig.cpp:148-158` | The status in front is read whatever the names are |
| `Text.SplitJoinIff` | `naichichi2/XLStringUtil.cpp:646-664` | Splitting undoes joining if and only if no part contains the separator, for separators of one or of two different characters |
| `CloudTheorems.ForgedLineExample` | `naichichi2/ColudSyncConfig.cpp:164-191` | A file of the server named x<>time<>remocon is read as remocon/x, and a local x that is not newer is not uploaded although the server lacks it |
| `CloudTheorems.FullPass` | `naichichi2/ColudSyncConfig.cpp:164-329` | If no name on the server contains a tab or "<>": after a whole pass every local file with content is there and not older than here; files that are not local remain only under unsafe names; an empty file, which is never sent, is as it was |
| `CloudTheorems.SecondPassIff` | `naichichi2/ColudSyncConfig.cpp:184-306` | If no name on the server contains a tab or "<>" before the first pass, a second pass sends nothing if and only if every local file with content has a safe name |
| `Grouping.ScriptRemoconWebOrderby.constructor` | `naichichi2/ScriptRemoconWeb.cpp:57-128` | The index groups the entries into one node for each appliance and action, and both levels are sorted |
| `Grouping.ScriptRemoconWebOrderby.AddEntry` | `naichichi2/ScriptRemoconWeb.cpp:59-116` | One more entry goes to its own node, which is made when it is missing |
| `Grouping.ScriptRemoconWebOrderby.SortAll` | `naichichi2/ScriptRemoconWeb.cpp:119-127` | Sorting rearranges the nodes and changes none |
| `Grouping.ScriptRemoconWebOrderby.GetElecIDs` | `naichichi2/ScriptRemoconWeb.cpp:172-184` | The appliance numbers in their order |
| `Grouping.ScriptRemoconWebOrderby.GetElecActionIDs` | `naichichi2/ScriptRemoconWeb.cpp:187-215` | The action numbers of the first appliance whose first type entry has the value |
| `Grouping.ElecEntryOnce` | `naichichi2/ScriptRemoconWeb.cpp:74-116` | Each entry of an appliance is held by the node of that appliance and by no other node or action |
| `Grouping.ActionEntryOnce` | `naichichi2/ScriptRemoconWeb.cpp:79-107` | Each entry of an action is held by that action of its appliance and nowhere else |
| `Grouping.OthersDropped` | `naichichi2/ScriptRemoconWeb.cpp:61-83` | All other entries are dropped, and no node holds anything that is not an entry |
| `Grouping.NamesBelong` | `naichichi2/ScriptRemoconWeb.cpp:61-83` | The entry names made of two numbers belong to the action and the appliance of these numbers |
| `Grouping.OrderIsThat` | `naichichi2/ScriptRemoconWeb.cpp:101-114` | The order of a node is the number in its order entry, or the default without one |
| `Grouping.SameNodes` | `naichichi2/ScriptRemoconWeb.cpp:57-128` | Two indexes of the same entries have the same nodes, up to the place of nodes with equal order |

## Left out

- The text layout of the automaton and dictionary files, the score column, and the recogniser that reads them: rows and words are values, and the flag columns are carried but not interpreted.
- `MakeFileJuliusRule`, the disabled garbage line for calls, and the phoneme tables; readings reach the model as the converter made them.
- The frame lookup and the length, balance and dictation filters on the audio: two parameters say whether they succeed.
- MacroEdit.MacroEditor.UpdateElecAction: the other fields of the form and the refusals for them are not modelled, and the submitted texts have no line break, which the store would refuse.
- MacroEdit.AcceptedEditFiniteIff: asks that no other action takes over the old name, which unique names give for all actions but blanks; `MacroEdit.EditFiniteIff` has no such condition.
- Name lookup of actions goes through the type entries as two lists of numbers and names in the order of the map; other keys that contain the same words are not modelled. Leaf actions are an oracle that succeeds or fails, and waiting, status colours and cloud synchronisation of an action are not modelled. A leaf action that edits the macro table while a macro runs is not modelled.
- Character encodings: conversion between them is the identity, and a multi-byte character is one character.
- File handles, copying and renaming of files, locks and logging; a file is its content.
- `saveConfig` appends the remaining entries in the order of the map; the model leaves that order open and proves everything for every order.
- Tlv8.PHKNetworkMessageData.Parse: messages whose last fragment is cut off and messages with more than ten types are excluded, because the original then reads or writes beyond its buffers.
- The cipher, the arithmetic of the authenticator, pairing and the message counters.
- SerialLink.Commander.DecodePacket: where the original would read past the received bytes the model reports that they end; retries and timeouts of a transaction are its outcome.
- The board's side of the infrared commands is an abstract device that stores what it is sent and answers what it recorded; an unsigned long has 32 bits as on its processor.
- A room key is a pair of number and field: two spellings of one number and extra text around the field are not modelled. Numbers in texts are unbounded; overflow of the machine's int is not modelled.
- RoomOrder.ThereAndBack: asks for distinct orders, as do `RoomOrder.FullRound` and `RoomOrder.NextIsNearest`, because the sort leaves the place of equal orders open.
- Sending room tables over the network, authentication of rooms, and `DrawJsonStatus`.
- CloudTheorems.FullPass: asks that no name on the server contains a tab or "<>", as does `CloudTheorems.SecondPassIff`; the server itself is not part of this model, and its reply is taken as "OK" and one line for each file. File names with a NUL character are not modelled. The configuration upload before the pass is only its outcome.
- RoomTheorems.OfferedRoomArrives: asks, as do `RoomTheorems.SecondMerge`, `RoomTheorems.SecondMergeIff` and `RoomTheorems.ThirdMerge`, that neither station has a uuid twice and that no offered uuid has a line break. Uniqueness is what `RoomTheorems.MergeSummary` keeps; with a repeated uuid the outcome of a merge depends on the order in which the map is walked, which is left open here.
- ConfigLayout.KeysOnce: asks for trimmed keys and values, as does `ConfigLayout.OrderKept`; an untrimmed key is read back as its trimmed form, so two such keys can become one.
- ConfigLastLine.UnterminatedLayoutIff: asks moreover that no key looks like a comment.
- The nodes of the appliance index are values in a list instead of heap objects; nobody else refers to them.
- Sensor graphs, speech and music playback, scripting, HTML and JSON output: plumbing without a state law of its own.
- `EndelS.cpp` and `EndelSCommander.cpp`, older copies of the board driver.
