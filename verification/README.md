# Maintenance gates of the CoPaw fork, modelled and proved in Dafny

The repository keeps a fork close to its upstream with a set of scripts that gate every
change. This project models the algorithms inside those scripts and proves what they are for:

- **The brand ledger** (`scripts/check_p1_invariants.py`, `scripts/copaw_brand.py`). A diff is
  read back from git's output, removed and added lines that differ by a brand rename only are
  paired, the pairs are exported as a ledger, and the ledger is stripped from and applied to
  files. Modules `PyText`, `Brand`, `RenamePairs`, `DiffReader`, `Rewriting`, `Ledger`,
  `Export`, `Debt`.
- **The contract-coverage auditor** (`scripts/check_channel_contracts.py`). Guarded searches
  over possibly cyclic inheritance graphs, a worklist, the bookkeeping of duplicate factories
  and the exit code. Modules `PathSearch`, `Inheritance`, `ContractScan`, `Coverage`.
- **The call-site scanner and key flattener** (`scripts/check_copaw_locale_split.py`). Modules
  `CallScanner`, `KeyFlattener`.
- **The TypeScript renderer** (`scripts/release_channel.py`). Modules `Decimal`, `JsonText`,
  `JsonBalance`, `JsonReader`, `TsReader`, `ReleaseTs`.
- **The sandbox cleanup** (`scripts/cleanup_windows_sandbox.py`). Modules `Acl`, `Cleanup`.

`dafny verify dfyconfig.toml` checks everything.

Loops and in-place updates of the scripts are methods (classes `Ledger.Worktree`, `Acl.Dacl` and
`Cleanup.Machine` hold the state that is updated); each is proved equal to a recursive
specification function, and the properties are lemmas about those functions. Where a
specification function computes what the script computes, a second statement that does not use it
(a relation, a count, a reader) says what the result means. Where a long script
function mixes several loops it is split into one method per loop.

## What the proofs found

- "strip then apply reproduces the current bytes" (`scripts/copaw_brand.py:129`) is not true of
  every ledger and file. For pairs of line texts in which each old text has one new text and is
  not itself a new text, a file comes back exactly when, above the first line with an old text,
  there are enough lines with its new text for every pair of that old text
  (`Rewriting.RoundTripExact`, lifted to lines, files, trees, `verify` and exported ledgers). A
  file without old texts always meets this. Over all files without old texts, a ledger without
  chains is undone exactly when each old text has one new text (`Ledger.ReplayableExactly`);
  otherwise a strip that missed nothing is still undone up to the order of lines
  (`Ledger.StripApplyMultiset`). A chain of renames can break the round trip
  (`Ledger.NeedsNoChain`).
- The bytes on disk, as opposed to the text, come back exactly when, besides, nothing was written
  or the file held no carriage return, because files are read in text mode
  (`Ledger.StripThenApplyFile`).
- Greedy pairing is maximal and at least half of any other pairing (`RenamePairs.GreedyHalfOptimal`).
  It is the largest possible exactly when no line is left over on both sides while a pair of its
  normal form does without it (`RenamePairs.GreedyMaximumExact`); the half is reached
  (`RenamePairs.GreedyNotMaximum`).
- A counted pair is a brand rename and nothing else exactly when the placeholders of its normal
  form stand for tokens in the same places (`RenamePairs.PairIsRename`). A NUL in a line can break
  this: the gate then counts the deletion of a token (`RenamePairs.NulLooksLikeRename`).
- A path containing ` b/` is never read back from a diff header (`DiffReader.HeaderPath`), and a
  content line holding a form feed or another line break of splitlines is not read back
  (`DiffReader.ReadRaw`).
- The two key walkers differ exactly when some leaf is reached through empty keys only
  (`KeyFlattener.SameKeysExact`). Every leaf has a flattened key of its own that looks it up
  exactly when no key on the way to a leaf has a dot and no empty top key has keys below it
  (`KeyFlattener.LookupExact`).
- A generated module determines its data as soon as no key holds a line break; colons in keys do
  no harm (`ReleaseTs.RenderInjective`). When the keys are identifiers, a reader written apart from
  the renderer gets the data back (`ReleaseTs.Render`).
- Both names of a registered class are accepted in tests; when two specs claim one name, the last
  of them gets it (`ContractScan.ResolveRegisteredClasses`).
- A metadata record can be lost while work remains. This happens exactly when removal failed, the
  record's second reading, inside `_move_to_failed`, failed too, and the copy was written and the
  original deleted, unless a copy was saved before or every path is clean anyway
  (`Cleanup.Machine.CleanupSingle`). A record whose first reading fails is deleted unprocessed.

## Model

| member | source | states |
|---|---|---|
| Rewriting.RunValue | scripts/copaw_brand.py:47-61 | a replayed line is the line that was there or the other side of a pair that looks for it |
| Rewriting.RunChanges | scripts/copaw_brand.py:47-61 | a line changes if and only if fewer equal lines stand above it than pairs look for it |
| Rewriting.StripCreates | scripts/copaw_brand.py:47-61 | a strip creates an old text once per pair of it if and only if each of these pairs finds its new text, pairs listed before it served first |
| Rewriting.RoundTripExact | scripts/copaw_brand.py:39-61 | with one new text per old text and no chains, strip and apply in the same pair order give back a sequence, repeated and unmatched pairs included, if and only if enough new texts stand above the first copy of each old text |
| Rewriting.ReplayableIffFunctional | scripts/copaw_brand.py:39-61 | without chains, all sequences without old texts come back if and only if each old text has one new text |
| Rewriting.MissesExact | scripts/copaw_brand.py:47-61 | a replay misses nothing if and only if the file holds every looked-for text, counted with repetition |
| Rewriting.Balance | scripts/copaw_brand.py:47-61 | a replay that misses nothing removes its sources and adds its destinations, as multisets |
| Rewriting.RoundTripMultiset | scripts/copaw_brand.py:128-153 | a strip without misses is undone up to order, and the apply misses nothing, whatever the number of new texts per old text |
| Ledger.FindLine | scripts/copaw_brand.py:54-60 | the scan stops at the first line whose text, without newlines at its end, is the searched one |
| Ledger.ApplyPairs | scripts/copaw_brand.py:39-61 | the nested loops compute the replay and count hits and misses; equal pairs are neither |
| Ledger.ReplayBodies | scripts/copaw_brand.py:55-56 | on lines with at most one newline the replay is first-match rewriting of the line texts, and every line ending stays where it was |
| Ledger.StripApplyLines | scripts/copaw_brand.py:128-153 | strip then apply gives back the lines exactly if and only if enough new texts stand above the first line with an old text |
| Ledger.ReplayableExactly | scripts/copaw_brand.py:128-153 | for ledgers of line texts without chains: every file without old texts comes back if and only if each old text has one new text |
| Ledger.StripApplyMultiset | scripts/copaw_brand.py:128-153 | zero strip misses: the multiset of line texts and the line endings come back |
| Ledger.NeedsUntouched | scripts/copaw_brand.py:128-153 | a file holding an old text above its new text comes back with both swapped |
| Ledger.NeedsNoChain | scripts/copaw_brand.py:128-153 | a line of a chain of renames listed backwards comes back as another name |
| Ledger.EnoughNewOrUntouched | scripts/copaw_brand.py:94-125 | a file that comes back and holds no new text holds no old text either, so nothing is written in either direction |
| Ledger.StripThenApplyFile | scripts/copaw_brand.py:94-125 | writing between the two steps included, the text comes back if and only if enough new texts stand above the first old text; the bytes do if and only if, besides, nothing was written or there was no carriage return |
| Ledger.StripThenApplyTree | scripts/copaw_brand.py:94-125 | a tree comes back byte for byte if and only if each of its files that the ledger names does; other files are left alone |
| Ledger.Worktree.Rewrite | scripts/copaw_brand.py:94-117 | new files, both totals and the exit status of `apply` and `strip`; exit 1 whenever a named file with pairs does not exist |
| Ledger.Worktree.Verify | scripts/copaw_brand.py:128-166 | the failures recorded by `verify`, in order, and exit status 0 if and only if there is none; a named file that does not exist is one |
| Ledger.VerifyExact | scripts/copaw_brand.py:143-153 | on a ledger with one new text per old text and no chains, `verify` reports a difference if and only if not enough new texts stand above the first old text, and accepts a file if and only if enough do and the file holds every new text with repetition |
| PyText.ConcatSplitKeep | scripts/copaw_brand.py:137-148 | joining the kept lines of a text gives the text |
| PyText.SplitKeepOneNewline | scripts/copaw_brand.py:55-56 | a split line has at most one newline, at its end |
| PyText.ReplaceKeepsSplit | scripts/copaw_brand.py:55-56 | replacing a line text keeps the line structure that a later split sees |
| PyText.SplitUnlinesExact | scripts/check_p1_invariants.py:104 | printed lines split back into themselves if and only if none holds a line break |
| PyText.SplitAtBreak | scripts/check_p1_invariants.py:104 | a line ends at any break character, and at a carriage return with its newline only once |
| PyText.ReadTextExact | scripts/copaw_brand.py:103 | text-mode reading changes a file if and only if it holds a carriage return |
| PyText.ReadTextAt | scripts/copaw_brand.py:103 | text without carriage returns is read as it is; a carriage return, with its newline if there is one, is read as one newline |
| PyText.StripExact | scripts/check_copaw_locale_split.py:342 | stripping cuts blanks off both ends and nothing else |
| Brand.NormalFormExact | scripts/check_p1_invariants.py:34-35 | two lines have one normal form if and only if they agree character by character up to respelled tokens |
| Brand.RenameExact | scripts/check_p1_invariants.py:34-35 | one line is a brand respelling of the other if and only if their normal forms agree and the placeholders stand for tokens in the same places |
| Brand.RenameAndNothingElse | scripts/check_p1_invariants.py:11-13 | for lines without NUL the normal form alone decides |
| Brand.TokenExact | scripts/check_p1_invariants.py:34 | a token is one of the two words with each letter in either case |
| Brand.HasBrandExact | scripts/check_p1_invariants.py:34 | a line is branded if and only if a token stands somewhere in it |
| Brand.CaseDoesNotMatter | scripts/check_p1_invariants.py:34 | changing the case of letters changes neither whether a line is branded nor, up to case, its normal form |
| Brand.NoOverlap | scripts/check_p1_invariants.py:34 | two brand tokens never overlap |
| Brand.NoBrandLeft | scripts/check_p1_invariants.py:54-55 | a normal form holds no brand token |
| Brand.FixedIffNoBrand | scripts/check_p1_invariants.py:54-55 | a line is its own normal form if and only if it holds no brand token |
| Brand.Idempotent | scripts/check_p1_invariants.py:54-55 | normalising twice is normalising once |
| RenamePairs.PairRenameLines | scripts/check_p1_invariants.py:130-153 | the dictionary of buckets gives the pairs of the plain greedy search over all removed lines |
| RenamePairs.GreedyValid | scripts/check_p1_invariants.py:130-153 | every pair is branded, differs and has equal normal forms; each occurrence of a line is used at most once |
| RenamePairs.GreedyMaximal | scripts/check_p1_invariants.py:130-153 | no unused removed line could still be paired with an unused added line |
| RenamePairs.HalfOfAny | scripts/check_p1_invariants.py:130-153 | a maximal pairing has at least half as many pairs as any valid one |
| RenamePairs.GreedyHalfOptimal | scripts/check_p1_invariants.py:156-157 | the counted pairs are at least half of the best pairing |
| RenamePairs.GreedyMaximumExact | scripts/check_p1_invariants.py:140-152 | the pairing is the largest possible if and only if no line is left unused on both sides while a pair of its normal form does without it |
| RenamePairs.UnblockedMaximum | scripts/check_p1_invariants.py:140-152 | the same sufficient condition for any maximal pairing |
| RenamePairs.GreedyNotMaximum | scripts/check_p1_invariants.py:140-152 | one pair is found where two exist, so the factor two is reached |
| RenamePairs.PairIsRename | scripts/check_p1_invariants.py:130-157 | a counted pair is a brand rename and nothing else if and only if tokens stand for tokens |
| RenamePairs.NulLooksLikeRename | scripts/check_p1_invariants.py:130-157 | for every token, a line of two tokens and one where a NUL replaces the second are counted as a rename, though a token was deleted |
| DiffReader.IterDiffFiles | scripts/check_p1_invariants.py:88-127 | the generator loop and its state, including the failure on a header without a separator |
| DiffReader.ContainsExact | scripts/check_p1_invariants.py:109 | what it means that a path contains the separator |
| DiffReader.HeaderPath | scripts/check_p1_invariants.py:109 | the path is read back from its header if and only if it does not contain the separator |
| DiffReader.ReadPrinted | scripts/check_p1_invariants.py:88-127 | reading a printed zero-context diff gives each path with its removed and added lines in order over all hunks, lines starting with `-- ` or `++ ` included |
| DiffReader.ReadRaw | scripts/check_p1_invariants.py:93-127 | the printed text reads back if and only if no content line holds a line break of splitlines |
| Export.ExportEntries | scripts/copaw_brand.py:64-73 | the entries written for a raw diff: a file has one if and only if it is not packaging metadata and holds a removed and an added line that differ by brand tokens only, and its pairs are a maximal pairing of its lines |
| Export.PairsReplay | scripts/check_p1_invariants.py:146-147 | the pairs of one file replay on any text holding the diff's lines: no miss, no skipped pair, multiset minus sources plus destinations |
| Export.ExportReplays | scripts/copaw_brand.py:64-125 | an exported ledger applies to the base tree and strips from the target tree with nothing unmatched |
| Export.ExportStripApply | scripts/copaw_brand.py:64-166 | on the target tree nothing is unmatched; `verify` records no failure if and only if enough new texts stand above the first old text of each file, and the tree comes back if and only if, besides, its named files have no carriage return |
| Export.NamingFits | scripts/check_p1_invariants.py:185 | the naming count never exceeds the line counts of the same diff |
| Debt.Collect | scripts/check_p1_invariants.py:173-194 | the loop computes the report |
| Debt.CollectedWellFormed | scripts/check_p1_invariants.py:182-193 | the report holds exactly the touched upstream-owned files, each once, and splits their lines without loss |
| Debt.CollectedExact | scripts/check_p1_invariants.py:182-193 | an entry carries the counts of its numstat line, and its naming is the least of the paired lines and the two counts |
| Debt.TotalsAreSums | scripts/check_p1_invariants.py:202-217 | every total is the sum of its column over the files that are not mechanical |
| Debt.Conservation | scripts/check_p1_invariants.py:202-217 | added and removed lines are naming plus behavior, files are behavior plus naming files, no total is negative |
| Debt.Check | scripts/check_p1_invariants.py:288-326 | exit 2 if and only if there is no baseline; exit 0 if and only if no total grew, no file is new and no file's behavior grew |
| Debt.AcceptsExact | scripts/check_p1_invariants.py:293-324 | what acceptance means file by file |
| Debt.AcceptsTransitive | scripts/check_p1_invariants.py:293-324 | acceptance is transitive |
| Debt.Ratchet | scripts/check_p1_invariants.py:288-324 | along any chain of accepted baselines nothing grows |
| PathSearch.FoundExact | scripts/check_channel_contracts.py:522-539 | a search guarded by the current path finds a hit if and only if a chain leads to one, on cyclic graphs too |
| Inheritance.InheritsBaseChannelExact | scripts/check_channel_contracts.py:522-539 | true if and only if a chain of bases reaches a class that lists BaseChannel |
| Inheritance.InheritsContractExact | scripts/check_channel_contracts.py:612-626 | true if and only if a chain of bases reaches a class that lists the contract base |
| Inheritance.ClassGateError | scripts/check_channel_contracts.py:854-917 | the loop over the bases returns the first inherited error with its prefix |
| Inheritance.GateErrorExact | scripts/check_channel_contracts.py:1287-1321 | for both gate searches: no error if and only if neither the class nor a local class it reaches has a gate |
| Inheritance.GateMessage | scripts/check_channel_contracts.py:906-917 | the message is the gate at the end of a chain with one prefix per step to it |
| Inheritance.CollectAbstractMethods | scripts/check_channel_contracts.py:661-700 | the recursion with its growing and shrinking set |
| Inheritance.ReadBodyExact | scripts/check_channel_contracts.py:693-700 | the last definition of a name decides; without one the bases do |
| Inheritance.AbstractMethodsExact | scripts/check_channel_contracts.py:661-700 | a method is abstract if and only if a path of local bases, none before the last defining it, ends in a class that makes it abstract |
| ContractScan.LoadBuiltinSpecs | scripts/check_channel_contracts.py:246-297 | the registry loads if and only if it is not empty, all entries are valid and no key or class repeats; the specs are the entries in order |
| ContractScan.ValidModuleExact | scripts/check_channel_contracts.py:281-284 | a module path is leading dots and something behind them |
| ContractScan.TestPathInjective | scripts/check_channel_contracts.py:50-53 | different keys have different test paths |
| ContractScan.ResolveRegisteredClasses | scripts/check_channel_contracts.py:542-582 | exactly the public name and the defining name of each spec whose class derives from BaseChannel are accepted, each for the last spec that registers it; the other specs, in order, are the errors |
| ContractScan.AuditedLeast | scripts/check_channel_contracts.py:1397-1407 | the audited classes are the least set holding the contract classes and closed under local bases |
| ContractScan.Saturate | scripts/check_channel_contracts.py:1400-1407 | the worklist ends, with a closed set inside any closed set it starts in |
| ContractScan.AuditNames | scripts/check_channel_contracts.py:1397-1407 | the worklist computes exactly the audited classes |
| ContractScan.BasesAudited | scripts/check_channel_contracts.py:1408-1423 | with no invalid base reported, every base of an audited class is the contract base or audited |
| Coverage.FileProblemExact | scripts/check_channel_contracts.py:1373-1433 | a file is scanned class by class if and only if it has no module-level gate and its audited classes have local bases and are not changed |
| Coverage.CheckFile | scripts/check_channel_contracts.py:1373-1433 | the checks that skip a whole file |
| Coverage.ClassEventExact | scripts/check_channel_contracts.py:1435-1539 | a class yields nothing if and only if it is no concrete contract class, and a well-placed factory if and only if it is a real test returning an accepted name in the canonical file |
| Coverage.CheckClass | scripts/check_channel_contracts.py:1435-1539 | the checks of one class, in order, up to a well-placed factory |
| Coverage.Note | scripts/check_channel_contracts.py:1540-1554 | the dictionary, set and error list after one event |
| Coverage.TallyExact | scripts/check_channel_contracts.py:1540-1556 | tested are exactly the classes with one factory, duplicated exactly those with more |
| Coverage.TallyErrors | scripts/check_channel_contracts.py:1540-1556 | one error per broken declaration and per factory of a class beyond its first |
| Coverage.NoErrorsExact | scripts/check_channel_contracts.py:1540-1556 | the error list is empty if and only if nothing is broken and no class has two factories |
| Coverage.ScanContractTests | scripts/check_channel_contracts.py:1352-1556 | the scan over all files computes that tally |
| Coverage.Report | scripts/check_channel_contracts.py:1559-1633 | exit 2 if and only if the registry is unreadable or there is an error, exit 0 if and only if everything is covered, exit 1 in the remaining case |
| Coverage.CoveredMeans | scripts/check_channel_contracts.py:1627-1633 | exit 0: each registered class derives from BaseChannel, and a class in its canonical, ungated file that derives from the contract, leaves nothing abstract and has no gate anywhere above it returns it |
| Coverage.RealTestCounts | scripts/check_channel_contracts.py:1435-1556 | conversely, such a class returning either name of a registered class in the canonical file is a well-placed factory of it |
| Coverage.InheritedIsAudited | scripts/check_channel_contracts.py:1397-1433 | whatever such a test inherits from locally was audited and is not changed after its declaration |
| Coverage.DistinctFiles | scripts/check_channel_contracts.py:1532-1539 | two registered classes are never tested in one file |
| CallScanner.MatchingParen | scripts/check_copaw_locale_split.py:301-320 | the loop over depth, index and quote computes the scan |
| CallScanner.FirstArgument | scripts/check_copaw_locale_split.py:323-342 | the loop over depth, index and quote, stripped |
| CallScanner.MatchExact | scripts/check_copaw_locale_split.py:301-320 | a closing parenthesis is reported at a place if and only if the text up to it is made of balanced tokens |
| CallScanner.FirstArgumentOfPrinted | scripts/check_copaw_locale_split.py:345-358 | scanning a printed call gives the end of the call and its first argument, for any token trees and any text behind |
| CallScanner.CallFirstArgument | scripts/check_copaw_locale_split.py:348-352 | end of call, then first argument; nothing when the call never closes |
| KeyFlattener.CollectValues | scripts/check_copaw_locale_split.py:475-483 | the loop fills the dictionary of leaves |
| KeyFlattener.NestedGet | scripts/check_copaw_locale_split.py:34-40 | the cursor loop returns the node the keys lead to, dictionary or leaf, and None when they lead nowhere |
| KeyFlattener.LookupReached | scripts/check_copaw_locale_split.py:34-40 | with unique keys, what the keys lead to is what is looked up |
| KeyFlattener.LookupAppend | scripts/check_copaw_locale_split.py:34-40 | a lookup goes on where a lookup of the first keys ends |
| KeyFlattener.SameKeysExact | scripts/check_copaw_locale_split.py:359-369 | both walkers give the same keys if and only if no leaf hides behind empty keys only |
| KeyFlattener.LookupExact | scripts/check_copaw_locale_split.py:475-483 | every leaf has its own flattened key and every flattened key, split at its dots, looks up its value, if and only if the keys leading to leaves have no dots and no empty top key has keys below it |
| KeyFlattener.LookupFlattened | scripts/check_copaw_locale_split.py:475-483 | with such keys a flattened key looks up the value stored under it |
| KeyFlattener.StoredLeads | scripts/check_copaw_locale_split.py:475-483 | whatever the keys, everything stored is a leaf under its own path |
| KeyFlattener.LeadsStored | scripts/check_copaw_locale_split.py:475-483 | with such keys every leaf is stored under its joined keys and not overwritten |
| KeyFlattener.FlattenCount | scripts/check_copaw_locale_split.py:359-369 | with such keys one stored key per leaf; `flatten` has one per leaf if and only if no leaf hangs at the top under the empty key |
| KeyFlattener.DottedKeyIsLost | scripts/check_copaw_locale_split.py:478-482 | a key with a dot and no key beside it is flattened to a path that looks up nothing |
| KeyFlattener.DottedKeyIsOverwritten | scripts/check_copaw_locale_split.py:478-482 | beside the keys it imitates, its value is lost and the path looks up theirs |
| JsonText.DumpsPrefix | scripts/release_channel.py:90-93 | a dumped value is read off the front of a text |
| JsonText.DumpsInjective | scripts/release_channel.py:90-93 | equal texts if and only if equal values |
| JsonText.EscapeAscii | scripts/release_channel.py:90-93 | printable ASCII is written as it is, and the short escapes are used |
| JsonReader.DumpsRead | scripts/release_channel.py:90-93 | a separately written reader of JSON gets every dumped value back |
| ReleaseTs.RenderLines | scripts/release_channel.py:96-113 | the lines of a value; a list takes one line if and only if its text fits in 80 characters, and otherwise one per item and two more |
| ReleaseTs.Render | scripts/release_channel.py:116-122 | the whole module, from which a separate reader gets the data back when the keys are identifiers |
| ReleaseTs.ModuleRead | scripts/release_channel.py:96-122 | the reader expects one entry per line, two blanks deeper at each level, between the fixed first and last lines |
| ReleaseTs.ListLines | scripts/release_channel.py:104-112 | the width that decides the form of a list |
| JsonBalance.NoValueBehindColon | scripts/release_channel.py:90-93 | a dumped value never ends in another dumped value behind a colon and a blank |
| ReleaseTs.TsLinesPrefix | scripts/release_channel.py:96-113 | a value and its key, whatever it is, are read off the front of the lines, whichever list form the 80-column test picked |
| ReleaseTs.RenderInjective | scripts/release_channel.py:116-122 | equal modules if and only if equal data, for keys without line breaks |
| ReleaseTs.PlainKeysNeeded | scripts/release_channel.py:99 | a key with a colon and a line break imitates two entries |
| ReleaseTs.RuleCodegen | scripts/check_release_channel_consistency.py:727-739 | the gate accepts a generated module if and only if it was generated from the current data |
| Acl.Dacl.DeleteReversed | scripts/cleanup_windows_sandbox.py:239-241 | deleting the collected indices from last to first leaves exactly the other entries in order |
| Acl.Dacl.RemoveMatching | scripts/cleanup_windows_sandbox.py:207-241 | collecting and deleting leaves exactly the non-matching entries in order |
| Acl.KeepClean | scripts/cleanup_windows_sandbox.py:235-241 | what is left has no removable entry, and nothing changes if and only if there was none |
| Acl.KeepCounts | scripts/cleanup_windows_sandbox.py:215-241 | allow and deny entries of the SID go, every other entry stays as often as it was there |
| Acl.KeepStaysClean | scripts/cleanup_windows_sandbox.py:235-241 | a list that was clean for another SID stays so |
| Cleanup.Machine.RemoveAceBySid | scripts/cleanup_windows_sandbox.py:132-257 | success if and only if the system's answers allow it; the list left on success is clean, on failure nothing changed |
| Cleanup.Machine.RemoveAclWithRetry | scripts/cleanup_windows_sandbox.py:260-274 | success if and only if the path is gone or one of three attempts succeeds, and the list it leaves |
| Cleanup.Machine.RemoveAll | scripts/cleanup_windows_sandbox.py:596-611 | the lists after all visits and the number of failed visits |
| Cleanup.VisitedExact | scripts/cleanup_windows_sandbox.py:596-611 | after the visits a path is clean if and only if it was before or some visit clears it; otherwise it is untouched, and what was clean for another SID stays so |
| Cleanup.NoFailuresClean | scripts/cleanup_windows_sandbox.py:596-611 | when no visit fails, every existing listed path is clean |
| Cleanup.ListedExact | scripts/cleanup_windows_sandbox.py:588-611 | the visits go to grants, denials and broken paths in turn, then to the workspace, and to no other path |
| Cleanup.NoFailuresMeans | scripts/cleanup_windows_sandbox.py:588-611 | no visit fails if and only if each visit to an existing path finds a list that one of its attempts clears |
| Cleanup.TriedSize | scripts/cleanup_windows_sandbox.py:1036-1042 | the names tried are all different |
| Cleanup.Machine.FreshName | scripts/cleanup_windows_sandbox.py:1036-1042 | the first free name, numbered behind an underscore before the extension, found within one more try than there are files |
| Cleanup.Machine.MoveToFailed | scripts/cleanup_windows_sandbox.py:1021-1070 | every crash point keeps the record or has no work left if and only if the second reading succeeds, or the move stops early, or the original stays, or a copy was there before, or no work is left; no earlier failed record changes |
| Cleanup.Machine.CleanupSingle | scripts/cleanup_windows_sandbox.py:561-633 | the record is deleted or kept in place if and only if every visit to an existing path it names is cleared, and then no such path has an entry of its SID; paths it does not name are untouched; with readable metadata every crash point keeps the record or has no work left if and only if the move keeps it, or a copy was there, or no work is left |
| Cleanup.RereadFailureLosesRecord | scripts/cleanup_windows_sandbox.py:1045-1066 | a machine on which a failed second reading loses the record while work remains |

## Left out

- Rewriting.RoundTripExact: ledgers with chains, or with several new texts for one old text, get no condition for the single file; that they can fail is shown by `Ledger.NeedsNoChain` and `Rewriting.ReplayableIffFunctional`.
- KeyFlattener.LookupExact: dictionaries with a null leaf are excluded, because `nested_get` answers None for a null and for a missing key alike.
- DiffReader.ReadRaw: paths, hunk headers and extended header lines hold no line breaks; git quotes such paths.
- JsonText.DumpsInjective: floating-point numbers in release data are not modelled.
- JsonText.DumpsPrefix: floating-point numbers in release data are not modelled.
- Cleanup.Machine.RemoveAceBySid: a single entry deletion always takes effect; the script ignores its result.
- Python's `ast` and the visitor classes: a class is its bases, its ordered method definitions and its two own gates; a factory is unusable or returns a resolved name; rebinding after declaration is a set of names.
- The message texts of errors, except the prefixes of inherited gates, and the order in which the debt check lists its problems; printing, argument parsing, git and JSON file access.
- Regular expressions other than the brand token: where a `t(` call starts is a parameter of the scanner.
- The order of exported entries: they are listed in diff order, the script sorts them by path. No property here depends on it.
- Which offending base an external-base error names: it depends on the iteration order of a set.
- Undecodable files and newline translation on writing: texts are sequences of characters and written as they are.
- Windows calls: each fails or meets its contract, an entry that cannot be read is left in place and not counted as removable. Inherited entries, existence of paths changing during a run, and the app-container profile deletion are not modelled.
- The elevated sandbox cleanup (`_cleanup_single_elevated_sandbox`): commands for firewall rules, users and profile directories.
- Retrying records under `failed_cleanup`: the script never scans that directory.
- Template literals with `${...}`: the scanner treats a backtick as a plain quote, and so does the model.
- The consistency gate's other rules, locale loading, the console, website and browser tests.
