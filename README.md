# CMD-Simulation in Dafny

A model of the command line interpreter of CMD-Simulation: the line parser
(`src/Parser.java`) and the shell (`src/Terminal.java`), with its thirteen
commands `echo`, `pwd`, `cd`, `ls`, `cat`, `wc`, `touch`, `rm`, `cp`
(with `-r`), `mkdir`, `rmdir`, `zip` (with `-r`) and `unzip`, the `>` and
`>>` redirections, and the dispatch by command name.

The disk is a map from locations to nodes. A location is a normalized
absolute path, the list of names from the root down. A node is a
directory, a text file or an archive, and an archive is a list of named
entries. A well-formed disk has the root and a directory above every node.
Each command is a function from the disk, the working directory and the
arguments to a `Run`: the new disk and what the command printed. Printed
text is kept as it is. Reports are kept as values of a `Message` datatype,
not as their wording. Lemmas state what each command promises.

The Java class is modelled by the class `Shell.Terminal`. It holds the
parser, the home directory, the launch directory, the working directory
(`user.dir`), the disk and the console. Each command is a method on it,
proved to do what the command's function says. Its loops are methods in
`Commands`, each proved to end where the function says: over arguments,
over the nodes of a walk or a listing, and over the entries of an archive.
`ChooseCommandAction` is proved to do what `Shell.Performs` says for the
parsed command name.

Two directories play a part. `cd` changes `user.dir`. The Java code opens
most names with `Paths.get` or `new File` and no base, and the operating
system takes those from the directory the process was started in, whatever
`cd` did. The model follows the code. Names are located from the launch
directory by the resolver `at`. Names are located from the working
directory only where the code puts `user.dir` in front of them:
- `cd` and `ls`;
- the files of `zip name file...`;
- `mkdir` of a name without a separator;
- `rmdir *`;
- `unzip` with no destination.

So a relative name names a place under the launch directory, even after
`cd`, when it is the target of `>` or `>>`, a name given to `cat`, `wc`,
`touch`, `rm`, `cp` or `rmdir name`, a `mkdir` name with a separator, the
archive or the `-r` directory of `zip`, or the archive or a named
destination of `unzip`. `wc` stops at the first name that is missing or a directory:
the counts of the files before it are printed, and the totals are not.

The orders a walk may take are given by `Walks.IsWalk`: every node of the
tree once, each directory before what it holds, and everything below a
directory right after it, so a walk never leaves a directory and comes
back to it; the order among the nodes of one directory is left open. The
orders of a listing are given
by `Walks.IsListing` (every child once, in any order). `Shell.Does` states
what each command does to the shell's state, and `Shell.Performs` chooses
the command by its name and reports a name that selects none. These are
definitions: the lemmas and methods in
the table below use them, and carry the properties.

Files are organised by concern:
- `text.dfy`: Java's `split`, `join`, line reading and quote removal.
- `paths.dfy`: `Paths.get`, `resolve`, `normalize`, `relativize`.
- `disk.dfy`, `reports.dfy`, `walks.dfy`: the disk; the messages; the orders `Files.walk` and `File.listFiles` may take.
- `parser.dfy`: the parser.
- `redirect.dfy`, `navigation.dfy`, `listing.dfy`, `reading.dfy`, `fileops.dfy`, `directories.dfy`, `treecopy.dfy`, `archives.dfy`: the commands.
- `commands.dfy`: the loops.
- `dispatch.dfy`, `terminal.dfy`: the dispatch and the shell.

## Model

| member | source | states |
|---|---|---|
| CommandLine.Parser.constructor | src/Parser.java:5-7 | a new parser has the command name "" and no arguments |
| CommandLine.Parser.Parse | src/Parser.java:11-21 | the command name is the first token of splitting the line on single spaces; the arguments are the other tokens, in order, in a fresh array; the result is true exactly when there are at least two tokens |
| CommandLine.Parser.GetCommandName | src/Parser.java:23-26 | the first token of the line parsed last, "" before any parse |
| CommandLine.Parser.GetArgs | src/Parser.java:27-30 | the arguments of the line parsed last, in order; null before any parse |
| CommandLine.TokensEmpty | src/Parser.java:13-14 | a line has no token exactly when it is non-empty and made of spaces only, the one case in which `parse` fails |
| CommandLine.TokensJoin | src/Parser.java:13 | joining the tokens of a non-empty line that does not end in a space by single spaces gives the line back, and no token holds a space |
| CommandLine.Tokens | src/Parser.java:13 | no token of `split(" ")` holds a space, and the last token of a non-empty line is never empty |
| Text.SplitJava | src/Parser.java:13 | no piece of Java's `split` holds the separator, and trailing empty pieces are dropped |
| Text.SplitWhitespace | src/Terminal.java:414 | no word of `split("\\s+")` holds whitespace, and trailing empty pieces are dropped |
| Text.SplitRuns | src/Terminal.java:414 | split at runs of whitespace, there is at least one piece and no piece holds whitespace |
| Text.JoinEndsWithLast | src/Terminal.java:204 | a join ends with the last character of its last piece |
| Text.SplitJavaEmpty | src/Parser.java:13 | `split` on a character yields no piece exactly when the string is non-empty and made of that character only |
| Text.SplitJavaJoin | src/Parser.java:13 | `split` and then `join` on the same character gives back a string that does not end in that character |
| Text.SplitOnJoin | src/Parser.java:13 | splitting a join of pieces without the separator gives back the pieces |
| Text.JoinSplitOn | src/Parser.java:13 | joining all the pieces between separators, empty ones included, gives back the string |
| Text.SplitWhitespaceJoin | src/Terminal.java:414 | `split("\\s+")` of words joined by single spaces gives back the words |
| Text.Lines | src/Terminal.java:409-411 | the lines `readLine` returns never contain a line break |
| Text.LinesOfTerminated | src/Terminal.java:351 | lines without breaks, each followed by a line separator, read back as the same lines |
| Text.TerminatedLines | src/Terminal.java:351 | reading a text without carriage returns line by line and ending each line with a separator gives back the text, plus a final break when it had none |
| Text.TerminatedSnoc | src/Terminal.java:351 | appending a line appends it and its separator to the text |
| Text.WithoutQuotes | src/Terminal.java:506 | `replace("\"", "")` leaves no double quote, never lengthens, and leaves a string without quotes as it is |
| Paths.Get | src/Terminal.java:148 | `Paths.get` splits a name on "/" into non-empty names without separators |
| Paths.Normalize | src/Terminal.java:152 | `normalize` never lengthens a path, and turns the names `Paths.get` yields into a normalized path |
| Paths.NormalizeNormal | src/Terminal.java:152 | a normalized path is left as it is |
| Paths.NormalizeConcat | src/Terminal.java:150-152 | normalizing after appending names only needs the base normalized first |
| Paths.Locate | src/Terminal.java:148-150 | an absolute name is normalized as it is, a relative one after it is appended to the base; the result is normalized |
| Paths.From | src/Terminal.java:148-150 | the resolver of a base locates every name as `Locate` does from that base |
| Paths.LocateName | src/Terminal.java:150 | a plain name is located right inside the base |
| Paths.LocateDotDot | src/Terminal.java:142-146 | ".." is located at the parent, and at the root from the root |
| Paths.Parent | src/Terminal.java:144 | `getParent` is absent exactly for the root, and otherwise drops the last name |
| Paths.Relative | src/Terminal.java:267 | `relativize` gives the names that, appended to the directory, give the path |
| Paths.GetPathString | src/Terminal.java:131 | a printed absolute path parses back to the same path |
| Paths.GetRelativeString | src/Terminal.java:204 | a printed relative path parses back to the same names |
| Paths.LocateRelativeString | src/Terminal.java:523 | a printed relative path is located at those names under the base |
| Disk.Create | src/Terminal.java:66-68 | writing a file or archive succeeds exactly when its place sits in a directory and is not a directory; a well-formed disk stays well-formed |
| Disk.Append | src/Terminal.java:77-79 | appending leaves a file whose text is the old text, or none, followed by the new text; it fails on a directory or an archive |
| Disk.Replace | src/Terminal.java:289 | `REPLACE_EXISTING` succeeds exactly when the place sits in a directory and is not a non-empty directory |
| Disk.CopyNode | src/Terminal.java:289 | after a copy the target holds what the source held |
| Disk.CreateDirectories | src/Terminal.java:271 | `createDirectories` succeeds exactly when only directories lie along the path; it then leaves a directory there, keeps every node, and adds only directories above or at the path |
| Disk.CreateOneDirectory | src/Terminal.java:449 | a missing directory inside an existing one is all that is added |
| Disk.CreateExistingDirectory | src/Terminal.java:525 | creating an existing directory changes nothing |
| Disk.NewChildIsCreatable | src/Terminal.java:449 | a new name inside an existing directory of a well-formed disk can be created |
| Disk.Delete | src/Terminal.java:481 | deleting a node without children takes exactly that place off the disk and keeps the disk well-formed |
| Redirection.RedirectionOf | src/Terminal.java:86-100 | there is a redirection exactly when there are at least two arguments and the one before last is exactly ">" or ">>"; the target is the last argument, and ">" overwrites while ">>" appends |
| Redirection.WriteTo | src/Terminal.java:64-83 | a write either succeeds silently or reports its failure and leaves the disk as it was |
| Redirection.OverwriteWrites | src/Terminal.java:64-72 | `>` succeeds exactly when the target sits in a directory and is not one; the target then holds exactly the output, with no line break added, and nothing else changes |
| Redirection.OverwriteIdempotent | src/Terminal.java:64-72 | a second identical `>` changes nothing |
| Redirection.AppendWrites | src/Terminal.java:75-83 | `>>` succeeds exactly when the target sits in a directory and is missing or a file; the target then holds its old text followed by the output, and nothing else changes |
| Redirection.AppendTwice | src/Terminal.java:75-83 | two appends are one append of both outputs in order |
| Redirection.OverwriteThenAppend | src/Terminal.java:64-83 | `>` then `>>` leaves the two outputs one after the other |
| Redirection.Echo | src/Terminal.java:103-127 | no argument prints nothing; with a redirection, the arguments before it are joined by single spaces and written; otherwise all are joined and printed on a line |
| Redirection.EchoRepeatsText | src/Terminal.java:120-122 | `echo text` for a parsed line prints the text as typed |
| Redirection.TokensAfterWord | src/Parser.java:13 | a first word without spaces is a token of its own |
| Redirection.EchoedFileReadsBack | src/Terminal.java:110-116 | after `echo words > file`, reading the file line by line gives the echoed text and one line break, or nothing when the text is empty |
| Navigation.ChangeDirectory | src/Terminal.java:138-162 | no argument goes home; ".." goes to the parent and stays at the root; one existing directory, taken from the working directory unless absolute, is entered normalized; any other single argument is reported and changes nothing; more arguments are refused; the working directory is printed last in every case |
| Navigation.CdStaysOnDirectory | src/Terminal.java:138-157 | when home and the working directory exist, `cd` always lands on an existing directory |
| Navigation.CdIntoAndBack | src/Terminal.java:142-152 | `cd name` then `cd ..` comes back |
| Navigation.CdToPrintedDirectory | src/Terminal.java:147-152 | `cd` to the path `pwd` printed goes there from anywhere |
| Listing.LsEntry | src/Terminal.java:379-380 | a directory is shown as "[DIR]  " and its name, anything else as seven spaces and its name |
| Listing.LsEntries | src/Terminal.java:378-381 | one shown entry per listed node, in listing order |
| Listing.Ls | src/Terminal.java:365-391 | a working directory that is not a directory is reported; otherwise the listing is printed, or written to the redirection target |
| Listing.LsTextTerminated | src/Terminal.java:378-381 | the listing text is the shown entries, each ended by "\n" |
| Listing.EntriesHaveNoLineBreak | src/Terminal.java:379-380 | no shown entry has a line break when no name has one |
| Listing.LsShowsEachNodeOnce | src/Terminal.java:370-381 | the lines of the listing are exactly one per node of the directory, in listing order, each node once |
| Reading.Gather | src/Terminal.java:343-350 | a missing file stopping `cat` is one of its arguments and is not on the disk; an unreadable one is an argument that names a directory or an archive |
| Reading.GatherReadsInOrder | src/Terminal.java:343-352 | `cat` gathers the texts of its files in order, up to the first redirection operator |
| Reading.GatherStopsAtMissing | src/Terminal.java:344-350 | `cat` stops at the first missing file and names it |
| Reading.CatShowsContent | src/Terminal.java:351 | `cat` shows a text without carriage returns as it is, plus a final line break when it had none |
| Reading.Cat | src/Terminal.java:335-361 | no argument is a usage report; a missing or unreadable file is one report and changes nothing; otherwise the gathered text is printed, or written to the redirection target |
| Reading.CatCopiesIntoFile | src/Terminal.java:343-356 | after `cat a > b`, `b` holds what `cat a` shows |
| Reading.TallyCountsLinesAndBytes | src/Terminal.java:408-418 | `wc` counts the lines `readLine` gives, and as many bytes as `cat` shows of the file |
| Reading.ByteCountIsTerminatedLength | src/Terminal.java:416-417 | the byte count is the length of the lines, each with one line break |
| Reading.BytesOfFile | src/Terminal.java:408-418 | the byte count of a text without carriage returns is its length, plus one when it does not end in a line break |
| Reading.WordsOfLine | src/Terminal.java:414-415 | a line of words separated by single spaces counts as that many words |
| Reading.EmptyLineIsOneWord | src/Terminal.java:414 | an empty line counts as one word |
| Reading.WcReport | src/Terminal.java:401-422 | `wc` over its files prints at least one line |
| Reading.Wc | src/Terminal.java:394-426 | `wc` prints only its usage exactly when it has no argument |
| Reading.WcTotalsAreSums | src/Terminal.java:401-422 | for readable files, `wc` prints one counts line per file in order and then totals equal to the sums of the counts |
| Reading.WcTotalsStep | src/Terminal.java:402-421 | one more file puts its counts line first and adds its counts to the totals |
| Reading.WcStopsAtMissing | src/Terminal.java:402-407 | the first missing file or directory ends `wc` with its report, after the counts of the files before it and with no totals |
| FileOps.Touch | src/Terminal.java:296-311 | exactly one argument; an existing node is reported and left alone; a new empty file is created when its place sits in a directory, and the attempt fails otherwise |
| FileOps.TouchTwice | src/Terminal.java:304-307 | a second `touch` only reports that the file exists |
| FileOps.RemoveOne | src/Terminal.java:470-482 | a missing name is reported; a directory is reported; anything else is deleted and reported |
| FileOps.RemoveUndoesTouch | src/Terminal.java:481 | `rm` of a file `touch` created gives the disk back |
| FileOps.Remove | src/Terminal.java:460-494 | no argument is a usage report; otherwise one report per name |
| FileOps.RemoveAll | src/Terminal.java:468-493 | one report per name |
| FileOps.Doomed | src/Terminal.java:468-482 | the places `rm` deletes are exactly the named places that hold something other than a directory |
| FileOps.DoomedAfterDelete | src/Terminal.java:468-482 | once a node is deleted, the names doom everything else as before |
| FileOps.RemoveDeletesExactly | src/Terminal.java:468-493 | `rm` deletes exactly the named nodes that are not directories, in any order and with repeats, and changes nothing else |
| FileOps.PlanCopy | src/Terminal.java:313-332 | `-r` with exactly three arguments copies a tree, any other first argument with exactly two copies a file, and anything else is refused |
| FileOps.CopyOne | src/Terminal.java:287-294 | `cp` reports success or fails and changes nothing |
| FileOps.CopyOneCopies | src/Terminal.java:287-294 | `cp` fails exactly when the source is missing, or the destination is a different place that does not sit in a directory or is a non-empty directory; on success the destination holds the source's node and nothing else changes |
| Directories.IsPath | src/Terminal.java:428-435 | a name is a path exactly when it holds "/" or "\"; a name that is not parses as one plain name |
| Directories.MkdirResolver | src/Terminal.java:442-445 | a name with a separator is taken from the launch directory, any other from the working directory |
| Directories.MkdirPlainName | src/Terminal.java:445 | a plain name is created right inside the working directory |
| Directories.MakeDirectory | src/Terminal.java:447-452 | an existing place is reported and left alone; a missing one is created with the directories above it, unless a non-directory is in the way, which is reported; only directories are added |
| Directories.Mkdir | src/Terminal.java:440-453 | `mkdir` keeps every node as it was, adds only directories, and reports once per name |
| Directories.MkdirOnlyAddsDirectories | src/Terminal.java:437-457 | `mkdir` never changes what exists, adds only directories, reports once per name about that name, and every name not reported as failed exists afterwards |
| Directories.MkdirReportsStep | src/Terminal.java:440-453 | the reports after the first name are those of the other names on the disk the first left |
| Directories.MkdirThenCd | src/Terminal.java:445-450 | `mkdir name` then `cd name` creates the directory and enters it |
| Directories.WithoutEmptySubdirectories | src/Terminal.java:232-234 | the empty subdirectories are gone; everything else stays as it was |
| Directories.DeletedLog | src/Terminal.java:235 | every report says that an empty directory was deleted |
| Directories.EmptyListed | src/Terminal.java:233 | the empty directories of a listing are exactly the listed nodes that are empty directories |
| Directories.EmptyListedDistinct | src/Terminal.java:229-233 | the empty directories of a listing with distinct nodes, none the root, are distinct and none is the root |
| Directories.DeletedLogNames | src/Terminal.java:233-236 | the log has one report per empty directory of the listing, in listing order, naming it |
| Directories.DeletedLogInListingOrder | src/Terminal.java:229-236 | for a listing of the working directory, `rmdir *` names every empty subdirectory once, in the order of the listing, and nothing else |
| Directories.DeletedLogEmpty | src/Terminal.java:231-241 | no deletion is reported exactly when no listed node is an empty directory |
| Directories.RmdirAll | src/Terminal.java:227-245 | `rmdir *` reports that there are no directories when the working directory holds nothing; otherwise it deletes exactly its empty subdirectories |
| Directories.RmdirAllReportsNoneOnlyWhenNone | src/Terminal.java:231-241 | `rmdir *` reports that it found no empty directory exactly when there was none |
| Directories.RmdirOne | src/Terminal.java:247-258 | a place that is not a directory is reported; a non-empty directory is reported; the root, and an empty directory named by a last name ".", cannot be deleted and the failure is reported; any other empty directory is deleted and nothing else changes |
| Directories.RmdirDotKeepsDirectory | src/Terminal.java:248-252 | `rmdir .` in an empty working directory reports a failed delete and changes nothing |
| Directories.SiblingStaysAsItWas | src/Terminal.java:232-234 | deleting an empty subdirectory leaves every other subdirectory as empty or non-empty as it was, so the listing taken at the start stays accurate |
| Walks.WalkStart | src/Terminal.java:202 | a walk starts with nothing visited and the whole tree to come |
| Walks.WalkCanGoOn | src/Terminal.java:202 | while nodes are left, one of them may come next in a depth-first walk: the root first, later a node of a visited directory after which everything is finished |
| Walks.ClimbToRoot | src/Terminal.java:202 | with nothing visited, the root is left to visit |
| Walks.DeepestOpen | src/Terminal.java:202 | while nodes are left, some directory above the last visited node, or that node, is not finished, and every one below it is |
| Walks.ClimbToVisited | src/Terminal.java:202 | below an unfinished visited directory lies an unvisited node whose own directory is visited |
| Walks.ChildOfDeepestOpen | src/Terminal.java:202 | such a node below the deepest unfinished directory may come next |
| Walks.WalkStep | src/Terminal.java:202 | visiting a node that may come next extends the depth-first walk |
| Walks.VisitingStep | src/Terminal.java:202 | visiting a remaining node whose directory was visited keeps each node once and every directory before what it holds |
| Walks.DepthFirstStep | src/Terminal.java:202 | visiting a node that may come next keeps the walk depth first |
| Walks.DepthFirstStepAbove | src/Terminal.java:202 | the directories between the root and each visited node stay visited |
| Walks.DepthFirstStepOrdered | src/Terminal.java:202 | no node comes after a node below it |
| Walks.DepthFirstStepContiguous | src/Terminal.java:202 | everything below a directory stays together, right after it |
| Walks.DepthFirstStepFinished | src/Terminal.java:202 | every visited node not above the newest one has all its tree visited |
| Walks.WalkDone | src/Terminal.java:202 | a walk that has visited every node is a possible `Files.walk`: each node once, each directory before what it holds, everything below a directory right after it |
| Walks.InterleavedIsNoWalk | src/Terminal.java:202 | a walk cannot visit a sibling between a directory and what lies in that directory |
| Walks.ListingStep | src/Terminal.java:229 | listing one more node extends the listing |
| Walks.ListingDone | src/Terminal.java:229 | a listing of every node is a possible `listFiles` |
| TreeCopy.Target | src/Terminal.java:267 | `destination.resolve(source.relativize(p))` lies under the destination at the place `p` has under the source |
| TreeCopy.TargetLocation | src/Terminal.java:267 | the target of a node is located where the destination is, followed by the node's place |
| TreeCopy.CopyStep | src/Terminal.java:268-278 | a directory whose target exists changes nothing; a missing target is created with the directories above it, and fails when a non-directory is in the way; any other node is copied over the target exactly when `Files.copy` with `REPLACE_EXISTING` can copy it; a failure is reported and leaves the disk as it was |
| TreeCopy.CopyWalk | src/Terminal.java:266-279 | every report of the walk is a failed copy, and the disk stays well-formed |
| TreeCopy.CpDashR | src/Terminal.java:264-284 | a missing source is one failure report and copies nothing; otherwise every report of the walk is a failed copy, and completion is reported last |
| TreeCopy.UnderBoth | src/Terminal.java:267 | a location below two others means one of those lies below the other |
| TreeCopy.MergeStepDisk | src/Terminal.java:268-274 | the next node is copied over its target in an existing destination without failing, and the disk stays well-formed |
| TreeCopy.MergedSoFarExtends | src/Terminal.java:266-279 | recording the copy of the next node keeps the invariant of the walk into an existing destination |
| TreeCopy.MergeWalkStep | src/Terminal.java:266-279 | one more node of the walk is copied without failing and keeps that invariant |
| TreeCopy.MergeWalkSoFar | src/Terminal.java:266-279 | a walk prefix copied into an existing destination fails nowhere and keeps that invariant |
| TreeCopy.CopyIntoExistingDirectory | src/Terminal.java:264-284 | `cp -r` into an existing directory apart from the source, where each place a node lands on is free or of the same kind: only success is reported; each node's target holds what the node holds, files overwriting what was there and existing directories kept; other nodes are untouched; every new node is a target |
| TreeCopy.SkipSplit | src/Terminal.java:266 | the walks with and without a node split into their last node and the rest |
| TreeCopy.SkipsFailedStep | src/Terminal.java:266-279 | one more node after a failure keeps the walks with and without the failed node alike but for that failure |
| TreeCopy.CopyWalkSkipsFailed | src/Terminal.java:275-277 | a node whose copy fails is reported and the walk goes on: the walk leaves the same disk as the walk without that node, with one more failure reported |
| TreeCopy.CopyStepExtends | src/Terminal.java:266-279 | the next node of the walk is copied into a fresh destination without failing |
| TreeCopy.CopyWalkSoFar | src/Terminal.java:266-279 | copying a walk prefix into a fresh destination fails nowhere and leaves a copy of each visited node |
| TreeCopy.CopyWalkSoFarStep | src/Terminal.java:266-279 | one more node keeps the copy faithful |
| TreeCopy.CopyIntoFreshDestination | src/Terminal.java:264-284 | `cp -r` into a new destination reports only success; each source node has its copy; the originals are untouched; every new node copies a source node |
| Archives.PlanZip | src/Terminal.java:164-182 | fewer than two arguments is a usage report; `-r` with two arguments faults; `-r` takes the archive and the directory from the next two; otherwise the first argument is the archive and the rest are the files |
| Archives.EntryName | src/Terminal.java:187-190 | the entry name is `getFileName`: the last name of the file as written, whatever the working directory; it is absent only for a name that has no names, the root |
| Archives.PackStep | src/Terminal.java:186-192 | a file without a name, or with a name already in the archive, stops packing; otherwise one entry of that name is added, holding the file's text when it is a file and nothing otherwise, and packing goes on only when it was a file |
| Archives.PackFrom | src/Terminal.java:186-193 | packing keeps the entries already there and adds at most one per file |
| Archives.ZipFiles | src/Terminal.java:184-198 | the archive is created before any file is read, and failure to create it is reported; the archive keeps what was packed up to a failure, and success is reported only when every file was packed |
| Archives.FileEntries | src/Terminal.java:186-193 | one entry per file, in order, named by the last name of its path and holding its content |
| Archives.PlainEntryName | src/Terminal.java:190 | a plain name is its own entry name |
| Archives.NameTakenSnoc | src/Terminal.java:190 | after an entry is added, a name is taken exactly when it was taken before or is the new entry's |
| Archives.PackDistinctFiles | src/Terminal.java:186-193 | files with distinct base names, none already in the archive, all of them files, are all packed, in order, each under its base name with its content, and packing completes |
| Archives.ZipDistinctFiles | src/Terminal.java:184-198 | `zip name file...` of files with distinct base names, in any directories, none the archive, into a place where an archive can be written: the archive holds exactly one entry per file, in order, nothing else changes, and success is reported |
| Archives.FileEntriesElsewhere | src/Terminal.java:185-191 | creating the archive at a place that is none of the files leaves their entries as they were |
| Archives.TreeEntry | src/Terminal.java:203-208 | a directory gives no entry; a file gives an entry named by its place relative to the zipped directory; an archive gives an empty entry and a report |
| Archives.TreeEntries | src/Terminal.java:202-212 | a walk gives at most one entry per node |
| Archives.ZipDirectory | src/Terminal.java:200-217 | the archive is created first and stays empty when the directory is missing; otherwise the walk, archive included, is packed and success reported at the end |
| Archives.TreeEntriesNamed | src/Terminal.java:202-208 | every entry of `zip -r` names a file or archive in the tree |
| Archives.RelativeStringInjective | src/Terminal.java:204 | different places under a directory have different entry names |
| Archives.TreeEntryNamesDistinct | src/Terminal.java:202-208 | the entries of a walk have distinct names |
| Archives.TreeEntriesHaveFiles | src/Terminal.java:202-208 | every file met by the walk has its entry, named by its place and holding its content |
| Archives.TreeEntriesQuiet | src/Terminal.java:209-210 | a tree without archives is packed without a report |
| Archives.ZipDirectoryHoldsEachFile | src/Terminal.java:200-217 | `zip -r` of an existing directory into a writable place reports success last and holds an entry for every file of the tree, with its content; when the archive lies outside the directory and the tree holds no archive, success is the only report |
| Archives.TreeEntryNameLocates | src/Terminal.java:523 | an entry name of `zip -r` is located at the file's place under the base it is extracted into |
| Archives.PlanUnzip | src/Terminal.java:500-512 | no argument is a usage error; the archive is the first argument, and the destination is the last when there are several, both without double quotes |
| Archives.ExtractEntry | src/Terminal.java:523-531 | a directory entry is `createDirectories` at the place its name leads to; extracting any entry keeps the disk well-formed |
| Archives.ExtractFileEntry | src/Terminal.java:527-530 | an extracted file entry leaves a file of its bytes at its place, keeps every other node as it was, and adds only directories |
| Archives.InsideEntryUnfolds | src/Terminal.java:523-530 | a file entry whose name stays inside the destination is the creation of the directories above its place, then a copy with `REPLACE_EXISTING` |
| Archives.CreatedAboveLeavesPlace | src/Terminal.java:528 | creating the directories above a place leaves a directory above it, and leaves whether the place is a directory and whether it holds anything as they were |
| Archives.ExtractNestedEntry | src/Terminal.java:523-530 | a file entry with a name inside the destination lands at the destination followed by its names; it is extracted exactly when only directories lie on the way and its place is not a non-empty directory; what it adds besides its place lies on the way |
| Archives.Extract | src/Terminal.java:520-533 | extracting in archive order keeps the disk well-formed |
| Archives.FilePlacesMiss | src/Terminal.java:523 | a place no file entry leads to is not among the places of the file entries |
| Archives.ExtractFrame | src/Terminal.java:520-533 | completed or not, extraction removes nothing, changes a node only at a place a file entry lands on, and adds elsewhere only directories |
| Archives.FirstEntryStays | src/Terminal.java:520-533 | the first entry extracted stays at its place when no later file entry lands there |
| Archives.ExtractCompleteStep | src/Terminal.java:520-533 | a complete extraction extracts the first entry and then completes on the others |
| Archives.ExtractLastWins | src/Terminal.java:520-533 | after a complete extraction, an entry that no later file entry lands on has the last word at its place: a file of its bytes, or a directory for a directory entry |
| Archives.Unzip | src/Terminal.java:497-539 | "Arguments:" is printed first, then one report; no argument or a missing archive fails and changes nothing; success is reported only for an archive that exists |
| Archives.UnzipOutcome | src/Terminal.java:500-534 | for an existing archive: a missing destination that cannot be created fails and changes nothing; otherwise the destination is created as a directory when missing, an archive that is a directory fails, and anything else has its entries, none for a plain file, extracted into the destination, success being reported exactly when every one was |
| Archives.ExtractPlainEntry | src/Terminal.java:527-530 | an entry with a plain name is written right inside an existing destination |
| Archives.ExtractPlain | src/Terminal.java:520-533 | entries with plain names are written one after the other, and every one is extracted |
| Archives.WriteAllElsewhere | src/Terminal.java:530 | a place no entry names stays as it was |
| Archives.WriteAllLastWins | src/Terminal.java:530 | a name holds the content of the last entry with that name |
| Archives.UnzipPlainArchive | src/Terminal.java:497-539 | unzipping an archive of plain names into an existing directory writes every entry there and reports success |
| Archives.ZipThenUnzip | src/Terminal.java:184-198 | plain files zipped with `zip name file...` and unzipped into an existing directory reappear there with their content, and both commands report success |
| Archives.TreeEntryIsFileEntry | src/Terminal.java:204 | an entry name of `zip -r` never ends with "/", so `unzip` reads it as a file entry |
| Archives.TreeEntryName | src/Terminal.java:204 | an entry name of `zip -r` stays inside any destination, and its names are the file's place below the zipped directory |
| Archives.MirroredWayIsClear | src/Terminal.java:527-528 | where the destination mirrors the tree, only directories lie on the way to a file's place, and the place is no directory |
| Archives.MirroredAbove | src/Terminal.java:527-528 | where the destination mirrors the tree, on the way to a node's place below the destination every location below the destination mirrors a directory of the tree, and every location on the disk is a directory |
| Archives.MirroredAfterEntry | src/Terminal.java:527-530 | writing one file of the tree at its place, with the directories above it, keeps the destination a mirror of the tree |
| Archives.ExtractMirroredEntry | src/Terminal.java:523-530 | an entry of `zip -r` is extracted into a destination that mirrors the tree, which still mirrors it afterwards |
| Archives.ExtractMirrored | src/Terminal.java:520-533 | the entries of `zip -r`, extracted into a destination that mirrors the tree, are all extracted |
| Archives.NamedPlacesDiffer | src/Terminal.java:204 | entries of `zip -r` with different names land at different places |
| Archives.UnzippedFileOfTree | src/Terminal.java:520-533 | after a complete extraction of the entries of `zip -r`, each file of the tree sits at its place below the destination with its content |
| Archives.ZipTreeThenUnzip | src/Terminal.java:200-217 | a directory zipped with `zip -r` and unzipped into an empty directory that does not hold the archive: both commands report success, and every file of the tree, other than the archive, reappears at the same place below the destination with its content |
| Dispatch.CommandOf | src/Terminal.java:544-558 | a name selects the command named exactly so |
| Dispatch.CommandOfName | src/Terminal.java:544-558 | every command is selected by its own name and by no other |
| Commands.RemoveFiles | src/Terminal.java:468-493 | the loop of `rm` ends as `FileOps.RemoveAll` says |
| Commands.MakeDirectories | src/Terminal.java:440-453 | the loop of `mkdir` ends as `Directories.Mkdir` says |
| Commands.TerminateLines | src/Terminal.java:351 | the lines of a file each followed by a line separator |
| Commands.GatherFiles | src/Terminal.java:343-352 | the loop of `cat` gathers what `Reading.Gather` says |
| Commands.CountLines | src/Terminal.java:408-418 | the line loop of `wc` counts the lines, the words and the bytes of a file |
| Commands.CountFiles | src/Terminal.java:401-422 | the file loop of `wc` prints what `Reading.WcReport` says |
| Commands.ListDirectory | src/Terminal.java:370-381 | the loop of `ls` takes a possible listing and builds its text |
| Commands.ListAll | src/Terminal.java:371 | every directory has a listing |
| Commands.RemoveAdvance | src/Terminal.java:233-237 | deleting the next listed node, an empty directory, keeps the loop invariant of `rmdir *` |
| Commands.KeepAdvance | src/Terminal.java:233 | keeping a node that is not an empty directory keeps the invariant |
| Commands.RemoveEmptyDirectories | src/Terminal.java:228-244 | the loop of `rmdir *` takes a possible listing and ends as `Directories.RmdirAll` says |
| Commands.CopyAdvance | src/Terminal.java:266-278 | copying the next node of the walk keeps the loop invariant of `cp -r` |
| Commands.CopyNext | src/Terminal.java:266-278 | the copy of one more node is the copy so far followed by that node's step |
| Commands.CopyTree | src/Terminal.java:266-279 | the walk of `cp -r` takes a possible `Files.walk` and ends as `TreeCopy.CopyWalk` says; what that walk does into a new destination, into an existing one and past a failure is proved in `TreeCopy.CopyIntoFreshDestination`, `TreeCopy.CopyIntoExistingDirectory` and `TreeCopy.CopyWalkSkipsFailed` |
| Commands.PackFiles | src/Terminal.java:186-193 | the loop of `zip name file...` packs what `Archives.PackFrom` says |
| Commands.PackAdvance | src/Terminal.java:202-208 | packing the next node of the walk keeps the loop invariant of `zip -r` |
| Commands.PackNext | src/Terminal.java:202-208 | the entries of one more node are the entries so far followed by that node's |
| Commands.PackTree | src/Terminal.java:202-212 | the walk of `zip -r` takes a possible `Files.walk` and packs what `Archives.TreeEntries` says |
| Commands.ExtractAll | src/Terminal.java:520-533 | the entry loop of `unzip` ends as `Archives.Extract` says; what extraction keeps, changes and leaves last at each place is proved in `Archives.ExtractFrame`, `Archives.ExtractNestedEntry` and `Archives.ExtractLastWins` |
| Commands.ZipTree | src/Terminal.java:200-217 | `zip -r` ends as `Archives.ZipDirectory` says, on a possible walk of the disk holding the new archive |
| Commands.UnzipArchive | src/Terminal.java:497-539 | `unzip` ends as `Archives.Unzip` says; every outcome, the destination created first, is spelled out in `Archives.UnzipOutcome`, and the round trips in `Archives.ZipThenUnzip` and `Archives.ZipTreeThenUnzip` |
| Shell.Terminal.constructor | src/Terminal.java:55-57 | a new shell has a new parser and works in its launch directory |
| Shell.Terminal.Args | src/Terminal.java:105 | the arguments of the line parsed last |
| Shell.Terminal.Echo | src/Terminal.java:103-127 | the disk and the console change as `Redirection.Echo` says |
| Shell.Terminal.Pwd | src/Terminal.java:129-136 | the working directory printed as an absolute path, which parses back to it |
| Shell.Terminal.Cd | src/Terminal.java:138-162 | the working directory and the console change as `Navigation.ChangeDirectory` says, and the disk not at all |
| Shell.Terminal.Touch | src/Terminal.java:296-311 | the disk and the console change as `FileOps.Touch` says |
| Shell.Terminal.Rm | src/Terminal.java:460-494 | the disk and the console change as `FileOps.Remove` says |
| Shell.Terminal.Cp | src/Terminal.java:287-294 | the disk and the console change as `FileOps.CopyOne` says |
| Shell.Terminal.CpDashR | src/Terminal.java:264-284 | the disk and the console change as `TreeCopy.CpDashR` says, for a possible walk of the source |
| Shell.Terminal.Copy | src/Terminal.java:313-332 | the arguments are refused, or copied as a file or as a tree, as `FileOps.PlanCopy` says |
| Shell.Terminal.Cat | src/Terminal.java:335-361 | the disk and the console change as `Reading.Cat` says |
| Shell.Terminal.Wc | src/Terminal.java:394-426 | the console gets what `Reading.Wc` says, and the disk does not change |
| Shell.Terminal.Ls | src/Terminal.java:365-391 | the disk and the console change as `Listing.Ls` says, for a possible listing of the working directory |
| Shell.Terminal.Mkdir | src/Terminal.java:437-457 | the disk and the console change as `Directories.Mkdir` says, with plain names taken from the working directory |
| Shell.Terminal.Rmdir | src/Terminal.java:219-262 | anything but one argument is a usage report; `*` acts as `Directories.RmdirAll` says on a possible listing; any other argument acts as `Directories.RmdirOne` says |
| Shell.Terminal.ZipFiles | src/Terminal.java:184-198 | the disk and the console change as `Archives.ZipFiles` says, with the files taken from the working directory |
| Shell.Terminal.ZipDirectory | src/Terminal.java:200-217 | the disk and the console change as `Archives.ZipDirectory` says, for a possible walk |
| Shell.Terminal.Zip | src/Terminal.java:164-182 | the arguments are refused, fault, or are zipped as files or as a tree, as `Archives.PlanZip` says |
| Shell.Terminal.Unzip | src/Terminal.java:497-539 | the disk and the console change as `Archives.Unzip` says |
| Shell.Terminal.ChooseCommandAction | src/Terminal.java:541-563 | the console only grows; the command the parsed name selects does what `Shell.Does` says; an unknown name is reported and changes nothing |
| Shell.Terminal.RunPrintingCommand | src/Terminal.java:545-554 | `echo`, `pwd`, `cat`, `wc` and `ls` do what `Shell.Does` says |
| Shell.Terminal.RunFileCommand | src/Terminal.java:548-556 | `touch`, `cp` and `rm` do what `Shell.Does` says |
| Shell.Terminal.RunDirectoryCommand | src/Terminal.java:547-555 | `cd`, `mkdir` and `rmdir` do what `Shell.Does` says |
| Shell.Terminal.RunArchiveCommand | src/Terminal.java:550-557 | `zip` and `unzip` do what `Shell.Does` says |

## Left out

- `src/Main.java`, the read loop and its `exit` check: console input is not modelled. `Shell.Terminal.ChooseCommandAction` takes a line already parsed.
- CommandLine.Parser.Parse: a line made only of spaces is excluded by its precondition. Java fails there with a negative array size, and `parse` does not catch it.
- Exception messages and the wording of reports: each report is a `Message` value. A command that fails in its own `catch` gives `Failed(name)`.
- Exceptions the model cannot raise are left out: I/O errors, permissions, a full disk, and `SecurityException` in `rm`.
- The zip byte format (DEFLATE, headers, CRC) is not modelled. An archive is a node holding a list of entries.
  - Reading an archive as text fails in `cat`, `wc`, `>>` and both forms of `zip`.
  - A text file read by `unzip` holds no entries; `ZipInputStream` meets no entry header in it.
  - Directory entries are extracted, but `zip` never writes them.
- Characters are bytes (`getBytes` as one byte per character), and `System.lineSeparator()` is "\n".
- `Path.normalize` drops "." and resolves ".." by name, as for an absolute path. Symbolic links are not modelled.
- Paths.Locate: the code asks whether a path exists before normalizing it, as `cd` does; the operating system then refuses a ".." that follows a missing name or a file. The model locates every name normalized, so it checks for existence at the normalized place: `cd missing/..` enters the working directory, `touch f/../g` creates `g`, and `rmdir missing/..` deletes the directory `missing` would lie in when that directory is empty, where the code reports an error.
- The home directory and the launch directory are fixed when the shell is made. `System.getProperty` cannot fail. Paths use "/" only.
- `Files.walk` and `File.listFiles` fix no order among the nodes of one directory. The model lets a listing take any order of the children, and a walk any depth-first order: every node once, each directory before what it holds, everything below a directory right after it, siblings in any order. The order taken is returned as a ghost value. The model walks the disk as it was when the walk started. For `cp -r` that is the disk before the first copy; for `zip -r` it is the disk once the archive has been created, so the archive is met when it lies in the tree. The lazy walk of the code may also meet nodes the command itself creates inside the source, as when a tree is copied into itself; the model does not visit those.
- Reading.WcReport: counts are unbounded. The Java `int` counters would wrap past 2^31 - 1.
- Reading.WcReport: the loop of `wc` adds the counts of a file to the totals line by line. The model adds them once the file is read, and the totals are the same.
- Archives.ExtractEntry: an entry whose name reaches outside the destination, with `..` or an absolute name, is written where the name leads, as in the code. The model does not prove anything about such archives.
- Archives.ZipDirectory: the walk never meets the same place twice, so the duplicate-entry failure of `ZipOutputStream` cannot happen in `zip -r`. The model does not include that case.
- Archives.ZipTreeThenUnzip: the round trip is proved for a destination that is an empty directory and does not hold the archive. Into a destination that holds other nodes, extraction can fail when a node is in the way; `Archives.ExtractNestedEntry` states when a single entry fails, and `Archives.ExtractFrame` what any extraction keeps.
- TreeCopy.CopyIntoExistingDirectory: the destination must lie apart from the source, and every place a node lands on must be free or of the same kind. Elsewhere a node can fail; `TreeCopy.CopyStep` states when one step fails, and `TreeCopy.CopyWalkSkipsFailed` shows that a failed step leaves the rest of the walk as it would have been.
- The dispatch is split into four methods by group of commands. This is only for the proof; the code has one `switch`.
