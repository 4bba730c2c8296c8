/**
  What a command prints. Text a command produces (echo, pwd, cat, ls) is
  kept verbatim; every other line the Java code prints is recorded as the
  kind of report it is, without its exact wording.
*/
module Reports {
  import opened Paths
  import opened Disk

  /** `>` overwrites its target, `>>` appends to it. */
  datatype Mode = Overwrite | Append

  datatype Message =
    | Usage(command: string)            // wrong number of arguments, reported before anything is tried
    | Failed(command: string)           // an exception caught by the command's own handler ("Error in ...")
    | WriteFailed(mode: Mode)           // the redirection target could not be written
    | CurrentDirectory(dir: string)
    | InvalidDirectory
    | TooManyArguments
    | ZipCreated(name: string)
    | ZipFilesFailed
    | DirectoryZipped
    | ZipDirectoryFailed
    | ZipEntryFailed
    | EmptyDirectoryDeleted(name: string)
    | NoEmptyDirectories
    | NoDirectories
    | DirectoryDeleted
    | DeleteFailed
    | DirectoryNotEmpty
    | DirectoryMissing
    | CopyCompleted
    | CopyFailed
    | FileCreated(name: string)
    | FileExists
    | FileNotFound(name: string)
    | NoSuchFile
    | ReadDirectoryFailed
    | Counts(file: string, lines: nat, words: nat, bytes: nat)
    | Totals(lines: nat, words: nat, bytes: nat)
    | DirectoryExists(at: Path)
    | DirectoryCreated(at: Path)
    | CreateFailed(at: Path)
    | Removed(name: string)
    | RemoveMissing(name: string)
    | RemoveIsDirectory(name: string)
    | UnzipArguments
    | UnzipCompleted
    | UnknownCommand

  /** One piece of console output: text printed as it is, or a report line. */
  datatype Out = Printed(text: string) | Said(message: Message)

  /** The disk after a sequence of steps, and what the steps printed. */
  datatype Run = Run(disk: FileSystem, log: seq<Out>)
}
