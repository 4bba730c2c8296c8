/**
  The command names the shell knows (src/Terminal.java, chooseCommandAction).
*/
module Dispatch {
  import opened Wrappers

  datatype Command =
    | EchoCommand | PwdCommand | RmdirCommand | CpCommand | CdCommand | ZipCommand | LsCommand
    | TouchCommand | CatCommand | WcCommand | MkdirCommand | RmCommand | UnzipCommand

  /** The name a command is typed as. */
  function NameOf(c: Command): string
  {
    match c
    case EchoCommand => "echo"
    case PwdCommand => "pwd"
    case RmdirCommand => "rmdir"
    case CpCommand => "cp"
    case CdCommand => "cd"
    case ZipCommand => "zip"
    case LsCommand => "ls"
    case TouchCommand => "touch"
    case CatCommand => "cat"
    case WcCommand => "wc"
    case MkdirCommand => "mkdir"
    case RmCommand => "rm"
    case UnzipCommand => "unzip"
  }

  /** The command a name selects; names are matched exactly, case included, and any other is unknown. */
  function CommandOf(name: string): (c: Option<Command>)
    ensures c.Some? ==> NameOf(c.value) == name
  {
    match name
    case "echo" => Some(EchoCommand)
    case "pwd" => Some(PwdCommand)
    case "rmdir" => Some(RmdirCommand)
    case "cp" => Some(CpCommand)
    case "cd" => Some(CdCommand)
    case "zip" => Some(ZipCommand)
    case "ls" => Some(LsCommand)
    case "touch" => Some(TouchCommand)
    case "cat" => Some(CatCommand)
    case "wc" => Some(WcCommand)
    case "mkdir" => Some(MkdirCommand)
    case "rm" => Some(RmCommand)
    case "unzip" => Some(UnzipCommand)
    case _ => None
  }

  /** Every command is selected by its own name, and by no other. */
  lemma CommandOfName(c: Command, name: string)
    ensures CommandOf(NameOf(c)) == Some(c)
    ensures CommandOf(name) == Some(c) <==> name == NameOf(c)
  {
  }
}
