/**
 * The programs the application starts (efibootmgr, mount, cryptsetup, ...) and what
 * they report back. Running a program is outside the model: every operation that
 * runs one receives a `Runner` that tells it the outcome.
 */
module Host {

  newtype byte = x: int | 0 <= x < 0x100

  /** The byte a passphrase buffer is overwritten with once it has been used. */
  const SCRUB_BYTE: byte := 0xA5

  /** One program run: its name, its arguments, what it reads on standard input, and whether it runs as root. */
  datatype Command = Command(program: string, args: seq<string>, input: seq<byte>, elevated: bool)

  /** A finished run: whether it exited normally with status 0, and its standard output and standard error, trimmed. */
  datatype Outcome = Outcome(ok: bool, output: string)

  type Runner = Command -> Outcome

  /**
   * What the program asks the file system (QFile::exists, QDir::exists, QFileInfo,
   * QFile::size, QStorageInfo::bytesAvailable), as seen at the moment it asks.
   */
  datatype Files = Files(fileExists: string -> bool, dirExists: string -> bool, isSymLink: string -> bool,
                         symLinkTarget: string -> string, size: string -> int,
                         bytesAvailable: string -> int)

  /** Cmd::proc without input. */
  function Proc(program: string, args: seq<string>): Command
  {
    Command(program, args, [], false)
  }

  /** Cmd::procAsRoot without input. */
  function ProcAsRoot(program: string, args: seq<string>): Command
  {
    Command(program, args, [], true)
  }

  /** The QByteArray a passphrase is held in: a new buffer with the given bytes. */
  method NewBuffer(bytes: seq<byte>) returns (buf: array<byte>)
    ensures fresh(buf) && buf[..] == bytes
  {
    buf := new byte[|bytes|](i requires 0 <= i < |bytes| => bytes[i]);
  }

  /** QByteArray::fill: every byte of the buffer becomes b. */
  method Fill(buf: array<byte>, b: byte)
    modifies buf
    ensures forall i :: 0 <= i < buf.Length ==> buf[i] == b
  {
    forall i | 0 <= i < buf.Length {
      buf[i] := b;
    }
  }

  /** Cmd::run of the older revision: a shell command line handed to bash. */
  function Shell(commandLine: string): Command
  {
    Command("/bin/bash", ["-c", commandLine], [], false)
  }
}
