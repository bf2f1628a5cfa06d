/** Runs of the server: any sequence of commands, each issued by any session. */
module Runs {
  import opened Wire
  import opened Digest
  import opened PutsExchange
  import opened Disk
  import R = Resume

  /** `Puts` receives arbitrary bytes; `Upload` is the repository's own client uploading `content`,
      cut off after `sent` bytes. */
  datatype Command =
    | Login
    | Cd(dir: Bytes)
    | Mkdir(dir: Bytes)
    | Rmdir(dir: Bytes)
    | Rm(file: Bytes)
    | Puts(filename: Bytes, inbound: Bytes)
    | Upload(filename: Bytes, content: Bytes, sent: nat)

  /** A session value says who asks and from which current directory. Since it is arbitrary, runs
      cover any number of sessions per user, with directories that may have gone in the meantime. */
  datatype Event = Event(session: Session, command: Command)

  function UploadStream(h: Hash, filename: Bytes, content: Bytes, sent: nat): Bytes {
    R.Prefix(PutsStream(h, filename, content), sent)
  }

  function Perform(h: Hash, d: State, s: Session, c: Command): Effect {
    match c
    case Login => Disk.Login(d, s)
    case Cd(dir) => Disk.Cd(d, s, dir)
    case Mkdir(dir) => Disk.Mkdir(d, s, dir)
    case Rmdir(dir) => Disk.Rmdir(d, s, dir)
    case Rm(file) => Disk.Rm(d, s, file)
    case Puts(filename, inbound) => Disk.Puts(d, s, filename, inbound)
    case Upload(filename, content, sent) => Disk.Puts(d, s, filename, UploadStream(h, filename, content, sent))
  }

  function Step(h: Hash, d: State, e: Event): State {
    Perform(h, d, e.session, e.command).state
  }

  function Run(h: Hash, d: State, events: seq<Event>): State
    decreases |events|
  {
    if events == [] then d else Run(h, Step(h, d, events[0]), events[1..])
  }

  function Initial(users: map<Bytes, int>, outside: Outside): State {
    State([], 1, map[], users, outside)
  }
}
