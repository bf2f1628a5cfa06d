/** Client and server run against each other over a connection that may break anywhere: what they do
    is what the transfer functions and the command `Upload` say. */
module Programs {
  import opened Wire
  import opened Digest
  import opened Net
  import opened FileReceiving
  import opened GetsServer
  import opened GetsClient
  import opened PutsExchange
  import opened Disk
  import opened Server
  import Runs
  import R = Resume

  /** One download attempt: the client sends, the server answers what has arrived, the client works
      on what has arrived of the answer. */
  method RunAttempt(h: Hash, name: Bytes, s: Bytes, f: LocalFile, cut: R.Cut) returns (status: Status)
    modifies f
    ensures status == R.Attempt(h, name, s, old(f.content), cut).status
    ensures f.content == R.Attempt(h, name, s, old(f.content), cut).file
  {
    hide GetsReply, MortalOutcome, GetsRequest;
    var uplink := new Connection([]);
    SendRequest(h, uplink, Content(f.content));
    assert uplink.outbound == GetsRequest(h, Content(f.content));
    var atServer := new Connection(R.Prefix(uplink.outbound, cut.request));
    var ended, replied := GetsServer.HandleGets(h, atServer, name, s);
    var answer := if ended && replied then atServer.outbound else [];
    var atClient := new Connection(R.Prefix(answer, cut.reply));
    status := ClientGets(h, atClient, f, name, cut.diesTruncated);
  }

  /** One command of a session, by the handler it is dispatched to. The body of an upload comes over a
      connection of its own. */
  method RunCommand(h: Hash, disk: CloudDisk, user: UserInfo, c: Runs.Command) returns (ok: bool)
    modifies disk, user
    ensures Effect(disk.View(), user.currentDir, ok) == Runs.Perform(h, old(disk.View()), old(user.View()), c)
  {
    hide Login, Cd, Mkdir, Rmdir, Rm, Puts, PutsStream;
    var ret := 0;
    match c {
      case Login => disk.HandleLogin(user);
      case Cd(dir) => ret := disk.HandleCd(user, dir);
      case Mkdir(dir) => ret := disk.HandleMkdir(user, dir);
      case Rmdir(dir) => ret := disk.HandleRmdir(user, dir);
      case Rm(file) => ret := disk.HandleRm(user, file);
      case Puts(filename, inbound) =>
        var uplink := new Connection(inbound);
        ret := disk.HandlePuts(user, uplink, filename);
      case Upload(filename, content, sent) => ret := RunUpload(h, disk, user, filename, content, sent);
    }
    return ret == 0;
  }

  /** One upload of which the first `sent` bytes arrive. */
  method RunUpload(h: Hash, disk: CloudDisk, user: UserInfo, filename: Bytes, content: Bytes, sent: nat)
    returns (ret: int)
    modifies disk
    ensures Effect(disk.View(), user.currentDir, ret == 0)
         == Runs.Perform(h, old(disk.View()), old(user.View()), Runs.Upload(filename, content, sent))
  {
    hide Puts, PutsStream;
    var uplink := new Connection([]);
    var sentOut := ClientPuts(h, uplink, filename, Some(content));
    assert uplink.outbound == PutsStream(h, filename, content);
    var atServer := new Connection(R.Prefix(uplink.outbound, sent));
    ret := disk.HandlePuts(user, atServer, filename);
  }
}
