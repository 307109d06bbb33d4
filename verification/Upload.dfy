/**
 The atomic upload of the SFTP write path: exclusive temporary file, pipelined
 chunk writes, close, rename (sections 6.3 to 6.5 of draft-ietf-secsh-filexfer-02).
 Client, server and everybody else on the server are one state machine; a request
 that was sent may be carried out at any later time, in any order, or never,
 whatever the client has concluded meanwhile.
 */
module Upload {
  import opened Common

  const CHUNK: nat := 64 * 1024
  const REQUEST_WINDOW: nat := 16

  type Path = string

  /** What is uploaded where; `temp` is the temporary path, `accepted` the checks on the target's name. */
  datatype Job = Job(path: Path, temp: Path, data: seq<byte>, accepted: bool) {
    predicate Valid() {
      path != temp
    }

    function Chunks(): nat {
      (|data| + CHUNK - 1) / CHUNK
    }

    function Chunk(k: nat): seq<byte>
      requires k < Chunks()
    {
      data[k * CHUNK..if (k + 1) * CHUNK <= |data| then (k + 1) * CHUNK else |data|]
    }
  }

  // ----- The server -----

  datatype Request =
    | Lstat(path: Path)
    | Open(path: Path)
    | Write(handle: nat, offset: nat, data: seq<byte>)
    | Close(handle: nat)
    | Remove(path: Path)
    | Rename(old_path: Path, new_path: Path)

  datatype Reply = Done | Opened(handle: nat) | NoSuchFile | Failure

  /** Names lead to files, open handles too; numbers below `next` are taken. */
  datatype Server = Server(names: map<Path, nat>, files: map<nat, seq<byte>>, handles: map<nat, nat>, next: nat) {
    predicate Valid() {
      && (forall p :: p in names ==> names[p] in files)
      && (forall h :: h in handles ==> h < next && handles[h] in files)
      && (forall f :: f in files ==> f < next)
    }

    function Content(path: Path): Option<seq<byte>> {
      if path in names && names[path] in files then Some(files[names[path]]) else None
    }
  }

  /** Write `data` at `offset`, filling a gap with zeros. */
  function WriteAt(file: seq<byte>, offset: nat, data: seq<byte>): (r: seq<byte>)
    ensures |r| == if |file| <= offset + |data| then offset + |data| else |file|
    ensures forall i :: 0 <= i < |data| ==> r[offset + i] == data[i]
    ensures forall i :: 0 <= i < |file| && !(offset <= i < offset + |data|) ==> r[i] == file[i]
  {
    var base := if |file| < offset then file + seq(offset - |file|, _ => 0 as byte) else file[..offset];
    base + data + if offset + |data| < |file| then file[offset + |data|..] else []
  }

  /** Carry out one request; the server may also refuse any of them. */
  function Execute(server: Server, request: Request, refuse: bool): (Server, Reply) {
    if refuse then (server, Failure)
    else match request
      case Lstat(p) => (server, if p in server.names then Done else NoSuchFile)
      case Open(p) =>
        if p in server.names then (server, Failure)
        else (Server(server.names[p := server.next], server.files[server.next := []],
                     server.handles[server.next := server.next], server.next + 1),
              Opened(server.next))
      case Write(h, offset, data) =>
        if h in server.handles && server.handles[h] in server.files
        then
          var file := server.handles[h];
          (server.(files := server.files[file := WriteAt(server.files[file], offset, data)]), Done)
        else (server, Failure)
      case Close(h) => (server.(handles := server.handles - {h}), Done)
      case Remove(p) =>
        if p in server.names then (server.(names := server.names - {p}), Done) else (server, NoSuchFile)
      case Rename(p, q) =>
        if p !in server.names then (server, NoSuchFile)
        else if q in server.names then (server, Failure)
        else (server.(names := (server.names - {p})[q := server.names[p]]), Done)
  }

  // ----- The client -----

  datatype Client =
    | Start
    | Checking
    | Opening
    | Writing(handle: nat, sent: nat, acknowledged: nat)
    | Closing(written: bool)
    | Renaming
    | Removing
    | Finished(success: bool)

  /** Requests are numbered in sending order; a request without a reply is still in flight. */
  datatype Log = Log(requests: seq<Request>, replies: map<nat, Reply>) {
    predicate Succeeded(id: nat) {
      id in replies && replies[id] == Done
    }

    /** The handle, and so the file, that opening the temporary file gave. */
    function Ours(): Option<nat> {
      if 1 in replies && replies[1].Opened? then Some(replies[1].handle) else None
    }

    predicate IsWrite(k: nat) {
      2 + k < |requests| && requests[2 + k].Write?
    }

    predicate Written(k: nat) {
      IsWrite(k) && Succeeded(2 + k)
    }

    predicate AllWritten(job: Job) {
      forall k :: 0 <= k < job.Chunks() ==> Written(k)
    }

    predicate RenameDone(i: nat) {
      i < |requests| && requests[i].Rename? && Succeeded(i)
    }
  }

  datatype State = State(server: Server, log: Log, client: Client)

  function Initial(server: Server): State {
    State(server, Log([], map[]), Start)
  }

  /** How the wait for a reply ends. */
  datatype Wait = Replied | TimedOut | Broken

  datatype Action =
    | ClientStep(wait: Wait)
    | ServerStep(id: nat, refuse: bool)
    | OthersStep(server: Server)

  function Send(s: State, request: Request, client: Client): State {
    s.(log := s.log.(requests := s.log.requests + [request]), client := client)
  }

  /** The reply the client gets for request `id`, if its wait ends with one. */
  function Answer(s: State, id: nat, wait: Wait): Option<Reply> {
    if wait == Replied && id in s.log.replies then Some(s.log.replies[id]) else None
  }

  /** The request the client's next step waits for, if it waits. */
  function Awaited(job: Job, s: State): Option<nat> {
    match s.client
    case Start => None
    case Writing(_, sent, acknowledged) =>
      if (sent < job.Chunks() && sent - acknowledged < REQUEST_WINDOW) || acknowledged == sent then None
      else Some(2 + acknowledged)
    case Finished(_) => None
    case _ => if s.log.requests == [] then None else Some(|s.log.requests| - 1)
  }

  function ClientNext(job: Job, s: State, wait: Wait): State {
    var answer := match Awaited(job, s) case Some(id) => Answer(s, id, wait) case None => None;
    match s.client
    case Start => if job.accepted then Send(s, Lstat(job.path), Checking) else s.(client := Finished(false))
    case Checking =>
      if answer == Some(NoSuchFile) then Send(s, Open(job.temp), Opening) else s.(client := Finished(false))
    case Opening =>
      if answer.Some? && answer.value.Opened? then s.(client := Writing(answer.value.handle, 0, 0))
      else s.(client := Finished(false))
    case Writing(h, sent, acknowledged) =>
      if sent < job.Chunks() && sent - acknowledged < REQUEST_WINDOW then
        Send(s, Write(h, sent * CHUNK, job.Chunk(sent)), Writing(h, sent + 1, acknowledged))
      else if acknowledged == sent then Send(s, Close(h), Closing(true))
      else if answer == Some(Done) then s.(client := Writing(h, sent, acknowledged + 1))
      else Send(s, Close(h), Closing(false))
    case Closing(written) =>
      if written then Send(s, Rename(job.temp, job.path), Renaming) else Send(s, Remove(job.temp), Removing)
    case Renaming =>
      if answer == Some(Done) then s.(client := Finished(true))
      else if wait == TimedOut then s.(client := Finished(false))
      else Send(s, Remove(job.temp), Removing)
    case Removing => s.(client := Finished(false))
    case Finished(_) => s
  }

  // ----- Steps and runs -----

  /** Others may do anything except touch the two names, the files behind them or the client's handle. */
  predicate OthersMay(job: Job, s: State, after: Server) {
    var server := s.server;
    && after.Valid() && server.next <= after.next
    && (forall p :: p in [job.path, job.temp] ==>
         && (p in after.names <==> p in server.names)
         && (p in server.names ==> after.names[p] == server.names[p])
         && after.Content(p) == server.Content(p))
    && (s.log.Ours().Some? ==> var h := s.log.Ours().value;
         && (h in after.handles <==> h in server.handles)
         && (h in server.handles && server.handles[h] in server.files ==>
              && after.handles[h] == server.handles[h] && server.handles[h] in after.files
              && after.files[server.handles[h]] == server.files[server.handles[h]]))
  }

  predicate Enabled(job: Job, s: State, a: Action) {
    match a
    case ClientStep(wait) => wait == Replied && Awaited(job, s).Some? ==> Awaited(job, s).value in s.log.replies
    case ServerStep(id, _) => id < |s.log.requests| && id !in s.log.replies
    case OthersStep(after) => OthersMay(job, s, after)
  }

  function Serve(s: State, id: nat, refuse: bool): State
    requires id < |s.log.requests|
  {
    var (server, reply) := Execute(s.server, s.log.requests[id], refuse);
    s.(server := server, log := s.log.(replies := s.log.replies[id := reply]))
  }

  function Next(job: Job, s: State, a: Action): State
    requires Enabled(job, s, a)
  {
    match a
    case ClientStep(wait) => ClientNext(job, s, wait)
    case ServerStep(id, refuse) => Serve(s, id, refuse)
    case OthersStep(after) => s.(server := after)
  }

  /** `s` is reached from `from` by the actions of `run`. */
  predicate Reaches(job: Job, from: State, run: seq<Action>, s: State)
    decreases |run|
  {
    if run == [] then s == from
    else Enabled(job, from, run[0]) && Reaches(job, Next(job, from, run[0]), run[1..], s)
  }

  // ----- The invariant -----

  /** What request number `i` can be. */
  ghost predicate Legal(job: Job, log: Log, i: nat)
    requires i < |log.requests|
  {
    match log.requests[i]
    case Lstat(p) => i == 0 && p == job.path
    case Open(p) => i == 1 && p == job.temp
    case Write(h, offset, data) =>
      i >= 2 && log.Ours() == Some(h) && i - 2 < job.Chunks() && offset == (i - 2) * CHUNK && data == job.Chunk(i - 2)
    case Close(h) => i >= 2 && log.Ours() == Some(h)
    case Remove(p) => i >= 2 && p == job.temp
    case Rename(p, q) => i >= 2 && p == job.temp && q == job.path && log.AllWritten(job)
  }

  ghost predicate Sent(job: Job, start: Server, log: Log) {
    && (forall id :: id in log.replies ==> id < |log.requests|)
    && (|log.requests| > 1 ==> job.path !in start.names)
    && (|log.requests| > 2 ==> log.Ours().Some?)
    && forall i :: 0 <= i < |log.requests| ==> Legal(job, log, i)
  }

  /** What the client knows at each point. */
  ghost predicate Knows(job: Job, start: Server, log: Log, client: Client) {
    match client
    case Start => |log.requests| == 0
    case Checking => |log.requests| == 1 && (0 in log.replies && log.replies[0] == NoSuchFile ==>
        job.path !in start.names)
    case Opening => |log.requests| == 2
    case Writing(h, sent, acknowledged) =>
      && |log.requests| == 2 + sent && log.Ours() == Some(h)
      && acknowledged <= sent <= job.Chunks() && sent - acknowledged <= REQUEST_WINDOW
      && (forall k :: 0 <= k < sent ==> log.IsWrite(k))
      && (forall k :: 0 <= k < acknowledged ==> log.Written(k))
    case Closing(written) => |log.requests| >= 3 && (written ==> log.AllWritten(job))
    case Renaming => |log.requests| >= 3 && log.requests[|log.requests| - 1].Rename?
    case Removing => |log.requests| >= 3
    case Finished(success) => success ==> exists i :: log.RenameDone(i)
  }

  ghost predicate Agrees(job: Job, file: seq<byte>, j: nat)
    requires j < |job.data|
  {
    j < |file| && file[j] == job.data[j]
  }

  /** A file holds every chunk whose write succeeded, and nothing beyond the data. */
  ghost predicate Partial(job: Job, log: Log, file: seq<byte>) {
    && |file| <= |job.data|
    && forall j :: 0 <= j < |job.data| && log.Written(j / CHUNK) ==> Agrees(job, file, j)
  }

  ghost predicate Untouched(job: Job, start: Server, server: Server) {
    && (job.path in server.names <==> job.path in start.names)
    && server.Content(job.path) == start.Content(job.path)
  }

  ghost predicate Published(job: Job, start: Server, server: Server, log: Log) {
    && job.path !in start.names
    && job.temp !in server.names
    && log.Ours().Some? && log.AllWritten(job)
    && server.Content(job.path) == Some(job.data)
  }

  /** Where the temporary file is and what it holds. */
  ghost predicate Owns(job: Job, server: Server, log: Log) {
    match log.Ours()
    case None => job.temp !in server.names
    case Some(h) =>
      && h < server.next
      && (h in server.handles ==> server.handles[h] == h)
      && (job.temp in server.names ==>
           server.names[job.temp] == h && h in server.files && Partial(job, log, server.files[h]))
      && (job.path in server.names && server.names[job.path] == h ==> log.AllWritten(job))
  }

  ghost predicate Target(job: Job, start: Server, server: Server, log: Log) {
    && (Untouched(job, start, server) || Published(job, start, server, log))
    && (forall i :: log.RenameDone(i) ==> Published(job, start, server, log))
  }

  ghost predicate Inv(job: Job, start: Server, s: State) {
    && job.Valid() && s.server.Valid()
    && Sent(job, start, s.log)
    && Knows(job, start, s.log, s.client)
    && Owns(job, s.server, s.log)
    && Target(job, start, s.server, s.log)
  }

  /** With every chunk written, the file is the data. */
  lemma PartialIsComplete(job: Job, log: Log, file: seq<byte>)
    requires Partial(job, log, file) && log.AllWritten(job)
    ensures file == job.data
  {
    forall j | 0 <= j < |job.data| ensures Agrees(job, file, j) {
      assert j / CHUNK < job.Chunks();
      assert log.Written(j / CHUNK);
    }
    assert |job.data| > 0 ==> Agrees(job, file, |job.data| - 1);
    assert forall j :: 0 <= j < |job.data| ==> Agrees(job, file, j) && file[j] == job.data[j];
  }

  lemma InitialInv(job: Job, start: Server)
    requires job.Valid() && start.Valid() && job.temp !in start.names
    ensures Inv(job, start, Initial(start))
  {
  }

  /** Sending one more request, or none, changes nothing that is already settled. */
  lemma MoreRequests(job: Job, start: Server, s: State, log: Log)
    requires Inv(job, start, s)
    requires log.replies == s.log.replies && s.log.requests <= log.requests
    ensures log.AllWritten(job) <==> s.log.AllWritten(job)
    ensures forall k :: s.log.IsWrite(k) ==> log.IsWrite(k)
    ensures forall k :: s.log.Written(k) ==> log.Written(k)
    ensures Owns(job, s.server, log) && Target(job, start, s.server, log)
    ensures forall i :: 0 <= i < |s.log.requests| ==> Legal(job, log, i)
  {
    assert forall k :: s.log.Written(k) <==> log.Written(k);
    assert forall i :: s.log.RenameDone(i) <==> log.RenameDone(i);
    forall i | 0 <= i < |s.log.requests| ensures Legal(job, log, i) {
      assert Legal(job, s.log, i);
    }
  }

  lemma SendKeepsInv(job: Job, start: Server, s: State, request: Request, client: Client)
    requires Inv(job, start, s)
    requires var t := Send(s, request, client);
      && (|s.log.requests| >= 1 ==> job.path !in start.names)
      && (|s.log.requests| >= 2 ==> s.log.Ours().Some?)
      && Legal(job, t.log, |s.log.requests|)
      && Knows(job, start, t.log, client)
    ensures Inv(job, start, Send(s, request, client))
  {
    hide Knows, Owns, Target;
    MoreRequests(job, start, s, Send(s, request, client).log);
  }

  lemma ClientKeepsInv(job: Job, start: Server, s: State, wait: Wait)
    requires Inv(job, start, s) && Enabled(job, s, ClientStep(wait))
    ensures Inv(job, start, ClientNext(job, s, wait))
  {
    var t := ClientNext(job, s, wait);
    match s.client {
      case Writing(h, sent, acknowledged) => WritingKeepsInv(job, start, s, wait);
      case Start =>
        if job.accepted {
          SendKeepsInv(job, start, s, Lstat(job.path), Checking);
        }
      case Checking =>
        if t.client == Opening {
          SendKeepsInv(job, start, s, Open(job.temp), Opening);
        }
      case Closing(written) =>
        MoreRequests(job, start, s, t.log);
        SendKeepsInv(job, start, s, t.log.requests[|s.log.requests|], t.client);
      case Renaming =>
        if t.client == Removing {
          SendKeepsInv(job, start, s, Remove(job.temp), Removing);
        } else if t.client == Finished(true) {
          assert s.log.RenameDone(|s.log.requests| - 1);
        }
      case _ =>
    }
  }

  lemma WritingKeepsInv(job: Job, start: Server, s: State, wait: Wait)
    requires Inv(job, start, s) && Enabled(job, s, ClientStep(wait)) && s.client.Writing?
    ensures Inv(job, start, ClientNext(job, s, wait))
  {
    hide Owns, Target;
    var Writing(h, sent, acknowledged) := s.client;
    var t := ClientNext(job, s, wait);
    MoreRequests(job, start, s, t.log);
    if t.log != s.log {
      var request := t.log.requests[|s.log.requests|];
      if acknowledged == sent && request.Close? {
        assert s.log.AllWritten(job);
      }
      SendKeepsInv(job, start, s, request, t.client);
    } else {
      assert s.log.IsWrite(acknowledged);
      assert s.log.Written(acknowledged);
    }
  }

  lemma ServerKeepsInv(job: Job, start: Server, s: State, id: nat, refuse: bool)
    requires Inv(job, start, s) && Enabled(job, s, ServerStep(id, refuse))
    ensures Inv(job, start, Serve(s, id, refuse))
  {
    assert Legal(job, s.log, id);
    var t := Serve(s, id, refuse);
    var reply := t.log.replies[id];
    if refuse || reply == Failure || reply == NoSuchFile || s.log.requests[id].Lstat? {
      NoEffectKeepsInv(job, start, s, id, refuse);
    } else {
      match s.log.requests[id] {
        case Open(_) => OpenKeepsInv(job, start, s, id);
        case Write(_, _, _) => WriteKeepsInv(job, start, s, id);
        case Close(_) => UnlinkKeepsInv(job, start, s, id);
        case Remove(_) => UnlinkKeepsInv(job, start, s, id);
        case Rename(_, _) => RenameKeepsInv(job, start, s, id);
      }
    }
  }

  function WithReply(log: Log, id: nat, reply: Reply): Log {
    log.(replies := log.replies[id := reply])
  }

  /** A new reply never takes back what was settled. */
  lemma MoreReplies(job: Job, start: Server, s: State, id: nat, reply: Reply)
    requires Inv(job, start, s) && id < |s.log.requests| && id !in s.log.replies
    requires id == 0 && reply == NoSuchFile ==> job.path !in start.names
    ensures var log := WithReply(s.log, id, reply);
      && (id != 1 ==> log.Ours() == s.log.Ours())
      && (forall k :: s.log.Written(k) ==> log.Written(k))
      && (s.log.AllWritten(job) ==> log.AllWritten(job))
      && Sent(job, start, log) && Knows(job, start, log, s.client)
  {
    var log := WithReply(s.log, id, reply);
    assert forall k :: s.log.IsWrite(k) ==> log.IsWrite(k);
    assert forall k :: s.log.Written(k) ==> log.Written(k);
    forall i | 0 <= i < |log.requests| ensures Legal(job, log, i) {
      assert Legal(job, s.log, i);
      if id == 1 {
        assert |s.log.requests| <= 2;
      }
    }
    if s.client == Finished(true) {
      var i :| s.log.RenameDone(i);
      assert log.RenameDone(i);
    }
  }

  /** A reply to something that is no successful write or rename settles nothing. */
  lemma QuietReply(job: Job, start: Server, s: State, id: nat, reply: Reply)
    requires Inv(job, start, s) && id < |s.log.requests| && id !in s.log.replies
    requires !reply.Opened?
    requires reply == Done ==> !s.log.requests[id].Write? && !s.log.requests[id].Rename?
    ensures var log := WithReply(s.log, id, reply);
      && log.Ours() == s.log.Ours()
      && (forall k :: log.Written(k) <==> s.log.Written(k))
      && (forall i :: log.RenameDone(i) <==> s.log.RenameDone(i))
  {
  }

  lemma NoEffectKeepsInv(job: Job, start: Server, s: State, id: nat, refuse: bool)
    requires Inv(job, start, s) && Enabled(job, s, ServerStep(id, refuse))
    requires Serve(s, id, refuse).server == s.server && !Serve(s, id, refuse).log.replies[id].Opened?
    requires Serve(s, id, refuse).log.replies[id] == Done ==> !s.log.requests[id].Write? && !s.log.requests[id].Rename?
    ensures Inv(job, start, Serve(s, id, refuse))
  {
    hide Sent, Knows;
    assert Legal(job, s.log, id) by { SentLegal(job, start, s.log, id); }
    var t := Serve(s, id, refuse);
    MoreReplies(job, start, s, id, t.log.replies[id]);
    QuietReply(job, start, s, id, t.log.replies[id]);
  }

  lemma SentLegal(job: Job, start: Server, log: Log, id: nat)
    requires Sent(job, start, log) && id < |log.requests|
    ensures Legal(job, log, id)
  {
  }

  lemma OpenKeepsInv(job: Job, start: Server, s: State, id: nat)
    requires Inv(job, start, s) && Enabled(job, s, ServerStep(id, false))
    requires s.log.requests[id].Open? && job.temp !in s.server.names
    ensures Inv(job, start, Serve(s, id, false))
  {
    var t := Serve(s, id, false);
    assert id == 1 && |s.log.requests| == 2
           && s.log.requests[1] == Open(job.temp) by { SentLegal(job, start, s.log, id); }
    assert !s.log.requests[0].Rename? by { SentLegal(job, start, s.log, 0); }
    MoreReplies(job, start, s, id, t.log.replies[id]);
    assert forall k :: !t.log.Written(k);
    assert forall i :: !t.log.RenameDone(i);
    hide Sent, Knows;
  }

  lemma PartialGrows(job: Job, log: Log, k: nat, file: seq<byte>, after: Log)
    requires k < job.Chunks() && Partial(job, log, file)
    requires forall j :: after.Written(j) ==> log.Written(j) || j == k
    ensures Partial(job, after, WriteAt(file, k * CHUNK, job.Chunk(k)))
  {
    var grown := WriteAt(file, k * CHUNK, job.Chunk(k));
    forall j | 0 <= j < |job.data| && after.Written(j / CHUNK) ensures Agrees(job, grown, j) {
      if k * CHUNK <= j < k * CHUNK + |job.Chunk(k)| {
        assert grown[k * CHUNK + (j - k * CHUNK)] == job.Chunk(k)[j - k * CHUNK];
      } else {
        assert j / CHUNK != k;
        assert Agrees(job, file, j);
      }
    }
  }

  lemma WriteKeepsInv(job: Job, start: Server, s: State, id: nat)
    requires Inv(job, start, s) && Enabled(job, s, ServerStep(id, false))
    requires s.log.requests[id].Write? && Serve(s, id, false).log.replies[id] == Done
    ensures Inv(job, start, Serve(s, id, false))
  {
    var t := Serve(s, id, false);
    assert Legal(job, s.log, id) by { SentLegal(job, start, s.log, id); }
    assert !s.log.Written(id - 2);
    MoreReplies(job, start, s, id, Done);
    assert forall i :: t.log.RenameDone(i) <==> s.log.RenameDone(i);
    var h := s.log.Ours().value;
    hide Sent, Knows, WriteAt;
    if job.temp in s.server.names {
      PartialGrows(job, s.log, id - 2, s.server.files[h], t.log);
    }
  }

  /** Closing the handle or removing the temporary name. */
  lemma UnlinkKeepsInv(job: Job, start: Server, s: State, id: nat)
    requires Inv(job, start, s) && Enabled(job, s, ServerStep(id, false))
    requires s.log.requests[id].Close? || s.log.requests[id].Remove?
    ensures Inv(job, start, Serve(s, id, false))
  {
    assert Legal(job, s.log, id);
    var t := Serve(s, id, false);
    MoreReplies(job, start, s, id, t.log.replies[id]);
    QuietReply(job, start, s, id, t.log.replies[id]);
    hide Sent, Knows;
  }

  lemma RenameKeepsInv(job: Job, start: Server, s: State, id: nat)
    requires Inv(job, start, s) && Enabled(job, s, ServerStep(id, false))
    requires s.log.requests[id].Rename? && Serve(s, id, false).log.replies[id] == Done
    ensures Inv(job, start, Serve(s, id, false))
  {
    var t := Serve(s, id, false);
    assert Legal(job, s.log, id);
    MoreReplies(job, start, s, id, Done);
    PartialIsComplete(job, s.log, s.server.files[s.log.Ours().value]);
    hide Sent, Knows;
  }

  lemma OthersKeepInv(job: Job, start: Server, s: State, after: Server)
    requires Inv(job, start, s) && OthersMay(job, s, after)
    ensures Inv(job, start, s.(server := after))
  {
    hide Sent, Knows;
    assert job.path in [job.path, job.temp] && job.temp in [job.path, job.temp];
  }

  lemma NextKeepsInv(job: Job, start: Server, s: State, a: Action)
    requires Inv(job, start, s) && Enabled(job, s, a)
    ensures Inv(job, start, Next(job, s, a))
  {
    hide Inv, ClientNext, Serve;
    match a {
      case ClientStep(wait) => ClientKeepsInv(job, start, s, wait);
      case ServerStep(id, refuse) => ServerKeepsInv(job, start, s, id, refuse);
      case OthersStep(after) => OthersKeepInv(job, start, s, after);
    }
  }

  lemma {:induction false} RunKeepsInv(job: Job, start: Server, from: State, run: seq<Action>, s: State)
    requires Inv(job, start, from) && Reaches(job, from, run, s)
    ensures Inv(job, start, s)
    decreases |run|
  {
    hide Inv, Enabled, Next;
    if run != [] {
      NextKeepsInv(job, start, from, run[0]);
      RunKeepsInv(job, start, Next(job, from, run[0]), run[1..], s);
    }
  }

  // ----- When the temporary file is left behind -----

  /** Some removal or renaming of the temporary file succeeded. */
  ghost predicate TakenAway(log: Log) {
    exists i :: 0 <= i < |log.requests| && IsTakenAway(log, i)
  }

  ghost predicate IsTakenAway(log: Log, i: nat)
    requires i < |log.requests|
  {
    (log.requests[i].Remove? || log.requests[i].Rename?) && log.Succeeded(i)
  }

  ghost predicate LeftFits(job: Job, s: State) {
    job.temp in s.server.names <==> s.log.Ours().Some? && !TakenAway(s.log)
  }

  lemma ClientKeepsLeft(job: Job, start: Server, s: State, wait: Wait)
    requires Inv(job, start, s) && LeftFits(job, s)
    ensures LeftFits(job, ClientNext(job, s, wait))
  {
    var t := ClientNext(job, s, wait);
    assert t.server == s.server && t.log.replies == s.log.replies && s.log.requests <= t.log.requests;
    hide ClientNext, Knows, Owns, Target, Legal;
    forall i | 0 <= i < |t.log.requests|
      ensures IsTakenAway(t.log, i) <==> i < |s.log.requests| && IsTakenAway(s.log, i)
    {
    }
  }

  lemma ServerKeepsLeft(job: Job, start: Server, s: State, id: nat, refuse: bool)
    requires Inv(job, start, s) && LeftFits(job, s) && Enabled(job, s, ServerStep(id, refuse))
    ensures LeftFits(job, Serve(s, id, refuse))
  {
    var t := Serve(s, id, refuse);
    SentLegal(job, start, s.log, id);
    hide Sent, Knows, Owns, Target, WriteAt;
    forall i | 0 <= i < |s.log.requests| && i != id ensures IsTakenAway(t.log, i) <==> IsTakenAway(s.log, i) {
    }
    assert !IsTakenAway(s.log, id);
    if t.log.replies[id].Opened? {
      OpenIsEarly(job, start, s, id);
    }
    assert TakenAway(t.log) <==> TakenAway(s.log) || IsTakenAway(t.log, id);
  }

  lemma OpenIsEarly(job: Job, start: Server, s: State, id: nat)
    requires Inv(job, start, s) && id < |s.log.requests| && id !in s.log.replies && s.log.requests[id].Open?
    ensures id == 1 && |s.log.requests| == 2 && !TakenAway(s.log)
  {
    SentLegal(job, start, s.log, id);
    SentLegal(job, start, s.log, 0);
    assert Legal(job, s.log, 0) && Legal(job, s.log, 1);
  }

  lemma NextKeepsLeft(job: Job, start: Server, s: State, a: Action)
    requires Inv(job, start, s) && LeftFits(job, s) && Enabled(job, s, a)
    ensures LeftFits(job, Next(job, s, a))
  {
    hide Inv, TakenAway, ClientNext, Serve;
    match a {
      case ClientStep(wait) => ClientKeepsLeft(job, start, s, wait);
      case ServerStep(id, refuse) => ServerKeepsLeft(job, start, s, id, refuse);
      case OthersStep(after) => assert job.temp in [job.path, job.temp];
    }
  }

  lemma {:induction false} RunKeepsLeft(job: Job, start: Server, from: State, run: seq<Action>, s: State)
    requires Inv(job, start, from) && LeftFits(job, from) && Reaches(job, from, run, s)
    ensures LeftFits(job, s)
    decreases |run|
  {
    hide Inv, LeftFits, Enabled, Next;
    if run != [] {
      NextKeepsInv(job, start, from, run[0]);
      NextKeepsLeft(job, start, from, run[0]);
      RunKeepsLeft(job, start, Next(job, from, run[0]), run[1..], s);
    }
  }

  /**
   At every step of every run the temporary file is there exactly when its open was
   carried out and no removal or renaming of it was: whatever the client has concluded.
   */
  lemma TemporaryLeftIff(job: Job, start: Server, run: seq<Action>, s: State)
    requires job.Valid() && start.Valid() && job.temp !in start.names
    requires Reaches(job, Initial(start), run, s)
    ensures job.temp in s.server.names <==> s.log.Ours().Some? && !TakenAway(s.log)
  {
    hide Inv, Reaches, Enabled, Next;
    InitialInv(job, start);
    RunKeepsLeft(job, start, Initial(start), run, s);
  }

  // ----- If the temporary name is taken -----

  /** The exclusive open cannot succeed: nothing but the check and the open is ever sent. */
  ghost predicate Blocked(job: Job, start: Server, s: State) {
    && s.server.Valid() && job.temp in s.server.names
    && s.server.Content(job.path) == start.Content(job.path) && s.server.Content(job.temp) == start.Content(job.temp)
    && |s.log.requests| <= 2
    && (forall i :: 0 <= i < |s.log.requests| ==>
        s.log.requests[i] == if i == 0 then Lstat(job.path) else Open(job.temp))
    && (forall id :: id in s.log.replies ==> id < |s.log.requests| && !s.log.replies[id].Opened?)
    && (match s.client
        case Start => |s.log.requests| == 0
        case Checking => |s.log.requests| == 1
        case Opening => |s.log.requests| == 2
        case Finished(success) => !success
        case _ => false)
  }

  lemma NextKeepsBlocked(job: Job, start: Server, s: State, a: Action)
    requires Blocked(job, start, s) && Enabled(job, s, a)
    ensures Blocked(job, start, Next(job, s, a))
  {
    if a.OthersStep? {
      assert job.path in [job.path, job.temp] && job.temp in [job.path, job.temp];
    } else if a.ServerStep? {
      assert s.log.requests[a.id] == if a.id == 0 then Lstat(job.path) else Open(job.temp);
    }
  }

  lemma {:induction false} RunKeepsBlocked(job: Job, start: Server, from: State, run: seq<Action>, s: State)
    requires Blocked(job, start, from) && Reaches(job, from, run, s)
    ensures Blocked(job, start, s)
    decreases |run|
  {
    hide Blocked;
    if run != [] {
      NextKeepsBlocked(job, start, from, run[0]);
      RunKeepsBlocked(job, start, Next(job, from, run[0]), run[1..], s);
    }
  }

  /** An upload whose temporary name already exists never succeeds, and touches neither file. */
  lemma TakenTemporaryBlocks(job: Job, start: Server, run: seq<Action>, s: State)
    requires start.Valid() && job.temp in start.names
    requires Reaches(job, Initial(start), run, s)
    ensures s.client != Finished(true)
    ensures s.server.Content(job.path) == start.Content(job.path)
            && s.server.Content(job.temp) == start.Content(job.temp)
  {
    RunKeepsBlocked(job, start, Initial(start), run, s);
  }

  // ----- The upload is atomic -----

  /**
   At every step of every run the target is what it was before, or it was absent and
   holds exactly the data; success is reported only in the second case, and then the
   temporary name, which was free before, is gone.
   */
  lemma UploadIsAtomic(job: Job, start: Server, run: seq<Action>, s: State)
    requires job.Valid() && start.Valid()
    requires Reaches(job, Initial(start), run, s)
    ensures s.server.Content(job.path) == start.Content(job.path)
            || (start.Content(job.path) == None && s.server.Content(job.path) == Some(job.data))
    ensures s.client == Finished(true) ==>
      && start.Content(job.path) == None && s.server.Content(job.path) == Some(job.data)
      && job.temp !in start.names && s.server.Content(job.temp) == None
  {
    if job.temp in start.names {
      TakenTemporaryBlocks(job, start, run, s);
    } else {
      InitialInv(job, start);
      RunKeepsInv(job, start, Initial(start), run, s);
    }
  }

  // ----- With a willing server the upload goes through -----

  lemma {:induction false} OneMoreStep(job: Job, from: State, run: seq<Action>, s: State, a: Action)
    requires Reaches(job, from, run, s) && Enabled(job, s, a)
    ensures Reaches(job, from, run + [a], Next(job, s, a))
    decreases |run|
  {
    if run == [] {
      assert (run + [a])[1..] == [];
    } else {
      OneMoreStep(job, Next(job, from, run[0]), run[1..], s, a);
      assert (run + [a])[1..] == run[1..] + [a];
    }
  }

  /** A client that gave up waiting for the open leaves the temporary file if the open comes late. */
  lemma LateOpenLeavesTemporary(job: Job, start: Server) returns (run: seq<Action>, s: State)
    requires job.Valid() && start.Valid() && job.accepted && job.path !in start.names && job.temp !in start.names
    ensures Reaches(job, Initial(start), run, s)
    ensures s.client == Finished(false) && s.server.Content(job.temp) == Some([])
  {
    var first := Initial(start);
    var s1 := Next(job, first, ClientStep(Broken));
    var s2 := Next(job, s1, ServerStep(0, false));
    var s3 := Next(job, s2, ClientStep(Replied));
    var s4 := Next(job, s3, ClientStep(TimedOut));
    s := Next(job, s4, ServerStep(1, false));
    OneMoreStep(job, first, [], first, ClientStep(Broken));
    OneMoreStep(job, first, [] + [ClientStep(Broken)], s1, ServerStep(0, false));
    run := [] + [ClientStep(Broken)] + [ServerStep(0, false)];
    OneMoreStep(job, first, run, s2, ClientStep(Replied));
    run := run + [ClientStep(Replied)];
    OneMoreStep(job, first, run, s3, ClientStep(TimedOut));
    run := run + [ClientStep(TimedOut)];
    OneMoreStep(job, first, run, s4, ServerStep(1, false));
    run := run + [ServerStep(1, false)];
  }

  /** The client takes a step and the server carries out what that sent, if anything. */
  function Round(job: Job, s: State): State {
    var t := ClientNext(job, s, Replied);
    if |t.log.requests| > |s.log.requests| then Serve(t, |s.log.requests|, false) else t
  }

  ghost predicate Answered(s: State) {
    forall id: nat :: id in s.log.replies <==> id < |s.log.requests|
  }

  lemma RoundIsReached(job: Job, from: State, run: seq<Action>, s: State) returns (longer: seq<Action>)
    requires Reaches(job, from, run, s) && Answered(s)
    requires s.client.Writing? ==> |s.log.requests| == 2 + s.client.sent && s.client.acknowledged <= s.client.sent
    ensures Reaches(job, from, longer, Round(job, s)) && Answered(Round(job, s))
  {
    hide Execute;
    var t := ClientNext(job, s, Replied);
    longer := run + [ClientStep(Replied)];
    OneMoreStep(job, from, run, s, ClientStep(Replied));
    if |t.log.requests| > |s.log.requests| {
      OneMoreStep(job, from, longer, t, ServerStep(|s.log.requests|, false));
      longer := longer + [ServerStep(|s.log.requests|, false)];
    }
  }

  /** The client is writing, and everything it asked for has been done. */
  ghost predicate Smooth(job: Job, s: State) {
    && Answered(s) && s.client.Writing?
    && var Writing(h, sent, acknowledged) := s.client;
    && acknowledged <= sent <= job.Chunks() && |s.log.requests| == 2 + sent
    && (forall k :: 0 <= k < sent ==> s.log.Written(k))
    && h in s.server.handles && s.server.handles[h] == h && h in s.server.files
    && job.temp in s.server.names && job.path !in s.server.names
  }

  lemma SmoothRound(job: Job, s: State)
    requires Smooth(job, s)
    ensures var t := Round(job, s);
      if t.client.Writing?
      then Smooth(job, t) && t.client.sent + t.client.acknowledged > s.client.sent + s.client.acknowledged
      else && t.client == Closing(true) && t.log.requests != []
           && job.temp in t.server.names && job.path !in t.server.names
  {
    var Writing(h, sent, acknowledged) := s.client;
    var t := Round(job, s);
    if sent < job.Chunks() && sent - acknowledged < REQUEST_WINDOW {
      forall k | 0 <= k < sent + 1 ensures t.log.Written(k) {
        assert k < sent ==> s.log.Written(k);
      }
    } else if acknowledged < sent {
      assert s.log.Written(acknowledged);
      assert t.log == s.log;
    }
  }

  lemma {:induction false} WritingFinishes(job: Job, from: State, run: seq<Action>, s: State)
    returns (longer: seq<Action>, t: State)
    requires Reaches(job, from, run, s) && Smooth(job, s)
    ensures Reaches(job, from, longer, t) && Answered(t) && t.client == Closing(true)
    ensures job.temp in t.server.names && job.path !in t.server.names && t.log.requests != []
    decreases 2 * job.Chunks() - s.client.sent - s.client.acknowledged
  {
    longer := RoundIsReached(job, from, run, s);
    t := Round(job, s);
    SmoothRound(job, s);
    hide Round;
    if t.client.Writing? {
      longer, t := WritingFinishes(job, from, longer, t);
    }
  }

  lemma PublishingRounds(job: Job, from: State, run: seq<Action>, s: State) returns (longer: seq<Action>, t: State)
    requires Reaches(job, from, run, s) && Answered(s) && s.client == Closing(true)
    requires job.temp in s.server.names && job.path !in s.server.names && s.log.requests != []
    ensures Reaches(job, from, longer, t) && t.client == Finished(true)
  {
    longer := RoundIsReached(job, from, run, s);
    var renamed := Round(job, s);
    longer := RoundIsReached(job, from, longer, renamed);
    t := Round(job, renamed);
  }

  /** Nothing in the protocol itself stops an upload whose server does what it is asked. */
  lemma UploadCanSucceed(job: Job, start: Server)
    requires job.Valid() && start.Valid() && job.accepted
    requires job.temp !in start.names && job.path !in start.names
    ensures exists run, s :: Reaches(job, Initial(start), run, s) && s.client == Finished(true)
  {
    var first := Initial(start);
    var run := RoundIsReached(job, first, [], first);
    var s := Round(job, first);
    assert s.client == Checking && s.log.requests == [Lstat(job.path)] && s.server == start
           && s.log.replies[0] == NoSuchFile;
    run := RoundIsReached(job, first, run, s);
    s := Round(job, s);
    assert s.client == Opening && |s.log.requests| == 2 && s.log.replies[1] == Opened(start.next);
    run := RoundIsReached(job, first, run, s);
    s := Round(job, s);
    run, s := WritingFinishes(job, first, run, s);
    run, s := PublishingRounds(job, first, run, s);
  }
}
