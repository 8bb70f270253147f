/**
 * One handler thread of the server, `socketThread` (chat-server/src/tcpip-server.c:106-151):
 * read a buffer, scan it, relay the formatted line to the other clients, echo it to the
 * sender, until the buffer is the quit token; then count the client out.
 */
module Relay {
  import opened Text
  import opened ServerText
  import opened Registry
  import opened Protocol
  import Client

  /**
   * One turn of the read: the C string the zeroed buffer holds once `read` returns
   * (empty when the peer has closed), and the clock reading `strftime` formats.
   */
  datatype Arrival = Arrival(buffer: string, time: string)

  /** `userID` and `msg` as the handler holds them from one turn of its loop to the next. */
  datatype Fields = Fields(tag: string, body: string)

  /** What `sscanf` leaves in the two fields: each conversion that succeeds overwrites its field, the others keep theirs. */
  function Rescan(held: Fields, buffer: string): (r: Fields)
    ensures ScanEnvelope(buffer).tag.Some? ==> r.tag == ScanEnvelope(buffer).tag.value
    ensures ScanEnvelope(buffer).tag.None? ==> r.tag == held.tag
    ensures ScanEnvelope(buffer).body.Some? ==> r.body == ScanEnvelope(buffer).body.value
    ensures ScanEnvelope(buffer).body.None? ==> r.body == held.body
    ensures |held.tag| <= TagWidth ==> |r.tag| <= TagWidth
  {
    var s := ScanEnvelope(buffer);
    Fields(s.tag.GetOr(held.tag), s.body.GetOr(held.body))
  }

  /** Which test ends the loop: the one written, or the one the protocol needs. */
  datatype Rule = AsWritten | Corrected

  /**
   * As written the loop ends only on a buffer that is exactly `>>bye<<`. The corrected
   * test also ends it when the peer has closed (nothing read) and when the scanned
   * body is the quit token, which is what the client sends.
   */
  predicate Stops(rule: Rule, buffer: string) {
    match rule
    case AsWritten => buffer == QuitToken
    case Corrected => buffer == [] || buffer == QuitToken || ScanEnvelope(buffer).body == Some(QuitToken)
  }

  /** The writes of one turn: the `<<` line to every other client, then the `>>` echo to the sender. */
  function Relayed(table: seq<int>, sock: int, ip: string, f: Fields, time: string): seq<Write> {
    Fanout(table, sock, FormatLine(ToOthers, ip, f.tag, f.body, time))
    + [Write(sock, FormatLine(ToSender, ip, f.tag, f.body, time))]
  }

  /** Every write of a session, turn after turn, up to the buffer that stops the loop. */
  function Session(rule: Rule, table: seq<int>, sock: int, ip: string, held: Fields, arrivals: seq<Arrival>): seq<Write>
    decreases |arrivals|
  {
    if arrivals == [] || Stops(rule, arrivals[0].buffer) then []
    else
      var f := Rescan(held, arrivals[0].buffer);
      Relayed(table, sock, ip, f, arrivals[0].time) + Session(rule, table, sock, ip, f, arrivals[1..])
  }

  /**
   * `socketThread` over the buffers its reads produce. As written it then closes the
   * socket and decrements `numClients`; with the corrected test it also frees the slot.
   * The thread's exit value, which `main` only prints, is left out.
   */
  method SocketThread(server: ChatServer, rule: Rule, sock: int, ip: string, held: Fields, arrivals: seq<Arrival>)
    returns (writes: seq<Write>, closed: bool)
    requires server.Valid()
    modifies server, server.userList
    ensures server.Valid() && server.userList == old(server.userList)
    ensures writes == Session(rule, old(server.userList[..]), sock, ip, held, arrivals)
    ensures closed <==> exists k :: 0 <= k < |arrivals| && Stops(rule, arrivals[k].buffer)
    ensures !closed ==> server.userList[..] == old(server.userList[..]) && server.numClients == old(server.numClients)
    ensures closed && rule == AsWritten ==>
      server.userList[..] == old(server.userList[..]) && server.numClients == old(server.numClients) - 1
    ensures closed && rule == Corrected ==>
      var k := Find(old(server.userList[..]), sock);
      if sock != Empty && k < Capacity then
        server.userList[..] == old(server.userList[..])[k := Empty] && server.numClients == old(server.numClients) - 1
      else
        server.userList[..] == old(server.userList[..]) && server.numClients == old(server.numClients)
    ensures rule == Corrected && old(server.Consistent()) ==> server.Consistent()
  {
    ghost var table := server.userList[..];
    var fields := held;
    writes := [];
    var i := 0;
    while i < |arrivals| && !Stops(rule, arrivals[i].buffer)
      invariant i <= |arrivals| && server.Valid() && server.userList == old(server.userList)
      invariant server.userList[..] == table && server.numClients == old(server.numClients)
      invariant forall k :: 0 <= k < i ==> !Stops(rule, arrivals[k].buffer)
      invariant writes + Session(rule, table, sock, ip, fields, arrivals[i..]) == Session(rule, table, sock, ip, held, arrivals)
    {
      ghost var before := fields;
      fields := Rescan(fields, arrivals[i].buffer);
      var relayed := FormatLine(ToOthers, ip, fields.tag, fields.body, arrivals[i].time);
      var toOthers := server.WriteToClients(sock, relayed);
      var echo := FormatLine(ToSender, ip, fields.tag, fields.body, arrivals[i].time);
      SessionStep(rule, table, sock, ip, writes, before, arrivals, i, Session(rule, table, sock, ip, held, arrivals));
      writes := writes + toOthers + [Write(sock, echo)];
      i := i + 1;
    }
    closed := i < |arrivals|;
    if closed {
      if rule == AsWritten {
        server.Disconnect();
      } else {
        server.Release(sock);
      }
    }
  }

  /** One turn of the handler loop keeps "written so far, then the rest of the session" equal to the whole. */
  lemma SessionStep(rule: Rule, table: seq<int>, sock: int, ip: string, writes: seq<Write>, held: Fields,
                    arrivals: seq<Arrival>, i: nat, whole: seq<Write>)
    requires i < |arrivals| && !Stops(rule, arrivals[i].buffer)
    requires writes + Session(rule, table, sock, ip, held, arrivals[i..]) == whole
    ensures var f := Rescan(held, arrivals[i].buffer);
      writes + Fanout(table, sock, FormatLine(ToOthers, ip, f.tag, f.body, arrivals[i].time))
      + [Write(sock, FormatLine(ToSender, ip, f.tag, f.body, arrivals[i].time))]
      + Session(rule, table, sock, ip, f, arrivals[i + 1..]) == whole
  {
    assert arrivals[i..][1..] == arrivals[i + 1..];
  }

  // ---------------------------------------------------------------------
  // What a session sends
  // ---------------------------------------------------------------------

  /**
   * The sender hears only its own echoes, marked `>>`; every other write goes to an
   * occupied slot that is not the sender's and carries the `<<` line.
   */
  lemma {:induction false} WhoHearsWhat(rule: Rule, table: seq<int>, sock: int, ip: string, held: Fields, arrivals: seq<Arrival>)
    requires |ip| <= IpWidth && |held.tag| <= TagWidth
    ensures forall w :: w in Session(rule, table, sock, ip, held, arrivals) ==>
      && |w.text| >= 26
      && (w.socket == sock ==> w.text[24..26] == ">>")
      && (w.socket != sock ==> Receives(w.socket, sock) && w.socket in table && w.text[24..26] == "<<")
    decreases |arrivals|
  {
    if arrivals != [] && !Stops(rule, arrivals[0].buffer) {
      var f := Rescan(held, arrivals[0].buffer);
      var t := arrivals[0].time;
      ArrowIsTheOnlyDifference(ip, f.tag, f.body, t);
      FanoutSkipsSender(table, sock, FormatLine(ToOthers, ip, f.tag, f.body, t));
      WhoHearsWhat(rule, table, sock, ip, f, arrivals[1..]);
    }
  }

  /** A turn that reads nothing the scan can convert relays the fields from the turn before. */
  lemma EmptyBufferKeepsFields(held: Fields)
    ensures Rescan(held, []) == held
  {
  }

  /**
   * As written, a session that never reads the bare quit token relays on every turn:
   * `|Fanout| + 1` writes per buffer read, empty buffers after the peer has closed included.
   */
  lemma {:induction false} AsWrittenNeverStops(table: seq<int>, sock: int, ip: string, held: Fields, arrivals: seq<Arrival>)
    requires forall k :: 0 <= k < |arrivals| ==> arrivals[k].buffer != QuitToken
    ensures |Session(AsWritten, table, sock, ip, held, arrivals)| == |arrivals| * (|Fanout(table, sock, [])| + 1)
    decreases |arrivals|
  {
    if arrivals != [] {
      var f := Rescan(held, arrivals[0].buffer);
      SessionUnfold(AsWritten, table, sock, ip, held, arrivals);
      RelayedSize(table, sock, ip, f, arrivals[0].time);
      AsWrittenNeverStops(table, sock, ip, f, arrivals[1..]);
      CountStep(|Session(AsWritten, table, sock, ip, held, arrivals)|,
                |Relayed(table, sock, ip, f, arrivals[0].time)|,
                |Session(AsWritten, table, sock, ip, f, arrivals[1..])|,
                |arrivals[1..]|, |arrivals|, |Fanout(table, sock, [])| + 1);
    }
  }

  /** A session that does not stop at its first buffer: that turn's writes, then the rest. */
  lemma SessionUnfold(rule: Rule, table: seq<int>, sock: int, ip: string, held: Fields, arrivals: seq<Arrival>)
    requires arrivals != [] && !Stops(rule, arrivals[0].buffer)
    ensures Session(rule, table, sock, ip, held, arrivals)
         == Relayed(table, sock, ip, Rescan(held, arrivals[0].buffer), arrivals[0].time)
            + Session(rule, table, sock, ip, Rescan(held, arrivals[0].buffer), arrivals[1..])
  {
  }

  lemma CountStep(total: int, first: int, rest: int, k: int, m: int, c: int)
    requires k == m - 1 && first == c && rest == k * c && total == first + rest
    ensures total == m * c
  {
    MulSucc(k, c);
  }

  /** One turn writes to every receiving slot and to the sender. */
  lemma RelayedSize(table: seq<int>, sock: int, ip: string, f: Fields, time: string)
    ensures |Relayed(table, sock, ip, f, time)| == |Fanout(table, sock, [])| + 1
  {
    FanoutSize(table, sock, FormatLine(ToOthers, ip, f.tag, f.body, time), []);
  }


  /**
   * As written, once the peer has closed every read leaves an empty buffer and the
   * handler relays the last scanned fields again on each of them.
   */
  lemma {:induction false} ClosedPeerReplays(table: seq<int>, sock: int, ip: string, held: Fields, arrivals: seq<Arrival>)
    requires forall k :: 0 <= k < |arrivals| ==> arrivals[k].buffer == []
    requires 0 < |arrivals|
    ensures Session(AsWritten, table, sock, ip, held, arrivals)
         == Relayed(table, sock, ip, held, arrivals[0].time) + Session(AsWritten, table, sock, ip, held, arrivals[1..])
  {
    assert arrivals[0].buffer == [];
    EmptyBufferKeepsFields(held);
  }

  /**
   * A parcel made only of white space gives the scan no body, since the space after
   * `>>` in the pattern swallows it; the handler then relays the previous turn's body
   * again under the sender's tag.
   */
  lemma BlankParcelRelaysPrevious(table: seq<int>, sock: int, ip: string, held: Fields, time: string)
    ensures ScanEnvelope(Client.Envelope("ann", " ")).body == None
    ensures Rescan(held, Client.Envelope("ann", " ")) == Fields("ann", held.body)
    ensures Session(AsWritten, table, sock, ip, held, [Arrival(Client.Envelope("ann", " "), time)])
      == Relayed(table, sock, ip, Fields("ann", held.body), time)
  {
    var line := Client.Envelope("ann", " ");
    assert line == "[ann] >>  ";
    assert SpanNot(line, 1, ']', TagWidth) == 4 by {
      assert line[1] != ']' && line[2] != ']' && line[3] != ']' && line[4] == ']';
    }
    assert SpanNot(line, 5, '>', |line|) == 6 by {
      assert line[5] != '>' && line[6] == '>';
    }
    assert SkipSpace(line, 8) == 10 by {
      assert IsSpace(line[8]) && IsSpace(line[9]);
    }
    assert line != QuitToken;
    assert [Arrival(Client.Envelope("ann", " "), time)][1..] == [];
  }

  /** With the corrected test, a closed peer ends the session at once. */
  lemma ClosedPeerEndsCorrected(table: seq<int>, sock: int, ip: string, held: Fields, time: string, rest: seq<Arrival>)
    ensures Session(Corrected, table, sock, ip, held, [Arrival([], time)] + rest) == []
  {
  }

  /**
   * As written, the client's quit message is relayed to everyone as a chat line with
   * the body `>>bye<<` and the loop goes on to the next read.
   */
  lemma QuitRelayedAsWritten(table: seq<int>, sock: int, ip: string, held: Fields, name: string, time: string, rest: seq<Arrival>)
    requires ReadableName(name)
    ensures Session(AsWritten, table, sock, ip, held, [Arrival(Client.Envelope(name, QuitToken), time)] + rest)
         == Relayed(table, sock, ip, Fields(name, QuitToken), time)
            + Session(AsWritten, table, sock, ip, Fields(name, QuitToken), rest)
  {
    QuitEnvelopeScan(name);
    assert ([Arrival(Client.Envelope(name, QuitToken), time)] + rest)[1..] == rest;
  }

  /** With the corrected test, the client's quit message ends the session and nothing is relayed. */
  lemma QuitEndsCorrected(table: seq<int>, sock: int, ip: string, held: Fields, name: string, time: string, rest: seq<Arrival>)
    requires ReadableName(name)
    ensures Stops(Corrected, Client.Envelope(name, QuitToken))
    ensures Session(Corrected, table, sock, ip, held, [Arrival(Client.Envelope(name, QuitToken), time)] + rest) == []
  {
    QuitEnvelopeScan(name);
  }

  /**
   * As written, a server fed everything a client writes never sees the bare quit token,
   * so it relays on every read, the client's own quit message included.
   */
  lemma ClientCannotStopAsWritten(name: string, lines: seq<string>, table: seq<int>, sock: int, ip: string, held: Fields, arrivals: seq<Arrival>)
    requires forall k :: 0 <= k < |arrivals| ==> arrivals[k].buffer in Client.Transcript(name, lines, Client.MaxMsg)
    ensures |Session(AsWritten, table, sock, ip, held, arrivals)| == |arrivals| * (|Fanout(table, sock, [])| + 1)
  {
    ClientNeverSendsBareQuit(name, lines, Client.MaxMsg);
    AsWrittenNeverStops(table, sock, ip, held, arrivals);
  }
}
