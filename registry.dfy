/**
 * The server's client registry: the global `userList` of ten socket slots, where -1
 * marks a free slot, and the `numClients` counter beside it
 * (chat-server/src/tcpip-server.c:11-12, 160-207, and the accept loop at 57-88).
 */
module Registry {

  /** `userList[10]`. */
  const Capacity: nat := 10

  /** The socket value that marks a free slot. */
  const Empty: int := -1

  // ---------------------------------------------------------------------
  // The table as a value
  // ---------------------------------------------------------------------

  /** The first slot holding `x`, or `|s|` when no slot does. */
  function Find(s: seq<int>, x: int): (k: nat)
    ensures k <= |s|
    ensures k < |s| ==> s[k] == x
    ensures forall i :: 0 <= i < k ==> s[i] != x
  {
    if s == [] then 0
    else if s[0] == x then 0
    else 1 + Find(s[1..], x)
  }

  /** The number of slots holding a socket. */
  function Occupied(s: seq<int>): nat {
    if s == [] then 0
    else (if s[0] != Empty then 1 else 0) + Occupied(s[1..])
  }

  /** What `updateArray` does to the slots: the socket goes into the lowest free slot, if there is one. */
  function Insert(s: seq<int>, sock: int): seq<int> {
    var k := Find(s, Empty);
    if k < |s| then s[k := sock] else s
  }

  /** The slots after the accept loop has stored each socket in turn. */
  function Fill(s: seq<int>, socks: seq<int>): seq<int>
    decreases |socks|
  {
    if socks == [] then s else Insert(Fill(s, socks[..|socks| - 1]), socks[|socks| - 1])
  }

  /** Writing one slot changes the count by what the slot held and what it now holds. */
  lemma {:induction false} OccupiedUpdate(s: seq<int>, k: nat, v: int)
    requires k < |s|
    ensures Occupied(s[k := v]) + (if s[k] != Empty then 1 else 0)
         == Occupied(s) + (if v != Empty then 1 else 0)
  {
    if k == 0 {
      assert s[k := v][1..] == s[1..];
    } else {
      assert s[k := v][1..] == s[1..][k - 1 := v];
      OccupiedUpdate(s[1..], k - 1, v);
    }
  }

  /** The count never exceeds the slots, and it is below them exactly when a slot is free. */
  lemma {:induction false} OccupiedBound(s: seq<int>)
    ensures Occupied(s) <= |s|
    ensures Occupied(s) < |s| <==> Find(s, Empty) < |s|
  {
    if s != [] {
      OccupiedBound(s[1..]);
    }
  }

  /** A table of free slots counts nothing. */
  lemma {:induction false} OccupiedNone(s: seq<int>)
    requires forall i :: 0 <= i < |s| ==> s[i] == Empty
    ensures Occupied(s) == 0
  {
    if s != [] {
      OccupiedNone(s[1..]);
    }
  }

  /** `Insert` takes the lowest free slot, leaves every other slot alone, and changes nothing on a full table. */
  lemma InsertSlots(s: seq<int>, sock: int)
    ensures |Insert(s, sock)| == |s|
    ensures Find(s, Empty) == |s| ==> Insert(s, sock) == s
    ensures Find(s, Empty) < |s| ==> s[Find(s, Empty)] == Empty && Insert(s, sock)[Find(s, Empty)] == sock
    ensures forall i :: 0 <= i < |s| && i != Find(s, Empty) ==> Insert(s, sock)[i] == s[i]
    ensures forall i :: 0 <= i < Find(s, Empty) ==> s[i] != Empty
  {
  }

  /** Storing a socket in a table with room counts one more client. */
  lemma InsertCounts(s: seq<int>, sock: int)
    requires sock != Empty && Occupied(s) < |s|
    ensures Occupied(Insert(s, sock)) == Occupied(s) + 1
  {
    OccupiedBound(s);
    OccupiedUpdate(s, Find(s, Empty), sock);
  }

  /** A freed slot is found again by the next insertion unless a lower one is free too. */
  lemma FreedSlotReused(s: seq<int>, k: nat, sock: int)
    requires k < |s| && s[k] != Empty
    ensures Find(s[k := Empty], Empty) <= k
    ensures (forall i :: 0 <= i < k ==> s[i] != Empty) ==> Insert(s[k := Empty], sock) == s[k := sock]
  {
    assert s[k := Empty][k] == Empty;
    if forall i :: 0 <= i < k ==> s[i] != Empty {
      assert s[k := Empty][k := sock] == s[k := sock];
    }
  }

  // ---------------------------------------------------------------------
  // writeToClients as a value
  // ---------------------------------------------------------------------

  /** One `write(socket, text, strlen(text))`. */
  datatype Write = Write(socket: int, text: string)

  /** Whether `writeToClients` writes to a slot: it is occupied and is not the sender's. */
  predicate Receives(slot: int, sender: int) {
    slot != Empty && slot != sender
  }

  /** The writes `writeToClients` issues, slot by slot. */
  function Fanout(s: seq<int>, sender: int, text: string): seq<Write>
    decreases |s|
  {
    if s == [] then []
    else
      var last := s[|s| - 1];
      Fanout(s[..|s| - 1], sender, text) + (if Receives(last, sender) then [Write(last, text)] else [])
  }

  /** The slots that receive, in index order. */
  function Recipients(s: seq<int>, sender: int): (r: seq<nat>)
    decreases |s|
  {
    if s == [] then []
    else Recipients(s[..|s| - 1], sender) + (if Receives(s[|s| - 1], sender) then [|s| - 1] else [])
  }

  /** The receiving slots, each once, in increasing order: exactly the occupied slots that are not the sender's. */
  lemma {:induction false} RecipientsExactly(s: seq<int>, sender: int)
    ensures var r := Recipients(s, sender);
      && (forall j :: 0 <= j < |r| ==> r[j] < |s|)
      && (forall j, j' :: 0 <= j < j' < |r| ==> r[j] < r[j'])
      && (forall i :: 0 <= i < |s| ==> (i in r <==> Receives(s[i], sender)))
  {
    if s != [] {
      var s' := s[..|s| - 1];
      RecipientsExactly(s', sender);
      assert forall i :: 0 <= i < |s'| ==> s'[i] == s[i];
    }
  }

  /**
   * The fan-out writes the text to the receiving slots and to no one else, one write
   * per receiving slot, in slot order.
   */
  lemma {:induction false} FanoutExactly(s: seq<int>, sender: int, text: string)
    ensures var r := Recipients(s, sender);
      && |Fanout(s, sender, text)| == |r|
      && (forall j :: 0 <= j < |r| ==> r[j] < |s| && Fanout(s, sender, text)[j] == Write(s[r[j]], text))
  {
    RecipientsExactly(s, sender);
    if s != [] {
      var s' := s[..|s| - 1];
      FanoutExactly(s', sender, text);
      RecipientsExactly(s', sender);
      var r' := Recipients(s', sender);
      assert forall j :: 0 <= j < |r'| ==> s'[r'[j]] == s[r'[j]];
    }
  }

  /** No write of the fan-out goes to the sender or to a free slot. */
  lemma {:induction false} FanoutSkipsSender(s: seq<int>, sender: int, text: string)
    ensures forall w :: w in Fanout(s, sender, text) ==> w.socket != sender && w.socket != Empty && w.socket in s && w.text == text
  {
    if s != [] {
      FanoutSkipsSender(s[..|s| - 1], sender, text);
      assert forall x :: x in s[..|s| - 1] ==> x in s;
    }
  }

  /** How many writes the fan-out issues does not depend on the text. */
  lemma {:induction false} FanoutSize(s: seq<int>, sender: int, a: string, b: string)
    ensures |Fanout(s, sender, a)| == |Fanout(s, sender, b)|
  {
    if s != [] {
      FanoutSize(s[..|s| - 1], sender, a, b);
    }
  }

  /** Free slots at the end of the table add no writes. */
  lemma {:induction false} FanoutFreeTail(s: seq<int>, n: nat, sender: int, text: string)
    requires n <= |s|
    requires forall i :: n <= i < |s| ==> s[i] == Empty
    ensures Fanout(s, sender, text) == Fanout(s[..n], sender, text)
    decreases |s|
  {
    if |s| > n {
      assert s[..|s| - 1][..n] == s[..n];
      FanoutFreeTail(s[..|s| - 1], n, sender, text);
    } else {
      assert s[..n] == s;
    }
  }

  // ---------------------------------------------------------------------
  // The registry in place
  // ---------------------------------------------------------------------

  /** How the accept loop ended. */
  datatype AcceptEnd =
    | ChatFull          // `numClients` reached 10: the loop at line 57 stops
    | AcceptFailed      // `accept` returned a negative value: `main` returns 4
    | NoMoreConnections // the modelled run has no further connection to accept

  /** The globals `userList` (only the socket field is ever written) and `numClients`. */
  class ChatServer {
    var userList: array<int>
    var numClients: int

    ghost predicate Valid()
      reads this
    {
      userList.Length == Capacity
    }

    /** The counter agrees with the table. */
    ghost predicate Consistent()
      reads this, userList
    {
      Valid() && numClients == Occupied(userList[..])
    }

    /** The zero-initialised globals, before `initializeArray` runs. */
    constructor ()
      ensures Valid() && fresh(userList)
      ensures userList[..] == seq(Capacity, i => 0) && numClients == 0
    {
      userList := new int[Capacity](i => 0);
      numClients := 0;
    }

    /** `initializeArray`: every slot becomes free. */
    method InitializeArray()
      requires Valid()
      modifies userList
      ensures userList[..] == seq(Capacity, i => Empty)
      ensures Occupied(userList[..]) == 0
      ensures numClients == 0 ==> Consistent()
    {
      for i := 0 to Capacity
        invariant forall j :: 0 <= j < i ==> userList[j] == Empty
      {
        userList[i] := Empty;
      }
      OccupiedNone(userList[..]);
    }

    /** `updateArray`: store the socket in the lowest free slot and count it; on a full table do nothing. */
    method UpdateArray(sock: int)
      requires Valid()
      modifies this, userList
      ensures Valid() && userList == old(userList)
      ensures userList[..] == Insert(old(userList[..]), sock)
      ensures numClients == old(numClients) + (if Find(old(userList[..]), Empty) < Capacity then 1 else 0)
      ensures old(Consistent()) && sock != Empty ==> Consistent()
    {
      ghost var before := userList[..];
      for i := 0 to Capacity
        invariant userList[..] == before && numClients == old(numClients)
        invariant forall j :: 0 <= j < i ==> before[j] != Empty
      {
        if userList[i] == Empty {
          userList[i] := sock;
          numClients := numClients + 1;
          if old(Consistent()) && sock != Empty {
            OccupiedBound(before);
            InsertCounts(before, sock);
          }
          return;
        }
      }
    }

    /** `writeToClients`: the writes to every occupied slot but the sender's, in slot order. */
    method WriteToClients(sender: int, message: string) returns (writes: seq<Write>)
      requires Valid()
      ensures writes == Fanout(userList[..], sender, message)
    {
      writes := [];
      for i := 0 to Capacity
        invariant writes == Fanout(userList[..i], sender, message)
      {
        assert userList[..i + 1][..i] == userList[..i];
        if userList[i] != Empty && userList[i] != sender {
          writes := writes + [Write(userList[i], message)];
        }
      }
      assert userList[..Capacity] == userList[..];
    }

    /**
     * The accept loop of `main`: while fewer than ten clients are counted, accept the
     * next connection and register it. `incoming` lists what successive `accept` calls
     * return; the handler threads that would run beside the loop are not modelled here.
     */
    method AcceptLoop(incoming: seq<int>) returns (accepted: nat, end: AcceptEnd)
      requires Valid()
      modifies this, userList
      ensures Valid() && userList == old(userList)
      ensures accepted <= |incoming|
      ensures forall k :: 0 <= k < accepted ==> incoming[k] >= 0
      ensures userList[..] == Fill(old(userList[..]), incoming[..accepted])
      ensures end == ChatFull ==> numClients >= Capacity
      ensures end == AcceptFailed ==> accepted < |incoming| && incoming[accepted] < 0
      ensures end == NoMoreConnections ==> accepted == |incoming|
      ensures old(Consistent()) ==> Consistent() && numClients == old(numClients) + accepted
    {
      accepted := 0;
      while numClients < Capacity
        invariant Valid() && userList == old(userList)
        invariant accepted <= |incoming|
        invariant forall k :: 0 <= k < accepted ==> incoming[k] >= 0
        invariant userList[..] == Fill(old(userList[..]), incoming[..accepted])
        invariant old(Consistent()) ==> Consistent() && numClients == old(numClients) + accepted
        decreases |incoming| - accepted
      {
        if accepted == |incoming| {
          return accepted, NoMoreConnections;
        }
        var sock := incoming[accepted];
        if sock < 0 {
          return accepted, AcceptFailed;
        }
        if old(Consistent()) {
          OccupiedBound(userList[..]);
        }
        UpdateArray(sock);
        assert incoming[..accepted + 1][..accepted] == incoming[..accepted];
        accepted := accepted + 1;
      }
      end := ChatFull;
    }

    /** The shutdown of a handler thread as written: the counter drops, the slot keeps the closed socket. */
    method Disconnect()
      requires Valid()
      modifies this
      ensures Valid() && userList == old(userList)
      ensures numClients == old(numClients) - 1
    {
      numClients := numClients - 1;
    }

    /** The shutdown the registry needs: free the socket's slot and count one client fewer. */
    method Release(sock: int)
      requires Valid()
      modifies this, userList
      ensures Valid() && userList == old(userList)
      ensures var k := Find(old(userList[..]), sock);
        if sock != Empty && k < Capacity then
          userList[..] == old(userList[..])[k := Empty] && numClients == old(numClients) - 1
        else
          userList[..] == old(userList[..]) && numClients == old(numClients)
      ensures old(Consistent()) ==> Consistent()
    {
      if sock == Empty {
        return;
      }
      for i := 0 to Capacity
        invariant userList[..] == old(userList[..]) && numClients == old(numClients)
        invariant forall j :: 0 <= j < i ==> userList[j] != sock
      {
        if userList[i] == sock {
          userList[i] := Empty;
          numClients := numClients - 1;
          OccupiedUpdate(old(userList[..]), i, Empty);
          return;
        }
      }
    }
  }

  /**
   * A client on socket 4 leaves and the next client is handed the same descriptor:
   * with the slot never freed, a third client's message reaches socket 4 twice.
   */
  method StaleSlotDuplicates(message: string) returns (writes: seq<Write>)
    ensures writes == [Write(4, message), Write(4, message)]
  {
    var server := new ChatServer();
    server.InitializeArray();
    ghost var free := seq(Capacity, i => Empty);
    assert Find(free, Empty) == 0;
    server.UpdateArray(4);
    assert server.userList[..] == free[0 := 4];
    server.Disconnect();
    assert Find(free[0 := 4], Empty) == 1;
    server.UpdateArray(4);
    ghost var table := free[0 := 4][1 := 4];
    assert server.userList[..] == table;
    writes := server.WriteToClients(7, message);
    FanoutFreeTail(table, 2, 7, message);
    assert table[..2] == [4, 4] && [4, 4][..1] == [4];
  }

  /** The same sequence with the slot released: the message reaches socket 4 once. */
  method ReleasedSlotDeliversOnce(message: string) returns (writes: seq<Write>)
    ensures writes == [Write(4, message)]
  {
    var server := new ChatServer();
    server.InitializeArray();
    ghost var free := seq(Capacity, i => Empty);
    assert Find(free, Empty) == 0;
    server.UpdateArray(4);
    assert server.userList[..] == free[0 := 4];
    assert Find(free[0 := 4], 4) == 0;
    server.Release(4);
    assert server.userList[..] == free;
    server.UpdateArray(4);
    ghost var table := free[0 := 4];
    assert server.userList[..] == table;
    writes := server.WriteToClients(7, message);
    FanoutFreeTail(table, 1, 7, message);
    assert table[..1] == [4];
  }
}
