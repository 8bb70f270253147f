/**
 * The chat client's `main` (chat-client/src/tcpip-client.c): command-line
 * validation, and the send loop that parcels each input line into fixed-size
 * chunks and wraps every chunk in a `[name] >> ` envelope.
 * Sockets, the terminal windows and the receive thread are not modelled: an
 * input line is a parameter and a `write` is one element of the sent sequence.
 */
module Client {
  import opened Text

  /** `char clientName[6]`: at most five characters and the NUL. */
  const MaxNameLen: nat := 5

  /** The parcel size the server expects: the width of `%40[` in its scan pattern. */
  const MaxMsg: nat := 40

  /** `char message[48]`, the buffer the envelope is built in, as the source declares it. */
  const MessageSize: nat := 48

  /**
   * The buffer size an envelope actually needs: `[`, a five-character name,
   * `] >> `, a full parcel and the NUL.
   */
  const MessageCapacity: nat := 1 + MaxNameLen + 5 + MaxMsg + 1

  // ---------------------------------------------------------------------
  // Command line
  // ---------------------------------------------------------------------

  /** How `main` ends its start-up: go on with a name and a server, or `return code`. */
  datatype Launch = Start(clientName: string, serverName: string) | Exit(code: int)

  /** The contents of the `userID` and `serverName` buffers. */
  datatype Flags = Flags(userID: string, serverName: string)

  /** One turn of the argument loop: a `-user` or `-server` argument overwrites its buffer. */
  function ApplyFlag(f: Flags, arg: string): Flags {
    if StartsWith(arg, "-user") then f.(userID := arg[5..])
    else if StartsWith(arg, "-server") then f.(serverName := arg[7..])
    else f
  }

  /** The buffers after the argument loop has run over `args`; a buffer no argument sets reads as empty. */
  function FlagsOf(args: seq<string>): Flags {
    if args == [] then Flags("", "")
    else ApplyFlag(FlagsOf(args[..|args| - 1]), args[|args| - 1])
  }

  /** With two arguments, each buffer holds the value of the later argument that names it. */
  lemma TwoArguments(a: string, b: string)
    ensures FlagsOf([a, b]).userID ==
      if StartsWith(b, "-user") then b[5..] else if StartsWith(a, "-user") then a[5..] else ""
    ensures FlagsOf([a, b]).serverName ==
      if StartsWith(b, "-user") || !StartsWith(b, "-server") then
        (if !StartsWith(a, "-user") && StartsWith(a, "-server") then a[7..] else "")
      else b[7..]
  {
    assert [a][..0] == [];
    assert FlagsOf([a]) == ApplyFlag(Flags("", ""), a);
    assert [a, b][..1] == [a];
    assert FlagsOf([a, b]) == ApplyFlag(FlagsOf([a]), b);
  }

  /**
   * The start-up checks of `main`: exactly two arguments, a non-empty
   * `-user` and `-server` value, and a user id of at most five characters.
   * `argv[0]` is the program name, as in C.
   */
  method CheckArguments(argv: seq<string>) returns (r: Launch)
    ensures r.Exit? ==> r.code == 1
    ensures |argv| != 3 ==> r == Exit(1)
    ensures r.Start? <==>
      |argv| == 3 && FlagsOf(argv[1..]).userID != "" && FlagsOf(argv[1..]).serverName != ""
      && |FlagsOf(argv[1..]).userID| <= MaxNameLen
    ensures r.Start? ==>
      r == Start(FlagsOf(argv[1..]).userID, FlagsOf(argv[1..]).serverName)
      && 0 < |r.clientName| <= MaxNameLen
  {
    if |argv| != 3 {
      return Exit(1);
    }
    var userID, serverName := "", "";
    for i := 1 to |argv|
      invariant Flags(userID, serverName) == FlagsOf(argv[1..i])
    {
      assert argv[1..i + 1][..i - 1] == argv[1..i];
      if StartsWith(argv[i], "-user") {
        userID := argv[i][5..];
      } else if StartsWith(argv[i], "-server") {
        serverName := argv[i][7..];
      }
    }
    assert argv[1..|argv|] == argv[1..];
    if |userID| == 0 || |serverName| == 0 {
      return Exit(1);
    }
    // strncpy(clientName, userID, 5): the copy is taken before the length check
    var clientName := userID[..Min(|userID|, MaxNameLen)];
    if |userID| > MaxNameLen {
      return Exit(1);
    }
    return Start(clientName, serverName);
  }

  /**
   * The usual invocation, in either order, fills the two buffers with exactly the given
   * name and server, empty or too long ones included (those then exit with 1).
   */
  lemma UsualInvocation(user: string, server: string)
    ensures FlagsOf(["-user" + user, "-server" + server]) == Flags(user, server)
    ensures FlagsOf(["-server" + server, "-user" + user]) == Flags(user, server)
  {
    TwoArguments("-user" + user, "-server" + server);
    TwoArguments("-server" + server, "-user" + user);
    assert ("-user" + user)[5..] == user;
    assert ("-server" + server)[7..] == server;
    assert !StartsWith("-server" + server, "-user") by {
      assert ("-server" + server)[1] == 's';
    }
  }

  // ---------------------------------------------------------------------
  // Envelopes and parcels
  // ---------------------------------------------------------------------

  /** The wire form of one chat message: `[name] >> body`. */
  function Envelope(name: string, body: string): (m: string)
    ensures |m| == 6 + |name| + |body|
  {
    "[" + name + "] >> " + body
  }

  /**
   * The chunks the send loop cuts `line` into: `line[i..i + size]` for
   * i = 0, size, 2·size, ..., the last one shorter when `size` does not divide `|line|`.
   */
  function Parcels(line: string, size: nat): (r: seq<string>)
    requires size > 0
    ensures forall k :: 0 <= k < |r| ==> 0 < |r[k]| <= size
    ensures forall k :: 0 <= k < |r| - 1 ==> |r[k]| == size
    decreases |line|
  {
    if |line| == 0 then []
    else if |line| <= size then [line]
    else [line[..size]] + Parcels(line[size..], size)
  }

  /** Written one after another, the parcels give back the line exactly. */
  lemma {:induction false} ParcelsConcat(line: string, size: nat)
    requires size > 0
    ensures Concat(Parcels(line, size)) == line
    decreases |line|
  {
    if |line| > size {
      var tail := Parcels(line[size..], size);
      ParcelsConcat(line[size..], size);
      assert ([line[..size]] + tail)[1..] == tail;
      assert line == line[..size] + line[size..];
    } else if |line| > 0 {
      assert [line][1..] == [];
    }
  }

  /** `k·size`, written as repeated addition so that the induction below stays linear. */
  function Offset(k: nat, size: nat): nat {
    if k == 0 then 0 else Offset(k - 1, size) + size
  }

  lemma {:induction false} OffsetIsProduct(k: nat, size: nat)
    ensures Offset(k, size) == k * size
  {
    if k > 0 {
      OffsetIsProduct(k - 1, size);
      MulSucc(k - 1, size);
    }
  }

  lemma {:induction false} ParcelSpanLinear(line: string, size: nat)
    requires size > 0
    ensures |Parcels(line, size)| > 0 ==> Offset(|Parcels(line, size)| - 1, size) < |line|
    ensures |line| <= Offset(|Parcels(line, size)|, size)
    decreases |line|
  {
    if |line| > size {
      ParcelSpanLinear(line[size..], size);
    }
  }

  /** With n parcels, n-1 parcels fall short of the line and n parcels cover it. */
  lemma ParcelSpan(line: string, size: nat)
    requires size > 0
    ensures (|Parcels(line, size)| - 1) * size < |line| <= |Parcels(line, size)| * size
  {
    var n := |Parcels(line, size)|;
    ParcelSpanLinear(line, size);
    OffsetIsProduct(n, size);
    if n > 0 {
      OffsetIsProduct(n - 1, size);
    }
  }

  /** There are ceil(|line| / size) parcels; an empty line sends nothing. */
  lemma ParcelCount(line: string, size: nat)
    requires size > 0
    ensures |Parcels(line, size)| == (|line| + size - 1) / size
    ensures |Parcels(line, size)| == 0 <==> line == []
  {
    var n := |Parcels(line, size)|;
    ParcelSpan(line, size);
    MulSucc(n - 1, size);
    DivUnique(|line| + size - 1, size, n);
  }

  lemma SliceOfSlice(s: string, a: nat, b: nat, c: nat)
    requires a <= |s| && b <= c <= |s| - a
    ensures s[a..][b..c] == s[a + b..a + c]
  {
  }

  lemma {:induction false} ParcelAtLinear(line: string, size: nat, k: nat)
    requires size > 0 && k < |Parcels(line, size)|
    ensures Offset(k, size) < |line|
    ensures Parcels(line, size)[k] == line[Offset(k, size)..Min(Offset(k, size) + size, |line|)]
    decreases |line|
  {
    if k > 0 {
      var j := Offset(k - 1, size);
      assert Parcels(line, size)[k] == Parcels(line[size..], size)[k - 1];
      ParcelAtLinear(line[size..], size, k - 1);
      var m := Min(j + size, |line| - size);
      SliceOfSlice(line, size, j, m);
      assert Offset(k, size) == size + j;
      assert Min(Offset(k, size) + size, |line|) == size + m;
    } else if |line| <= size {
      assert Parcels(line, size) == [line];
      assert line[0..|line|] == line;
    } else {
      assert Parcels(line, size)[0] == line[..size];
    }
  }

  /** Parcel `k` starts at offset `k·size`: the code breaks at fixed offsets, never at a word boundary. */
  lemma ParcelAt(line: string, size: nat, k: nat)
    requires size > 0 && k < |Parcels(line, size)|
    ensures k * size < |line|
    ensures Parcels(line, size)[k] == line[k * size..Min(k * size + size, |line|)]
  {
    ParcelAtLinear(line, size, k);
    OffsetIsProduct(k, size);
  }

  /** Every parcel wrapped in its envelope, in order. */
  function Wrap(name: string, parcels: seq<string>): (r: seq<string>)
    ensures |r| == |parcels|
  {
    if parcels == [] then [] else [Envelope(name, parcels[0])] + Wrap(name, parcels[1..])
  }

  lemma {:induction false} WrapAt(name: string, parcels: seq<string>, k: nat)
    requires k < |parcels|
    ensures Wrap(name, parcels)[k] == Envelope(name, parcels[k])
  {
    if k > 0 {
      WrapAt(name, parcels[1..], k - 1);
    }
  }

  lemma {:induction false} WrapAppend(name: string, a: seq<string>, b: seq<string>)
    ensures Wrap(name, a + b) == Wrap(name, a) + Wrap(name, b)
  {
    if a != [] {
      assert (a + b)[1..] == a[1..] + b;
      WrapAppend(name, a[1..], b);
    } else {
      assert a + b == b;
    }
  }

  /** The envelopes of a non-empty line: the first parcel's, then those of the rest of the line. */
  lemma WrapFirstParcel(name: string, line: string, size: nat)
    requires size > 0 && line != []
    ensures Wrap(name, Parcels(line, size)) ==
      [Envelope(name, line[..Min(size, |line|)])] + Wrap(name, Parcels(if |line| > size then line[size..] else [], size))
  {
    if |line| > size {
      WrapAppend(name, [line[..size]], Parcels(line[size..], size));
    } else {
      assert line[..|line|] == line;
    }
  }

  /** One turn of the send loop keeps "sent so far, then the rest of the line" equal to the whole. */
  lemma SendStep(name: string, sent: seq<string>, rest: string, size: nat, whole: seq<string>)
    requires size > 0 && rest != []
    requires sent + Wrap(name, Parcels(rest, size)) == whole
    ensures (sent + [Envelope(name, rest[..Min(size, |rest|)])])
            + Wrap(name, Parcels(if |rest| > size then rest[size..] else [], size)) == whole
  {
    WrapFirstParcel(name, rest, size);
  }

  /** What the client writes for one input line. */
  function LineMessages(name: string, line: string, size: nat): seq<string>
    requires size > 0
  {
    if line == QuitToken then [Envelope(name, QuitToken)] else Wrap(name, Parcels(line, size))
  }

  // ---------------------------------------------------------------------
  // Building a message in `char message[]`
  // ---------------------------------------------------------------------

  /** `strcat(message, src)` when `message` holds a string of length `len`; `strcpy` is the case `len == 0`. */
  method StrCat(message: array<char>, len: nat, src: string) returns (n: nat)
    requires len + |src| < message.Length
    modifies message
    ensures n == len + |src|
    ensures message[..n] == old(message[..len]) + src && message[n] == '\0'
  {
    for j := 0 to |src|
      invariant message[..len] == old(message[..len])
      invariant message[len..len + j] == src[..j]
    {
      message[len + j] := src[j];
    }
    n := len + |src|;
    message[n] := '\0';
    assert message[..n] == message[..len] + message[len..n];
  }

  /**
   * `strcpy(message, "["); strcat(message, clientName); strcat(message, "] >> ");
   * strcat(message, chunk)`. The text and its NUL must fit: the requires is
   * the bound the source never checks.
   */
  method ComposeMessage(message: array<char>, name: string, chunk: string) returns (n: nat)
    requires |Envelope(name, chunk)| < message.Length
    modifies message
    ensures n == |Envelope(name, chunk)|
    ensures message[..n] == Envelope(name, chunk) && message[n] == '\0'
  {
    n := StrCat(message, 0, "[");
    n := StrCat(message, n, name);
    n := StrCat(message, n, "] >> ");
    n := StrCat(message, n, chunk);
  }

  /** As written, `message[48]` holds the envelope only when name and chunk together have at most 41 characters. */
  lemma MessageSizeBound(name: string, chunk: string)
    ensures |Envelope(name, chunk)| < MessageSize <==> |name| + |chunk| <= 41
  {
  }

  /** The overflow: a five-character name and a full 40-character parcel need 52 bytes, not 48. */
  lemma MessageOverflow(name: string, chunk: string)
    requires |name| == MaxNameLen && |chunk| == MaxMsg
    ensures |Envelope(name, chunk)| + 1 == 52 > MessageSize
  {
  }

  /** With the corrected buffer every envelope the send loop builds fits, the quit message included. */
  lemma {:induction false} EveryMessageFits(name: string, line: string)
    requires |name| <= MaxNameLen
    ensures forall m :: m in LineMessages(name, line, MaxMsg) ==> |m| < MessageCapacity
  {
    var ms := LineMessages(name, line, MaxMsg);
    forall m | m in ms ensures |m| < MessageCapacity {
      var k :| 0 <= k < |ms| && ms[k] == m;
      if line != QuitToken {
        WrapAt(name, Parcels(line, MaxMsg), k);
        assert |Parcels(line, MaxMsg)[k]| <= MaxMsg;
      }
    }
  }

  // ---------------------------------------------------------------------
  // The send loop
  // ---------------------------------------------------------------------

  /**
   * One turn of the client's `while (done)` loop for the input `line`: the
   * quit token goes out as one envelope and ends the loop (`quit`); any other
   * line goes out as one envelope per parcel of `maxMsg` characters.
   * The message buffer is the corrected `MessageCapacity` bytes.
   */
  method SendLine(name: string, line: string, maxMsg: nat) returns (sent: seq<string>, quit: bool)
    requires maxMsg > 0
    requires 6 + |name| + Max(maxMsg, |QuitToken|) < MessageCapacity
    ensures quit <==> line == QuitToken
    ensures sent == LineMessages(name, line, maxMsg)
  {
    var message := new char[MessageCapacity];
    if line == QuitToken {
      var n := ComposeMessage(message, name, line);
      sent := [message[..n]];
      quit := true;
      return;
    }
    quit := false;
    sent := [];
    var len := |line|;
    var i := 0;
    ghost var rest := line;
    while i < len
      invariant 0 <= i
      invariant i < len ==> rest == line[i..]
      invariant i >= len ==> rest == []
      invariant sent + Wrap(name, Parcels(rest, maxMsg)) == Wrap(name, Parcels(line, maxMsg))
      decreases len - i
    {
      var chunkLen := if len - i > maxMsg then maxMsg else len - i;
      var chunk := line[i..i + chunkLen];
      var n := ComposeMessage(message, name, chunk);
      ghost var next: string := if i + maxMsg < len then line[i + maxMsg..] else [];
      assert chunk == rest[..Min(maxMsg, |rest|)];
      assert next == if |rest| > maxMsg then rest[maxMsg..] else [];
      SendStep(name, sent, rest, maxMsg, Wrap(name, Parcels(line, maxMsg)));
      sent := sent + [message[..n]];
      i := i + maxMsg;
      rest := next;
    }
  }

  /** Everything the client writes for a sequence of input lines, up to and including the quit token. */
  function Transcript(name: string, lines: seq<string>, size: nat): seq<string>
    requires size > 0
  {
    if lines == [] then []
    else LineMessages(name, lines[0], size)
         + (if lines[0] == QuitToken then [] else Transcript(name, lines[1..], size))
  }

  /** Whatever the user types after the quit token is never sent. */
  lemma {:induction false} NothingAfterQuit(name: string, before: seq<string>, after: seq<string>, size: nat)
    requires size > 0 && QuitToken !in before
    ensures Transcript(name, before + [QuitToken] + after, size)
         == Transcript(name, before, size) + [Envelope(name, QuitToken)]
  {
    if before == [] {
      assert (before + [QuitToken] + after)[0] == QuitToken;
    } else {
      assert (before + [QuitToken] + after)[1..] == before[1..] + [QuitToken] + after;
      NothingAfterQuit(name, before[1..], after, size);
    }
  }

  /**
   * The client's whole send loop over the lines the user types: it stops
   * after the quit token, or when the lines run out.
   */
  method RunClient(name: string, lines: seq<string>, maxMsg: nat) returns (sent: seq<string>, consumed: nat, quit: bool)
    requires maxMsg > 0
    requires 6 + |name| + Max(maxMsg, |QuitToken|) < MessageCapacity
    ensures consumed <= |lines|
    ensures quit ==> 0 < consumed && lines[consumed - 1] == QuitToken
    ensures !quit ==> consumed == |lines|
    ensures forall k :: 0 <= k < (if quit then consumed - 1 else consumed) ==> lines[k] != QuitToken
    ensures sent == Transcript(name, lines, maxMsg)
  {
    sent := [];
    consumed := 0;
    quit := false;
    ghost var rest := lines;
    while consumed < |lines|
      invariant consumed <= |lines| && rest == lines[consumed..]
      invariant forall k :: 0 <= k < consumed ==> lines[k] != QuitToken
      invariant sent + Transcript(name, rest, maxMsg) == Transcript(name, lines, maxMsg)
    {
      var out;
      out, quit := SendLine(name, lines[consumed], maxMsg);
      assert rest[0] == lines[consumed] && rest[1..] == lines[consumed + 1..];
      sent := sent + out;
      consumed := consumed + 1;
      rest := rest[1..];
      if quit {
        return;
      }
    }
  }
}
