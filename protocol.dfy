/**
 * What the server's scan recovers from what the client writes: the envelope
 * `[name] >> chunk` built at chat-client/src/tcpip-client.c:152-176 read back by
 * the `sscanf` pattern at chat-server/src/tcpip-server.c:128.
 */
module Protocol {
  import opened Text
  import opened Client
  import opened ServerText

  /** A client name the scan reads back: one to five characters, none of them `]`. */
  predicate ReadableName(name: string) {
    0 < |name| <= TagWidth && ']' !in name
  }

  /** A chunk the scan reads back whole: one to forty characters, no newline, not starting with white space. */
  predicate ReadableChunk(chunk: string) {
    0 < |chunk| <= BodyWidth && '\n' !in chunk && !IsSpace(chunk[0])
  }

  /** The envelope is the frame with a one-space gap before `>>` and one space after it. */
  lemma EnvelopeIsFrame(name: string, chunk: string)
    ensures Envelope(name, chunk) == FrameText(Frame(name, " ", " ", chunk, []))
  {
  }

  /** The scan inverts the envelope for a readable name and chunk. */
  lemma EnvelopeRoundTrip(name: string, chunk: string)
    requires ReadableName(name) && ReadableChunk(chunk)
    ensures ScanEnvelope(Envelope(name, chunk)) == Scan(Some(name), Some(chunk))
  {
    var f := Frame(name, " ", " ", chunk, []);
    EnvelopeIsFrame(name, chunk);
    assert WellFormed(f);
    ScanComplete(f);
  }

  /** A chunk that starts with white space loses it: the space after `>>` in the pattern skips it. */
  lemma LeadingSpaceLost()
    ensures ScanEnvelope(Envelope("ann", " hi")) == Scan(Some("ann"), Some("hi"))
  {
    var f := Frame("ann", " ", "  ", "hi", []);
    assert Envelope("ann", " hi") == FrameText(f);
    assert WellFormed(f);
    ScanComplete(f);
  }

  /** The bodies the server reads out of a run of messages; a message the scan cannot complete gives none. */
  function Bodies(messages: seq<string>): seq<string> {
    if messages == [] then []
    else
      var body := ScanEnvelope(messages[0]).body;
      (if body.Some? then [body.value] else []) + Bodies(messages[1..])
  }

  lemma {:induction false} BodiesOfWrap(name: string, chunks: seq<string>)
    requires ReadableName(name)
    requires forall k :: 0 <= k < |chunks| ==> ReadableChunk(chunks[k])
    ensures Bodies(Wrap(name, chunks)) == chunks
  {
    if chunks != [] {
      EnvelopeRoundTrip(name, chunks[0]);
      BodiesOfWrap(name, chunks[1..]);
    }
  }

  /**
   * A line typed at the client comes out at the server unchanged: the bodies it
   * reads, joined in order, are the line, as long as no parcel starts with white
   * space and the line holds no newline.
   */
  lemma LineRoundTrip(name: string, line: string)
    requires ReadableName(name) && line != QuitToken && '\n' !in line
    requires forall k :: 0 <= k < |Parcels(line, MaxMsg)| ==> !IsSpace(Parcels(line, MaxMsg)[k][0])
    ensures Concat(Bodies(LineMessages(name, line, MaxMsg))) == line
  {
    var chunks := Parcels(line, MaxMsg);
    forall k | 0 <= k < |chunks| ensures ReadableChunk(chunks[k]) {
      ParcelAt(line, MaxMsg, k);
    }
    BodiesOfWrap(name, chunks);
    ParcelsConcat(line, MaxMsg);
  }

  /** Every message the client writes starts with `[`. */
  lemma {:induction false} TranscriptStartsWithBracket(name: string, lines: seq<string>, size: nat)
    requires size > 0
    ensures forall m :: m in Transcript(name, lines, size) ==> |m| > 0 && m[0] == '['
  {
    if lines != [] {
      var first := LineMessages(name, lines[0], size);
      forall m | m in first ensures |m| > 0 && m[0] == '[' {
        if lines[0] != QuitToken {
          var k :| 0 <= k < |first| && first[k] == m;
          WrapAt(name, Parcels(lines[0], size), k);
        }
      }
      TranscriptStartsWithBracket(name, lines[1..], size);
    }
  }

  /**
   * No message the client writes is the bare quit token the server compares the
   * buffer against, not even the one it writes for `>>bye<<`.
   */
  lemma ClientNeverSendsBareQuit(name: string, lines: seq<string>, size: nat)
    requires size > 0
    ensures QuitToken !in Transcript(name, lines, size)
  {
    TranscriptStartsWithBracket(name, lines, size);
    assert QuitToken[0] == '>';
  }

  /** The client's quit message reads as a chat line whose body is the quit token. */
  lemma QuitEnvelopeScan(name: string)
    requires ReadableName(name)
    ensures Envelope(name, QuitToken) != QuitToken
    ensures ScanEnvelope(Envelope(name, QuitToken)) == Scan(Some(name), Some(QuitToken))
  {
    assert Envelope(name, QuitToken)[0] == '[' != QuitToken[0];
    EnvelopeRoundTrip(name, QuitToken);
  }
}
