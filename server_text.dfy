/**
 * The string handling in the server's connection handler
 * (chat-server/src/tcpip-server.c, `socketThread`): the `sscanf` that takes
 * an incoming envelope apart, and the two `snprintf` layouts of the line the
 * server sends back out. Time and address conversion are not modelled: the
 * timestamp and the text `inet_ntop` leaves in `IP` are parameters.
 */
module ServerText {
  import opened Text

  /** `%5[^]]` and `char userID[6]`. */
  const TagWidth: nat := 5
  /** `%40[^\n]` and `char msg[41]`. */
  const BodyWidth: nat := 40
  /** `%-15s`; `INET_ADDRSTRLEN` leaves room for at most 15 characters of a dotted quad. */
  const IpWidth: nat := 15
  /** `char message[79]`: `snprintf` writes at most 78 characters and the NUL. */
  const LineSize: nat := 79

  // ---------------------------------------------------------------------
  // sscanf(buffer, "[%5[^]]]%*[^>]>> %40[^\n]", userID, msg)
  // ---------------------------------------------------------------------

  /**
   * What `sscanf` stored: each field is `None` when the scan stopped before
   * reaching its conversion, in which case the C variable keeps whatever it held.
   */
  datatype Scan = Scan(tag: Option<string>, body: Option<string>)

  /** One `%N[^c]` directive from position `i`: the end of the longest run of at most `width` characters other than `stop`. */
  function SpanNot(s: string, i: nat, stop: char, width: nat): (j: nat)
    requires i <= |s|
    ensures i <= j <= |s| && j - i <= width
    decreases width
  {
    if i == |s| || width == 0 || s[i] == stop then i else SpanNot(s, i + 1, stop, width - 1)
  }

  /** The run `SpanNot` takes holds no `stop`, and it ends early only at a `stop`. */
  lemma {:induction false} SpanNotStops(s: string, i: nat, stop: char, width: nat)
    requires i <= |s|
    ensures forall p :: i <= p < SpanNot(s, i, stop, width) ==> s[p] != stop
    ensures SpanNot(s, i, stop, width) < |s| && SpanNot(s, i, stop, width) - i < width ==> s[SpanNot(s, i, stop, width)] == stop
    decreases width
  {
    if !(i == |s| || width == 0 || s[i] == stop) {
      SpanNotStops(s, i + 1, stop, width - 1);
    }
  }

  /** A white-space directive (the blank after `>>`): skips every `isspace` character from `i`. */
  function SkipSpace(s: string, i: nat): (j: nat)
    requires i <= |s|
    ensures i <= j <= |s|
    decreases |s| - i
  {
    if i == |s| || !IsSpace(s[i]) then i else SkipSpace(s, i + 1)
  }

  /** `SkipSpace` skips only white space and stops at the first other character. */
  lemma {:induction false} SkipSpaceStops(s: string, i: nat)
    requires i <= |s|
    ensures forall p :: i <= p < SkipSpace(s, i) ==> IsSpace(s[p])
    ensures SkipSpace(s, i) < |s| ==> !IsSpace(s[SkipSpace(s, i)])
    decreases |s| - i
  {
    if !(i == |s| || !IsSpace(s[i])) {
      SkipSpaceStops(s, i + 1);
    }
  }

  /**
   * The scan pattern after the tag's closing `]` at `t`: at least one
   * character other than `>` (skipped), a literal `>>`, any white space, and
   * a body of one to forty characters up to a newline.
   */
  function ScanBody(line: string, t: nat): (r: Option<string>)
    requires t < |line|
    ensures r.Some? ==> 0 < |r.value| <= BodyWidth
  {
    var g := SpanNot(line, t + 1, '>', |line|);
    if g == t + 1 || g + 2 > |line| || line[g + 1] != '>' then None
    else
      var b := SkipSpace(line, g + 2);
      var e := SpanNot(line, b, '\n', BodyWidth);
      if e == b then None else Some(line[b..e])
  }

  /**
   * The scan pattern, directive by directive: a literal `[`, a tag of one to
   * five characters up to `]`, a literal `]`, then the body as `ScanBody`
   * reads it. The scan stops at the first directive that fails; the tag is
   * stored as soon as its conversion succeeds.
   */
  function ScanEnvelope(line: string): (r: Scan)
    ensures r.body.Some? ==> r.tag.Some?
    ensures r.tag.Some? <==> 2 <= |line| && line[0] == '[' && line[1] != ']'
    ensures r.tag.Some? ==> 0 < |r.tag.value| <= TagWidth
    ensures r.body.Some? ==> 0 < |r.body.value| <= BodyWidth
  {
    if |line| == 0 || line[0] != '[' then Scan(None, None)
    else
      var t := SpanNot(line, 1, ']', TagWidth);
      if t == 1 then Scan(None, None)
      else if t == |line| || line[t] != ']' then Scan(Some(line[1..t]), None)
      else Scan(Some(line[1..t]), ScanBody(line, t))
  }

  /** An input read by the scan pattern from start to finish, cut at the pattern's directives. */
  datatype Frame = Frame(tag: string, gap: string, spaces: string, body: string, rest: string)

  function FrameText(f: Frame): string {
    "[" + f.tag + "]" + f.gap + ">>" + f.spaces + f.body + f.rest
  }

  /**
   * The frames whose text the scan accepts with exactly this tag and body:
   * each piece matches its directive and each conversion ends where the text says it must.
   */
  predicate WellFormed(f: Frame) {
    && 0 < |f.tag| <= TagWidth && ']' !in f.tag
    && 0 < |f.gap| && '>' !in f.gap
    && (forall c :: c in f.spaces ==> IsSpace(c))
    && 0 < |f.body| <= BodyWidth && '\n' !in f.body && !IsSpace(f.body[0])
    && (f.rest == [] || f.rest[0] == '\n' || |f.body| == BodyWidth)
  }

  lemma {:induction false} SpanNotIs(s: string, i: nat, stop: char, width: nat, j: nat)
    requires i <= j <= |s| && j - i <= width
    requires forall p :: i <= p < j ==> s[p] != stop
    requires j == |s| || j - i == width || s[j] == stop
    ensures SpanNot(s, i, stop, width) == j
    decreases width
  {
    if j > i {
      SpanNotIs(s, i + 1, stop, width - 1, j);
    }
  }

  lemma {:induction false} SkipSpaceIs(s: string, i: nat, j: nat)
    requires i <= j <= |s|
    requires forall p :: i <= p < j ==> IsSpace(s[p])
    requires j == |s| || !IsSpace(s[j])
    ensures SkipSpace(s, i) == j
    decreases j - i
  {
    if j > i {
      SkipSpaceIs(s, i + 1, j);
    }
  }

  /** Where each piece of a frame sits in its text. */
  lemma FrameChars(f: Frame)
    ensures var line := FrameText(f);
      var t := 1 + |f.tag|;
      var g := t + 1 + |f.gap|;
      var b := g + 2 + |f.spaces|;
      var e := b + |f.body|;
      && |line| == e + |f.rest|
      && line[0] == '[' && line[t] == ']' && line[g] == '>' && line[g + 1] == '>'
      && line[1..t] == f.tag && line[t + 1..g] == f.gap && line[g + 2..b] == f.spaces
      && line[b..e] == f.body && line[e..] == f.rest
  {
    var p1 := "[" + f.tag;
    var p2 := p1 + "]";
    var p3 := p2 + f.gap;
    var p4 := p3 + ">>";
    var p5 := p4 + f.spaces;
    var p6 := p5 + f.body;
    var line := p6 + f.rest;
    assert line == FrameText(f);
    assert line[..|p6|] == p6 && line[|p6|..] == f.rest;
    assert p6[..|p5|] == p5 && p6[|p5|..] == f.body;
    assert p5[..|p4|] == p4 && p5[|p4|..] == f.spaces;
    assert p4[..|p3|] == p3;
    assert p3[..|p2|] == p2 && p3[|p2|..] == f.gap;
    assert p2[..|p1|] == p1;
    assert p1[1..] == f.tag;
  }

  /** `ScanBody` succeeds with the text between the positions its directives stop at. */
  lemma ScanBodyAt(line: string, t: nat, g: nat, b: nat, e: nat)
    requires t < |line|
    requires SpanNot(line, t + 1, '>', |line|) == g
    requires g != t + 1 && g + 2 <= |line| && line[g + 1] == '>'
    requires SkipSpace(line, g + 2) == b
    requires SpanNot(line, b, '\n', BodyWidth) == e && e != b
    ensures ScanBody(line, t) == Some(line[b..e])
  {
  }

  /** `SpanNot` stops at `j` when the run up to `j` holds no `stop` and `j` ends it. */
  lemma SpanNotOfSlice(s: string, i: nat, j: nat, stop: char, width: nat)
    requires i <= j <= |s| && j - i <= width && stop !in s[i..j]
    requires j == |s| || j - i == width || s[j] == stop
    ensures SpanNot(s, i, stop, width) == j
  {
    forall p | i <= p < j ensures s[p] != stop {
      assert s[p] == s[i..j][p - i];
    }
    SpanNotIs(s, i, stop, width, j);
  }

  /** `SkipSpace` stops at `j` when the run up to `j` is white space and `j` is not. */
  lemma SkipSpaceOfSlice(s: string, i: nat, j: nat)
    requires i <= j <= |s| && forall c :: c in s[i..j] ==> IsSpace(c)
    requires j == |s| || !IsSpace(s[j])
    ensures SkipSpace(s, i) == j
  {
    forall p | i <= p < j ensures IsSpace(s[p]) {
      assert s[p] == s[i..j][p - i];
    }
    SkipSpaceIs(s, i, j);
  }

  /** `ScanBody` succeeds on a text cut into the pieces its directives match. */
  lemma ScanBodyOfCuts(line: string, t: nat, g: nat, b: nat, e: nat)
    requires t + 1 < g && g + 2 <= b < e <= |line| && e - b <= BodyWidth
    requires line[g] == '>' && line[g + 1] == '>'
    requires '>' !in line[t + 1..g]
    requires forall c :: c in line[g + 2..b] ==> IsSpace(c)
    requires '\n' !in line[b..e] && !IsSpace(line[b])
    requires e == |line| || e - b == BodyWidth || line[e] == '\n'
    ensures ScanBody(line, t) == Some(line[b..e])
  {
    SpanNotOfSlice(line, t + 1, g, '>', |line|);
    SkipSpaceOfSlice(line, g + 2, b);
    SpanNotOfSlice(line, b, e, '\n', BodyWidth);
    ScanBodyAt(line, t, g, b, e);
  }

  lemma ScanBodyComplete(f: Frame)
    requires WellFormed(f)
    ensures ScanBody(FrameText(f), 1 + |f.tag|) == Some(f.body)
  {
    var t := 1 + |f.tag|;
    var g := t + 1 + |f.gap|;
    var b := g + 2 + |f.spaces|;
    var e := b + |f.body|;
    FrameChars(f);
    assert e < |FrameText(f)| ==> FrameText(f)[e] == f.rest[0] by {
      if e < |FrameText(f)| {
        assert FrameText(f)[e] == FrameText(f)[e..][0];
      }
    }
    ScanBodyOfCuts(FrameText(f), t, g, b, e);
  }

  /** Every well-formed frame scans to its own tag and body. */
  lemma ScanComplete(f: Frame)
    requires WellFormed(f)
    ensures ScanEnvelope(FrameText(f)) == Scan(Some(f.tag), Some(f.body))
  {
    var line := FrameText(f);
    var t := 1 + |f.tag|;
    FrameChars(f);
    forall p | 1 <= p < t ensures line[p] != ']' {
      assert line[p] == line[1..t][p - 1];
    }
    SpanNotIs(line, 1, ']', TagWidth, t);
    ScanBodyComplete(f);
  }

  lemma PrefixSplit(s: string, k: nat, m: nat)
    requires k <= m <= |s|
    ensures s[..m] == s[..k] + s[k..m]
  {
  }

  /** A text cut at five positions is the frame of its pieces. */
  lemma FrameOfCuts(line: string, t: nat, g: nat, b: nat, e: nat)
    requires 1 <= t < g && g + 2 <= b <= e <= |line|
    requires line[0] == '[' && line[t] == ']' && line[g] == '>' && line[g + 1] == '>'
    ensures FrameText(Frame(line[1..t], line[t + 1..g], line[g + 2..b], line[b..e], line[e..])) == line
  {
    var p1 := "[" + line[1..t];
    assert p1 == line[..t] by { assert line[..1] == "["; PrefixSplit(line, 1, t); }
    var p2 := p1 + "]";
    assert p2 == line[..t + 1] by { assert line[t..t + 1] == "]"; PrefixSplit(line, t, t + 1); }
    var p3 := p2 + line[t + 1..g];
    assert p3 == line[..g] by { PrefixSplit(line, t + 1, g); }
    var p4 := p3 + ">>";
    assert p4 == line[..g + 2] by { assert line[g..g + 2] == ">>"; PrefixSplit(line, g, g + 2); }
    var p5 := p4 + line[g + 2..b];
    assert p5 == line[..b] by { PrefixSplit(line, g + 2, b); }
    var p6 := p5 + line[b..e];
    assert p6 == line[..e] by { PrefixSplit(line, b, e); }
    assert p6 + line[e..] == line;
  }

  /** The positions the directives stop at when `ScanBody` succeeds. */
  lemma ScanBodyCuts(line: string, t: nat) returns (g: nat, b: nat, e: nat)
    requires t < |line| && ScanBody(line, t).Some?
    ensures t + 1 < g && g + 2 <= b < e <= |line| && e - b <= BodyWidth
    ensures line[g] == '>' && line[g + 1] == '>' && !IsSpace(line[b])
    ensures forall p :: t + 1 <= p < g ==> line[p] != '>'
    ensures forall p :: g + 2 <= p < b ==> IsSpace(line[p])
    ensures forall p :: b <= p < e ==> line[p] != '\n'
    ensures e < |line| && e - b < BodyWidth ==> line[e] == '\n'
    ensures ScanBody(line, t) == Some(line[b..e])
  {
    g := SpanNot(line, t + 1, '>', |line|);
    b := SkipSpace(line, g + 2);
    e := SpanNot(line, b, '\n', BodyWidth);
    SpanNotStops(line, t + 1, '>', |line|);
    SkipSpaceStops(line, g + 2);
    SpanNotStops(line, b, '\n', BodyWidth);
  }

  /** Where the tag conversion stops when the scan fills in both fields. */
  lemma TagCut(line: string) returns (t: nat)
    requires ScanEnvelope(line).body.Some?
    ensures 1 < t < |line| && t - 1 <= TagWidth && line[0] == '[' && line[t] == ']'
    ensures forall p :: 1 <= p < t ==> line[p] != ']'
    ensures ScanBody(line, t).Some?
    ensures ScanEnvelope(line) == Scan(Some(line[1..t]), ScanBody(line, t))
  {
    t := SpanNot(line, 1, ']', TagWidth);
    SpanNotStops(line, 1, ']', TagWidth);
  }

  /**
   * What the scan stores is what its conversions allow: a tag without `]`, a body
   * without a newline that does not start with white space.
   */
  lemma ScanShape(line: string)
    ensures ScanEnvelope(line).tag.Some? ==> ']' !in ScanEnvelope(line).tag.value
    ensures ScanEnvelope(line).body.Some? ==>
      '\n' !in ScanEnvelope(line).body.value && !IsSpace(ScanEnvelope(line).body.value[0])
  {
    if ScanEnvelope(line).tag.Some? {
      SpanNotStops(line, 1, ']', TagWidth);
      var t := SpanNot(line, 1, ']', TagWidth);
      assert ScanEnvelope(line).tag.value == line[1..t];
      forall c | c in line[1..t] ensures c != ']' {
        var p :| 0 <= p < t - 1 && line[1..t][p] == c;
        assert c == line[1 + p];
      }
    }
    if ScanEnvelope(line).body.Some? {
      var t := TagCut(line);
      var g, b, e := ScanBodyCuts(line, t);
      forall c | c in line[b..e] ensures c != '\n' {
        var p :| 0 <= p < e - b && line[b..e][p] == c;
        assert c == line[b + p];
      }
      assert line[b..e][0] == line[b];
    }
  }

  /** Whatever the scan fills in completely comes from a well-formed frame: the two lemmas make it an if and only if. */
  lemma ScanSound(line: string) returns (f: Frame)
    requires ScanEnvelope(line).body.Some?
    ensures WellFormed(f) && FrameText(f) == line
    ensures ScanEnvelope(line) == Scan(Some(f.tag), Some(f.body))
  {
    var t := TagCut(line);
    var g, b, e := ScanBodyCuts(line, t);
    f := Frame(line[1..t], line[t + 1..g], line[g + 2..b], line[b..e], line[e..]);
    assert WellFormed(f) by {
      forall c | c in f.tag ensures c != ']' {
        var p :| 0 <= p < |f.tag| && f.tag[p] == c;
        assert c == line[1 + p];
      }
      forall c | c in f.gap ensures c != '>' {
        var p :| 0 <= p < |f.gap| && f.gap[p] == c;
        assert c == line[t + 1 + p];
      }
      forall c | c in f.spaces ensures IsSpace(c) {
        var p :| 0 <= p < |f.spaces| && f.spaces[p] == c;
        assert c == line[g + 2 + p];
      }
      forall c | c in f.body ensures c != '\n' {
        var p :| 0 <= p < |f.body| && f.body[p] == c;
        assert c == line[b + p];
      }
      assert e < |line| ==> f.rest[0] == line[e];
    }
    assert FrameText(f) == line by {
      FrameOfCuts(line, t, g, b, e);
    }
  }

  // ---------------------------------------------------------------------
  // snprintf(message, 79, "%-15s [%5s] << %-40s (%s)", ...) and its ">>" twin
  // ---------------------------------------------------------------------

  /** Which of the two layouts: the line relayed to the other clients, or the echo to the sender. */
  datatype Direction = ToOthers | ToSender

  /** The relayed line points `<<`, the echo `>>`. */
  function Arrow(d: Direction): string {
    match d
    case ToOthers => "<<"
    case ToSender => ">>"
  }

  /** The columns before the arrow: `%-15s [%5s] `. */
  function Lead(ip: string, tag: string): string {
    PadRight(ip, IpWidth) + " [" + PadLeft(tag, TagWidth) + "] "
  }

  /** The columns after the arrow: ` %-40s (%s)`. */
  function Trail(body: string, time: string): string {
    " " + PadRight(body, BodyWidth) + " (" + time + ")"
  }

  /** The full text `printf` would produce, before `snprintf` cuts it to the buffer. */
  function Layout(d: Direction, ip: string, tag: string, body: string, time: string): string {
    Lead(ip, tag) + Arrow(d) + Trail(body, time)
  }

  /** The line the server writes: the layout cut to the 78 characters `message[79]` holds. */
  function FormatLine(d: Direction, ip: string, tag: string, body: string, time: string): (r: string)
    ensures |r| == Min(|Layout(d, ip, tag, body, time)|, LineSize - 1)
    ensures r == Layout(d, ip, tag, body, time)[..|r|]
  {
    Truncate(Layout(d, ip, tag, body, time), LineSize - 1)
  }

  /** Where the fields sit in the columns before the arrow. */
  lemma LeadColumns(ip: string, tag: string)
    requires |ip| <= IpWidth && |tag| <= TagWidth
    ensures var lead := Lead(ip, tag);
      && |lead| == 24
      && lead[..15] == PadRight(ip, IpWidth) && lead[15..17] == " ["
      && lead[17..22] == PadLeft(tag, TagWidth) && lead[22..] == "] "
  {
  }

  /** Where the fields sit in the columns after the arrow. */
  lemma TrailColumns(body: string, time: string)
    requires |body| <= BodyWidth && |time| == 8
    ensures var trail := Trail(body, time);
      && |trail| == 52 && trail[0] == ' '
      && trail[1..41] == PadRight(body, BodyWidth) && trail[41..43] == " ("
      && trail[43..51] == time && trail[51] == ')'
  {
    var t1 := " " + PadRight(body, BodyWidth);
    var t2 := t1 + " (";
    var t3 := t2 + time;
    assert Trail(body, time) == t3 + ")";
    assert t3[..43] == t2 && t3[43..] == time;
    assert t2[..41] == t1 && t2[41..] == " (" && t1[1..] == PadRight(body, BodyWidth);
  }

  /** The fixed columns of a line: with an `IP` text, tag and body no wider than their fields and an 8-character time, every line is exactly 78 characters and nothing is cut. */
  lemma FixedColumns(d: Direction, ip: string, tag: string, body: string, time: string)
    requires |ip| <= IpWidth && |tag| <= TagWidth && |body| <= BodyWidth && |time| == 8
    ensures var r := FormatLine(d, ip, tag, body, time);
      && |r| == LineSize - 1
      && r[..15] == PadRight(ip, IpWidth) && r[15..17] == " ["
      && r[17..22] == PadLeft(tag, TagWidth) && r[22..24] == "] "
      && r[24..26] == Arrow(d) && r[26] == ' '
      && r[27..67] == PadRight(body, BodyWidth) && r[67..69] == " ("
      && r[69..77] == time && r[77] == ')'
  {
    var lead := Lead(ip, tag);
    var trail := Trail(body, time);
    LeadColumns(ip, tag);
    TrailColumns(body, time);
    var line := lead + Arrow(d) + trail;
    assert line == FormatLine(d, ip, tag, body, time);
    assert line[..24] == lead && line[26..] == trail;
    assert line[24..26] == Arrow(d);
    assert line[..15] == lead[..15] && line[15..17] == lead[15..17];
    assert line[17..22] == lead[17..22] && line[22..24] == lead[22..];
    assert line[26] == trail[0] && line[27..67] == trail[1..41];
    assert line[67..69] == trail[41..43] && line[69..77] == trail[43..51] && line[77] == trail[51];
  }

  /** Two texts that differ only in a middle piece of equal length, each cut to the same length. */
  lemma SpliceCut(head: string, x: string, y: string, tail: string, n: nat)
    requires |x| == |y|
    ensures |Truncate(head + x + tail, n)| == |Truncate(head + y + tail, n)|
    ensures forall k :: 0 <= k < |Truncate(head + x + tail, n)| && !(|head| <= k < |head| + |x|) ==>
      Truncate(head + x + tail, n)[k] == Truncate(head + y + tail, n)[k]
  {
    var a := head + x + tail;
    var b := head + y + tail;
    forall k | 0 <= k < |Truncate(a, n)| && !(|head| <= k < |head| + |x|)
      ensures Truncate(a, n)[k] == Truncate(b, n)[k]
    {
      assert Truncate(a, n)[k] == a[k] && Truncate(b, n)[k] == b[k];
      if k < |head| {
        assert a[k] == head[k] == b[k];
      } else {
        assert a[k] == tail[k - |head| - |x|] == b[k];
      }
    }
  }

  /** The relayed line and the echo differ only in the arrow. */
  lemma ArrowIsTheOnlyDifference(ip: string, tag: string, body: string, time: string)
    requires |ip| <= IpWidth && |tag| <= TagWidth
    ensures var relayed := FormatLine(ToOthers, ip, tag, body, time);
      var echoed := FormatLine(ToSender, ip, tag, body, time);
      && |relayed| == |echoed|
      && relayed[24..26] == "<<" && echoed[24..26] == ">>"
      && (forall k :: 0 <= k < |relayed| && !(24 <= k < 26) ==> relayed[k] == echoed[k])
  {
    var head := Lead(ip, tag);
    var tail := Trail(body, time);
    assert |head| == 24;
    SpliceCut(head, "<<", ">>", tail, LineSize - 1);
    var relayed := Truncate(head + "<<" + tail, LineSize - 1);
    var echoed := Truncate(head + ">>" + tail, LineSize - 1);
    assert relayed[24..26] == (head + "<<" + tail)[24..26] == "<<";
    assert echoed[24..26] == (head + ">>" + tail)[24..26] == ">>";
  }
}
