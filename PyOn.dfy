/**
 * Framing of the daemon's PyON stream, as `Connection.parse` reads it from
 * the receive buffer. A frame is a header line `\nPyON <version> <type>\n`,
 * a payload, and the delimiter `\n---\n`. Scanning a buffer is pure: this
 * module computes what one call of `parse` finds, and the session decides
 * what to do with it.
 */
module PyOn {
  import opened Wrappers
  import opened Text

  /** What `parse` looks for first: a newline followed by the protocol tag. */
  const HeaderTag: string := "\nPyON "
  /** The line `---` that closes a frame, with the newlines around it. */
  const Delimiter: string := "\n---\n"

  /** What the header line says, once split into at most three tokens. */
  datatype HeaderCheck =
    | ShortHeader                                // fewer than three tokens
    | NonIntegerVersion                          // `int(tokens[1])` raises
    | Header(version: int, msgType: string)

  /** The outcome of one `parse` on a buffer. */
  datatype Scan =
    | NoFrame                                    // returns False; nothing changes
    | BadHeader(line: string, rest: string)      // buffer becomes `rest`, then raises
    | BadVersion(line: string)                   // raises; buffer unchanged
    | Frame(version: int, msgType: string, payload: string, rest: string)

  /** `line.split(None, 2)` read as tag, version and type. */
  function ReadHeader(line: string): (h: HeaderCheck)
    ensures h.ShortHeader? <==> |SplitWhitespace(line, 2)| < 3
    ensures h.Header? ==> StartsWord(h.msgType)
  {
    var tokens := SplitWhitespace(line, 2);
    SplitTokens(line, 2);
    if |tokens| < 3 then ShortHeader
    else match ParseInt(tokens[1])
      case None => NonIntegerVersion
      case Some(v) => Header(v, tokens[2])
  }

  /** A header is short exactly when its line has fewer than three words. */
  lemma ShortHeaderWords(line: string)
    ensures ReadHeader(line).ShortHeader? <==> WordsFrom(line, 0) < 3
  {
    SplitCount(line, 2);
  }

  /**
   * One call of `parse` on `buf`: find the first header tag, the newline
   * that ends its line (searching from the byte after the tag's newline),
   * check the header, then find the first delimiter at or after the header
   * start. The payload lies between the header's newline and the delimiter;
   * what remains starts with the delimiter's final newline.
   */
  function ScanFrame(buf: string): (r: Scan)
    ensures r.BadHeader? || r.Frame? ==> |r.rest| < |buf| && r.rest == buf[|buf| - |r.rest|..]
  {
    var start := Find(buf, HeaderTag, 0);
    if start == -1 then NoFrame
    else
      var eol := Find(buf, "\n", start + 1);
      if eol == -1 then NoFrame
      else ScanLine(buf, start, eol, ReadHeader(buf[start + 1..eol]), Find(buf, Delimiter, start))
  }

  /**
   * What `parse` does once the header tag at `start`, the end of its line at
   * `eol` and the first delimiter at `end` (or -1) are known.
   */
  function ScanLine(buf: string, start: nat, eol: nat, header: HeaderCheck, end: int): (r: Scan)
    requires start < eol < |buf| && -1 <= end && end + 5 <= |buf|
    ensures r.BadHeader? || r.Frame? ==> |r.rest| < |buf| && r.rest == buf[|buf| - |r.rest|..]
  {
    var line := buf[start + 1..eol];
    match header
    case ShortHeader => BadHeader(line, buf[eol..])
    case NonIntegerVersion => BadVersion(line)
    case Header(version, msgType) =>
      if end == -1 then NoFrame
      else Frame(version, msgType, Between(buf, eol + 1, end), buf[end + 4..])
  }

  /** The steps of `ScanFrame`, one lemma each, for code that takes them one at a time. */
  lemma ScanFrameNoTag(buf: string)
    requires Find(buf, HeaderTag, 0) == -1
    ensures ScanFrame(buf) == NoFrame
  {
  }

  lemma ScanFrameNoLineEnd(buf: string, start: nat)
    requires Find(buf, HeaderTag, 0) == start && Find(buf, "\n", start + 1) == -1
    ensures ScanFrame(buf) == NoFrame
  {
  }

  lemma ScanFrameLine(buf: string, start: nat, eol: int)
    requires Find(buf, HeaderTag, 0) == start && Find(buf, "\n", start + 1) == eol && eol != -1
    ensures start < eol < |buf| && Find(buf, Delimiter, start) + 5 <= |buf|
    ensures ScanFrame(buf) == ScanLine(buf, start, eol, ReadHeader(buf[start + 1..eol]), Find(buf, Delimiter, start))
  {
  }

  /** Python's slice `s[i:j]` for `0 <= i` and `j <= |s|`: empty when `j < i`. */
  function Between(s: string, i: nat, j: nat): (r: string)
    requires i <= |s| + 1 && j <= |s|
    ensures i <= j ==> r == s[i..j]
    ensures j < i ==> r == []
  {
    if i <= j then s[i..j] else []
  }

  /** The first header tag starts at `start` and its line ends at `eol`. */
  ghost predicate HeaderLineAt(buf: string, start: int, eol: int)
  {
    FirstFrom(buf, HeaderTag, 0, start) && FirstFrom(buf, "\n", start + 1, eol)
  }

  /** A complete, well-formed frame: header line, then a delimiter at or after the header start. */
  ghost predicate FrameAt(buf: string, start: int, eol: int, end: int)
  {
    && HeaderLineAt(buf, start, eol)
    && ReadHeader(buf[start + 1..eol]).Header?
    && FirstFrom(buf, Delimiter, start, end)
  }

  /**
   * The buffer holds no frame `parse` can act on yet: no header tag, or a
   * header tag whose line has not ended, or a well-formed header whose
   * delimiter has not arrived.
   */
  ghost predicate Incomplete(buf: string)
  {
    || NoneFrom(buf, HeaderTag, 0)
    || (exists start :: FirstFrom(buf, HeaderTag, 0, start) && NoneFrom(buf, "\n", start + 1))
    || (exists start, eol :: HeaderLineAt(buf, start, eol)
          && ReadHeader(buf[start + 1..eol]).Header? && NoneFrom(buf, Delimiter, start))
  }

  /** The delimiter cannot begin before the end of the header line. */
  lemma DelimiterAfterLine(buf: string, start: int, eol: int, end: int)
    requires HeaderLineAt(buf, start, eol) && FirstFrom(buf, Delimiter, start, end)
    ensures eol <= end
  {
    assert buf[start + 1] == 'P' by {
      assert buf[start..start + 6] == HeaderTag;
    }
    DelimiterBytes(buf, end);
    IsAtChar(buf, '\n', end);
  }

  /** The bytes of a delimiter found at `end`. */
  lemma DelimiterBytes(buf: string, end: int)
    requires IsAt(buf, Delimiter, end)
    ensures buf[end] == '\n' && buf[end + 1] == '-'
    ensures buf[end..end + 4] == "\n---" && buf[end + 4..][0] == '\n'
  {
    assert buf[end..end + 5] == Delimiter;
    assert buf[end..end + 4] == buf[end..end + 5][..4];
  }

  /**
   * `parse` returns False and changes nothing exactly when the buffer is
   * incomplete: a partially received frame never yields a record.
   */
  lemma ScanNoFrame(buf: string)
    ensures ScanFrame(buf) == NoFrame <==> Incomplete(buf)
  {
    if ScanFrame(buf) == NoFrame {
      NoFrameIncomplete(buf);
    }
    if Incomplete(buf) {
      IncompleteNoFrame(buf);
    }
  }

  lemma NoFrameIncomplete(buf: string)
    requires ScanFrame(buf) == NoFrame
    ensures Incomplete(buf)
  {
    var start := Find(buf, HeaderTag, 0);
    if start != -1 {
      var eol := Find(buf, "\n", start + 1);
      if eol == -1 {
        assert FirstFrom(buf, HeaderTag, 0, start) && NoneFrom(buf, "\n", start + 1);
      } else {
        assert HeaderLineAt(buf, start, eol);
      }
    }
  }

  lemma IncompleteNoFrame(buf: string)
    requires Incomplete(buf)
    ensures ScanFrame(buf) == NoFrame
  {
    var start := Find(buf, HeaderTag, 0);
    if start != -1 {
      var from := start + 1;
      var eol := Find(buf, "\n", from);
      forall s | FirstFrom(buf, HeaderTag, 0, s)
        ensures s == start
      {
        FindIs(buf, HeaderTag, 0, s);
      }
      if eol != -1 {
        forall s, e | HeaderLineAt(buf, s, e)
          ensures s == start && e == eol
        {
          FindIs(buf, HeaderTag, 0, s);
          FindIs(buf, "\n", from, e);
        }
      }
    }
  }

  /**
   * A complete frame: the payload is every byte strictly between the header's
   * newline and the delimiter; everything up to and including the delimiter's
   * `\n---` is dropped and its final newline becomes the first byte kept.
   */
  lemma ScanFrameAt(buf: string, start: int, eol: int, end: int)
    requires FrameAt(buf, start, eol, end)
    ensures eol <= end && end + 5 <= |buf|
    ensures var h := ReadHeader(buf[start + 1..eol]);
      ScanFrame(buf) == Frame(h.version, h.msgType, Between(buf, eol + 1, end), buf[end + 4..])
    ensures buf[end..end + 4] == "\n---" && buf[end + 4..][0] == '\n'
  {
    assert Find(buf, HeaderTag, 0) == start by { FindIs(buf, HeaderTag, 0, start); }
    assert Find(buf, "\n", start + 1) == eol by { FindIs(buf, "\n", start + 1, eol); }
    assert Find(buf, Delimiter, start) == end by { FindIs(buf, Delimiter, start, end); }
    ScanFrameLine(buf, start, eol);
    DelimiterAfterLine(buf, start, eol, end);
    DelimiterBytes(buf, end);
  }

  /** `parse` consumes a frame exactly when a complete, well-formed one is buffered. */
  lemma ScanFindsFrame(buf: string)
    ensures ScanFrame(buf).Frame? <==> exists start, eol, end :: FrameAt(buf, start, eol, end)
  {
    if ScanFrame(buf).Frame? {
      var start := Find(buf, HeaderTag, 0);
      var eol := Find(buf, "\n", start + 1);
      var end := Find(buf, Delimiter, start);
      assert FrameAt(buf, start, eol, end);
    } else if exists start, eol, end :: FrameAt(buf, start, eol, end) {
      var start, eol, end :| FrameAt(buf, start, eol, end);
      ScanFrameAt(buf, start, eol, end);
    }
  }

  /**
   * A header line with fewer than three tokens: the buffer is cut back to
   * the newline that ended that line, and `parse` raises.
   */
  lemma ScanShortHeader(buf: string, start: int, eol: int)
    requires HeaderLineAt(buf, start, eol)
    requires |SplitWhitespace(buf[start + 1..eol], 2)| < 3
    ensures ScanFrame(buf) == BadHeader(buf[start + 1..eol], buf[eol..])
    ensures buf[eol..][0] == '\n'
  {
    FindIs(buf, HeaderTag, 0, start);
    FindIs(buf, "\n", start + 1, eol);
    IsAtChar(buf, '\n', eol);
  }

  /**
   * A short header line at the front of the buffer: `parse` cuts the buffer
   * back to the newline that ended it, so what followed survives.
   */
  lemma ShortHeaderAtFront(buf: string, line: string, after: string)
    requires |line| >= 5 && line[..5] == "PyON " && forall i :: 0 <= i < |line| ==> line[i] != '\n'
    requires |SplitWhitespace(line, 2)| < 3
    requires buf == "\n" + line + "\n" + after
    ensures ScanFrame(buf) == BadHeader(line, "\n" + after)
  {
    var eol := |line| + 1;
    assert buf[1..eol] == line && buf[eol] == '\n' && buf[0] == '\n';
    assert buf[eol..] == "\n" + after;
    TagAtFront(buf, line, eol);
    LineHasNoBreak(buf, line, eol);
    ScanShortHeader(buf, 0, eol);
  }

  /**
   * A header line whose second token is not an integer: `parse` raises
   * before trimming, whether or not the rest of the frame has arrived.
   */
  lemma ScanNonIntegerVersion(buf: string, start: int, eol: int)
    requires HeaderLineAt(buf, start, eol)
    requires var tokens := SplitWhitespace(buf[start + 1..eol], 2);
      |tokens| >= 3 && ParseInt(tokens[1]) == None
    ensures ScanFrame(buf) == BadVersion(buf[start + 1..eol])
  {
    FindIs(buf, HeaderTag, 0, start);
    FindIs(buf, "\n", start + 1, eol);
  }

  /**
   * Whatever `parse` found in a buffer it still finds once more bytes arrive:
   * only the part it keeps grows. So a frame's record does not depend on how
   * the bytes before its delimiter were split into reads.
   */
  lemma ScanExtend(buf: string, more: string)
    ensures match ScanFrame(buf)
      case NoFrame => true
      case BadVersion(_) => ScanFrame(buf + more) == ScanFrame(buf)
      case BadHeader(line, rest) => ScanFrame(buf + more) == BadHeader(line, rest + more)
      case Frame(v, t, p, rest) => ScanFrame(buf + more) == Frame(v, t, p, rest + more)
  {
    var start := Find(buf, HeaderTag, 0);
    if start != -1 {
      var eol := Find(buf, "\n", start + 1);
      if eol != -1 {
        ScanExtendLine(buf, more, start, eol);
      }
    }
  }

  lemma ScanExtendLine(buf: string, more: string, start: nat, eol: nat)
    requires start == Find(buf, HeaderTag, 0) && eol == Find(buf, "\n", start + 1) && eol != -1
    ensures match ScanFrame(buf)
      case NoFrame => true
      case BadVersion(_) => ScanFrame(buf + more) == ScanFrame(buf)
      case BadHeader(line, rest) => ScanFrame(buf + more) == BadHeader(line, rest + more)
      case Frame(v, t, p, rest) => ScanFrame(buf + more) == Frame(v, t, p, rest + more)
  {
    var all := buf + more;
    assert Find(all, HeaderTag, 0) == start by { FindExtend(buf, more, HeaderTag, 0); }
    assert Find(all, "\n", start + 1) == eol by { FindExtend(buf, more, "\n", start + 1); }
    var end := Find(buf, Delimiter, start);
    var end2 := Find(all, Delimiter, start);
    assert end != -1 ==> end2 == end by {
      if end != -1 { FindExtend(buf, more, Delimiter, start); }
    }
    var h := ReadHeader(buf[start + 1..eol]);
    assert ReadHeader(all[start + 1..eol]) == h by {
      assert all[start + 1..eol] == buf[start + 1..eol];
    }
    ScanFrameLine(buf, start, eol);
    ScanFrameLine(all, start, eol);
    assert ScanFrame(buf) == ScanLine(buf, start, eol, h, end);
    assert ScanFrame(all) == ScanLine(all, start, eol, h, end2);
    ScanLineExtend(buf, more, start, eol, h, end, end2);
  }

  lemma ScanLineExtend(buf: string, more: string, start: nat, eol: nat, h: HeaderCheck, end: int, end2: int)
    requires start < eol < |buf| && -1 <= end && end + 5 <= |buf|
    requires -1 <= end2 && end2 + 5 <= |buf + more| && (end != -1 ==> end2 == end)
    ensures match ScanLine(buf, start, eol, h, end)
      case NoFrame => true
      case BadVersion(_) => ScanLine(buf + more, start, eol, h, end2) == ScanLine(buf, start, eol, h, end)
      case BadHeader(line, rest) => ScanLine(buf + more, start, eol, h, end2) == BadHeader(line, rest + more)
      case Frame(v, t, p, rest) => ScanLine(buf + more, start, eol, h, end2) == Frame(v, t, p, rest + more)
  {
    var all := buf + more;
    assert all[start + 1..eol] == buf[start + 1..eol];
    assert all[eol..] == buf[eol..] + more;
    if end != -1 {
      assert all[end + 4..] == buf[end + 4..] + more;
      assert Between(all, eol + 1, end) == Between(buf, eol + 1, end);
    }
  }

  /** The header line the daemon writes for a frame, without its newlines. */
  function HeaderLine(version: int, msgType: string): (line: string)
    ensures |line| >= 5 && line[..5] == "PyON "
  {
    "PyON " + ShowInt(version) + " " + msgType
  }

  /** The bytes of one frame as the daemon writes it: header line, payload, delimiter. */
  function Wire(version: int, msgType: string, payload: string): (w: string)
    ensures |w| > |payload|
  {
    HeaderLine(version, msgType) + "\n" + payload + Delimiter
  }

  /**
   * What a frame must satisfy to be read back as written: the type is one
   * line and starts with a non-blank, and no delimiter can be found before
   * the one that closes the payload.
   */
  ghost predicate Frameable(msgType: string, payload: string)
  {
    && StartsWord(msgType)
    && (forall i :: 0 <= i < |msgType| ==> msgType[i] != '\n')
    && NoneFrom("\n" + payload + "\n---", Delimiter, 0)
  }

  /** Where the pieces of `"\n" + line + "\n" + payload + Delimiter + more` lie. */
  lemma Layout(line: string, payload: string, more: string)
    ensures var buf := "\n" + line + "\n" + payload + Delimiter + more;
      var eol := |line| + 1;
      var end := eol + 1 + |payload|;
      && |buf| == end + 5 + |more|
      && buf[0] == '\n' && buf[eol] == '\n'
      && buf[1..eol] == line
      && buf[eol + 1..end] == payload
      && buf[end..end + 5] == Delimiter
      && buf[end + 4..] == "\n" + more
      && buf == buf[..eol] + buf[eol..end + 4] + buf[end + 4..]
      && buf[eol..end + 4] == "\n" + payload + "\n---"
  {
    var buf := "\n" + line + "\n" + payload + Delimiter + more;
    var eol := |line| + 1;
    var end := eol + 1 + |payload|;
    assert buf[end + 4..] == "\n" + more;
    assert buf[eol..end + 4] == "\n" + payload + "\n---";
  }

  /** The header line of a frame contains no newline. */
  lemma HeaderLineFlat(version: int, msgType: string)
    requires forall i :: 0 <= i < |msgType| ==> msgType[i] != '\n'
    ensures var line := HeaderLine(version, msgType);
      forall i :: 0 <= i < |line| ==> line[i] != '\n'
  {
    var digits := ShowInt(version);
    var line := HeaderLine(version, msgType);
    forall i | 0 <= i < |line|
      ensures line[i] != '\n'
    {
      if 5 <= i < 5 + |digits| {
        assert line[i] == digits[i - 5];
      } else if 6 + |digits| <= i {
        assert line[i] == msgType[i - 6 - |digits|];
      }
    }
  }

  /**
   * Reading back what the daemon wrote: a buffer holding a frame built by
   * `Wire`, behind a newline, yields that frame's version, type and payload,
   * and keeps the delimiter's final newline in front of whatever followed.
   */
  lemma ScanWire(version: int, msgType: string, payload: string, more: string)
    requires Frameable(msgType, payload)
    ensures ScanFrame("\n" + Wire(version, msgType, payload) + more)
      == Frame(version, msgType, payload, "\n" + more)
  {
    var line := HeaderLine(version, msgType);
    Regroup(line, payload, more);
    ScanLaidOut(version, msgType, payload, more);
  }

  /** `ScanWire` on the frame's parts laid out one after the other. */
  lemma ScanLaidOut(version: int, msgType: string, payload: string, more: string)
    requires Frameable(msgType, payload)
    ensures ScanFrame("\n" + HeaderLine(version, msgType) + "\n" + payload + Delimiter + more)
      == Frame(version, msgType, payload, "\n" + more)
  {
    var line := HeaderLine(version, msgType);
    var buf := "\n" + line + "\n" + payload + Delimiter + more;
    HeaderLineReads(version, msgType);
    HeaderLineFrames(version, msgType, payload, more);
    Layout(line, payload, more);
    ScanPieces(buf, line, payload, "\n" + more, version, msgType);
  }

  /** A complete frame whose header line, payload and rest are known pieces of the buffer. */
  lemma ScanPieces(buf: string, line: string, payload: string, rest: string, version: int, msgType: string)
    requires |buf| >= |line| + |payload| + 6
    requires FrameAt(buf, 0, |line| + 1, |line| + 2 + |payload|)
    requires ReadHeader(line) == Header(version, msgType)
    requires buf[1..|line| + 1] == line
    requires buf[|line| + 2..|line| + 2 + |payload|] == payload
    requires buf[|line| + 6 + |payload|..] == rest
    ensures ScanFrame(buf) == Frame(version, msgType, payload, rest)
  {
    ScanFrameOfParts(buf, |line| + 1, |line| + 2 + |payload|, version, msgType);
  }

  /** The header line the client writes splits back into its version and type. */
  lemma HeaderLineReads(version: int, msgType: string)
    requires StartsWord(msgType)
    ensures ReadHeader(HeaderLine(version, msgType)) == Header(version, msgType)
  {
    SplitThree(HeaderLine(version, msgType), "PyON", ShowInt(version), msgType);
    ParseShowInt(version);
  }

  /** A frame laid out from a header line and a frameable payload is a complete frame. */
  lemma HeaderLineFrames(version: int, msgType: string, payload: string, more: string)
    requires Frameable(msgType, payload)
    ensures var line := HeaderLine(version, msgType);
      FrameAt("\n" + line + "\n" + payload + Delimiter + more, 0, |line| + 1, |line| + 2 + |payload|)
  {
    var line := HeaderLine(version, msgType);
    assert ReadHeader(line).Header? by {
      HeaderLineReads(version, msgType);
    }
    assert forall i :: 0 <= i < |line| ==> line[i] != '\n' by {
      HeaderLineFlat(version, msgType);
    }
    assert NoneFrom("\n" + payload + "\n---", Delimiter, 0);
    LaidOutFrame(line, payload, more);
  }

  /** `ScanFrameAt` with the header already read. */
  lemma ScanFrameOfParts(buf: string, eol: int, end: int, version: int, msgType: string)
    requires FrameAt(buf, 0, eol, end) && ReadHeader(buf[1..eol]) == Header(version, msgType)
    ensures eol <= end && end + 5 <= |buf|
    ensures ScanFrame(buf) == Frame(version, msgType, Between(buf, eol + 1, end), buf[end + 4..])
  {
    assert buf[0 + 1..eol] == buf[1..eol];
    ScanFrameAt(buf, 0, eol, end);
  }

  lemma Regroup(line: string, payload: string, more: string)
    ensures "\n" + (line + "\n" + payload + Delimiter) + more
      == "\n" + line + "\n" + payload + Delimiter + more
  {
    var x := line + "\n" + payload + Delimiter;
    assert "\n" + x + more == "\n" + (x + more);
    assert "\n" + line + "\n" + payload + Delimiter + more == "\n" + (x + more);
  }

  /**
   * In `"\n" + line + "\n" + payload + Delimiter + more`, with a one-line
   * header starting with the protocol tag and a payload that hides no
   * delimiter, a valid header line is followed by a complete frame.
   */
  lemma LaidOutFrame(line: string, payload: string, more: string)
    requires |line| >= 5 && line[..5] == "PyON "
    requires forall i :: 0 <= i < |line| ==> line[i] != '\n'
    requires NoneFrom("\n" + payload + "\n---", Delimiter, 0)
    requires ReadHeader(line).Header?
    ensures FrameAt("\n" + line + "\n" + payload + Delimiter + more, 0, |line| + 1, |line| + 2 + |payload|)
  {
    var buf := "\n" + line + "\n" + payload + Delimiter + more;
    var eol := |line| + 1;
    Layout(line, payload, more);
    TagAtFront(buf, line, eol);
    LineHasNoBreak(buf, line, eol);
    DelimiterFirstAt(buf, line, payload, more);
  }

  lemma DelimiterFirstAt(buf: string, line: string, payload: string, more: string)
    requires |line| >= 5 && line[..5] == "PyON "
    requires forall i :: 0 <= i < |line| ==> line[i] != '\n'
    requires NoneFrom("\n" + payload + "\n---", Delimiter, 0)
    requires buf == "\n" + line + "\n" + payload + Delimiter + more
    ensures FirstFrom(buf, Delimiter, 0, |line| + 2 + |payload|)
  {
    var eol := |line| + 1;
    var end := eol + 1 + |payload|;
    Layout(line, payload, more);
    HeaderHidesNoDelimiter(buf, line, eol);
    forall i | eol <= i < end
      ensures !IsAt(buf, Delimiter, i)
    {
      AbsentInMiddle(buf[..eol], buf[eol..end + 4], buf[end + 4..], Delimiter, i);
    }
  }

  lemma TagAtFront(buf: string, line: string, eol: nat)
    requires 6 <= eol <= |buf| && buf[0] == '\n' && buf[1..eol] == line && line[..5] == "PyON "
    ensures IsAt(buf, HeaderTag, 0)
  {
    forall k | 1 <= k < 6
      ensures buf[k] == HeaderTag[k]
    {
      assert buf[k] == line[k - 1] == line[..5][k - 1];
    }
    assert buf[0..6] == HeaderTag;
  }

  lemma LineHasNoBreak(buf: string, line: string, eol: nat)
    requires 1 <= eol < |buf| && buf[1..eol] == line && buf[eol] == '\n'
    requires forall i :: 0 <= i < |line| ==> line[i] != '\n'
    ensures FirstFrom(buf, "\n", 1, eol)
  {
    forall i | 1 <= i < eol
      ensures !IsAt(buf, "\n", i)
    {
      assert buf[i] == line[i - 1];
      IsAtChar(buf, '\n', i);
    }
    IsAtChar(buf, '\n', eol);
  }

  lemma HeaderHidesNoDelimiter(buf: string, line: string, eol: nat)
    requires 1 < eol < |buf| && buf[1..eol] == line && line[0] == 'P'
    requires forall i :: 0 <= i < |line| ==> line[i] != '\n'
    ensures forall i :: 0 <= i < eol ==> !IsAt(buf, Delimiter, i)
  {
    forall i | 0 <= i < eol && i + 5 <= |buf|
      ensures !IsAt(buf, Delimiter, i)
    {
      assert buf[i..i + 5][0] == buf[i] && buf[i..i + 5][1] == buf[i + 1];
      assert i == 0 || buf[i] == line[i - 1];
      assert buf[1] == line[0];
    }
  }

  /**
   * A payload of one line is always frameable, unless it is exactly `---`
   * (which would close the frame early).
   */
  lemma OneLineFrameable(msgType: string, payload: string)
    requires StartsWord(msgType) && forall i :: 0 <= i < |msgType| ==> msgType[i] != '\n'
    requires (forall i :: 0 <= i < |payload| ==> payload[i] != '\n') && payload != "---"
    ensures Frameable(msgType, payload)
  {
    var x := "\n" + payload + "\n---";
    forall i | 0 <= i
      ensures !IsAt(x, Delimiter, i)
    {
      if i + 5 <= |x| {
        assert x[i..i + 5][0] == x[i] && x[i..i + 5][4] == x[i + 4];
        assert 1 <= i ==> x[i] == payload[i - 1];
        assert i == 0 && |payload| == 3 ==> x[1..4] == payload;
        assert |payload| >= 4 ==> x[4] == payload[3];
        assert |payload| < 3 ==> x[4] == "\n---"[4 - 1 - |payload|];
        if |payload| == 3 {
          assert x[0..5] == "\n" + payload + "\n";
        }
      }
    }
  }

  /**
   * The daemon's reply to `units`, cut down to one slot on one line: the
   * frame is read back with version 1 and type `units`, and the start of
   * the next header stays in the buffer behind the delimiter's newline.
   */
  lemma UnitsSample()
    ensures var payload := "[{'slot': '01', 'state': 'RUNNING'}]";
      ScanFrame("\n" + "PyON 1 units" + "\n" + payload + "\n---\n" + "\nPyON 1 ")
      == Frame(1, "units", payload, "\n" + "\nPyON 1 ")
  {
    var payload := "[{'slot': '01', 'state': 'RUNNING'}]";
    assert HeaderLine(1, "units") == "PyON 1 units" by {
      assert ShowInt(1) == "1";
    }
    assert StartsWord("units");
    assert forall i :: 0 <= i < |"units"| ==> "units"[i] != '\n';
    assert forall i :: 0 <= i < |payload| ==> payload[i] != '\n';
    OneLineFrameable("units", payload);
    assert Delimiter == "\n---\n";
    ScanLaidOut(1, "units", payload, "\nPyON 1 ");
  }
}
