/**
 * The STOMP text frame codec: a command line, `key:value` header lines, a
 * blank line, an optional body and a NUL terminator (STOMP Protocol
 * Specification 1.2, sections "STOMP Frames" and "Augmented BNF"), without
 * header escaping and without `content-length`.
 *
 * The encoder and decoder are methods that build and consume the list of
 * lines as the source does; each is proved equal to a specification function
 * (EncodeFrame, Decode), and the round trip is proved about those functions.
 */
module Serializer {
  import opened Wrappers
  import opened Messages

  const LF: char := '\n'
  const CR: char := '\r'
  const NUL: char := '\0'

  /** The command map as written: RECEIPT and ERROR are missing. */
  const WrittenCommands: set<string> := {"STOMP", "CONNECT", "CONNECTED", "SEND"}

  /** Every inbound command the message model can parse. */
  const FullCommands: set<string> := WrittenCommands + {"RECEIPT", "ERROR"}

  // ------------------------------------------------------------- errors

  /** The reason for a binary payload: the source formats the flag it got
      (always True here) and the one it expected. */
  const BinaryRejected: string := "invalid serialization of STOMP message (binary True, but expected False)"

  function UnknownCommand(command: string): string
  {
    "invalid STOMP message type " + command
  }

  function BadHeaderLine(line: string): string
  {
    "invalid header line in STOMP message (" + line + ")"
  }

  // ------------------------------------------------------------- lines

  predicate NoLineBreak(s: string)
  {
    LF !in s && CR !in s
  }

  predicate NoCRLF(s: string)
  {
    forall i :: 0 <= i < |s| - 1 ==> !(s[i] == CR && s[i + 1] == LF)
  }

  /** Splits on LF or CR LF, like `re.split('\n|\r\n', s)`: the pieces
      between separators, so there is always at least one. */
  function Split(s: string): (lines: seq<string>)
    ensures |lines| >= 1
    ensures forall i :: 0 <= i < |lines| ==> LF !in lines[i]
    decreases |s|
  {
    if s == [] then [""]
    else if s[0] == LF then [""] + Split(s[1..])
    else if |s| >= 2 && s[0] == CR && s[1] == LF then [""] + Split(s[2..])
    else
      var rest := Split(s[1..]);
      [[s[0]] + rest[0]] + rest[1..]
  }

  /** `"\n".join(lines)`. */
  function Join(lines: seq<string>): string
  {
    if lines == [] then ""
    else if |lines| == 1 then lines[0]
    else lines[0] + [LF] + Join(lines[1..])
  }

  /** Joining the pieces of a split with LF gives back the text when it holds
      no CR LF pair (which the split would turn into a bare LF). */
  lemma {:induction false} JoinSplit(s: string)
    requires NoCRLF(s)
    ensures Join(Split(s)) == s
    decreases |s|
  {
    if s == [] {
    } else if s[0] == LF {
      JoinSplit(s[1..]);
    } else {
      assert !(|s| >= 2 && s[0] == CR && s[1] == LF);
      var rest := Split(s[1..]);
      JoinSplit(s[1..]);
      if |rest| == 1 {
        assert Split(s) == [[s[0]] + rest[0]];
      } else {
        assert Join(rest) == rest[0] + [LF] + Join(rest[1..]);
        assert Split(s)[1..] == rest[1..];
      }
    }
  }

  /** A line without CR or LF followed by LF is split off as one piece. */
  lemma {:induction false} SplitLine(line: string, rest: string)
    requires NoLineBreak(line)
    ensures Split(line + [LF] + rest) == [line] + Split(rest)
    decreases |line|
  {
    var s := line + [LF] + rest;
    if line == [] {
      assert s[1..] == rest;
    } else {
      assert s[1..] == line[1..] + [LF] + rest;
      assert line[0] != LF && line[0] != CR;
      SplitLine(line[1..], rest);
      assert [line[0]] + line[1..] == line;
    }
  }

  /** A line without CR or LF followed by CR LF is split off as one piece. */
  lemma {:induction false} SplitLineCRLF(line: string, rest: string)
    requires NoLineBreak(line)
    ensures Split(line + [CR, LF] + rest) == [line] + Split(rest)
    decreases |line|
  {
    var s := line + [CR, LF] + rest;
    if line == [] {
      assert s[2..] == rest;
    } else {
      assert s[1..] == line[1..] + [CR, LF] + rest;
      assert line[0] != LF && line[0] != CR;
      SplitLineCRLF(line[1..], rest);
      assert [line[0]] + line[1..] == line;
    }
  }

  // ------------------------------------------------------------ encoding

  function HeaderLine(kv: (string, string)): string
  {
    kv.0 + ":" + kv.1
  }

  function HeaderLines(h: Headers): (lines: seq<string>)
    ensures |lines| == |h|
  {
    if h == [] then [] else [HeaderLine(h[0])] + HeaderLines(h[1..])
  }

  /** Every header line, each terminated by LF. */
  function HeaderBlock(h: Headers): string
  {
    if h == [] then "" else HeaderLine(h[0]) + [LF] + HeaderBlock(h[1..])
  }

  /** The frame layout: the command line, one `key:value` line per header in
      list order, then, when there is a body (even an empty one), a blank line
      and the body; exactly one NUL at the end. */
  function EncodeFrame(f: Frame): string
  {
    f.command + [LF] + HeaderBlock(f.headers) + BodyPart(f.body) + [NUL]
  }

  /** The blank line and the body, or nothing when there is no body. */
  function BodyPart(body: Option<string>): string
  {
    match body
    case None => ""
    case Some(b) => [LF] + b
  }

  lemma {:induction false} HeaderLinesAppend(h: Headers, kv: (string, string))
    ensures HeaderLines(h + [kv]) == HeaderLines(h) + [HeaderLine(kv)]
  {
    if h == [] {
      assert h + [kv] == [kv];
    } else {
      assert (h + [kv])[1..] == h[1..] + [kv];
      HeaderLinesAppend(h[1..], kv);
    }
  }

  lemma {:induction false} JoinHeaderLines(h: Headers, tail: seq<string>)
    requires |tail| >= 1
    ensures Join(HeaderLines(h) + tail) == HeaderBlock(h) + Join(tail)
  {
    if h == [] {
      assert HeaderLines(h) + tail == tail;
    } else {
      var all := HeaderLines(h) + tail;
      assert all[0] == HeaderLine(h[0]);
      assert all[1..] == HeaderLines(h[1..]) + tail;
      JoinHeaderLines(h[1..], tail);
    }
  }

  /** The source's encoder: collect the lines in a list (command, one line
      per header, a blank line, the body if any), join them with LF and append
      NUL. The result is exactly the frame layout. */
  method EncodeLines(f: Frame) returns (frame: string)
    ensures frame == EncodeFrame(f)
  {
    var values := [f.command];
    var i := 0;
    while i < |f.headers|
      invariant 0 <= i <= |f.headers|
      invariant values == [f.command] + HeaderLines(f.headers[..i])
    {
      var (key, value) := f.headers[i];
      HeaderLinesAppend(f.headers[..i], f.headers[i]);
      assert f.headers[..i + 1] == f.headers[..i] + [f.headers[i]];
      values := values + [key + ":" + value];
      i := i + 1;
    }
    assert f.headers[..i] == f.headers;
    var tail := [""];
    if f.body.Some? {
      tail := tail + [f.body.value];
    }
    values := values + tail;
    frame := Join(values) + [NUL];
    JoinHeaderLines(f.headers, tail);
    assert values[1..] == HeaderLines(f.headers) + tail;
  }

  /** `Serializer.serialize`: marshal through the message's cache, then lay
      out the frame. */
  method Serialize(msg: Message) returns (frame: string)
    requires msg.Valid()
    modifies msg
    ensures msg.Valid() && msg.serialized == Some(Marshal(msg.fields))
    ensures frame == EncodeFrame(Marshal(msg.fields))
  {
    var triple := msg.Serialize();
    frame := EncodeLines(triple);
  }

  /** Exactly one NUL, at the end, when no field contains NUL. */
  lemma EncodeEndsWithSingleNul(f: Frame)
    requires NUL !in f.command && NUL !in HeaderBlock(f.headers)
    requires f.body.Some? ==> NUL !in f.body.value
    ensures var s := EncodeFrame(f);
            (|s| > 0 && s[|s| - 1] == NUL && forall i :: 0 <= i < |s| - 1 ==> s[i] != NUL)
  {
    var s := EncodeFrame(f);
    var prefix := f.command + [LF] + HeaderBlock(f.headers) + BodyPart(f.body);
    assert s == prefix + [NUL];
    assert NUL !in prefix;
    forall i | 0 <= i < |s| - 1 ensures s[i] != NUL {
      assert s[i] == prefix[i];
      assert prefix[i] in prefix;
    }
  }

  // ------------------------------------------------------------ decoding

  /** The position of the first ':' in `s`, or |s| when there is none. */
  function FirstColon(s: string): (i: nat)
    ensures i <= |s|
    ensures forall j :: 0 <= j < i ==> s[j] != ':'
    ensures i < |s| ==> s[i] == ':'
  {
    if s == [] || s[0] == ':' then 0 else 1 + FirstColon(s[1..])
  }

  /** `HEADER_REGEX.match(line)` for `(?P<key>[^:]+)[:](?P<value>.*)`: the key
      is the non-empty text before the first colon, the value is the rest of
      the line (possibly empty, possibly holding colons). */
  function MatchHeader(line: string): (r: Option<(string, string)>)
    ensures r.None? <==> (':' !in line || line[0] == ':')
    ensures r.Some? ==> |r.value.0| > 0 && ':' !in r.value.0 && line == r.value.0 + ":" + r.value.1
  {
    var i := FirstColon(line);
    if i == 0 || i == |line| then
      assert i == |line| ==> ':' !in line;
      None
    else
      assert line == line[..i] + ":" + line[i + 1..];
      assert ':' !in line[..i] by {
        forall j | 0 <= j < i ensures line[..i][j] != ':' { }
      }
      Some((line[..i], line[i + 1..]))
  }

  /** A header line written by the encoder matches with its own key and value. */
  lemma MatchHeaderLine(key: string, value: string)
    requires |key| > 0 && ':' !in key
    ensures MatchHeader(HeaderLine((key, value))) == Some((key, value))
  {
    var line := HeaderLine((key, value));
    var r := MatchHeader(line);
    assert line[|key|] == ':';
    assert r.Some?;
    var (k, v) := r.value;
    assert k == line[..|key|] == key;
    assert v == line[|key| + 1..] == value;
  }

  /** Stores a header unless its key was already seen: the first value wins. */
  function AddFirst(h: Headers, kv: (string, string)): (r: Headers)
    ensures DistinctKeys(h) ==> DistinctKeys(r)
    ensures KeysOf(r) == KeysOf(h) + {kv.0}
    ensures forall k :: Lookup(r, k) == if k in KeysOf(h) then Lookup(h, k)
                                        else if k == kv.0 then Some(kv.1) else None
  {
    if kv.0 in KeysOf(h) then h
    else
      KeysOfAppend(h, [kv]);
      assert KeysOf([kv]) == {kv.0};
      forall k ensures Lookup(h + [kv], k) == if k in KeysOf(h) then Lookup(h, k)
                                              else if k == kv.0 then Some(kv.1) else None {
        LookupAppend(h, [kv], k);
      }
      assert DistinctKeys(h) ==> DistinctKeys(h + [kv]) by {
        if DistinctKeys(h) {
          forall i, j | 0 <= i < j < |h + [kv]| ensures (h + [kv])[i].0 != (h + [kv])[j].0 {
            if j == |h| {
              KeysOfContains(h, i);
            }
          }
        }
      }
      h + [kv]
  }

  lemma {:induction false} KeysOfContains(h: Headers, i: nat)
    requires i < |h|
    ensures h[i].0 in KeysOf(h)
  {
    if i > 0 {
      KeysOfContains(h[1..], i - 1);
    }
  }

  /** The header loop: consume `key:value` lines until the blank line. Running
      out of lines, or a line that is not a header, is a ProtocolError. On
      success, returns the headers and the remaining lines, blank line first. */
  function ParseHeaders(lines: seq<string>, acc: Headers): (r: Result<(Headers, seq<string>)>)
    ensures r.Ok? ==> |r.value.1| >= 1 && r.value.1[0] == ""
    ensures r.Ok? && DistinctKeys(acc) ==> DistinctKeys(r.value.0)
    ensures r.Ok? ==> forall k :: k in KeysOf(acc) ==> Lookup(r.value.0, k) == Lookup(acc, k)
    decreases |lines|
  {
    if lines == [] then Err(ProtocolError("missing blank line after STOMP headers"))
    else if lines[0] == "" then Ok((acc, lines))
    else
      match MatchHeader(lines[0])
      case None => Err(ProtocolError(BadHeaderLine(lines[0])))
      case Some(kv) => ParseHeaders(lines[1..], AddFirst(acc, kv))
  }

  /** A header line: not the blank line, and `key:value`. */
  predicate IsHeaderLine(line: string)
  {
    line != "" && MatchHeader(line).Some?
  }

  /** The lines before `j` are header lines and line `j` is the blank one. */
  predicate HeaderRun(lines: seq<string>, j: nat)
  {
    j < |lines| && lines[j] == "" && forall i :: 0 <= i < j ==> IsHeaderLine(lines[i])
  }

  /** The value of the first header line for `k` before the blank line: the
      entry a dictionary that keeps the first occurrence ends up holding. */
  function FirstMatch(lines: seq<string>, k: string): Option<string>
    decreases |lines|
  {
    if lines == [] || lines[0] == "" then None
    else match MatchHeader(lines[0])
      case None => None
      case Some(kv) => if kv.0 == k then Some(kv.1) else FirstMatch(lines[1..], k)
  }

  /** Header lines up to a blank line are accepted: the loop stops at that
      blank line, and every key not seen before holds the value of its first
      line, whatever repeats follow. */
  lemma {:induction false} AcceptsHeaderRun(lines: seq<string>, acc: Headers, j: nat)
    requires HeaderRun(lines, j)
    ensures var r := ParseHeaders(lines, acc);
            && r.Ok? && r.value.1 == lines[j..]
            && forall k :: Lookup(r.value.0, k) == if k in KeysOf(acc) then Lookup(acc, k) else FirstMatch(lines, k)
    decreases j
  {
    if j == 0 {
      forall k ensures Lookup(acc, k) == if k in KeysOf(acc) then Lookup(acc, k) else FirstMatch(lines, k) {
      }
    } else {
      assert IsHeaderLine(lines[0]);
      var kv := MatchHeader(lines[0]).value;
      var acc' := AddFirst(acc, kv);
      assert HeaderRun(lines[1..], j - 1) by {
        forall i | 0 <= i < j - 1 ensures IsHeaderLine(lines[1..][i]) {
          assert lines[1..][i] == lines[i + 1];
        }
      }
      AcceptsHeaderRun(lines[1..], acc', j - 1);
      assert lines[1..][j - 1..] == lines[j..];
      assert ParseHeaders(lines, acc) == ParseHeaders(lines[1..], acc');
    }
  }

  /** The header loop succeeds exactly when the lines reach a blank line
      through header lines only. */
  lemma {:induction false} HeaderLoopSucceeds(lines: seq<string>, acc: Headers)
    ensures ParseHeaders(lines, acc).Ok? <==> exists j: nat :: HeaderRun(lines, j)
    decreases |lines|
  {
    if ParseHeaders(lines, acc).Ok? {
      if lines[0] == "" {
        assert HeaderRun(lines, 0);
      } else {
        var kv := MatchHeader(lines[0]).value;
        HeaderLoopSucceeds(lines[1..], AddFirst(acc, kv));
        var j: nat :| HeaderRun(lines[1..], j);
        assert HeaderRun(lines, j + 1) by {
          forall i | 0 <= i < j + 1 ensures IsHeaderLine(lines[i]) {
            if i > 0 {
              assert lines[i] == lines[1..][i - 1];
            }
          }
        }
      }
    }
    if exists j: nat :: HeaderRun(lines, j) {
      var j: nat :| HeaderRun(lines, j);
      AcceptsHeaderRun(lines, acc, j);
    }
  }

  /** A line that is not `key:value`, reached through header lines only, is
      refused, whatever follows it. */
  lemma {:induction false} RejectsBadHeaderLine(lines: seq<string>, acc: Headers, j: nat)
    requires j < |lines| && lines[j] != "" && MatchHeader(lines[j]).None?
    requires forall i :: 0 <= i < j ==> IsHeaderLine(lines[i])
    ensures ParseHeaders(lines, acc) == Err(ProtocolError(BadHeaderLine(lines[j])))
    decreases j
  {
    if j > 0 {
      assert IsHeaderLine(lines[0]);
      var kv := MatchHeader(lines[0]).value;
      forall i | 0 <= i < j - 1 ensures IsHeaderLine(lines[1..][i]) {
        assert lines[1..][i] == lines[i + 1];
      }
      RejectsBadHeaderLine(lines[1..], AddFirst(acc, kv), j - 1);
    }
  }

  /** Header lines that never reach a blank line are refused. */
  lemma {:induction false} RejectsMissingBlankLine(lines: seq<string>, acc: Headers)
    requires forall i :: 0 <= i < |lines| ==> IsHeaderLine(lines[i])
    ensures ParseHeaders(lines, acc) == Err(ProtocolError("missing blank line after STOMP headers"))
    decreases |lines|
  {
    if lines != [] {
      assert IsHeaderLine(lines[0]);
      var kv := MatchHeader(lines[0]).value;
      forall i | 0 <= i < |lines| - 1 ensures IsHeaderLine(lines[1..][i]) {
        assert lines[1..][i] == lines[i + 1];
      }
      RejectsMissingBlankLine(lines[1..], AddFirst(acc, kv));
    }
  }

  /** When a key repeats anywhere before the blank line, the value of its
      first line is the one kept. */
  lemma {:induction false} FirstHeaderWins(lines: seq<string>, j: nat, key: string, value: string)
    requires j < |lines| && lines[j] != "" && MatchHeader(lines[j]) == Some((key, value))
    requires forall i :: 0 <= i < j ==> IsHeaderLine(lines[i]) && MatchHeader(lines[i]).value.0 != key
    ensures FirstMatch(lines, key) == Some(value)
    decreases j
  {
    if j > 0 {
      assert IsHeaderLine(lines[0]);
      forall i | 0 <= i < j - 1
        ensures IsHeaderLine(lines[1..][i]) && MatchHeader(lines[1..][i]).value.0 != key
      {
        assert lines[1..][i] == lines[i + 1];
      }
      FirstHeaderWins(lines[1..], j - 1, key, value);
    }
  }

  /** Splits a frame into command, headers and body. A binary payload, a
      missing NUL terminator, an unknown command or a bad header block is a
      ProtocolError. After the blank line, the remaining lines are the body;
      a frame that ends right after the blank line has none. */
  function DecodeFrame(payload: string, isBinary: bool, known: set<string>): (r: Result<Frame>)
    ensures isBinary ==> r == Err(ProtocolError(BinaryRejected))
    ensures !isBinary && (payload == [] || payload[|payload| - 1] != NUL) ==>
              r == Err(ProtocolError("STOMP frame not terminated by NUL"))
    ensures r.Ok? ==> r.value.command in known && DistinctKeys(r.value.headers)
  {
    if isBinary then Err(ProtocolError(BinaryRejected))
    else if payload == [] || payload[|payload| - 1] != NUL then Err(ProtocolError("STOMP frame not terminated by NUL"))
    else
      var lines := Split(payload[..|payload| - 1]);
      var command := lines[0];
      if command !in known then Err(ProtocolError(UnknownCommand(command)))
      else
        var parsed :- ParseHeaders(lines[1..], []);
        var rest := parsed.1;
        Ok(Frame(command, parsed.0, if |rest| > 1 then Some(Join(rest[1..])) else None))
  }

  /** A frame whose lines end in CR LF decodes like one whose lines end in LF. */
  lemma DecodesCRLFFrame()
    ensures Decode("CONNECTED\r\nversion:1.2\r\n\0", false, FullCommands) == Ok(Connected("1.2"))
  {
    var payload := "CONNECTED\r\nversion:1.2\r\n\0";
    var h := [("version", "1.2")];
    CRLFExampleLines();
    CRLFExampleHeaders();
    DecodeFrameOk(payload, FullCommands, h, [""]);
    assert Lookup(h, "version") == Some("1.2");
  }

  lemma CRLFExampleLines()
    ensures var payload := "CONNECTED\r\nversion:1.2\r\n\0";
            (payload[..|payload| - 1] == "CONNECTED" + [CR, LF] + ("version:1.2" + [CR, LF] + "")
             && Split(payload[..|payload| - 1]) == ["CONNECTED", "version:1.2", ""])
  {
    CRLFExamplePayload();
    CRLFExampleSecondLine();
    SplitLineCRLF("CONNECTED", "version:1.2" + [CR, LF] + "");
  }

  lemma CRLFExamplePayload()
    ensures var payload := "CONNECTED\r\nversion:1.2\r\n\0";
            payload[..|payload| - 1] == "CONNECTED" + [CR, LF] + ("version:1.2" + [CR, LF] + "")
  {
  }

  lemma CRLFExampleSecondLine()
    ensures Split("version:1.2" + [CR, LF] + "") == ["version:1.2", ""]
  {
    SplitLineCRLF("version:1.2", "");
    assert Split("") == [""];
  }

  lemma CRLFExampleHeaders()
    ensures ParseHeaders(["version:1.2", ""], []) == Ok(([("version", "1.2")], [""]))
  {
    MatchHeaderLine("version", "1.2");
    assert HeaderLine(("version", "1.2")) == "version:1.2";
    assert AddFirst([], ("version", "1.2")) == [("version", "1.2")];
    assert ["version:1.2", ""][1..] == [""];
  }

  /** A NUL-terminated text frame whose first line is not a recognised command
      is refused before any header is read. */
  lemma RejectsUnknownCommand(payload: string, known: set<string>)
    requires payload != [] && payload[|payload| - 1] == NUL
    requires Split(payload[..|payload| - 1])[0] !in known
    ensures DecodeFrame(payload, false, known)
            == Err(ProtocolError(UnknownCommand(Split(payload[..|payload| - 1])[0])))
  {
  }

  /** `Serializer.unserialize`: decode the frame, then run the `parse` of the
      command's class, whose ProtocolError propagates. */
  function Decode(payload: string, isBinary: bool, known: set<string>): (r: Result<Msg>)
    requires known <= ParsableCommands
    ensures isBinary ==> r.Err?
    ensures r.Ok? ==> DecodeFrame(payload, isBinary, known).Ok? && Command(r.value) in known
    ensures DecodeFrame(payload, isBinary, known).Ok? ==>
              var f := DecodeFrame(payload, isBinary, known).value;
              (r.Err? <==> Parse(f.command, f.headers, f.body).Err?)
  {
    var f :- DecodeFrame(payload, isBinary, known);
    Parse(f.command, f.headers, f.body)
  }

  /** The source's decoder: pop the command, pop header lines into a dict
      until the blank line, and hand the rest to the class's `parse`. */
  method Unserialize(payload: string, isBinary: bool, known: set<string>) returns (r: Result<Msg>)
    requires known <= ParsableCommands
    ensures r == Decode(payload, isBinary, known)
  {
    if isBinary {
      return Err(ProtocolError(BinaryRejected));
    }
    if payload == [] || payload[|payload| - 1] != NUL {
      return Err(ProtocolError("STOMP frame not terminated by NUL"));
    }
    var lines := Split(payload[..|payload| - 1]);
    var command := lines[0];
    lines := lines[1..];
    if command !in known {
      return Err(ProtocolError(UnknownCommand(command)));
    }
    ghost var afterCommand := lines;
    var headers: Headers := [];
    while true
      invariant ParseHeaders(lines, headers) == ParseHeaders(afterCommand, [])
      decreases |lines|
    {
      if lines == [] {
        return Err(ProtocolError("missing blank line after STOMP headers"));
      }
      if lines[0] == "" {
        break;
      }
      var line := lines[0];
      lines := lines[1..];
      var matched := MatchHeader(line);
      if matched.None? {
        return Err(ProtocolError(BadHeaderLine(line)));
      }
      var (key, value) := matched.value;
      if key !in KeysOf(headers) {
        headers := headers + [(key, value)];
      }
    }
    var body: Option<string> := None;
    if |lines| > 1 {
      body := Some(Join(lines[1..]));
    }
    r := Parse(command, headers, body);
  }

  // --------------------------------------------------------- round trip

  predicate WellFormedHeader(kv: (string, string))
  {
    |kv.0| > 0 && ':' !in kv.0 && NoLineBreak(kv.0) && NoLineBreak(kv.1)
  }

  /** What the round trip needs: no line break inside the command, keys or
      values, no colon inside a key, distinct keys, and no CR LF in the body. */
  predicate WellFormedFrame(f: Frame)
  {
    && NoLineBreak(f.command)
    && (forall i :: 0 <= i < |f.headers| ==> WellFormedHeader(f.headers[i]))
    && DistinctKeys(f.headers)
    && (f.body.Some? ==> NoCRLF(f.body.value))
  }

  lemma {:induction false} SplitHeaderBlock(h: Headers, tail: string)
    requires forall i :: 0 <= i < |h| ==> WellFormedHeader(h[i])
    ensures Split(HeaderBlock(h) + tail) == HeaderLines(h) + Split(tail)
  {
    if h == [] {
      assert HeaderBlock(h) + tail == tail;
    } else {
      var line := HeaderLine(h[0]);
      assert NoLineBreak(line) by {
        assert line == h[0].0 + ":" + h[0].1;
      }
      assert HeaderBlock(h) + tail == line + [LF] + (HeaderBlock(h[1..]) + tail);
      SplitLine(line, HeaderBlock(h[1..]) + tail);
      SplitHeaderBlock(h[1..], tail);
    }
  }

  lemma {:induction false} ParseHeaderLines(h: Headers, acc: Headers, tail: seq<string>)
    requires forall i :: 0 <= i < |h| ==> WellFormedHeader(h[i])
    requires DistinctKeys(acc + h)
    ensures ParseHeaders(HeaderLines(h) + tail, acc) == ParseHeaders(tail, acc + h)
  {
    if h == [] {
      assert HeaderLines(h) + tail == tail;
      assert acc + h == acc;
    } else {
      var lines := HeaderLines(h) + tail;
      assert lines[0] == HeaderLine(h[0]);
      assert lines[1..] == HeaderLines(h[1..]) + tail;
      MatchHeaderLine(h[0].0, h[0].1);
      assert lines[0] != "";
      forall i | 0 <= i < |acc| ensures acc[i].0 != h[0].0 {
        assert (acc + h)[i] == acc[i] && (acc + h)[|acc|] == h[0];
      }
      NotInKeys(acc, h[0].0);
      assert AddFirst(acc, h[0]) == acc + [h[0]];
      assert acc + h == (acc + [h[0]]) + h[1..];
      ParseHeaderLines(h[1..], acc + [h[0]], tail);
    }
  }

  lemma {:induction false} NotInKeys(h: Headers, k: string)
    requires forall i :: 0 <= i < |h| ==> h[i].0 != k
    ensures k !in KeysOf(h)
  {
    if h != [] {
      assert forall i :: 0 <= i < |h[1..]| ==> h[1..][i].0 == h[i + 1].0;
      NotInKeys(h[1..], k);
    }
  }

  /** Decoding an encoded well-formed frame whose command is recognised gives
      the frame back. */
  lemma DecodeEncodeFrame(f: Frame, known: set<string>)
    requires WellFormedFrame(f) && f.command in known
    ensures DecodeFrame(EncodeFrame(f), false, known) == Ok(f)
  {
    var payload := EncodeFrame(f);
    SplitEncoded(f);
    var lines := Split(payload[..|payload| - 1]);
    var body := Split(BodyPart(f.body));
    assert lines[0] == f.command;
    assert lines[1..] == HeaderLines(f.headers) + body;
    BodyLines(f.body);
    ParseHeaderLines(f.headers, [], body);
    assert [] + f.headers == f.headers;
    DecodeFrameOk(payload, known, f.headers, body);
  }

  /** One unfolding of `DecodeFrame` on a terminated frame with a known
      command and a header block the loop accepts. */
  lemma DecodeFrameOk(payload: string, known: set<string>, headers: Headers, rest: seq<string>)
    requires payload != [] && payload[|payload| - 1] == NUL
    requires Split(payload[..|payload| - 1])[0] in known
    requires ParseHeaders(Split(payload[..|payload| - 1])[1..], []) == Ok((headers, rest))
    ensures DecodeFrame(payload, false, known)
            == Ok(Frame(Split(payload[..|payload| - 1])[0], headers,
                        if |rest| > 1 then Some(Join(rest[1..])) else None))
  {
  }

  /** The lines of an encoded frame, NUL stripped. */
  lemma SplitEncoded(f: Frame)
    requires WellFormedFrame(f)
    ensures var s := EncodeFrame(f);
            (|s| > 0 && s[|s| - 1] == NUL
             && Split(s[..|s| - 1]) == [f.command] + HeaderLines(f.headers) + Split(BodyPart(f.body)))
  {
    var s := EncodeFrame(f);
    var tail := BodyPart(f.body);
    assert s[..|s| - 1] == f.command + [LF] + (HeaderBlock(f.headers) + tail);
    SplitLine(f.command, HeaderBlock(f.headers) + tail);
    SplitHeaderBlock(f.headers, tail);
  }

  /** After the headers: the blank line, then the body's own lines. */
  lemma BodyLines(body: Option<string>)
    requires body.Some? ==> NoCRLF(body.value)
    ensures var t := Split(BodyPart(body));
            (|t| >= 1 && t[0] == "" && (if |t| > 1 then Some(Join(t[1..])) else None) == body)
  {
    match body
    case None =>
      assert Split("") == [""];
    case Some(b) =>
      assert BodyPart(body) == [] + [LF] + b;
      SplitLine([], b);
      JoinSplit(b);
  }

  /** Every line that marshal can write is well formed once the message's own
      strings hold no line breaks and its body no CR LF. */
  predicate WellFormedMsg(m: Msg)
  {
    && (forall k :: k in AllowedKeys(Command(m)) && HeaderValue(m, k).Some? ==> NoLineBreak(HeaderValue(m, k).value))
    && (BodyOf(m).Some? ==> NoCRLF(BodyOf(m).value))
  }

  lemma MarshalWellFormed(m: Msg)
    requires WellFormedMsg(m)
    ensures WellFormedFrame(Marshal(m))
  {
    var f := Marshal(m);
    forall i | 0 <= i < |f.headers| ensures WellFormedHeader(f.headers[i]) {
      MarshalHeaderWellFormed(m, i);
    }
    CommandNoLineBreak(m);
    assert DistinctKeys(f.headers);
    assert f.body.Some? ==> NoCRLF(f.body.value);
  }

  lemma CommandNoLineBreak(m: Msg)
    ensures NoLineBreak(Command(m))
  {
    match m
    case Stomp(_, _) =>
    case Connect(_, _) =>
    case Connected(_) =>
    case Send(_, _, _) =>
    case Error(_, _, _) =>
    case Receipt(_) =>
    case Disconnect =>
  }

  lemma MarshalHeaderWellFormed(m: Msg, i: nat)
    requires WellFormedMsg(m) && i < |Marshal(m).headers|
    ensures WellFormedHeader(Marshal(m).headers[i])
  {
    var f := Marshal(m);
    var k := f.headers[i].0;
    KeysOfContains(f.headers, i);
    AllowedKeyWellFormed(Command(m), k);
    FirstValue(f.headers, i);
    assert HeaderValue(m, k) == Some(f.headers[i].1);
  }

  lemma AllowedKeyWellFormed(command: string, k: string)
    requires k in AllowedKeys(command)
    ensures |k| > 0 && ':' !in k && NoLineBreak(k)
  {
  }

  /** With distinct keys, an entry's value is the one lookup finds. */
  lemma {:induction false} FirstValue(h: Headers, i: nat)
    requires DistinctKeys(h) && i < |h|
    ensures Lookup(h, h[i].0) == Some(h[i].1)
  {
    if i > 0 {
      assert h[0].0 != h[i].0;
      FirstValue(h[1..], i - 1);
    }
  }

  /** The round trip of the codec and the message model together:
      `unserialize(serialize(m), False) == m`. */
  lemma DecodeEncode(m: Msg, known: set<string>)
    requires WellFormedMsg(m) && !m.Disconnect?
    requires known <= ParsableCommands && Command(m) in known
    ensures Decode(EncodeFrame(Marshal(m)), false, known) == Ok(m)
  {
    MarshalWellFormed(m);
    DecodeEncodeFrame(Marshal(m), known);
    ParseMarshal(m);
  }

  // ------------------------------------------- the decoder as written

  /** The decoder with only its undefined names and syntax repaired: the NUL
      terminator is neither checked nor stripped, and the body is every line
      after the headers joined with LF, the blank separator included. */
  function DecodeFrameAsWritten(payload: string, isBinary: bool, known: set<string>): (r: Result<Frame>)
    ensures isBinary ==> r.Err?
    ensures r.Ok? ==> r.value.command in known
  {
    if isBinary then Err(ProtocolError(BinaryRejected))
    else
      var lines := Split(payload);
      var command := lines[0];
      if command !in known then Err(ProtocolError(UnknownCommand(command)))
      else
        var parsed :- ParseHeaders(lines[1..], []);
        var rest := parsed.1;
        Ok(Frame(command, parsed.0, if |rest| > 1 then Some(Join(rest)) else None))
  }

  /** The lines of a whole encoded frame, NUL included. */
  lemma SplitEncodedWithNul(f: Frame)
    requires WellFormedFrame(f)
    ensures Split(EncodeFrame(f)) == [f.command] + HeaderLines(f.headers) + Split(BodyPart(f.body) + [NUL])
  {
    var tail := BodyPart(f.body) + [NUL];
    assert EncodeFrame(f) == f.command + [LF] + (HeaderBlock(f.headers) + tail);
    SplitLine(f.command, HeaderBlock(f.headers) + tail);
    SplitHeaderBlock(f.headers, tail);
  }

  /** After the headers, as written: the NUL alone, or the blank line and the
      body's lines with the NUL still attached. */
  lemma BodyLinesWithNul(body: Option<string>)
    requires body.Some? ==> NoCRLF(body.value)
    ensures var t := Split(BodyPart(body) + [NUL]);
            (body.None? ==> t == [[NUL]])
            && (body.Some? ==> |t| > 1 && Join(t) == [LF] + body.value + [NUL])
  {
    match body
    case None =>
      var s: string := [NUL];
      assert BodyPart(body) + [NUL] == s;
      assert s[0] != LF && |s| == 1;
      assert s[1..] == [] && Split(s[1..]) == [""];
      assert [s[0]] + "" == s;
      assert Split(s) == [s];
    case Some(b) =>
      assert BodyPart(body) + [NUL] == [] + [LF] + (b + [NUL]);
      SplitLine([], b + [NUL]);
      assert NoCRLF(b + [NUL]);
      JoinSplit(b + [NUL]);
  }

  /** As written, an encoded frame without a body is refused: its NUL is read
      as a header line without a colon. */
  lemma AsWrittenRefusesBodylessFrame(f: Frame, known: set<string>)
    requires WellFormedFrame(f) && f.command in known && f.body.None?
    ensures DecodeFrameAsWritten(EncodeFrame(f), false, known).Err?
  {
    SplitEncodedWithNul(f);
    BodyLinesWithNul(f.body);
    var lines := Split(EncodeFrame(f));
    var t := Split(BodyPart(f.body) + [NUL]);
    assert lines[1..] == HeaderLines(f.headers) + t;
    ParseHeaderLines(f.headers, [], t);
    assert MatchHeader([NUL]).None?;
  }

  /** As written, an encoded frame with a body comes back with a leading LF
      (the blank separator) and the trailing NUL in its body. */
  lemma AsWrittenCorruptsBody(f: Frame, known: set<string>)
    requires WellFormedFrame(f) && f.command in known && f.body.Some?
    ensures DecodeFrameAsWritten(EncodeFrame(f), false, known)
            == Ok(Frame(f.command, f.headers, Some([LF] + f.body.value + [NUL])))
  {
    var t := Split(BodyPart(f.body) + [NUL]);
    AsWrittenHeaderParse(f);
    BodyLinesWithNul(f.body);
    assert |t| > 1 && Join(t) == [LF] + f.body.value + [NUL];
  }

  /** As written, the headers of an encoded frame with a body parse back,
      and what follows them is the blank line and the body's lines. */
  lemma AsWrittenHeaderParse(f: Frame)
    requires WellFormedFrame(f) && f.body.Some?
    ensures var lines := Split(EncodeFrame(f));
            |lines| > 0 && lines[0] == f.command
            && ParseHeaders(lines[1..], []) == Ok((f.headers, Split(BodyPart(f.body) + [NUL])))
  {
    SplitEncodedWithNul(f);
    var lines := Split(EncodeFrame(f));
    var t := Split(BodyPart(f.body) + [NUL]);
    assert BodyPart(f.body) + [NUL] == [] + [LF] + (f.body.value + [NUL]);
    SplitLine([], f.body.value + [NUL]);
    assert t[0] == "";
    assert lines[1..] == HeaderLines(f.headers) + t;
    ParseHeaderLines(f.headers, [], t);
    assert [] + f.headers == f.headers;
  }

  /** As written the command map holds no RECEIPT and no ERROR, so the
      receipts and errors the session consumes are refused. */
  lemma AsWrittenRefusesReceiptAndError(m: Msg)
    requires m.Receipt? || m.Error?
    requires WellFormedMsg(m)
    ensures Decode(EncodeFrame(Marshal(m)), false, WrittenCommands).Err?
  {
    var f := Marshal(m);
    CommandNoLineBreak(m);
    EncodedFirstLine(f);
    assert f.command !in WrittenCommands;
    assert DecodeFrame(EncodeFrame(f), false, WrittenCommands).Err?;
  }

  /** The first line of an encoded frame is its command. */
  lemma EncodedFirstLine(f: Frame)
    requires NoLineBreak(f.command)
    ensures var s := EncodeFrame(f);
            (|s| > 0 && s[|s| - 1] == NUL && Split(s[..|s| - 1])[0] == f.command)
  {
    var s := EncodeFrame(f);
    var rest := HeaderBlock(f.headers) + BodyPart(f.body);
    assert s[..|s| - 1] == f.command + [LF] + rest;
    SplitLine(f.command, rest);
  }

  /** With RECEIPT and ERROR registered, every parsable message survives the
      round trip. */
  lemma DecodeEncodeFullCommands(m: Msg)
    requires WellFormedMsg(m) && !m.Disconnect?
    ensures Decode(EncodeFrame(Marshal(m)), false, FullCommands) == Ok(m)
  {
    DecodeEncode(m, FullCommands);
  }
}
