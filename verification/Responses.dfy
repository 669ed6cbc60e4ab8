/** Splitting a raw response into status code, headers and body (response.cc). */
module Responses {
  import opened Requests
  import opened Splitting
  import opened Numerals

  // ---------------------------------------------------------------- header and body

  /** The length of the blank line at i, or 0 if there is none: CR LF CR LF, or LF LF. */
  function BlankLine(s: string, i: nat): (len: nat)
    ensures i + len <= |s| || len == 0
  {
    if i + 4 <= |s| && s[i] == '\r' && s[i + 1] == '\n' && s[i + 2] == '\r' && s[i + 3] == '\n' then 4
    else if i + 2 <= |s| && s[i] == '\n' && s[i + 1] == '\n' then 2
    else 0
  }

  lemma FourChars(t: string, a: char, b: char, c: char, d: char)
    ensures t == [a, b, c, d] <==> |t| == 4 && t[0] == a && t[1] == b && t[2] == c && t[3] == d
  {
  }

  lemma TwoChars(t: string, a: char, b: char)
    ensures t == [a, b] <==> |t| == 2 && t[0] == a && t[1] == b
  {
  }

  lemma BlankLineText(s: string, i: nat)
    requires i < |s|
    ensures BlankLine(s, i) == 4 <==> Substr(s, i, 4) == ['\r', '\n', '\r', '\n']
    ensures BlankLine(s, i) == 2 <==> Substr(s, i, 2) == ['\n', '\n']
  {
    FourChars(Substr(s, i, 4), '\r', '\n', '\r', '\n');
    TwoChars(Substr(s, i, 2), '\n', '\n');
  }

  /** The first blank line at or after i, or the length of the text. */
  function FirstBlank(s: string, i: nat): (at: nat)
    requires i <= |s|
    ensures i <= at <= |s|
    ensures forall j | i <= j < at :: BlankLine(s, j) == 0
    ensures at < |s| ==> BlankLine(s, at) > 0
    decreases |s| - i
  {
    if i == |s| || BlankLine(s, i) > 0 then i else FirstBlank(s, i + 1)
  }

  lemma {:induction false} FirstBlankIs(s: string, i: nat, at: nat)
    requires i <= at < |s| && BlankLine(s, at) > 0 && forall j | i <= j < at :: BlankLine(s, j) == 0
    ensures FirstBlank(s, i) == at
    decreases at - i
  {
    if i < at {
      FirstBlankIs(s, i + 1, at);
    }
  }

  // ---------------------------------------------------------------- numbers

  predicate IsSpace(c: char) {
    c == ' ' || '\t' <= c <= '\r'
  }

  function Stripped(s: string): string {
    if s != "" && IsSpace(s[0]) then Stripped(s[1..])
    else if s != "" && IsSpace(s[|s| - 1]) then Stripped(s[..|s| - 1])
    else s
  }

  /** absl::SimpleAtoi into a 32-bit integer. */
  function Atoi(text: string): Option<int> {
    var s := Stripped(text);
    var digits := if s != "" && s[0] in "+-" then s[1..] else s;
    if digits == "" || exists c | c in digits :: !IsDigit(c) then None
    else
      var n := if s[0] == '-' then -Number(digits) else Number(digits);
      if -0x8000_0000 <= n < 0x8000_0000 then Some(n) else None
  }

  predicate KnownCode(code: int) {
    || 100 <= code <= 101 || 200 <= code <= 206 || 300 <= code <= 305 || code == 307
    || 400 <= code <= 417 || 500 <= code <= 505
  }

  lemma CodeIsRead(code: nat)
    requires KnownCode(code)
    ensures Atoi(Decimal(code)) == Some(code)
  {
    var text := Decimal(code);
    NumberOfDecimal(code);
    assert text[0] in text && text[|text| - 1] in text;
    assert Stripped(text) == text;
  }

  // ---------------------------------------------------------------- header lines

  datatype Header = Header(name: string, value: Option<string>)

  const EOL: set<char> := {'\r', '\n'}

  function HeaderLines(head: string): seq<string> {
    NonEmpty(Split(head, EOL))
  }

  function IndexOf(s: string, c: char): (at: nat)
    ensures at <= |s| && (at < |s| ==> s[at] == c)
    ensures forall i | 0 <= i < at :: s[i] != c
  {
    if s == "" || s[0] == c then 0 else IndexOf(s[1..], c) + 1
  }

  /** The name before the first colon; one space behind it is skipped, and an empty value is not set. */
  function HeaderOf(line: string): Header
    requires IndexOf(line, ':') < |line|
  {
    var colon := IndexOf(line, ':');
    var from := if colon + 1 < |line| && line[colon + 1] == ' ' then colon + 2 else colon + 1;
    Header(line[..colon], if from < |line| then Some(line[from..]) else None)
  }

  /** A line without a colon is passed over. */
  function HeadersOf(lines: seq<string>): seq<Header> {
    if lines == [] then [] else
      var last := lines[|lines| - 1];
      HeadersOf(lines[..|lines| - 1]) + if IndexOf(last, ':') < |last| then [HeaderOf(last)] else []
  }

  function StatusCode(line: string): Option<int> {
    var words := Split(line, {' '});
    if |words| < 3 || |words[0]| < 4 || words[0][..4] != "HTTP" then None
    else if Atoi(words[1]).Some? && KnownCode(Atoi(words[1]).value) then Atoi(words[1])
    else None
  }

  /** The code reads the first line without looking whether there is one; what happens then is not defined. */
  datatype Verdict = Accepted | Rejected | Undefined

  function Outcome(lines: seq<string>): Verdict {
    if lines == [] then Undefined else if StatusCode(lines[0]).Some? then Accepted else Rejected
  }

  /** A head has no line exactly if it is made of line ends only. */
  lemma {:induction false} NoLines(head: string)
    ensures HeaderLines(head) == [] <==> forall c | c in head :: c in EOL
  {
    if head == "" {
      assert NonEmpty([""]) == NonEmpty([]);
    } else {
      var rest := Split(head[1..], EOL);
      NoLines(head[1..]);
      assert head == [head[0]] + head[1..];
      if head[0] in EOL {
        assert ([""] + rest)[1..] == rest;
      } else {
        var first := [head[0]] + rest[0];
        assert NonEmpty([first] + rest[1..])[0] == first;
        assert head[0] in head;
      }
    }
  }

  /** Parsing has no outcome exactly for the responses with nothing but line ends before their first blank line. */
  lemma UndefinedExactly(response: string)
    ensures var at := FirstBlank(response, 0);
      at < |response| && Outcome(HeaderLines(response[..at])).Undefined?
      <==> at < |response| && forall i | 0 <= i < at :: response[i] in EOL
  {
    var at := FirstBlank(response, 0);
    NoLines(response[..at]);
    assert forall i | 0 <= i < at :: response[..at][i] == response[i];
  }

  lemma BareBlankLine()
    ensures var r := "\n\n"; FirstBlank(r, 0) == 0 && Outcome(HeaderLines(r[..0])).Undefined?
  {
    NoLines("");
  }

  // ---------------------------------------------------------------- the response

  class Response {
    var code: Option<int>
    var header: seq<Header>
    var body: Option<string>

    constructor ()
      ensures code == None && header == [] && body == None
    {
      code, header, body := None, [], None;
    }

    /** The body is whatever follows the first blank line. The code and the headers change only when the status
        line is in order; the body is set in any case. A head without any line has no outcome. */
    method Parse(response: string) returns (verdict: Verdict)
      modifies this
      ensures var at := FirstBlank(response, 0);
        if at == |response| then verdict == Rejected && body == old(body) && code == old(code) && header == old(header)
        else
          var lines := HeaderLines(response[..at]);
          && body == Some(response[at + BlankLine(response, at)..])
          && verdict == Outcome(lines)
          && code == (if verdict.Accepted? then StatusCode(lines[0]) else old(code))
          && header == (if verdict.Accepted? then old(header) + HeadersOf(lines[1..]) else old(header))
    {
      var offset, separator := FindBlankLine(response);
      if separator == 0 {
        return Rejected;
      }
      var head := response[..offset];
      body := Some(response[offset + separator..]);
      verdict := ParseHeaders(head);
    }

    static method FindBlankLine(response: string) returns (offset: nat, separator: nat)
      ensures offset == FirstBlank(response, 0)
      ensures separator == if offset < |response| then BlankLine(response, offset) else 0
    {
      offset, separator := 0, 0;
      while offset < |response|
        invariant 0 <= offset <= |response| && FirstBlank(response, 0) == FirstBlank(response, offset)
      {
        BlankLineText(response, offset);
        if response[offset] == '\r' && Substr(response, offset, 4) == ['\r', '\n', '\r', '\n'] {
          return offset, 4;
        } else if response[offset] == '\n' && Substr(response, offset, 2) == ['\n', '\n'] {
          return offset, 2;
        }
        offset := offset + 1;
      }
    }

    method ParseHeaders(head: string) returns (verdict: Verdict)
      modifies this`code, this`header
      ensures var lines := HeaderLines(head);
        && verdict == Outcome(lines)
        && code == (if verdict.Accepted? then StatusCode(lines[0]) else old(code))
        && header == (if verdict.Accepted? then old(header) + HeadersOf(lines[1..]) else old(header))
    {
      var lines := NonEmpty(Split(head, EOL));
      if lines == [] {
        return Undefined;
      }
      var status := Split(lines[0], {' '});
      lines := lines[1..];
      if |status| < 3 || |status[0]| < 4 || status[0][..4] != "HTTP" {
        return Rejected;
      }
      var number := Atoi(status[1]);
      if number.None? || !KnownCode(number.value) {
        return Rejected;
      }
      code := number;
      AddHeaders(lines);
      return Accepted;
    }

    method AddHeaders(lines: seq<string>)
      modifies this`header
      ensures header == old(header) + HeadersOf(lines)
    {
      for i := 0 to |lines|
        invariant header == old(header) + HeadersOf(lines[..i])
      {
        assert lines[..i + 1][..i] == lines[..i];
        var line := lines[i];
        var colon := IndexOf(line, ':');
        if colon < |line| {
          var field := Header(line[..colon], None);
          colon := colon + 1;
          if colon < |line| && line[colon] == ' ' {
            colon := colon + 1;
          }
          if colon < |line| {
            field := field.(value := Some(line[colon..]));
          }
          header := header + [field];
        }
      }
      assert lines[..|lines|] == lines;
    }
  }

  // ---------------------------------------------------------------- printing

  /** A line that can stand in the head. */
  predicate Plain(line: string) {
    line != "" && FreeOf(line, EOL)
  }

  predicate AllPlain(lines: seq<string>) {
    forall i | 0 <= i < |lines| :: Plain(lines[i])
  }

  predicate IsEol(eol: string) {
    eol == "\r\n" || eol == "\n"
  }

  /** A head of lines, a blank line, and a body. */
  function Message(lines: seq<string>, eol: string, body: string): string
    requires lines != []
  {
    Join(lines, eol) + (eol + eol + body)
  }

  lemma BlankLineShift(front: string, tail: string, i: nat)
    ensures BlankLine(front + tail, |front| + i) == BlankLine(tail, i)
  {
    assert forall k | 0 <= k < |tail| :: (front + tail)[|front| + k] == tail[k];
  }

  /** Nothing in a line and its end starts a blank line, if another line follows. */
  lemma NotInFirstLine(line: string, eol: string, tail: string, i: nat)
    requires Plain(line) && IsEol(eol) && tail != "" && tail[0] !in EOL && i < |line + eol|
    ensures BlankLine(line + eol + tail, i) == 0
  {
    var s := line + eol + tail;
    assert s[|line + eol|] == tail[0];
    if i < |line| {
      assert s[i] == line[i] && line[i] in line;
    }
  }

  lemma {:induction false} NoBlankInHead(lines: seq<string>, eol: string, body: string, i: nat)
    requires lines != [] && AllPlain(lines) && IsEol(eol) && i < |Join(lines, eol)|
    ensures BlankLine(Message(lines, eol, body), i) == 0
  {
    var rest := eol + eol + body;
    if |lines| == 1 {
      assert Message(lines, eol, body)[i] == lines[0][i] && lines[0][i] in lines[0];
    } else {
      var front, tail := lines[0] + eol, Message(lines[1..], eol, body);
      assert Message(lines, eol, body) == front + tail;
      if i < |front| {
        HeadStarts(lines[1..], eol, body);
        NotInFirstLine(lines[0], eol, tail, i);
      } else {
        NoBlankInHead(lines[1..], eol, body, i - |front|);
        BlankLineShift(front, tail, i - |front|);
      }
    }
  }

  lemma HeadStarts(lines: seq<string>, eol: string, body: string)
    requires lines != [] && AllPlain(lines)
    ensures var m := Message(lines, eol, body); m != "" && m[0] !in EOL
  {
    assert lines[0][0] in lines[0];
    assert Message(lines, eol, body)[0] == lines[0][0];
  }

  /** Whatever the body holds, the message is split where the head ends. */
  lemma SplitsAtHead(lines: seq<string>, eol: string, body: string)
    requires lines != [] && AllPlain(lines) && IsEol(eol)
    ensures var m := Message(lines, eol, body);
      var at := FirstBlank(m, 0);
      at < |m| && m[..at] == Join(lines, eol) && m[at + BlankLine(m, at)..] == body
  {
    var m, at := Message(lines, eol, body), |Join(lines, eol)|;
    BlankLineShift(Join(lines, eol), eol + eol + body, 0);
    forall j | 0 <= j < at
      ensures BlankLine(m, j) == 0
    {
      NoBlankInHead(lines, eol, body, j);
    }
    FirstBlankIs(m, 0, at);
    assert BlankLine(m, at) == 2 * |eol|;
    assert m == Join(lines, eol) + (eol + eol) + body;
  }

  lemma {:induction false} LinesAreRead(lines: seq<string>, eol: string)
    requires lines != [] && AllPlain(lines) && IsEol(eol)
    ensures HeaderLines(Join(lines, eol)) == lines
  {
    if |lines| == 1 {
      SplitWhole(lines[0], EOL);
      assert NonEmpty([lines[0]]) == [lines[0]] + NonEmpty([]);
    } else {
      var tail := Join(lines[1..], eol);
      LinesAreRead(lines[1..], eol);
      FirstLineIsRead(lines[0], eol, tail);
      assert lines == [lines[0]] + lines[1..];
    }
  }

  lemma FirstLineIsRead(line: string, eol: string, tail: string)
    requires Plain(line) && IsEol(eol)
    ensures HeaderLines(line + eol + tail) == [line] + HeaderLines(tail)
  {
    if eol == "\n" {
      SplitFirst(line, '\n', tail, EOL);
    } else {
      SplitFirst("", '\n', tail, EOL);
      SplitFirst(line, '\r', "" + ['\n'] + tail, EOL);
      assert line + ['\r'] + ("" + ['\n'] + tail) == line + eol + tail;
      assert Split(line + eol + tail, EOL) == [line] + ([""] + Split(tail, EOL));
      NonEmptyConcat([line], [""] + Split(tail, EOL));
      NonEmptyConcat([""], Split(tail, EOL));
    }
  }

  // ---------------------------------------------------------------- round trip

  /** A header as parsing makes it: no colon in the name, and no empty value. */
  predicate NormalHeader(h: Header) {
    && FreeOf(h.name, {':', '\r', '\n'})
    && (h.value.Some? ==> h.value.value != "" && FreeOf(h.value.value, EOL))
  }

  function HeaderText(h: Header): string {
    h.name + ": " + OrEmpty(h.value)
  }

  function HeaderTexts(headers: seq<Header>): (lines: seq<string>)
    ensures |lines| == |headers|
    ensures forall i | 0 <= i < |headers| :: lines[i] == HeaderText(headers[i])
  {
    seq(|headers|, i requires 0 <= i < |headers| => HeaderText(headers[i]))
  }

  lemma {:induction false} IndexBehind(name: string, tail: string, c: char)
    requires FreeOf(name, {c}) && tail != "" && tail[0] == c
    ensures IndexOf(name + tail, c) == |name|
  {
    if name == "" {
      assert name + tail == tail;
    } else {
      assert name[0] in name && (name + tail)[1..] == name[1..] + tail;
      IndexBehind(name[1..], tail, c);
    }
  }

  lemma HeaderIsRead(h: Header)
    requires NormalHeader(h)
    ensures var line := HeaderText(h);
      Plain(line) && IndexOf(line, ':') < |line| && HeaderOf(line) == h
  {
    var line := HeaderText(h);
    var tail := ": " + OrEmpty(h.value);
    assert line == h.name + tail;
    IndexBehind(h.name, tail, ':');
    ConcatFree(h.name, ": ", EOL);
    ConcatFree(h.name + ": ", OrEmpty(h.value), EOL);
    assert line[..|h.name|] == h.name && line[|h.name| + 2..] == OrEmpty(h.value);
  }

  /** A header line is its name up to the first colon and what follows, less one space; nothing left is no value. */
  lemma HeaderIs(name: string, rest: string)
    requires FreeOf(name, {':'})
    ensures var line := name + (":" + rest);
      && IndexOf(line, ':') == |name| < |line|
      && HeaderOf(line) == Header(name, if rest == "" || rest == " " then None
                                        else if rest[0] == ' ' then Some(rest[1..]) else Some(rest))
  {
    var line := name + (":" + rest);
    IndexBehind(name, ":" + rest, ':');
    assert line[..|name|] == name && line[|name| + 1..] == rest;
    if rest != "" {
      assert line[|name| + 1] == rest[0] && line[|name| + 2..] == rest[1..];
    }
  }

  lemma {:induction false} NoColonNoIndex(line: string)
    ensures IndexOf(line, ':') < |line| <==> ':' in line
  {
    if line != "" && line[0] != ':' {
      NoColonNoIndex(line[1..]);
      assert line == [line[0]] + line[1..];
    }
  }

  /** Each line with a colon adds its header, and no other line does. */
  lemma HeaderPerColon(lines: seq<string>, line: string)
    ensures ':' !in line ==> HeadersOf(lines + [line]) == HeadersOf(lines)
    ensures ':' in line ==> IndexOf(line, ':') < |line| && HeadersOf(lines + [line]) == HeadersOf(lines) + [HeaderOf(line)]
  {
    NoColonNoIndex(line);
    assert (lines + [line])[..|lines|] == lines;
  }

  lemma OneMoreHeader(lines: seq<string>, line: string, h: Header)
    requires IndexOf(line, ':') < |line| && HeaderOf(line) == h
    ensures HeadersOf(lines + [line]) == HeadersOf(lines) + [h]
  {
    assert (lines + [line])[..|lines|] == lines;
  }

  lemma HeaderTextsSnoc(headers: seq<Header>, h: Header)
    ensures HeaderTexts(headers + [h]) == HeaderTexts(headers) + [HeaderText(h)]
  {
  }

  lemma {:induction false} HeadersAreRead(headers: seq<Header>)
    requires forall h | h in headers :: NormalHeader(h)
    ensures AllPlain(HeaderTexts(headers)) && HeadersOf(HeaderTexts(headers)) == headers
  {
    if headers != [] {
      var front, last := headers[..|headers| - 1], headers[|headers| - 1];
      HeadersAreRead(front);
      HeaderIsRead(last);
      OneMoreHeader(HeaderTexts(front), HeaderText(last), last);
      assert headers == front + [last];
      HeaderTextsSnoc(front, last);
    }
  }

  /** What parsing yields from lines is normal again, so it can be printed. */
  lemma {:induction false} ReadHeadersAreNormal(lines: seq<string>)
    requires AllFree(lines, EOL)
    ensures forall h | h in HeadersOf(lines) :: NormalHeader(h)
  {
    if lines != [] {
      var n := |lines| - 1;
      ReadHeadersAreNormal(lines[..n]);
      assert lines[n] in lines;
    }
  }

  lemma ParsedHeadersAreNormal(head: string)
    requires HeaderLines(head) != []
    ensures forall h | h in HeadersOf(HeaderLines(head)[1..]) :: NormalHeader(h)
  {
    var lines := HeaderLines(head);
    PiecesAreFree(head, EOL);
    NonEmptyAre(Split(head, EOL));
    assert forall line | line in lines[1..] :: line in lines;
    ReadHeadersAreNormal(lines[1..]);
  }

  function StatusLine(version: string, code: nat, reason: string): string
  {
    version + " " + (Decimal(code) + " " + reason)
  }

  predicate NormalStatus(version: string, code: nat, reason: string) {
    && |version| >= 4 && version[..4] == "HTTP" && FreeOf(version, {' ', '\r', '\n'})
    && KnownCode(code) && FreeOf(reason, EOL)
  }

  lemma StatusIsRead(version: string, code: nat, reason: string)
    requires NormalStatus(version, code, reason)
    ensures Plain(StatusLine(version, code, reason)) && StatusCode(StatusLine(version, code, reason)) == Some(code)
  {
    CodeIsRead(code);
    var text := Decimal(code);
    SplitFirst(text, ' ', reason, {' '});
    SplitFirst(version, ' ', text + " " + reason, {' '});
    ConcatFree(version, " ", EOL);
    ConcatFree(text, " ", EOL);
    ConcatFree(text + " ", reason, EOL);
    ConcatFree(version + " ", text + " " + reason, EOL);
  }

  /** A status line: something that begins with HTTP, a code, and a reason that may be empty. */
  ghost predicate IsStatus(line: string, version: string, text: string, reason: string, code: int) {
    && line == version + " " + (text + " " + reason) && ' ' !in version && ' ' !in text
    && |version| >= 4 && version[..4] == "HTTP" && Atoi(text) == Some(code) && KnownCode(code)
  }

  /** The code of a line is accepted exactly if it is such a status line. */
  lemma StatusExactly(line: string, code: int)
    ensures StatusCode(line) == Some(code) <==> exists version, text, reason :: IsStatus(line, version, text, reason, code)
  {
    var words := Split(line, {' '});
    if StatusCode(line) == Some(code) {
      JoinedSplit(line, ' ');
      PiecesAreFree(line, {' '});
      assert words[0] in words && words[1] in words;
      var reason := Join(words[2..], " ");
      assert words[1..][1..] == words[2..];
      assert Join(words, " ") == words[0] + " " + Join(words[1..], " ");
      assert Join(words[1..], " ") == words[1] + " " + reason;
      assert IsStatus(line, words[0], words[1], reason, code);
    }
    if version, text, reason :| IsStatus(line, version, text, reason, code) {
      SplitFirst(text, ' ', reason, {' '});
      SplitFirst(version, ' ', text + " " + reason, {' '});
    }
  }

  function Print(version: string, code: nat, reason: string, headers: seq<Header>, eol: string, body: string): string
  {
    Message([StatusLine(version, code, reason)] + HeaderTexts(headers), eol, body)
  }

  /** Printing a response and parsing it gives back the code, the headers and the body, whatever the body holds. */
  lemma RoundTrip(version: string, code: nat, reason: string, headers: seq<Header>, eol: string, body: string)
    requires NormalStatus(version, code, reason) && IsEol(eol) && forall h | h in headers :: NormalHeader(h)
    ensures var m := Print(version, code, reason, headers, eol, body);
      var at := FirstBlank(m, 0);
      var lines := HeaderLines(m[..at]);
      && at < |m| && m[at + BlankLine(m, at)..] == body
      && lines != [] && StatusCode(lines[0]) == Some(code) && HeadersOf(lines[1..]) == headers
  {
    StatusIsRead(version, code, reason);
    HeadersAreRead(headers);
    var lines := [StatusLine(version, code, reason)] + HeaderTexts(headers);
    assert lines[1..] == HeaderTexts(headers);
    SplitsAtHead(lines, eol, body);
    LinesAreRead(lines, eol);
  }
}
