/**
 The request parser of src/http_request.hpp. The HttpRequest constructor
 cuts the raw text at its first CR or LF, reads method, target and version
 from that request line by successive stream extraction (RequestStatus),
 scans the CRLF-terminated header lines that follow up to the first empty
 one (ParseHeaders), and takes as body everything after the last CR or LF.
 The exceptions the C++ code throws, and the undefined split("") it can
 reach, are the ParseError values.
 */
module Request {
  import opened Text
  import opened Common
  import opened RequestMethod

  /** RequestStatus: the request type is None only in the default-constructed status of
      an empty request, where the C++ member is left uninitialised. */
  datatype RequestStatus = RequestStatus(requestType: Option<RequestType>, target: seq<string>, version: string)

  /** HttpRequest; its getters are the fields. Headers are a dictionary (std::map). */
  datatype HttpRequest = HttpRequest(status: RequestStatus, headers: map<string, string>, body: string)

  datatype ParseError =
    | MissingLineTerminator  // runtime_error "Error while parsing HTTP method"
    | InvalidRequestType     // invalid_argument from get_request_type
    | EmptyTarget            // split("") would read s.back() of an empty string
    | HeadersOutOfRange      // out_of_range from substr(idx + 2)
    | HeaderWithoutColon     // runtime_error "Invalid header format: no colon found"

  const LineBreaks: set<char> := {'\r', '\n'}

  /** What an empty raw request leaves: default members throughout. */
  const EmptyRequest := HttpRequest(RequestStatus(None, [], ""), map[], "")

  // ---------------------------------------------------------------------------
  // Stream extraction (operator>> into a std::string)
  // ---------------------------------------------------------------------------

  /** isspace in the classic locale. */
  predicate IsSpace(c: char) {
    c == ' ' || c == '\t' || c == '\n' || c == '\U{000B}' || c == '\U{000C}' || c == '\r'
  }

  /** A word as operator>> reads one: non-empty and free of white space. */
  predicate IsWord(w: string) {
    w != [] && forall k :: 0 <= k < |w| ==> !IsSpace(w[k])
  }

  /** The first index at or after `i` that is not white space. */
  function SkipSpace(s: string, i: nat): (j: nat)
    requires i <= |s|
    ensures i <= j <= |s|
    ensures forall k :: i <= k < j ==> IsSpace(s[k])
    ensures j < |s| ==> !IsSpace(s[j])
    decreases |s| - i
  {
    if i == |s| || !IsSpace(s[i]) then i else SkipSpace(s, i + 1)
  }

  /** The first index at or after `i` that is white space. */
  function WordEnd(s: string, i: nat): (j: nat)
    requires i <= |s|
    ensures i <= j <= |s|
    ensures forall k :: i <= k < j ==> !IsSpace(s[k])
    ensures j < |s| ==> IsSpace(s[j])
    decreases |s| - i
  {
    if i == |s| || IsSpace(s[i]) then i else WordEnd(s, i + 1)
  }

  /** One extraction from position `i`: the word read and the position after it.
      At the end of the stream the word is "" (the target string is left as it was). */
  function NextWord(s: string, i: nat): (r: (string, nat))
    requires i <= |s|
  {
    var b := SkipSpace(s, i);
    var e := WordEnd(s, b);
    (s[b..e], e)
  }

  /** operator>>: skip white space, then collect characters up to the next white space. */
  method ReadWord(s: string, i: nat) returns (word: string, next: nat)
    requires i <= |s|
    ensures (word, next) == NextWord(s, i)
  {
    var b := i;
    while b < |s| && IsSpace(s[b])
      invariant i <= b <= |s|
      invariant SkipSpace(s, b) == SkipSpace(s, i)
    {
      b := b + 1;
    }
    var e := b;
    while e < |s| && !IsSpace(s[e])
      invariant b <= e <= |s|
      invariant WordEnd(s, e) == WordEnd(s, b)
    {
      e := e + 1;
    }
    word, next := s[b..e], e;
  }

  /** Extraction reads exactly the word that follows a run of white space,
      and is empty exactly when only white space is left. */
  lemma NextWordMeaning(s: string, i: nat)
    requires i <= |s|
    ensures var (w, e) := NextWord(s, i);
      && i <= e <= |s|
      && (w == [] || IsWord(w))
      && (w == [] <==> forall k :: i <= k < |s| ==> IsSpace(s[k]))
      && (e < |s| ==> IsSpace(s[e]))
  {
  }

  /** A word preceded by white space from `i` and followed by white space or the end is what is read. */
  lemma NextWordAt(s: string, i: nat, b: nat, w: string)
    requires i <= b && b + |w| <= |s| && IsWord(w)
    requires forall k :: 0 <= k < |w| ==> s[b + k] == w[k]
    requires forall k :: i <= k < b ==> IsSpace(s[k])
    requires b + |w| == |s| || IsSpace(s[b + |w|])
    ensures NextWord(s, i) == (w, b + |w|)
  {
    assert s[b] == w[0];
    assert forall k :: b <= k < b + |w| ==> s[k] == w[k - b];
    assert s[b..b + |w|] == w;
  }

  // ---------------------------------------------------------------------------
  // The request line (RequestStatus constructor)
  // ---------------------------------------------------------------------------

  /** What RequestStatus(line) constructs, or the error raised on the way. */
  function RequestStatusOf(line: string): Result<RequestStatus, ParseError> {
    var (rawMethod, i) := NextWord(line, 0);
    match GetRequestType(rawMethod)
    case None => Failure(InvalidRequestType)
    case Some(m) =>
      var (rawTarget, j) := NextWord(line, i);
      if rawTarget == [] then Failure(EmptyTarget)
      else Success(RequestStatus(Some(m), Tokens(rawTarget), NextWord(line, j).0))
  }

  /** RequestStatus(const std::string&): three successive extractions. */
  method ParseRequestStatus(line: string) returns (r: Result<RequestStatus, ParseError>)
    ensures r == RequestStatusOf(line)
  {
    var rawMethod, i := ReadWord(line, 0);
    var m := GetRequestType(rawMethod);
    if m.None? {
      return Failure(InvalidRequestType);
    }
    var rawTarget, j := ReadWord(line, i);
    if rawTarget == [] {
      return Failure(EmptyTarget);
    }
    var target := Split(rawTarget);
    var version, _ := ReadWord(line, j);
    return Success(RequestStatus(m, target, version));
  }

  /** A request line of three words separated by single spaces gives the classified
      method, the split target and the version verbatim. */
  lemma RequestLineRoundTrip(m: string, t: string, v: string)
    requires IsWord(m) && IsWord(t) && IsWord(v)
    ensures GetRequestType(m).None? ==> RequestStatusOf(m + " " + t + " " + v) == Failure(InvalidRequestType)
    ensures GetRequestType(m).Some? ==>
      RequestStatusOf(m + " " + t + " " + v) == Success(RequestStatus(GetRequestType(m), Tokens(t), v))
  {
    var line := m + " " + t + " " + v;
    var i, j := |m|, |m| + 1 + |t|;
    ThreeWords(line, m, t, v);
    StatusOfWords(line, m, i, t, j, v);
  }

  lemma ThreeWords(line: string, m: string, t: string, v: string)
    requires IsWord(m) && IsWord(t) && IsWord(v) && line == m + " " + t + " " + v
    ensures NextWord(line, 0) == (m, |m|)
    ensures NextWord(line, |m|) == (t, |m| + 1 + |t|)
    ensures NextWord(line, |m| + 1 + |t|) == (v, |line|)
  {
    FirstOfThree(m, t, v);
    SecondOfThree(m, t, v);
    ThirdOfThree(m, t, v);
  }

  lemma FirstOfThree(m: string, t: string, v: string)
    requires IsWord(m) && IsWord(t) && IsWord(v)
    ensures NextWord(m + " " + t + " " + v, 0) == (m, |m|)
  {
    assert m + " " + t + " " + v == [] + m + (" " + t + " " + v);
    WordBetween([], m, " " + t + " " + v, 0);
  }

  lemma SecondOfThree(m: string, t: string, v: string)
    requires IsWord(m) && IsWord(t) && IsWord(v)
    ensures NextWord(m + " " + t + " " + v, |m|) == (t, |m| + 1 + |t|)
  {
    assert m + " " + t + " " + v == (m + " ") + t + (" " + v);
    WordBetween(m + " ", t, " " + v, |m|);
  }

  lemma ThirdOfThree(m: string, t: string, v: string)
    requires IsWord(m) && IsWord(t) && IsWord(v)
    ensures NextWord(m + " " + t + " " + v, |m| + 1 + |t|) == (v, |m + " " + t + " " + v|)
  {
    assert m + " " + t + " " + v == (m + " " + t + " ") + v + [];
    WordBetween(m + " " + t + " ", v, [], |m| + 1 + |t|);
  }

  /** A word after white space that starts at `i` and before white space or the end is
      what is read from `i`. */
  lemma WordBetween(p: string, w: string, q: string, i: nat)
    requires i <= |p| && forall k :: i <= k < |p| ==> IsSpace(p[k])
    requires IsWord(w) && (q == [] || IsSpace(q[0]))
    ensures NextWord(p + w + q, i) == (w, |p| + |w|)
  {
    var s := p + w + q;
    forall k | 0 <= k < |w| ensures s[|p| + k] == w[k] {
      assert s[|p| + k] == (p + w)[|p| + k];
    }
    if q != [] {
      assert s[|p| + |w|] == q[0];
    }
    NextWordAt(s, i, |p|, w);
  }

  /** RequestStatusOf in terms of the three words read. */
  lemma StatusOfWords(line: string, m: string, i: nat, t: string, j: nat, v: string)
    requires i <= j <= |line| && t != []
    requires NextWord(line, 0) == (m, i) && NextWord(line, i) == (t, j) && NextWord(line, j).0 == v
    ensures GetRequestType(m).None? ==> RequestStatusOf(line) == Failure(InvalidRequestType)
    ensures GetRequestType(m).Some? ==> RequestStatusOf(line) == Success(RequestStatus(GetRequestType(m), Tokens(t), v))
  {
  }

  /** A request line without a second word fails, and never with the method error
      when the first word names a method. */
  lemma MissingTarget(m: string, blanks: string)
    requires IsWord(m) && GetRequestType(m).Some?
    requires forall k :: 0 <= k < |blanks| ==> IsSpace(blanks[k])
    ensures RequestStatusOf(m + blanks) == Failure(EmptyTarget)
  {
    var line := m + blanks;
    if blanks != [] {
      assert line[|m|] == blanks[0];
    }
    NextWordAt(line, 0, 0, m);
    NextWordMeaning(line, |m|);
    forall k | |m| <= k < |line| ensures IsSpace(line[k]) {
      assert line[k] == blanks[k - |m|];
    }
  }

  // ---------------------------------------------------------------------------
  // Header lines (ParseHeaders)
  // ---------------------------------------------------------------------------

  /** The CRLF-terminated lines of `h` from `start` on; text after the last CRLF is no line. */
  function LinesFrom(h: string, start: nat): seq<string>
    requires start <= |h|
    decreases |h| - start
  {
    match Find(h, CRLF, start)
    case None => []
    case Some(e) => [h[start..e]] + LinesFrom(h, e + 2)
  }

  /** Lines each followed by CRLF: the inverse of LinesFrom. */
  function JoinCRLF(ls: seq<string>): string {
    if ls == [] then [] else ls[0] + CRLF + JoinCRLF(ls[1..])
  }

  /** `s` holds no CRLF. */
  predicate NoCRLF(s: string) {
    forall i :: 0 <= i < |s| ==> !OccursAt(s, CRLF, i)
  }

  /** CRLF occurs at `i` exactly when a CR at `i` is followed by an LF. */
  lemma OccursCRLF(s: string, i: nat)
    ensures OccursAt(s, CRLF, i) <==> i + 2 <= |s| && s[i] == '\r' && s[i + 1] == '\n'
  {
    if i + 2 <= |s| {
      assert s[i..i + 2] == [s[i], s[i + 1]];
    }
  }

  /** Searching for CRLF from the start of a CRLF-free line followed by CRLF finds that CRLF. */
  lemma FindLineEnd(p: string, l: string, r: string)
    requires NoCRLF(l)
    ensures Find(p + l + CRLF + r, CRLF, |p|) == Some(|p| + |l|)
    ensures (p + l + CRLF + r)[|p|..|p| + |l|] == l
  {
    var s := p + l + CRLF + r;
    var e := |p| + |l|;
    assert s[e] == '\r' && s[e + 1] == '\n';
    OccursCRLF(s, e);
    forall j: nat | |p| <= j < e ensures !OccursAt(s, CRLF, j) {
      OccursCRLF(s, j);
      OccursCRLF(l, j - |p|);
      assert s[j] == l[j - |p|];
      if j + 1 < e {
        assert s[j + 1] == l[j - |p| + 1];
      }
    }
    assert s[|p|..e] == l;
  }

  /** Searching for CRLF in a CRLF-free tail finds nothing. */
  lemma FindNoLine(p: string, t: string)
    requires NoCRLF(t)
    ensures Find(p + t, CRLF, |p|) == None
  {
    var s := p + t;
    forall j: nat | |p| <= j ensures !OccursAt(s, CRLF, j) {
      OccursCRLF(s, j);
      if j + 2 <= |s| {
        OccursCRLF(t, j - |p|);
        assert s[j] == t[j - |p|] && s[j + 1] == t[j - |p| + 1];
      }
    }
  }

  /** Reading the CRLF-terminated lines gives back the lines joined with CRLF, whatever
      unterminated text follows them. */
  lemma {:induction false} LinesFromJoin(s: string, p: string, ls: seq<string>, tail: string)
    requires s == p + JoinCRLF(ls) + tail
    requires forall i :: 0 <= i < |ls| ==> NoCRLF(ls[i])
    requires NoCRLF(tail)
    ensures LinesFrom(s, |p|) == ls
    decreases |ls|
  {
    if ls == [] {
      assert s == p + tail;
      FindNoLine(p, tail);
    } else {
      var l, rest := ls[0], JoinCRLF(ls[1..]) + tail;
      assert s == p + l + CRLF + rest;
      LinesFromCons(s, p, l, rest);
      var p' := p + l + CRLF;
      assert s == p' + JoinCRLF(ls[1..]) + tail;
      LinesFromJoin(s, p', ls[1..], tail);
      assert ls == [l] + ls[1..];
    }
  }

  /** One step of LinesFrom over a CRLF-free line: that line, then the lines after its CRLF. */
  lemma LinesFromCons(s: string, p: string, l: string, rest: string)
    requires s == p + l + CRLF + rest
    requires NoCRLF(l)
    ensures LinesFrom(s, |p|) == [l] + LinesFrom(s, |p + l + CRLF|)
  {
    FindLineEnd(p, l, rest);
    LinesFromStep(s, |p|, |p| + |l|, |p + l + CRLF|, l);
  }

  /** One step of LinesFrom: the text up to the CRLF found, then the lines after that CRLF. */
  lemma LinesFromStep(s: string, start: nat, e: nat, next: nat, l: string)
    requires start <= e && next == e + 2 <= |s|
    requires Find(s, CRLF, start) == Some(e)
    requires s[start..e] == l
    ensures LinesFrom(s, start) == [l] + LinesFrom(s, next)
  {
  }

  /** The header lines of a headers text written line by line, as ParseHeaders walks them. */
  lemma LinesRoundTrip(ls: seq<string>, tail: string)
    requires forall i :: 0 <= i < |ls| ==> NoCRLF(ls[i])
    requires NoCRLF(tail)
    ensures LinesFrom(JoinCRLF(ls) + tail, 0) == ls
  {
    LinesFromJoin(JoinCRLF(ls) + tail, [], ls, tail);
    assert [] + JoinCRLF(ls) + tail == JoinCRLF(ls) + tail;
  }

  /** One more line adds one more CRLF-terminated line at the end. */
  lemma {:induction false} JoinCRLFAppend(ls: seq<string>, l: string)
    ensures JoinCRLF(ls + [l]) == JoinCRLF(ls) + l + CRLF
  {
    if ls == [] {
      assert [] + [l] == [l];
      assert JoinCRLF([l][1..]) == [];
    } else {
      assert (ls + [l])[1..] == ls[1..] + [l];
      JoinCRLFAppend(ls[1..], l);
    }
  }

  /** The lines before the first empty one. */
  function Section(lines: seq<string>): (r: seq<string>)
    ensures |r| <= |lines| && forall i :: 0 <= i < |r| ==> r[i] == lines[i]
    ensures forall i :: 0 <= i < |r| ==> r[i] != []
    ensures |r| < |lines| ==> lines[|r|] == []
  {
    if lines == [] || lines[0] == [] then [] else [lines[0]] + Section(lines[1..])
  }

  const Blanks: set<char> := {' ', '\t'}

  /** value.erase(0, value.find_first_not_of(" \t")): drop leading spaces and tabs; a value
      of blanks only becomes empty, as erasing up to npos erases everything. */
  function TrimLeft(s: string): (r: string)
    ensures |r| <= |s| && forall k :: 0 <= k < |s| - |r| ==> s[k] in Blanks
    ensures forall k :: 0 <= k < |r| ==> r[k] == s[|s| - |r| + k]
    ensures r == [] || r[0] !in Blanks
  {
    match FirstNotOf(s, Blanks)
    case None => []
    case Some(n) => s[n..]
  }

  /** A header line's key (before the first colon) and trimmed value, or None without a colon. */
  function SplitHeader(line: string): (r: Option<(string, string)>)
    ensures r.None? <==> ':' !in line
  {
    match FirstOf(line, {':'})
    case None => None
    case Some(c) => Some((line[..c], TrimLeft(line[c + 1..])))
  }

  /** The key is the text before the first colon, the value what follows it with
      leading blanks removed. */
  lemma SplitHeaderMeaning(line: string)
    requires ':' in line
    ensures var (key, value) := SplitHeader(line).value;
      && |key| < |line| && line[..|key|] == key && line[|key|] == ':' && ':' !in key
      && value == TrimLeft(line[|key| + 1..])
  {
    var c := FirstOf(line, {':'}).value;
    assert ':' !in line[..c] by {
      forall k | 0 <= k < c ensures line[..c][k] != ':' {
        assert line[k] !in {':'};
      }
    }
  }

  /** The scan of ParseHeaders over its lines, starting from `acc`: stop at an empty line,
      fail at a line without a colon, and let a later value for a key overwrite an earlier one. */
  function ScanHeaders(lines: seq<string>, acc: map<string, string>): Result<map<string, string>, ParseError> {
    if lines == [] || lines[0] == [] then Success(acc)
    else
      var kv := SplitHeader(lines[0]);
      if kv.None? then Failure(HeaderWithoutColon)
      else ScanHeaders(lines[1..], acc[kv.value.0 := kv.value.1])
  }

  /** What ParseHeaders(h) returns, or the error it raises. */
  function HeadersOf(h: string): Result<map<string, string>, ParseError> {
    ScanHeaders(LinesFrom(h, 0), map[])
  }

  /** ParseHeaders: walk the "\r\n"-terminated lines of `h`, inserting each into the map. */
  method ParseHeaders(h: string) returns (r: Result<map<string, string>, ParseError>)
    ensures r == HeadersOf(h)
  {
    var headers: map<string, string> := map[];
    var start := 0;
    var end := Find(h, CRLF, start);
    while end.Some?
      invariant start <= |h|
      invariant end == Find(h, CRLF, start)
      invariant ScanHeaders(LinesFrom(h, start), headers) == HeadersOf(h)
      decreases |h| - start
    {
      var header := h[start..end.value];
      if header == [] {
        break;
      }
      var colon := FirstOf(header, {':'});
      if colon.None? {
        return Failure(HeaderWithoutColon);
      }
      var key := header[..colon.value];
      var value := TrimLeft(header[colon.value + 1..]);
      headers := headers[key := value];
      start := end.value + 2;
      end := Find(h, CRLF, start);
    }
    return Success(headers);
  }

  /** Lines after the first empty line are never looked at. */
  lemma {:induction false} ScanStopsAtBlank(lines: seq<string>, acc: map<string, string>)
    ensures ScanHeaders(lines, acc) == ScanHeaders(Section(lines), acc)
  {
    if lines != [] && lines[0] != [] {
      var s := Section(lines);
      assert s[1..] == Section(lines[1..]);
      if ':' in lines[0] {
        var kv := SplitHeader(lines[0]).value;
        ScanStopsAtBlank(lines[1..], acc[kv.0 := kv.1]);
      }
    }
  }

  /** Every line has a colon. */
  predicate AllHaveColon(s: seq<string>) {
    forall i :: 0 <= i < |s| ==> ':' in s[i]
  }

  lemma AllHaveColonCons(x: string, t: seq<string>)
    ensures AllHaveColon([x] + t) <==> ':' in x && AllHaveColon(t)
  {
    var s := [x] + t;
    assert s[0] == x;
    assert forall i :: 0 <= i < |t| ==> s[i + 1] == t[i];
  }

  /** The scan fails exactly when some line before the first empty one has no colon. */
  lemma {:induction false} ScanFailsIff(lines: seq<string>, acc: map<string, string>)
    ensures ScanHeaders(lines, acc).Failure? <==> !AllHaveColon(Section(lines))
  {
    if lines != [] && lines[0] != [] {
      var t := Section(lines[1..]);
      assert Section(lines) == [lines[0]] + t;
      AllHaveColonCons(lines[0], t);
      if ':' in lines[0] {
        var kv := SplitHeader(lines[0]).value;
        ScanFailsIff(lines[1..], acc[kv.0 := kv.1]);
      }
    }
  }

  /** The line sets `key`. */
  predicate SetsKey(line: string, key: string) {
    SplitHeader(line).Some? && SplitHeader(line).value.0 == key
  }

  /** Lines none of which is empty, as the scan sees them before the first empty one. */
  predicate NoneEmpty(lines: seq<string>) {
    forall k :: 0 <= k < |lines| ==> lines[k] != []
  }

  /** After a successful scan, a key no line sets keeps its state in `acc`. */
  lemma {:induction false} ScanUnsetKey(lines: seq<string>, acc: map<string, string>, key: string)
    requires NoneEmpty(lines) && ScanHeaders(lines, acc).Success?
    requires forall k :: 0 <= k < |lines| ==> !SetsKey(lines[k], key)
    ensures var m := ScanHeaders(lines, acc).value;
      (key in m <==> key in acc) && (key in acc ==> m[key] == acc[key])
  {
    if lines != [] {
      assert lines[0] != [];
      var kv := SplitHeader(lines[0]).value;
      assert !SetsKey(lines[0], key);
      var rest := lines[1..];
      assert NoneEmpty(rest) by {
        forall k | 0 <= k < |rest| ensures rest[k] != [] {
          assert rest[k] == lines[k + 1];
        }
      }
      forall k | 0 <= k < |rest| ensures !SetsKey(rest[k], key) {
        assert rest[k] == lines[k + 1];
      }
      ScanUnsetKey(rest, acc[kv.0 := kv.1], key);
    }
  }

  /** After a successful scan, a key holds the value of the last line that sets it. */
  lemma {:induction false} ScanLastWins(lines: seq<string>, acc: map<string, string>, key: string, i: nat)
    requires NoneEmpty(lines) && ScanHeaders(lines, acc).Success?
    requires i < |lines| && SetsKey(lines[i], key)
    requires forall j :: i < j < |lines| ==> !SetsKey(lines[j], key)
    ensures var m := ScanHeaders(lines, acc).value;
      key in m && m[key] == SplitHeader(lines[i]).value.1
  {
    assert lines[0] != [];
    var kv := SplitHeader(lines[0]).value;
    var acc' := acc[kv.0 := kv.1];
    var rest := lines[1..];
    assert ScanHeaders(lines, acc) == ScanHeaders(rest, acc');
    assert NoneEmpty(rest) by {
      forall k | 0 <= k < |rest| ensures rest[k] != [] {
        assert rest[k] == lines[k + 1];
      }
    }
    forall k | i <= k < |rest| ensures !SetsKey(rest[k], key) {
      assert rest[k] == lines[k + 1];
    }
    if i == 0 {
      ScanUnsetKey(rest, acc', key);
    } else {
      assert rest[i - 1] == lines[i];
      ScanLastWins(rest, acc', key, i - 1);
    }
  }

  /** In `m`, made from the header lines `s`, `key` is present exactly when some line sets it,
      and holds the value of the last such line. */
  ghost predicate LastWins(s: seq<string>, m: map<string, string>, key: string) {
    && (key in m <==> exists i :: 0 <= i < |s| && SetsKey(s[i], key))
    && forall i :: 0 <= i < |s| && SetsKey(s[i], key) && (forall j :: i < j < |s| ==> !SetsKey(s[j], key)) ==>
      key in m && m[key] == SplitHeader(s[i]).value.1
  }

  /** ParseHeaders keeps, for each key, the value of the last header line before the
      empty line that sets it; keys no such line sets are absent. */
  lemma HeadersLastWins(h: string, key: string)
    requires HeadersOf(h).Success?
    ensures LastWins(Section(LinesFrom(h, 0)), HeadersOf(h).value, key)
  {
    var lines := LinesFrom(h, 0);
    assert HeadersOf(h) == ScanHeaders(lines, map[]);
    SectionLastWins(lines, key);
  }

  lemma SectionLastWins(lines: seq<string>, key: string)
    requires ScanHeaders(lines, map[]).Success?
    ensures LastWins(Section(lines), ScanHeaders(lines, map[]).value, key)
  {
    var s := Section(lines);
    ScanStopsAtBlank(lines, map[]);
    assert NoneEmpty(s);
    var m := ScanHeaders(s, map[]).value;
    forall i | 0 <= i < |s| && SetsKey(s[i], key) && (forall j :: i < j < |s| ==> !SetsKey(s[j], key))
      ensures key in m && m[key] == SplitHeader(s[i]).value.1
    {
      ScanLastWins(s, map[], key, i);
    }
    if exists i :: 0 <= i < |s| && SetsKey(s[i], key) {
      var i :| 0 <= i < |s| && SetsKey(s[i], key);
      var last := LastSetting(s, key, i);
      ScanLastWins(s, map[], key, last);
    } else {
      ScanUnsetKey(s, map[], key);
    }
  }

  /** The last line at or after `i` that sets `key`. */
  lemma LastSetting(s: seq<string>, key: string, i: nat) returns (last: nat)
    requires i < |s| && SetsKey(s[i], key)
    ensures i <= last < |s| && SetsKey(s[last], key)
    ensures forall j :: last < j < |s| ==> !SetsKey(s[j], key)
    decreases |s| - i
  {
    if exists j :: i < j < |s| && SetsKey(s[j], key) {
      var j :| i < j < |s| && SetsKey(s[j], key);
      last := LastSetting(s, key, j);
    } else {
      last := i;
    }
  }

  /** The first character of `cs` in `p`, a character of `cs`, and more text is that character. */
  lemma FirstOfAfter(p: string, c: char, rest: string, cs: set<char>)
    requires c in cs && forall k :: 0 <= k < |p| ==> p[k] !in cs
    ensures FirstOf(p + [c] + rest, cs) == Some(|p|)
  {
    var s := p + [c] + rest;
    assert s[|p|] in cs;
    assert forall k :: 0 <= k < |p| ==> s[k] == p[k];
  }

  /** A line of a key without colon, a colon and more text splits at that colon. */
  lemma SplitHeaderAt(key: string, rest: string)
    requires ':' !in key
    ensures SplitHeader(key + ":" + rest) == Some((key, TrimLeft(rest)))
  {
    var s := key + ":" + rest;
    assert key + [':'] + rest == s;
    FirstOfAfter(key, ':', rest, {':'});
    assert s[..|key|] == key && s[|key| + 1..] == rest;
  }

  /** Leading blanks before a value that does not start with one are dropped. */
  lemma TrimBlanks(p: string, v: string)
    requires forall k :: 0 <= k < |p| ==> p[k] in Blanks
    requires v == [] || v[0] !in Blanks
    ensures TrimLeft(p + v) == v
  {
    var s := p + v;
    assert forall k :: 0 <= k < |p| ==> s[k] == p[k];
    if v != [] {
      assert s[|p|] == v[0];
      assert s[|p|..] == v;
    }
  }

  /** A worked example: of two lines setting the same key, the later wins, its leading
      blanks dropped, and whatever follows the empty line is never read. */
  lemma ScanExample(key: string, v1: string, v2: string, rest: seq<string>)
    requires ':' !in key
    requires v1 == [] || v1[0] !in Blanks
    requires v2 == [] || v2[0] !in Blanks
    ensures ScanHeaders([key + ": " + v1, key + ": \t " + v2, ""] + rest, map[]) == Success(map[key := v2])
  {
    HeaderLineValue(key, ": ", v1);
    HeaderLineValue(key, ": \t ", v2);
    var lines := [key + ": " + v1, key + ": \t " + v2, ""] + rest;
    assert lines[0] == key + ": " + v1 && lines[1] == key + ": \t " + v2 && lines[2] == [];
    ScanTwoThenBlank(lines, key, v1, v2);
  }

  /** A header line whose value follows the colon and a run of blanks splits into the key and
      that value. */
  lemma HeaderLineValue(key: string, sep: string, v: string)
    requires ':' !in key && |sep| >= 1 && sep[0] == ':'
    requires forall k :: 1 <= k < |sep| ==> sep[k] in Blanks
    requires v == [] || v[0] !in Blanks
    ensures SplitHeader(key + sep + v) == Some((key, v))
  {
    var blanks := sep[1..];
    assert sep == ":" + blanks;
    assert key + sep + v == key + ":" + (blanks + v);
    SplitHeaderAt(key, blanks + v);
    TrimBlanks(blanks, v);
  }

  /** Two header lines for the same key, then the blank line: the second value is kept. */
  lemma ScanTwoThenBlank(lines: seq<string>, key: string, a: string, b: string)
    requires |lines| >= 3 && lines[0] != [] && lines[1] != [] && lines[2] == []
    requires SplitHeader(lines[0]) == Some((key, a)) && SplitHeader(lines[1]) == Some((key, b))
    ensures ScanHeaders(lines, map[]) == Success(map[key := b])
  {
    var m1 := map[key := a];
    ScanStep(lines, map[], key, a);
    var t := lines[1..];
    assert t[0] == lines[1];
    ScanStep(t, m1, key, b);
    assert t[1..][0] == lines[2];
    ScanBlank(t[1..], m1[key := b]);
    Overwrite(key, a, b);
  }

  /** Setting a key twice keeps only the second value. */
  lemma Overwrite(key: string, a: string, b: string)
    ensures map[key := a][key := b] == map[key := b]
  {
  }

  /** One header line read by the scan. */
  lemma ScanStep(lines: seq<string>, acc: map<string, string>, key: string, value: string)
    requires lines != [] && lines[0] != [] && SplitHeader(lines[0]) == Some((key, value))
    ensures ScanHeaders(lines, acc) == ScanHeaders(lines[1..], acc[key := value])
  {
  }

  /** The scan ends at an empty line. */
  lemma ScanBlank(lines: seq<string>, acc: map<string, string>)
    requires lines != [] && lines[0] == []
    ensures ScanHeaders(lines, acc) == Success(acc)
  {
  }

  // ---------------------------------------------------------------------------
  // The HttpRequest constructor
  // ---------------------------------------------------------------------------

  /** What HttpRequest(rawRequest) constructs, or the error it raises. */
  function Parse(raw: string): Result<HttpRequest, ParseError> {
    if raw == [] then Success(EmptyRequest)
    else match FirstOf(raw, LineBreaks)
      case None => Failure(MissingLineTerminator)
      case Some(idx) =>
        var status :- RequestStatusOf(raw[..idx]);
        ParseAfterLine(raw, idx, status)
  }

  /** The rest of the constructor once the request line, ending at `idx`, is read: the
      headers two characters on, then the body. */
  function ParseAfterLine(raw: string, idx: nat, status: RequestStatus): Result<HttpRequest, ParseError> {
    if idx + 2 > |raw| then Failure(HeadersOutOfRange)
    else
      var headers :- HeadersOf(raw[idx + 2..]);
      Success(HttpRequest(status, headers, BodyOf(raw)))
  }

  /** m_body: the text after the last CR or LF, or "" when there is none. */
  function BodyOf(raw: string): string {
    match LastOf(raw, LineBreaks)
    case None => ""
    case Some(end) => raw[end + 1..]
  }

  /** HttpRequest(const std::string&): request line, then headers, then body, in that order. */
  method ParseRequest(raw: string) returns (r: Result<HttpRequest, ParseError>)
    ensures r == Parse(raw)
  {
    if raw == [] {
      return Success(EmptyRequest);
    }
    var idx := FirstOf(raw, LineBreaks);
    if idx.None? {
      return Failure(MissingLineTerminator);
    }
    var status := ParseRequestStatus(raw[..idx.value]);
    if status.Failure? {
      return Failure(status.error);
    }
    assert Parse(raw) == ParseAfterLine(raw, idx.value, status.value);
    if idx.value + 2 > |raw| {
      return Failure(HeadersOutOfRange);
    }
    var headers := ParseHeaders(raw[idx.value + 2..]);
    if headers.Failure? {
      return Failure(headers.error);
    }
    var body := "";
    var end := LastOf(raw, LineBreaks);
    if end.Some? {
      body := raw[end.value + 1..];
    }
    return Success(HttpRequest(status.value, headers.value, body));
  }

  /** A final empty line changes nothing: the scan ends there or earlier. */
  lemma {:induction false} ScanAppendBlank(hs: seq<string>, acc: map<string, string>)
    ensures ScanHeaders(hs + [""], acc) == ScanHeaders(hs, acc)
  {
    if hs != [] && hs[0] != [] {
      assert (hs + [""])[0] == hs[0] && (hs + [""])[1..] == hs[1..] + [""];
      var kv := SplitHeader(hs[0]);
      if kv.Some? {
        ScanAppendBlank(hs[1..], acc[kv.value.0 := kv.value.1]);
      }
    } else if hs != [] {
      assert (hs + [""])[0] == hs[0];
    }
  }

  /** The last character of `cs` in `x`, a character of `cs`, and text without one is that character. */
  lemma LastOfBefore(x: string, c: char, b: string, cs: set<char>)
    requires c in cs && forall k :: 0 <= k < |b| ==> b[k] !in cs
    ensures LastOf(x + [c] + b, cs) == Some(|x|)
    ensures (x + [c] + b)[|x| + 1..] == b
  {
    var xc := x + [c];
    assert xc[|xc| - 1] == c;
    assert LastOf(xc, cs) == Some(|x|);
    LastOfPadded(xc, b, cs);
    SuffixOfAppend(xc, b, |x| + 1);
    assert xc[|x| + 1..] == [];
  }

  /** A request written out as a request line, CRLF, header lines each ending in CRLF, the blank
      line and a body without CR or LF parses into that line's status, the scan of those header
      lines and that body. */
  lemma ParseRoundTrip(line: string, hs: seq<string>, body: string)
    requires forall k :: 0 <= k < |line| ==> line[k] !in LineBreaks
    requires forall i :: 0 <= i < |hs| ==> NoCRLF(hs[i])
    requires forall k :: 0 <= k < |body| ==> body[k] !in LineBreaks
    ensures var raw := line + CRLF + JoinCRLF(hs) + CRLF + body;
      && (RequestStatusOf(line).Failure? ==> Parse(raw) == Failure(RequestStatusOf(line).error))
      && (RequestStatusOf(line).Success? && ScanHeaders(hs, map[]).Failure? ==>
            Parse(raw) == Failure(HeaderWithoutColon))
      && (RequestStatusOf(line).Success? && ScanHeaders(hs, map[]).Success? ==>
            Parse(raw) == Success(HttpRequest(RequestStatusOf(line).value, ScanHeaders(hs, map[]).value, body)))
  {
    var h := JoinCRLF(hs) + CRLF + body;
    var raw := line + CRLF + JoinCRLF(hs) + CRLF + body;
    assert raw == line + CRLF + h;
    RequestLineSplit(line, h);
    ScanBodyTail(hs, body);
    RequestBody(line + CRLF + JoinCRLF(hs), body);
    ScanError(hs, map[]);
    ParseStages(raw, line, h);
  }

  /** The only error the header scan raises is the missing colon. */
  lemma {:induction false} ScanError(lines: seq<string>, acc: map<string, string>)
    ensures ScanHeaders(lines, acc).Failure? ==> ScanHeaders(lines, acc).error == HeaderWithoutColon
  {
    if lines != [] && lines[0] != [] && SplitHeader(lines[0]).Some? {
      var kv := SplitHeader(lines[0]).value;
      ScanError(lines[1..], acc[kv.0 := kv.1]);
    }
  }

  /** Parse in terms of its three parts, once the request line and the headers text are known. */
  lemma ParseStages(raw: string, line: string, h: string)
    requires FirstOf(raw, LineBreaks) == Some(|line|) && raw[..|line|] == line
    requires |line| + 2 <= |raw| && raw[|line| + 2..] == h
    ensures RequestStatusOf(line).Failure? ==> Parse(raw) == Failure(RequestStatusOf(line).error)
    ensures RequestStatusOf(line).Success? && HeadersOf(h).Failure? ==> Parse(raw) == Failure(HeadersOf(h).error)
    ensures RequestStatusOf(line).Success? && HeadersOf(h).Success? ==>
      Parse(raw) == Success(HttpRequest(RequestStatusOf(line).value, HeadersOf(h).value, BodyOf(raw)))
  {
  }

  /** Text that starts with a line without CR or LF and a CRLF is cut at that CRLF. */
  lemma RequestLineSplit(line: string, h: string)
    requires forall k :: 0 <= k < |line| ==> line[k] !in LineBreaks
    ensures var raw := line + CRLF + h;
      && FirstOf(raw, LineBreaks) == Some(|line|)
      && raw[..|line|] == line && |line| + 2 <= |raw| && raw[|line| + 2..] == h
  {
    var raw := line + CRLF + h;
    assert raw == line + ['\r'] + (['\n'] + h);
    FirstOfAfter(line, '\r', ['\n'] + h, LineBreaks);
    assert raw[..|line|] == line;
    assert raw[|line| + 2..] == h;
  }

  /** Text ending in a CRLF and a body without CR or LF has that body. */
  lemma RequestBody(x: string, body: string)
    requires forall k :: 0 <= k < |body| ==> body[k] !in LineBreaks
    ensures BodyOf(x + CRLF + body) == body
  {
    assert x + CRLF + body == (x + ['\r']) + ['\n'] + body;
    LastOfBefore(x + ['\r'], '\n', body, LineBreaks);
  }

  /** The headers text of such a request: its lines, then the blank line, then a body the scan
      never reads. */
  lemma ScanBodyTail(hs: seq<string>, body: string)
    requires forall i :: 0 <= i < |hs| ==> NoCRLF(hs[i])
    requires forall k :: 0 <= k < |body| ==> body[k] !in LineBreaks
    ensures HeadersOf(JoinCRLF(hs) + CRLF + body) == ScanHeaders(hs, map[])
  {
    var ls := hs + [""];
    JoinCRLFAppend(hs, "");
    assert JoinCRLF(ls) + body == JoinCRLF(hs) + CRLF + body;
    forall i | 0 <= i < |ls| ensures NoCRLF(ls[i]) {
      if i < |hs| {
        assert ls[i] == hs[i];
      }
    }
    forall j | 0 <= j < |body| ensures !OccursAt(body, CRLF, j) {
      OccursCRLF(body, j);
    }
    LinesRoundTrip(ls, body);
    ScanAppendBlank(hs, map[]);
  }

  /** Non-empty text without CR or LF is refused. */
  lemma ParseNoLineBreak(raw: string)
    requires raw != [] && forall k :: 0 <= k < |raw| ==> raw[k] != '\r' && raw[k] != '\n'
    ensures Parse(raw) == Failure(MissingLineTerminator)
  {
  }

  /** When the only line break is the last character and the request line is valid,
      reading the headers two characters on is out of range. */
  lemma ParseBreakAtEnd(line: string, c: char)
    requires c in LineBreaks && forall k :: 0 <= k < |line| ==> line[k] !in LineBreaks
    requires RequestStatusOf(line).Success?
    ensures Parse(line + [c]) == Failure(HeadersOutOfRange)
  {
    var raw := line + [c];
    var f := FirstOf(raw, LineBreaks);
    assert raw[|line|] == c;
    assert forall k :: 0 <= k < |line| ==> raw[k] == line[k];
    assert f == Some(|line|);
    assert raw[..|line|] == line;
  }

  /** The body is the text after the last CR or LF, so it holds neither; the empty request
      has an empty body. */
  lemma ParsedBody(raw: string)
    requires Parse(raw).Success?
    ensures raw == [] ==> Parse(raw).value.body == []
    ensures raw != [] ==>
      LastOf(raw, LineBreaks).Some? && Parse(raw).value.body == raw[LastOf(raw, LineBreaks).value + 1..]
    ensures forall k :: 0 <= k < |Parse(raw).value.body| ==> Parse(raw).value.body[k] !in LineBreaks
  {
    if raw != [] {
      var idx := FirstOf(raw, LineBreaks).value;
      var end := LastOf(raw, LineBreaks);
      assert raw[idx] in LineBreaks;
      var body := raw[end.value + 1..];
      forall k | 0 <= k < |body| ensures body[k] !in LineBreaks {
        assert body[k] == raw[end.value + 1 + k];
      }
    }
  }

  /** A parsed non-empty request has a method and a target starting with the "/" token;
      the empty request has no target tokens, no headers and no body. */
  lemma ParsedWellFormed(raw: string)
    requires Parse(raw).Success?
    ensures var st := Parse(raw).value.status;
      raw != [] ==> st.requestType.Some? && |st.target| >= 1 && st.target[0] == "/"
    ensures raw == [] ==> Parse(raw).value == HttpRequest(RequestStatus(None, [], ""), map[], "")
  {
    if raw != [] {
      var idx := FirstOf(raw, LineBreaks).value;
      var line := raw[..idx];
      var (rawMethod, i) := NextWord(line, 0);
      var (rawTarget, j) := NextWord(line, i);
      TokensStartWithSlash(rawTarget);
    }
  }
}
