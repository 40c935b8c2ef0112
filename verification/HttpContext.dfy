/** The incremental request parser (arale/net/http/HttpContext.cc). */
module HttpContext {
  import opened Bytes
  import opened HttpRequest
  import B = Buffer

  const TAB: byte := 9
  const SPACE: byte := 32
  const COLON: byte := 58
  const QUESTION: byte := 63
  const HTTP_1: seq<byte> := [72, 84, 84, 80, 47, 49, 46]  // HTTP/1.
  const ZERO: byte := 48
  const ONE: byte := 49

  /** `std::find`: the first position of `b`, or the length. */
  function Find(s: seq<byte>, b: byte): (n: nat)
    ensures n <= |s| && (n < |s| ==> s[n] == b)
    ensures forall i :: 0 <= i < n ==> s[i] != b
  {
    if s == [] || s[0] == b then 0 else 1 + Find(s[1..], b)
  }

  /** What happens to a request line. BadRange: an inverted range is handed to `string::assign`, which
      is undefined (libstdc++ throws). */
  datatype Line = Accepted(request: Request) | Rejected(request: Request) | BadRange

  /** The version at the end of a request line. */
  function VersionOf(s: seq<byte>): Version {
    if |s| == 8 && s[..7] == HTTP_1 then
      if s[7] == ONE then Http11 else if s[7] == ZERO then Http10 else Unknown
    else Unknown
  }

  /** `target` is followed by a space and `version`. As written, the search for the question mark starts
      at that space instead of at the start of the target. */
  function ParseTarget(form: Form, r: Request, target: seq<byte>, version: seq<byte>): Line {
    if form.AsWritten? && QUESTION in version then BadRange
    else
      var q := if form.AsWritten? then |target| else Find(target, QUESTION);
      var r1 := r.(path := target[..q], query := if q < |target| then target[q..] else r.query);
      var v := VersionOf(version);
      if v.Unknown? then Rejected(r1) else Accepted(r1.(version := v))
  }

  function ParseLine(form: Form, r: Request, line: seq<byte>): Line {
    var space := Find(line, SPACE);
    if space == |line| then Rejected(r)
    else
      var r1 := r.(verb := MethodOf(line[..space]));
      if r1.verb.Invalid? then Rejected(r1)
      else
        var rest := line[space + 1..];
        var space2 := Find(rest, SPACE);
        if space2 == |rest| then Rejected(r1)
        else ParseTarget(form, r1, rest[..space2], rest[space2 + 1..])
  }

  datatype ParseState = ExpectRequestLine | ExpectHeaders | ExpectBody | GotAll

  datatype Outcome = More | Done | Bad | Crashed

  /** The parser after a call: its state and request, and the bytes left in the buffer. */
  datatype Parsed = Parsed(state: ParseState, request: Request, rest: seq<byte>, outcome: Outcome)

  predicate Parsing(state: ParseState) {
    state.ExpectRequestLine? || state.ExpectHeaders?
  }

  function Parse(form: Form, state: ParseState, r: Request, s: seq<byte>): (p: Parsed)
    requires Parsing(state)
    ensures p.outcome.More? ==> Parsing(p.state)
    decreases |s|
  {
    match B.FirstCRLF(s)
    case None => Parsed(state, r, s, More)
    case At(i) =>
      var line, tail := s[..i], s[i + 2..];
      if state.ExpectRequestLine? then
        match ParseLine(form, r, line)
        case Accepted(r1) => Parse(form, ExpectHeaders, r1, tail)
        case Rejected(r1) => Parsed(state, r1, s, Bad)
        case BadRange => Parsed(state, r, s, Crashed)
      else
        var colon := Find(line, COLON);
        if colon != |line| then Parse(form, state, WithHeader(r, line, colon), tail)
        else Parsed(GotAll, r, tail, Done)
  }

  /** One turn of the loop on the request line. */
  lemma ParseRequestLineTurn(form: Form, r: Request, s: seq<byte>, i: nat)
    requires B.FirstCRLF(s) == B.At(i)
    ensures Parse(form, ExpectRequestLine, r, s) ==
            match ParseLine(form, r, s[..i])
            case Accepted(r1) => Parse(form, ExpectHeaders, r1, s[i + 2..])
            case Rejected(r1) => Parsed(ExpectRequestLine, r1, s, Bad)
            case BadRange => Parsed(ExpectRequestLine, r, s, Crashed)
  {
  }

  /** One turn of the loop on a header line. */
  lemma ParseHeaderTurn(form: Form, r: Request, s: seq<byte>, i: nat)
    requires B.FirstCRLF(s) == B.At(i)
    ensures var line := s[..i];
            var colon := Find(line, COLON);
            Parse(form, ExpectHeaders, r, s) ==
            if colon != |line| then Parse(form, ExpectHeaders, WithHeader(r, line, colon), s[i + 2..])
            else Parsed(GotAll, r, s[i + 2..], Done)
  {
  }

  /** Without a CR LF the call waits for more bytes. */
  lemma ParseWaits(form: Form, state: ParseState, r: Request, s: seq<byte>)
    requires Parsing(state) && B.FirstCRLF(s).None?
    ensures Parse(form, state, r, s) == Parsed(state, r, s, More)
  {
  }

  class HttpContext {
    const form: Form  // of the search for the question mark
    var parseState: ParseState
    const request: HttpRequest

    constructor (form: Form)
      ensures parseState == ExpectRequestLine && request.Value() == EMPTY && fresh(request) && this.form == form
    {
      this.form := form;
      parseState := ExpectRequestLine;
      request := new HttpRequest();
    }

    /** `crashed`: see BadRange. */
    method ParseRequestLine(line: seq<byte>) returns (ok: bool, crashed: bool)
      modifies request
      ensures var l := ParseLine(form, old(request.Value()), line);
              && crashed == l.BadRange? && (!crashed ==> ok == l.Accepted? && request.Value() == l.request)
      ensures request.receiveTime == old(request.receiveTime)
    {
      hide ParseTarget, MethodOf, Find;
      ok, crashed := false, false;
      var space := Find(line, SPACE);
      if space != |line| {
        var known := request.SetMethod(line[..space]);
        if known {
          var rest := line[space + 1..];
          space := Find(rest, SPACE);
          if space != |rest| {
            ok, crashed := ParseTargetAndVersion(rest[..space], rest[space + 1..]);
          }
        }
      }
    }

    method ParseTargetAndVersion(target: seq<byte>, version: seq<byte>) returns (ok: bool, crashed: bool)
      modifies request`path, request`query, request`version
      ensures var l := ParseTarget(form, old(request.Value()), target, version);
              && crashed == l.BadRange? && (!crashed ==> ok == l.Accepted? && request.Value() == l.request)
    {
      ok, crashed := false, false;
      var question := match form
        case AsWritten => |target| + 1 + Find(version, QUESTION)
        case Intended => Find(target, QUESTION);
      if question < |target| {
        request.path := target[..question];
        request.query := target[question..];
      } else if question > |target| && question != |target| + 1 + |version| {
        return false, true;  // setQuery(question, space) with question behind space
      } else {
        request.path := target;
        assert target[..|target|] == target;
      }
      ok := |version| == 8 && version[..7] == HTTP_1;
      if ok {
        if version[7] == ONE {
          request.version := Http11;
        } else if version[7] == ZERO {
          request.version := Http10;
        } else {
          ok := false;
        }
      }
    }

    /** The request-line branch of `parseRequest`, for a line that ends at `crlf`. */
    method TakeRequestLine(buf: B.Buffer, crlf: nat, receiveTime: int) returns (ok: bool, crashed: bool)
      requires buf.Valid() && crlf + 2 <= |buf.Contents()|
      modifies this`parseState, request, buf`readIndex, buf`writeIndex
      ensures buf.Valid()
      ensures var l := ParseLine(form, old(request.Value()), old(buf.Contents())[..crlf]);
              && crashed == l.BadRange? && (!crashed ==> ok == l.Accepted? && request.Value() == l.request)
      ensures if ok && !crashed
              then parseState == ExpectHeaders && request.receiveTime == receiveTime &&
                   buf.Contents() == old(buf.Contents())[crlf + 2..]
              else parseState == old(parseState) && request.receiveTime == old(request.receiveTime) &&
                   buf.Contents() == old(buf.Contents())
    {
      hide ParseLine;
      var line := buf.Peek(crlf);
      ok, crashed := ParseRequestLine(line);
      if ok && !crashed {
        parseState := ExpectHeaders;
        buf.RetrieveUntil(crlf + 2);
        request.receiveTime := receiveTime;
      }
    }

    /** The header branch of `parseRequest`. */
    method TakeHeader(buf: B.Buffer, crlf: nat) returns (hasMore: bool)
      requires buf.Valid() && crlf + 2 <= |buf.Contents()|
      modifies this`parseState, request`headers, buf`readIndex, buf`writeIndex
      ensures buf.Valid() && buf.Contents() == old(buf.Contents())[crlf + 2..]
      ensures var line := old(buf.Contents())[..crlf];
              var colon := Find(line, COLON);
              && hasMore == (colon != |line|)
              && parseState == (if hasMore then old(parseState) else GotAll)
              && request.Value() ==
                 if hasMore then WithHeader(old(request.Value()), line, colon) else old(request.Value())
      ensures request.receiveTime == old(request.receiveTime)
    {
      var line := buf.Peek(crlf);
      var colon := Find(line, COLON);
      hasMore := true;
      if colon != |line| {
        request.AddHeader(line, colon);
      } else {
        parseState := GotAll;
        hasMore := false;
      }
      buf.RetrieveUntil(crlf + 2);
    }

    method ParseRequest(buf: B.Buffer, receiveTime: int) returns (ok: bool, crashed: bool)
      requires buf.Valid() && Parsing(parseState)
      modifies this`parseState, request, buf`readIndex, buf`writeIndex
      ensures buf.Valid()
      ensures var p := Parse(form, old(parseState), old(request.Value()), old(buf.Contents()));
              && parseState == p.state && buf.Contents() == p.rest && crashed == p.outcome.Crashed?
              && (!crashed ==> request.Value() == p.request && ok == !p.outcome.Bad?)
      ensures request.receiveTime == if old(parseState).ExpectRequestLine? && !parseState.ExpectRequestLine?
                                     then receiveTime else old(request.receiveTime)
    {
      hide ParseLine, WithHeader, Parse, B.FirstCRLF, Find;
      var hasMore := true;
      ok, crashed := true, false;
      ghost var p := Parse(form, parseState, request.Value(), buf.Contents());
      while hasMore && !crashed
        invariant buf.Valid()
        invariant hasMore && !crashed ==>
                    Parsing(parseState) && ok && Parse(form, parseState, request.Value(), buf.Contents()) == p
        invariant !hasMore || crashed ==>
                    && parseState == p.state && buf.Contents() == p.rest && crashed == p.outcome.Crashed?
                    && (!crashed ==> request.Value() == p.request && ok == !p.outcome.Bad?)
        invariant request.receiveTime == if old(parseState).ExpectRequestLine? && !parseState.ExpectRequestLine?
                                         then receiveTime else old(request.receiveTime)
        invariant parseState.ExpectRequestLine? ==> old(parseState).ExpectRequestLine?
        decreases hasMore, |buf.Contents()|
      {
        var crlf := buf.FindCRLF();
        ghost var r, s := request.Value(), buf.Contents();
        if crlf.None? {
          ParseWaits(form, parseState, r, s);
          hasMore := false;
        } else if parseState.ExpectRequestLine? {
          ParseRequestLineTurn(form, r, s, crlf.index);
          ok, crashed := TakeRequestLine(buf, crlf.index, receiveTime);
          hasMore := ok && !crashed;
        } else {
          ParseHeaderTurn(form, r, s, crlf.index);
          hasMore := TakeHeader(buf, crlf.index);
        }
      }
    }
  }

  // ---- Deliveries ----

  function WithMore(p: Parsed, more: seq<byte>): Parsed {
    p.(rest := p.rest + more)
  }

  /** Bytes that arrive later: a call that had to wait goes on where it stopped, any other is not affected. */
  lemma {:induction false} ParseAppend(form: Form, state: ParseState, r: Request, s: seq<byte>, more: seq<byte>)
    requires Parsing(state)
    ensures var p := Parse(form, state, r, s);
            Parse(form, state, r, s + more) ==
            if p.outcome.More? then Parse(form, p.state, p.request, p.rest + more) else WithMore(p, more)
    decreases |s|
  {
    hide ParseLine, WithHeader, Parse, B.FirstCRLF;
    B.FirstCRLFAppend(s, more);
    match B.FirstCRLF(s)
    case None => ParseWaits(form, state, r, s);
    case At(i) =>
      var line, tail := s[..i], s[i + 2..];
      assert (s + more)[..i] == line && (s + more)[i + 2..] == tail + more;
      if state.ExpectRequestLine? {
        ParseRequestLineTurn(form, r, s, i);
        ParseRequestLineTurn(form, r, s + more, i);
        var l := ParseLine(form, r, line);
        if l.Accepted? {
          ParseAppend(form, ExpectHeaders, l.request, tail, more);
        }
      } else {
        ParseHeaderTurn(form, r, s, i);
        ParseHeaderTurn(form, r, s + more, i);
        var colon := Find(line, COLON);
        if colon != |line| {
          ParseAppend(form, ExpectHeaders, WithHeader(r, line, colon), tail, more);
        }
      }
  }

  /** One parseRequest call per delivered piece until the request is done or has failed; pieces after that
      only join the bytes left over. */
  function Feed(form: Form, state: ParseState, r: Request, kept: seq<byte>, pieces: seq<seq<byte>>): Parsed
    requires Parsing(state) && pieces != []
    decreases |pieces|
  {
    var p := Parse(form, state, r, kept + pieces[0]);
    if |pieces| == 1 || !p.outcome.More? then WithMore(p, Concat(pieces[1..]))
    else Feed(form, p.state, p.request, p.rest, pieces[1..])
  }

  /** Feeding a stream in pieces gives the same request, state, outcome and left-over bytes as feeding it at once. */
  lemma {:induction false} FeedIsParse(form: Form, state: ParseState, r: Request, kept: seq<byte>,
                                       pieces: seq<seq<byte>>)
    requires Parsing(state) && pieces != []
    ensures Feed(form, state, r, kept, pieces) == Parse(form, state, r, kept + Concat(pieces))
    decreases |pieces|
  {
    hide Parse;
    var p := Parse(form, state, r, kept + pieces[0]);
    ParseAppend(form, state, r, kept + pieces[0], Concat(pieces[1..]));
    assert kept + Concat(pieces) == kept + pieces[0] + Concat(pieces[1..]);
    if |pieces| == 1 {
      assert Concat(pieces[1..]) == [] && p.rest + [] == p.rest;
      assert kept + pieces[0] + [] == kept + pieces[0];
    } else if p.outcome.More? {
      FeedIsParse(form, p.state, p.request, p.rest, pieces[1..]);
    }
  }

  // ---- Requests on the wire ----

  const CRLF: seq<byte> := [CR, LF]

  ghost predicate Plain(s: seq<byte>) {
    forall i: nat :: !B.CRLFAt(s, i)
  }

  lemma NothingPlain()
    ensures Plain([])
  {
  }

  lemma LineEnds(line: seq<byte>, tail: seq<byte>)
    requires Plain(line)
    ensures var s := line + CRLF + tail;
            B.FirstCRLF(s) == B.At(|line|) && s[..|line|] == line && s[|line| + 2..] == tail
  {
    var s := line + CRLF + tail;
    assert B.CRLFAt(s, |line|);
    assert forall k: nat :: k < |line| ==> (B.CRLFAt(s, k) ==> B.CRLFAt(line, k));
    B.FirstCRLFIsFirst(s, |line|);
  }

  function VersionName(v: Version): seq<byte>
    requires !v.Unknown?
  {
    HTTP_1 + [if v.Http11? then ONE else ZERO]
  }

  /** A known method, a target, and whatever stands in the place of the version. */
  function MethodLine(m: Method, target: seq<byte>, version: seq<byte>): seq<byte> {
    MethodName(m) + [SPACE] + target + [SPACE] + version
  }

  function RequestLine(m: Method, target: seq<byte>, v: Version): seq<byte>
    requires !v.Unknown?
  {
    MethodLine(m, target, VersionName(v))
  }

  /** A header field: a name, a value, and the optional white space around the value. */
  datatype Header = Header(name: seq<byte>, lead: seq<byte>, value: seq<byte>, trail: seq<byte>)

  function HeaderLine(h: Header): seq<byte> {
    h.name + [COLON] + h.lead + h.value + h.trail
  }

  function HeaderLines(hs: seq<Header>): seq<byte> {
    if hs == [] then CRLF else HeaderLine(hs[0]) + CRLF + HeaderLines(hs[1..])
  }

  /** Later headers replace earlier ones of the same name. */
  function HeaderMap(base: map<seq<byte>, seq<byte>>, hs: seq<Header>): map<seq<byte>, seq<byte>>
    decreases |hs|
  {
    if hs == [] then base else HeaderMap(base[hs[0].name := hs[0].value], hs[1..])
  }

  /** OWS, section 3.2.3 of RFC 7230: any number of spaces and tabs. */
  ghost predicate IsOws(s: seq<byte>) {
    forall i :: 0 <= i < |s| ==> s[i] == SPACE || s[i] == TAB
  }

  ghost predicate IsHeader(h: Header) {
    && COLON !in h.name && Plain(h.name) && Plain(h.value) && IsTrimmed(h.value)
    && IsOws(h.lead) && IsOws(h.trail)
  }

  /** In the map a name has the value of its last header, or what it had before if there is none. */
  lemma {:induction false} LastHeaderWins(base: map<seq<byte>, seq<byte>>, hs: seq<Header>, name: seq<byte>, k: int)
    requires -1 <= k < |hs| && (k >= 0 ==> hs[k].name == name)
    requires forall j :: k < j < |hs| ==> hs[j].name != name
    ensures k >= 0 ==> name in HeaderMap(base, hs) && HeaderMap(base, hs)[name] == hs[k].value
    ensures k < 0 ==> (name in HeaderMap(base, hs) <==> name in base)
    ensures k < 0 && name in base ==> HeaderMap(base, hs)[name] == base[name]
    decreases |hs|
  {
    if hs != [] {
      LastHeaderWins(base[hs[0].name := hs[0].value], hs[1..], name, if k > 0 then k - 1 else -1);
    }
  }

  lemma FindIs(s: seq<byte>, b: byte, n: nat)
    requires n <= |s| && (n < |s| ==> s[n] == b) && forall i :: 0 <= i < n ==> s[i] != b
    ensures Find(s, b) == n
  {
  }

  lemma HeaderLineParses(r: Request, h: Header)
    requires IsHeader(h)
    ensures var line := HeaderLine(h);
            && Plain(line) && Find(line, COLON) == |h.name| < |line|
            && WithHeader(r, line, |h.name|) == r.(headers := r.headers[h.name := h.value])
  {
    var line := HeaderLine(h);
    FindIs(line, COLON, |h.name|);
    assert line[..|h.name|] == h.name;
    assert line[|h.name| + 1..] == h.lead + h.value + h.trail;
    TrimPadded(h.lead, h.value, h.trail);
    HeaderLinePlain(h);
  }

  lemma HeaderLinePlain(h: Header)
    requires IsHeader(h)
    ensures Plain(HeaderLine(h))
  {
    var line := HeaderLine(h);
    var from := |h.name| + 1 + |h.lead|;
    forall i: nat ensures !B.CRLFAt(line, i) {
      if i + 1 < |h.name| {
        assert !B.CRLFAt(h.name, i);
      } else if from <= i && i + 1 < from + |h.value| {
        assert !B.CRLFAt(h.value, i - from);
      }
    }
  }

  lemma HeaderLinesSplit(hs: seq<Header>, body: seq<byte>)
    requires hs != []
    ensures HeaderLines(hs) + body == HeaderLine(hs[0]) + CRLF + (HeaderLines(hs[1..]) + body)
  {
    hide HeaderLine;
  }

  lemma {:induction false} HeadersParse(form: Form, r: Request, hs: seq<Header>, body: seq<byte>)
    requires forall h :: h in hs ==> IsHeader(h)
    ensures Parse(form, ExpectHeaders, r, HeaderLines(hs) + body) ==
            Parsed(GotAll, r.(headers := HeaderMap(r.headers, hs)), body, Done)
    decreases |hs|
  {
    hide Parse, B.FirstCRLF, WithHeader, HeaderLine, IsHeader, Plain;
    if hs == [] {
      NothingPlain();
      assert [] + CRLF + body == HeaderLines(hs) + body;
      LineEnds([], body);
      ParseHeaderTurn(form, r, CRLF + body, 0);
    } else {
      var line, tail := HeaderLine(hs[0]), HeaderLines(hs[1..]) + body;
      HeaderLineParses(r, hs[0]);
      LineEnds(line, tail);
      var s := line + CRLF + tail;
      HeaderLinesSplit(hs, body);
      ParseHeaderTurn(form, r, s, |line|);
      HeadersParse(form, r.(headers := r.headers[hs[0].name := hs[0].value]), hs[1..], body);
    }
  }

  /** What the two readings make of a target. */
  function PathOf(form: Form, target: seq<byte>): seq<byte> {
    if form.AsWritten? then target else target[..Find(target, QUESTION)]
  }

  function QueryOf(form: Form, target: seq<byte>): seq<byte> {
    if form.AsWritten? then [] else target[Find(target, QUESTION)..]
  }

  lemma TargetParses(form: Form, r: Request, target: seq<byte>, v: Version)
    requires !v.Unknown? && r.query == []
    ensures ParseTarget(form, r, target, VersionName(v)) ==
            Accepted(r.(version := v, path := PathOf(form, target), query := QueryOf(form, target)))
  {
    var version := VersionName(v);
    assert version[..7] == HTTP_1;
    assert target[..|target|] == target;
    assert target[|target|..] == [];
  }

  lemma RequestLinePlain(m: Method, target: seq<byte>, v: Version)
    requires !v.Unknown? && Plain(target)
    ensures Plain(RequestLine(m, target, v))
  {
    var name, line := MethodName(m), RequestLine(m, target, v);
    forall i: nat ensures !B.CRLFAt(line, i) {
      if |name| < i && i + 1 < |name| + 1 + |target| {
        assert !B.CRLFAt(target, i - |name| - 1);
      } else if i > |name| + |target| + 1 && i < |line| {
        assert line[i] == VersionName(v)[i - |name| - |target| - 2];
      }
    }
  }

  lemma MethodRoundTrip(m: Method)
    requires !m.Invalid?
    ensures MethodOf(MethodName(m)) == m && SPACE !in MethodName(m)
  {
  }

  lemma NameRoundTrip(name: seq<byte>)
    requires !MethodOf(name).Invalid?
    ensures MethodName(MethodOf(name)) == name
  {
  }

  /** A line whose first word is followed by a space, and what is behind that. */
  lemma FirstWord(line: seq<byte>, word: seq<byte>, rest: seq<byte>)
    requires line == word + [SPACE] + rest && SPACE !in word
    ensures Find(line, SPACE) == |word| < |line| && line[..|word|] == word && line[|word| + 1..] == rest
  {
    assert forall i :: 0 <= i < |word| ==> line[i] == word[i] && word[i] in word;
    FindIs(line, SPACE, |word|);
  }

  /** A line with a known method and two spaces. */
  lemma MethodLineParses(form: Form, r: Request, m: Method, target: seq<byte>, version: seq<byte>)
    requires !m.Invalid? && SPACE !in target
    ensures ParseLine(form, r, MethodLine(m, target, version)) ==
            ParseTarget(form, r.(verb := m), target, version)
  {
    hide ParseTarget, Find, MethodOf, MethodName;
    var name, line := MethodName(m), MethodLine(m, target, version);
    var rest := target + [SPACE] + version;
    MethodRoundTrip(m);
    assert line == name + [SPACE] + rest;
    FirstWord(line, name, rest);
    FirstWord(rest, target, version);
  }

  lemma RequestLineParses(form: Form, m: Method, target: seq<byte>, v: Version)
    requires !m.Invalid? && !v.Unknown? && SPACE !in target
    ensures ParseLine(form, EMPTY, RequestLine(m, target, v)) ==
            Accepted(Request(v, m, PathOf(form, target), QueryOf(form, target), map[]))
  {
    hide ParseLine, ParseTarget, PathOf, QueryOf, VersionName, MethodLine;
    MethodLineParses(form, EMPTY, m, target, VersionName(v));
    TargetParses(form, EMPTY.(verb := m), target, v);
  }

  lemma SplitAt(s: seq<byte>, n: nat)
    requires n < |s|
    ensures s == s[..n] + [s[n]] + s[n + 1..]
  {
  }

  lemma SplitAtSpace(line: seq<byte>, n: nat)
    requires n == Find(line, SPACE) < |line|
    ensures line == line[..n] + [SPACE] + line[n + 1..] && SPACE !in line[..n]
  {
    hide Find;
    SplitAt(line, n);
    forall c | c in line[..n] ensures c != SPACE {
      var i :| 0 <= i < n && line[..n][i] == c;
      assert line[i] == c;
    }
  }

  lemma HasTwoSpaces(form: Form, r: Request, line: seq<byte>)
    requires !ParseLine(form, r, line).Rejected?
    ensures var n := Find(line, SPACE);
            n < |line| && !MethodOf(line[..n]).Invalid? && Find(line[n + 1..], SPACE) < |line[n + 1..]|
  {
    hide ParseTarget, MethodOf, Find;
  }

  lemma MethodLineJoins(m: Method, target: seq<byte>, version: seq<byte>)
    ensures MethodName(m) + [SPACE] + (target + [SPACE] + version) == MethodLine(m, target, version)
  {
    hide MethodName;
  }

  /** Any line that gets as far as its target and version. */
  lemma LineSplits(form: Form, r: Request, line: seq<byte>) returns (m: Method, target: seq<byte>, version: seq<byte>)
    requires !ParseLine(form, r, line).Rejected?
    ensures !m.Invalid? && SPACE !in target && line == MethodLine(m, target, version)
  {
    hide ParseLine, MethodOf, MethodName, MethodLine, Find;
    HasTwoSpaces(form, r, line);
    var space := Find(line, SPACE);
    SplitAtSpace(line, space);
    NameRoundTrip(line[..space]);
    var rest := line[space + 1..];
    var space2 := Find(rest, SPACE);
    SplitAtSpace(rest, space2);
    m, target, version := MethodOf(line[..space]), rest[..space2], rest[space2 + 1..];
    MethodLineJoins(m, target, version);
  }

  lemma VersionIsNamed(s: seq<byte>)
    requires !VersionOf(s).Unknown?
    ensures s == VersionName(VersionOf(s)) && QUESTION !in s
  {
    assert s == s[..7] + [s[7]];
  }

  lemma NamedVersion(v: Version)
    requires !v.Unknown?
    ensures VersionOf(VersionName(v)) == v && QUESTION !in VersionName(v)
  {
    assert VersionName(v)[..7] == HTTP_1;
  }

  /** Exactly the lines of one of the five methods, a target without spaces and HTTP/1.0 or HTTP/1.1 are accepted. */
  lemma AcceptedExactly(form: Form, r: Request, line: seq<byte>)
    ensures ParseLine(form, r, line).Accepted? <==>
            exists m: Method, target: seq<byte>, v: Version ::
              !m.Invalid? && !v.Unknown? && SPACE !in target && line == RequestLine(m, target, v)
  {
    hide ParseLine, MethodLine;
    if ParseLine(form, r, line).Accepted? {
      var m, target, version := LineSplits(form, r, line);
      MethodLineParses(form, r, m, target, version);
      VersionIsNamed(version);
      assert line == RequestLine(m, target, VersionOf(version));
    }
    forall m: Method, target: seq<byte>, v: Version |
      !m.Invalid? && !v.Unknown? && SPACE !in target && line == RequestLine(m, target, v)
      ensures ParseLine(form, r, line).Accepted?
    {
      MethodLineParses(form, r, m, target, VersionName(v));
      NamedVersion(v);
    }
  }

  /** A complete request, with `body` behind it. */
  function OnWire(m: Method, target: seq<byte>, v: Version, hs: seq<Header>, body: seq<byte>): seq<byte>
    requires !v.Unknown?
  {
    RequestLine(m, target, v) + CRLF + (HeaderLines(hs) + body)
  }

  /** Every request with one of the five known methods, HTTP/1.0 or HTTP/1.1 and header fields with any optional white
      space, however it is cut into deliveries, is parsed back to its parts, and the bytes behind it stay in the buffer.
      As the search for the question mark is written, the query stays in the path. */
  lemma RequestArrives(form: Form, m: Method, target: seq<byte>, v: Version, hs: seq<Header>, body: seq<byte>,
                       pieces: seq<seq<byte>>)
    requires !m.Invalid? && !v.Unknown? && SPACE !in target && Plain(target)
    requires forall h :: h in hs ==> IsHeader(h)
    requires Concat(pieces) == OnWire(m, target, v, hs, body)
    ensures pieces != []
    ensures Feed(form, ExpectRequestLine, EMPTY, [], pieces) ==
            Parsed(GotAll, Request(v, m, PathOf(form, target), QueryOf(form, target), HeaderMap(map[], hs)), body, Done)
  {
    hide Parse, ParseLine, B.FirstCRLF, RequestLine, HeaderLines, Feed;
    var line, tail := RequestLine(m, target, v), HeaderLines(hs) + body;
    FeedIsParse(form, ExpectRequestLine, EMPTY, [], pieces);
    assert [] + Concat(pieces) == Concat(pieces);
    RequestLineParses(form, m, target, v);
    RequestLinePlain(m, target, v);
    LineEnds(line, tail);
    ParseRequestLineTurn(form, EMPTY, line + CRLF + tail, |line|);
    HeadersParse(form, Request(v, m, PathOf(form, target), QueryOf(form, target), map[]), hs, body);
  }

  // ---- In bytes ----

  /** HTTP/1.1 and HTTP/1.0; everything else is no version. */
  lemma VersionsInBytes(s: seq<byte>)
    ensures VersionOf(s) == Http11 <==> s == [72, 84, 84, 80, 47, 49, 46, 49]
    ensures VersionOf(s) == Http10 <==> s == [72, 84, 84, 80, 47, 49, 46, 48]
  {
    assert |s| == 8 ==> s == s[..7] + [s[7]];
    assert [72, 84, 84, 80, 47, 49, 46, 49][..7] == HTTP_1 == [72, 84, 84, 80, 47, 49, 46, 48][..7];
  }

  /** A line of a method, a target and a version, in bytes. */
  lemma RequestLineInBytes(m: Method, target: seq<byte>)
    requires !m.Invalid?
    ensures RequestLine(m, target, Http11) == MethodName(m) + [32] + target + [32, 72, 84, 84, 80, 47, 49, 46, 49]
    ensures RequestLine(m, target, Http10) == MethodName(m) + [32] + target + [32, 72, 84, 84, 80, 47, 49, 46, 48]
  {
  }

  lemma HeaderLineInBytes(h: Header)
    ensures HeaderLine(h) == h.name + [58] + h.lead + h.value + h.trail
    ensures HeaderLines([h]) == HeaderLine(h) + [13, 10] + [13, 10] && HeaderLines([]) == [13, 10]
  {
  }

  /** A whole request: GET /a?b HTTP/1.1, Host: c, X:d and a tab, the empty line, and one byte more. */
  const SAMPLE: seq<byte> :=
    [71, 69, 84, 32, 47, 97, 63, 98, 32, 72, 84, 84, 80, 47, 49, 46, 49, 13, 10,
     72, 111, 115, 116, 58, 32, 99, 13, 10, 88, 58, 100, 9, 13, 10, 13, 10, 114]

  lemma SampleParses(form: Form)
    ensures Parse(form, ExpectRequestLine, EMPTY, SAMPLE) ==
            Parsed(GotAll,
                   Request(Http11, Get, if form.AsWritten? then [47, 97, 63, 98] else [47, 97],
                           if form.AsWritten? then [] else [63, 98],
                           map[[72, 111, 115, 116] := [99], [88] := [100]]),
                   [114], Done)
  {
    hide Parse, ParseLine, B.FirstCRLF, HeaderMap;
    var target: seq<byte> := [47, 97, 63, 98];
    var host, x := Header([72, 111, 115, 116], [32], [99], []), Header([88], [], [100], [9]);
    SampleOnWire(target, host, x);
    SamplePlain(target, host, x);
    RequestArrives(form, Get, target, Http11, [host, x], [114], [SAMPLE]);
    FeedIsParse(form, ExpectRequestLine, EMPTY, [], [SAMPLE]);
    assert [] + Concat([SAMPLE]) == SAMPLE;
    SampleHeaders(host, x);
    SampleTarget(target);
  }

  lemma SampleLine(target: seq<byte>)
    requires target == [47, 97, 63, 98]
    ensures RequestLine(Get, target, Http11) ==
            [71, 69, 84, 32, 47, 97, 63, 98, 32, 72, 84, 84, 80, 47, 49, 46, 49]
  {
    RequestLineInBytes(Get, target);
  }

  lemma SampleHeaderLines(host: Header, x: Header)
    requires host == Header([72, 111, 115, 116], [32], [99], []) && x == Header([88], [], [100], [9])
    ensures HeaderLines([host, x]) == [72, 111, 115, 116, 58, 32, 99, 13, 10, 88, 58, 100, 9, 13, 10, 13, 10]
  {
    assert [host, x][1..] == [x] && [x][1..] == [];
    assert HeaderLine(host) == [72, 111, 115, 116, 58, 32, 99] && HeaderLine(x) == [88, 58, 100, 9];
    assert HeaderLines([x]) == HeaderLine(x) + CRLF + HeaderLines([]);
    assert HeaderLines([host, x]) == HeaderLine(host) + CRLF + HeaderLines([x]);
  }

  lemma SampleOnWire(target: seq<byte>, host: Header, x: Header)
    requires target == [47, 97, 63, 98]
    requires host == Header([72, 111, 115, 116], [32], [99], []) && x == Header([88], [], [100], [9])
    ensures SAMPLE == OnWire(Get, target, Http11, [host, x], [114]) == Concat([SAMPLE])
  {
    hide RequestLine, HeaderLines;
    SampleLine(target);
    SampleHeaderLines(host, x);
    assert [SAMPLE][1..] == [] && Concat([]) == [];
    assert SAMPLE + [] == SAMPLE;
  }

  lemma SamplePlain(target: seq<byte>, host: Header, x: Header)
    requires target == [47, 97, 63, 98]
    requires host == Header([72, 111, 115, 116], [32], [99], []) && x == Header([88], [], [100], [9])
    ensures SPACE !in target && Plain(target) && forall h :: h in [host, x] ==> IsHeader(h)
  {
    assert IsHeader(host) && IsHeader(x);
  }

  lemma SampleHeaders(host: Header, x: Header)
    requires host == Header([72, 111, 115, 116], [32], [99], []) && x == Header([88], [], [100], [9])
    ensures HeaderMap(map[], [host, x]) == map[[72, 111, 115, 116] := [99], [88] := [100]]
  {
    assert [host, x][1..] == [x] && [x][1..] == [];
    assert HeaderMap(map[], [host, x]) == HeaderMap(map[host.name := host.value], [x]);
    var first := map[host.name := host.value];
    assert HeaderMap(first, [x]) == HeaderMap(first[x.name := x.value], []);
  }

  lemma SampleTarget(target: seq<byte>)
    requires target == [47, 97, 63, 98]
    ensures PathOf(AsWritten, target) == target && QueryOf(AsWritten, target) == []
    ensures PathOf(Intended, target) == [47, 97] && QueryOf(Intended, target) == [63, 98]
  {
    FindIs(target, QUESTION, 2);
  }

  // ---- Ends and failures ----

  /** Any header line without a colon ends the request, an empty one or not; it is dropped. */
  lemma NoColonEnds(form: Form, r: Request, line: seq<byte>, tail: seq<byte>)
    requires Plain(line) && 58 !in line
    ensures Parse(form, ExpectHeaders, r, line + [13, 10] + tail) == Parsed(GotAll, r, tail, Done)
  {
    hide Parse, B.FirstCRLF;
    LineEnds(line, tail);
    FindIs(line, COLON, |line|);
    ParseHeaderTurn(form, r, line + CRLF + tail, |line|);
  }

  /** A request line that is not accepted stays in the buffer, and the parser where it was. */
  lemma FailureStays(form: Form, r: Request, line: seq<byte>, tail: seq<byte>)
    requires Plain(line) && !ParseLine(form, r, line).Accepted?
    ensures var p := Parse(form, ExpectRequestLine, r, line + [13, 10] + tail);
            && p.rest == line + [13, 10] + tail && p.state == ExpectRequestLine
            && p.outcome == if ParseLine(form, r, line).BadRange? then Crashed else Bad
  {
    hide Parse, ParseLine, B.FirstCRLF;
    LineEnds(line, tail);
    ParseRequestLineTurn(form, r, line + CRLF + tail, |line|);
  }

  /** What a rejected line leaves in the request: nothing without a space, and without a second one the method, which
      an unknown word resets. */
  lemma ShortLineLeaves(form: Form, r: Request, name: seq<byte>, target: seq<byte>)
    requires 32 !in name && 32 !in target
    ensures ParseLine(form, r, name) == Rejected(r)
    ensures ParseLine(form, r, name + [32] + target) == Rejected(r.(verb := MethodOf(name)))
  {
    hide MethodOf, Find;
    FindIs(name, SPACE, |name|);
    FirstWord(name + [32] + target, name, target);
    FindIs(target, SPACE, |target|);
  }

  /** With two spaces: an unknown word resets the method, and an unknown version leaves method and target. */
  lemma RejectedLeaves(form: Form, r: Request, name: seq<byte>, target: seq<byte>, version: seq<byte>)
    requires 32 !in name && 32 !in target
    ensures var line := name + [32] + target + [32] + version;
            && (MethodOf(name).Invalid? ==> ParseLine(form, r, line) == Rejected(r.(verb := Invalid)))
            && (!MethodOf(name).Invalid? && VersionOf(version).Unknown? && 63 !in target && 63 !in version ==>
                  ParseLine(form, r, line) == Rejected(r.(verb := MethodOf(name), path := target)))
  {
    hide MethodOf, Find, VersionOf;
    var rest := target + [SPACE] + version;
    assert name + [32] + target + [32] + version == name + [SPACE] + rest;
    FirstWord(name + [SPACE] + rest, name, rest);
    FirstWord(rest, target, version);
    if 63 !in target {
      FindIs(target, QUESTION, |target|);
      assert target[..|target|] == target;
    }
  }

  // ---- The search for the question mark ----

  /** As written, exactly the lines with a known method and a question mark behind the second space hand an inverted
      range to `setQuery`. */
  lemma CrashesExactly(r: Request, line: seq<byte>)
    ensures ParseLine(AsWritten, r, line).BadRange? <==>
            exists m: Method, target: seq<byte>, version: seq<byte> ::
              !m.Invalid? && SPACE !in target && QUESTION in version && line == MethodLine(m, target, version)
  {
    hide ParseLine, MethodLine;
    if ParseLine(AsWritten, r, line).BadRange? {
      var m, target, version := LineSplits(AsWritten, r, line);
      MethodLineParses(AsWritten, r, m, target, version);
    }
    forall m: Method, target: seq<byte>, version: seq<byte> |
      !m.Invalid? && SPACE !in target && QUESTION in version && line == MethodLine(m, target, version)
      ensures ParseLine(AsWritten, r, line).BadRange?
    {
      MethodLineParses(AsWritten, r, m, target, version);
    }
  }

  /** Such a stream: GET / ? */
  lemma CrashingStream(tail: seq<byte>)
    ensures Parse(AsWritten, ExpectRequestLine, EMPTY, [71, 69, 84, SPACE, 47, SPACE, QUESTION] + CRLF + tail).outcome
            == Crashed
  {
    hide Parse, ParseLine, B.FirstCRLF;
    var line: seq<byte> := [71, 69, 84, SPACE, 47, SPACE, QUESTION];
    assert line == MethodLine(Get, [47], [QUESTION]);
    MethodLineParses(AsWritten, EMPTY, Get, [47], [QUESTION]);
    assert QUESTION in [QUESTION];
    LineEnds(line, tail);
    ParseRequestLineTurn(AsWritten, EMPTY, line + CRLF + tail, |line|);
  }

  /** As written, no accepted request line has a query: the question mark stays in the path. */
  lemma AcceptedHasNoQuery(r: Request, line: seq<byte>)
    requires ParseLine(AsWritten, r, line).Accepted?
    ensures var q := ParseLine(AsWritten, r, line).request;
            q.query == r.query && exists i, j :: 0 <= i <= j <= |line| && q.path == line[i..j] && SPACE !in q.path &&
                                                 i > 0 && line[i - 1] == SPACE && j < |line| && line[j] == SPACE
  {
    var i := Find(line, SPACE) + 1;
    var rest := line[i..];
    var n := Find(rest, SPACE);
    assert rest[..n][..n] == rest[..n];
    assert rest[..n] == line[i..i + n];
    assert line[i + n] == rest[n];
  }

  /** Both readings agree exactly on the lines without a question mark behind the first space, given a known method
      and a second space. */
  lemma ReadingsAgree(r: Request, target: seq<byte>, version: seq<byte>)
    requires r.query == []
    ensures ParseTarget(AsWritten, r, target, version) == ParseTarget(Intended, r, target, version)
            <==> QUESTION !in target && QUESTION !in version
  {
    assert target[..|target|] == target;
  }
}
