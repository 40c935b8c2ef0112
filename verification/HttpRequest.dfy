/** A request under construction (arale/net/http/HttpRequest.h). */
module HttpRequest {
  import opened Bytes

  datatype Version = Unknown | Http10 | Http11
  datatype Method = Invalid | Get | Post | Head | Put | Delete

  /** The parts of a request, except for the receive time. */
  datatype Request = Request(version: Version, verb: Method, path: seq<byte>, query: seq<byte>,
                             headers: map<seq<byte>, seq<byte>>)

  const EMPTY: Request := Request(Unknown, Invalid, [], [], map[])

  /** The names that `setMethod` compares with, in ASCII. */
  function MethodName(m: Method): seq<byte> {
    match m
    case Get => [71, 69, 84]
    case Post => [80, 79, 83, 84]
    case Put => [80, 85, 84]
    case Head => [72, 69, 65, 68]
    case Delete => [68, 69, 76, 69, 84, 69]
    case Invalid => [85, 78, 75, 78, 79, 87, 78]
  }

  function MethodOf(name: seq<byte>): Method {
    if name == MethodName(Get) then Get
    else if name == MethodName(Post) then Post
    else if name == MethodName(Put) then Put
    else if name == MethodName(Head) then Head
    else if name == MethodName(Delete) then Delete
    else Invalid
  }

  /** `isspace` in the C locale. */
  predicate IsSpace(b: byte) {
    b == 32 || 9 <= b <= 13
  }

  /** The six characters: tab, line feed, vertical tab, form feed, carriage return and space. */
  lemma SpacesAre(b: byte)
    ensures IsSpace(b) <==> b == 9 || b == 10 || b == 11 || b == 12 || b == 13 || b == 32
  {
  }

  /** GET, POST, PUT, HEAD and DELETE, in bytes; every other word is no method. */
  lemma MethodsInBytes(name: seq<byte>)
    ensures MethodOf(name) == Get <==> name == [71, 69, 84]
    ensures MethodOf(name) == Post <==> name == [80, 79, 83, 84]
    ensures MethodOf(name) == Put <==> name == [80, 85, 84]
    ensures MethodOf(name) == Head <==> name == [72, 69, 65, 68]
    ensures MethodOf(name) == Delete <==> name == [68, 69, 76, 69, 84, 69]
  {
  }

  function TrimLeft(s: seq<byte>): seq<byte> {
    if s != [] && IsSpace(s[0]) then TrimLeft(s[1..]) else s
  }

  function TrimRight(s: seq<byte>): seq<byte> {
    if s != [] && IsSpace(s[|s| - 1]) then TrimRight(s[..|s| - 1]) else s
  }

  predicate IsTrimmed(s: seq<byte>) {
    s == [] || (!IsSpace(s[0]) && !IsSpace(s[|s| - 1]))
  }

  ghost predicate AllSpace(s: seq<byte>) {
    forall i :: 0 <= i < |s| ==> IsSpace(s[i])
  }

  lemma {:induction false} TrimLeftSplits(s: seq<byte>) returns (lead: seq<byte>)
    ensures s == lead + TrimLeft(s) && AllSpace(lead)
    ensures TrimLeft(s) == [] || !IsSpace(TrimLeft(s)[0])
  {
    lead := [];
    if s != [] && IsSpace(s[0]) {
      lead := TrimLeftSplits(s[1..]);
      lead := [s[0]] + lead;
    }
  }

  lemma {:induction false} TrimRightSplits(s: seq<byte>) returns (trail: seq<byte>)
    ensures s == TrimRight(s) + trail && AllSpace(trail)
    ensures TrimRight(s) == [] || (!IsSpace(TrimRight(s)[|TrimRight(s)| - 1]) && TrimRight(s)[0] == s[0])
  {
    trail := [];
    if s != [] && IsSpace(s[|s| - 1]) {
      trail := TrimRightSplits(s[..|s| - 1]);
      trail := trail + [s[|s| - 1]];
    }
  }

  /** A header value without the white space around it. */
  function Trim(s: seq<byte>): seq<byte> {
    TrimRight(TrimLeft(s))
  }

  /** Trimming takes off exactly the white space at both ends. */
  lemma TrimIsExact(s: seq<byte>) returns (lead: seq<byte>, trail: seq<byte>)
    ensures s == lead + Trim(s) + trail
    ensures AllSpace(lead) && AllSpace(trail) && IsTrimmed(Trim(s))
  {
    lead := TrimLeftSplits(s);
    trail := TrimRightSplits(TrimLeft(s));
  }

  lemma {:induction false} TrimLeftPadded(lead: seq<byte>, s: seq<byte>)
    requires AllSpace(lead)
    ensures TrimLeft(lead + s) == TrimLeft(s)
  {
    if lead == [] {
      assert lead + s == s;
    } else {
      assert (lead + s)[1..] == lead[1..] + s;
      TrimLeftPadded(lead[1..], s);
    }
  }

  lemma {:induction false} TrimRightPadded(s: seq<byte>, trail: seq<byte>)
    requires AllSpace(trail)
    ensures TrimRight(s + trail) == TrimRight(s)
  {
    if trail == [] {
      assert s + trail == s;
    } else {
      var front := trail[..|trail| - 1];
      assert (s + trail)[..|s + trail| - 1] == s + front;
      TrimRightPadded(s, front);
    }
  }

  /** White space around a value does not matter. */
  lemma TrimPadded(lead: seq<byte>, s: seq<byte>, trail: seq<byte>)
    requires AllSpace(lead) && AllSpace(trail) && IsTrimmed(s)
    ensures Trim(lead + s + trail) == s
  {
    assert lead + s + trail == lead + (s + trail);
    TrimLeftPadded(lead, s + trail);
    TrimRightPadded(s, trail);
    if s == [] {
      assert s + trail == trail && trail == trail + [];
      TrimLeftPadded(trail, []);
    }
  }

  /** The request after `addHeader` on a line with a colon at `colon`. */
  function WithHeader(r: Request, line: seq<byte>, colon: nat): Request
    requires colon < |line|
  {
    r.(headers := r.headers[line[..colon] := Trim(line[colon + 1..])])
  }

  /** `getHeader`: the value under a name, or the empty string. */
  function HeaderValue(r: Request, name: seq<byte>): seq<byte> {
    if name in r.headers then r.headers[name] else []
  }

  /** After `addHeader` on a line, `getHeader` finds its trimmed value under its name, and what it found before under
      any other. */
  lemma HeaderIsFound(r: Request, line: seq<byte>, colon: nat, name: seq<byte>)
    requires colon < |line|
    ensures HeaderValue(WithHeader(r, line, colon), name) ==
            if name == line[..colon] then Trim(line[colon + 1..]) else HeaderValue(r, name)
  {
  }

  class HttpRequest {
    var version: Version
    var verb: Method
    var path: seq<byte>
    var query: seq<byte>
    var receiveTime: int
    var headers: map<seq<byte>, seq<byte>>

    ghost function Value(): Request
      reads this
    {
      Request(version, verb, path, query, headers)
    }

    constructor ()
      ensures Value() == EMPTY
    {
      version, verb, path, query, receiveTime, headers := Unknown, Invalid, [], [], 0, map[];
    }

    /** The line runs up to the CR LF; `colon` is the position of its first colon. */
    method AddHeader(line: seq<byte>, colon: nat)
      requires colon < |line|
      modifies this`headers
      ensures Value() == WithHeader(old(Value()), line, colon)
    {
      var header := line[..colon];
      var start := colon + 1;
      while start != |line| && IsSpace(line[start])
        invariant colon < start <= |line| && headers == old(headers)
        invariant TrimLeft(line[start..]) == TrimLeft(line[colon + 1..])
        decreases |line| - start
      {
        assert line[start..][1..] == line[start + 1..];
        start := start + 1;
      }
      var value := line[start..];
      while value != [] && IsSpace(value[|value| - 1])
        invariant TrimRight(value) == Trim(line[colon + 1..]) && headers == old(headers)
      {
        value := value[..|value| - 1];
      }
      headers := headers[header := value];
    }

    method SetMethod(name: seq<byte>) returns (ok: bool)
      modifies this`verb
      ensures verb == MethodOf(name) && (ok <==> !verb.Invalid?)
    {
      if name == MethodName(Get) { verb := Get; }
      else if name == MethodName(Post) { verb := Post; }
      else if name == MethodName(Put) { verb := Put; }
      else if name == MethodName(Head) { verb := Head; }
      else if name == MethodName(Delete) { verb := Delete; }
      else { verb := Invalid; }
      ok := verb != Invalid;
    }

    method GetHeader(header: seq<byte>) returns (value: seq<byte>)
      ensures value == HeaderValue(Value(), header)
    {
      value := [];
      if header in headers {
        value := headers[header];
      }
    }
  }
}
