/** The slice of the HTTP library the routing code touches: status-code and
    header syntax, a response whose header list is updated in place by
    `insert` and `append`, and case-insensitive header lookup. */
module Http {
  import opened Base
  import opened Text

  /** `StatusCode::from_u16` accepts exactly the three-digit codes. */
  predicate ValidStatus(code: int)
  {
    100 <= code <= 999
  }

  /** The characters of an RFC 9110 token, the syntax of a header name. */
  predicate IsTokenChar(c: char)
  {
    ('a' <= c <= 'z') || ('A' <= c <= 'Z') || ('0' <= c <= '9')
    || c in "!#$%&'*+-.^_`|~"
  }

  /** `HeaderName::from_str`: a non-empty token, compared without case. */
  predicate ValidHeaderName(s: string)
  {
    |s| >= 1 && forall i :: 0 <= i < |s| ==> IsTokenChar(s[i])
  }

  /** `HeaderValue::from_str`: no control character other than tab. */
  predicate ValidHeaderValue(s: string)
  {
    forall i :: 0 <= i < |s| ==> s[i] == '\t' || (' ' <= s[i] && s[i] as int != 0x7f)
  }

  /** `HeaderValue::to_str` succeeds only on visible ASCII (and tab). */
  predicate VisibleAscii(s: string)
  {
    forall i :: 0 <= i < |s| ==> s[i] == '\t' || (' ' <= s[i] <= '~')
  }

  lemma LowerKeepsTokens(s: string)
    ensures ValidHeaderName(Lower(s)) <==> ValidHeaderName(s)
  {
  }

  /** A request's headers, keyed by lower-cased name, each with the first
      value the client sent for it. */
  type HeaderMap = map<string, string>

  /** `HeaderMap::get` with a `String` key: the name is matched without
      regard to case, and a name that is not a valid header name is never
      present. */
  function Get(headers: HeaderMap, name: string): (r: Option<string>)
    ensures r.Some? ==> ValidHeaderName(name) && Lower(name) in headers
                        && r.value == headers[Lower(name)]
    ensures r.None? ==> !ValidHeaderName(name) || Lower(name) !in headers
  {
    if ValidHeaderName(name) && Lower(name) in headers then Some(headers[Lower(name)]) else None
  }

  /** Lookup is case-insensitive: names that differ only in the case of
      ASCII letters find the same value. */
  lemma GetIgnoresCase(headers: HeaderMap, a: string, b: string)
    requires Lower(a) == Lower(b)
    ensures Get(headers, a) == Get(headers, b)
  {
    LowerKeepsTokens(a);
    LowerKeepsTokens(b);
  }

  datatype Header = Header(name: string, value: string)

  /** The values listed under `name`, in order: the view of a header list
      that `HeaderMap::get_all` gives. */
  function ValuesOf(hs: seq<Header>, name: string): (vs: seq<string>)
    ensures vs == [] <==> forall j :: 0 <= j < |hs| ==> hs[j].name != name
  {
    if hs == [] then []
    else (if hs[0].name == name then [hs[0].value] else []) + ValuesOf(hs[1..], name)
  }

  lemma {:induction false} ValuesOfConcat(hs: seq<Header>, gs: seq<Header>, name: string)
    ensures ValuesOf(hs + gs, name) == ValuesOf(hs, name) + ValuesOf(gs, name)
    decreases |hs|
  {
    if hs != [] {
      var head := if hs[0].name == name then [hs[0].value] else [];
      assert (hs + gs)[0] == hs[0] && (hs + gs)[1..] == hs[1..] + gs;
      ValuesOfConcat(hs[1..], gs, name);
      calc {
        ValuesOf(hs + gs, name);
        head + ValuesOf(hs[1..] + gs, name);
        head + (ValuesOf(hs[1..], name) + ValuesOf(gs, name));
        (head + ValuesOf(hs[1..], name)) + ValuesOf(gs, name);
      }
    } else {
      assert hs + gs == gs;
    }
  }

  /** A name carried by exactly one entry has exactly that entry's value. */
  lemma {:induction false} ValuesOfUnique(hs: seq<Header>, i: nat)
    requires i < |hs|
    requires forall j :: 0 <= j < |hs| && j != i ==> hs[j].name != hs[i].name
    ensures ValuesOf(hs, hs[i].name) == [hs[i].value]
    decreases |hs|
  {
    if i == 0 {
      assert forall j :: 0 <= j < |hs[1..]| ==> hs[1..][j].name != hs[0].name by {
        forall j | 0 <= j < |hs[1..]| ensures hs[1..][j].name != hs[0].name {
          assert hs[1..][j] == hs[j + 1];
        }
      }
    } else {
      ValuesOfUnique(hs[1..], i - 1);
    }
  }

  /** Every entry named anything but `name`, in order. */
  function Without(hs: seq<Header>, name: string): (r: seq<Header>)
    ensures ValuesOf(r, name) == []
    ensures forall other :: other != name ==> ValuesOf(r, other) == ValuesOf(hs, other)
  {
    if hs == [] then []
    else if hs[0].name == name then Without(hs[1..], name)
    else [hs[0]] + Without(hs[1..], name)
  }

  /** `HeaderMap::insert`: `name` ends up with exactly the one value `value`;
      every other name keeps its values. */
  function Inserted(hs: seq<Header>, name: string, value: string): (r: seq<Header>)
    ensures ValuesOf(r, name) == [value]
    ensures forall other :: other != name ==> ValuesOf(r, other) == ValuesOf(hs, other)
  {
    var kept := Without(hs, name);
    ValuesOfConcat(kept, [Header(name, value)], name);
    forall other | other != name
      ensures ValuesOf(kept + [Header(name, value)], other) == ValuesOf(hs, other)
    {
      ValuesOfConcat(kept, [Header(name, value)], other);
    }
    kept + [Header(name, value)]
  }

  /** `HeaderMap::append`: `value` is added after the values already listed
      under `name`; every other name keeps its values. */
  lemma AppendedValues(hs: seq<Header>, name: string, value: string)
    ensures ValuesOf(hs + [Header(name, value)], name) == ValuesOf(hs, name) + [value]
    ensures forall other :: other != name ==> ValuesOf(hs + [Header(name, value)], other) == ValuesOf(hs, other)
  {
    ValuesOfConcat(hs, [Header(name, value)], name);
    forall other | other != name
      ensures ValuesOf(hs + [Header(name, value)], other) == ValuesOf(hs, other)
    {
      ValuesOfConcat(hs, [Header(name, value)], other);
    }
  }

  /** The header that `into_response` gives a plain-text body. */
  const TextHeaders: seq<Header> := [Header("content-type", "text/plain; charset=utf-8")]

  /** A response under construction: its headers are changed in place
      through `headers_mut()`. */
  class HttpResponse {
    var status: int
    var headers: seq<Header>
    var body: string

    constructor (status: int, body: string, headers: seq<Header>)
      ensures this.status == status && this.body == body && this.headers == headers
    {
      this.status := status;
      this.body := body;
      this.headers := headers;
    }

    /** `headers_mut().insert(name, value)`. */
    method Insert(name: string, value: string)
      modifies this
      ensures headers == Inserted(old(headers), name, value)
      ensures status == old(status) && body == old(body)
    {
      headers := Inserted(headers, name, value);
    }

    /** `headers_mut().append(name, value)`. */
    method Append(name: string, value: string)
      modifies this
      ensures headers == old(headers) + [Header(name, value)]
      ensures status == old(status) && body == old(body)
    {
      headers := headers + [Header(name, value)];
    }

    /** Appends every entry of `hs`, in order (a `for_each` over a header
        map that calls `append`). */
    method AppendAll(hs: seq<Header>)
      modifies this
      ensures headers == old(headers) + hs
      ensures status == old(status) && body == old(body)
    {
      var i := 0;
      while i < |hs|
        invariant 0 <= i <= |hs|
        invariant headers == old(headers) + hs[..i]
        invariant status == old(status) && body == old(body)
      {
        Append(hs[i].name, hs[i].value);
        assert hs[..i + 1] == hs[..i] + [hs[i]];
        i := i + 1;
      }
      assert hs[..i] == hs;
    }
  }
}
