/** A configured response and how it becomes an HTTP response: the body
    is resolved (absent means empty); on success the configured status is
    used and every configured header is inserted, on failure the answer is
    a 500 that names the error. */
module Responses {
  import opened Base
  import opened Text
  import opened Http
  import opened Bodies

  datatype Response = Response(status: nat, headers: map<string, string>, body: Option<Body>)

  /** The configured body, or `Body::empty()` when there is none. */
  function BodyOrEmpty(r: Response): (b: Body)
    ensures r.body.Some? ==> b == r.body.value
    ensures r.body.None? ==> forall fs: FileSystem :: Resolve(b, fs) == Ok("")
  {
    match r.body
    case Some(b) => b
    case None => Empty()
  }

  const ErrorPrefix: string := "Error creating response: "

  /** What the `unwrap`s need: a status `StatusCode::from_u16` accepts, and
      header names and values that parse. */
  predicate ValidHeaders(headers: map<string, string>)
  {
    forall k :: k in headers ==> ValidHeaderName(k) && ValidHeaderValue(headers[k])
  }

  /** Some configured header name normalises to `name`. */
  ghost predicate Configures(headers: map<string, string>, name: string)
  {
    exists k :: k in headers && Lower(k) == name
  }

  /** `hs` is `base` after inserting every configured header, in any
      order: each configured name carries exactly one value, the value of
      one of the configured spellings of that name (there is only one
      unless two differ just by case); every other name keeps its values
      from `base`. */
  ghost predicate HeadersApplied(base: seq<Header>, headers: map<string, string>, hs: seq<Header>)
  {
    (forall name :: Configures(headers, name) ==>
      exists k :: k in headers && Lower(k) == name && ValuesOf(hs, name) == [headers[k]])
    && (forall name :: !Configures(headers, name) ==> ValuesOf(hs, name) == ValuesOf(base, name))
  }

  /** The HTTP response that `Response::response` produces. */
  ghost predicate Rendered(r: Response, fs: FileSystem, status: int, hs: seq<Header>, body: string)
  {
    match Resolve(BodyOrEmpty(r), fs)
    case Ok(text) => status == r.status && body == text && HeadersApplied(TextHeaders, r.headers, hs)
    case Err(e) => status == 500 && body == ErrorPrefix + e.debug && hs == TextHeaders
  }

  /** `Response::response`. */
  method Render(r: Response, fs: FileSystem) returns (resp: HttpResponse)
    requires ValidStatus(r.status)
    requires Resolve(BodyOrEmpty(r), fs).Ok? ==> ValidHeaders(r.headers)
    ensures fresh(resp)
    ensures Rendered(r, fs, resp.status, resp.headers, resp.body)
  {
    match Resolve(BodyOrEmpty(r), fs)
    case Err(e) =>
      resp := new HttpResponse(500, ErrorPrefix + e.debug, TextHeaders);
    case Ok(text) =>
      resp := new HttpResponse(r.status, text, TextHeaders);
      var pending := r.headers.Keys;
      ghost var done: set<string> := {};
      while pending != {}
        invariant pending + done == r.headers.Keys && pending !! done
        invariant resp.status == r.status && resp.body == text
        invariant HeadersApplied(TextHeaders, r.headers - pending, resp.headers)
        decreases pending
      {
        var k :| k in pending;
        InsertKeepsApplied(TextHeaders, r.headers - pending, resp.headers, k, r.headers[k]);
        resp.Insert(Lower(k), r.headers[k]);
        pending := pending - {k};
        done := done + {k};
        assert r.headers - pending == (r.headers - (pending + {k}))[k := r.headers[k]];
      }
      assert r.headers - pending == r.headers;
  }

  /** One step of the header loop: inserting a further configured header
      keeps the headers applied so far. */
  lemma InsertKeepsApplied(base: seq<Header>, applied: map<string, string>, hs: seq<Header>,
                           k: string, v: string)
    requires HeadersApplied(base, applied, hs)
    requires k !in applied
    ensures HeadersApplied(base, applied[k := v], Inserted(hs, Lower(k), v))
  {
    var after := applied[k := v];
    var hs' := Inserted(hs, Lower(k), v);
    forall name | Configures(after, name)
      ensures exists j :: j in after && Lower(j) == name && ValuesOf(hs', name) == [after[j]]
    {
      if name == Lower(k) {
        assert k in after && ValuesOf(hs', name) == [after[k]];
      } else {
        var j :| j in after && Lower(j) == name;
        assert j in applied;
        assert Configures(applied, name);
        var i :| i in applied && Lower(i) == name && ValuesOf(hs, name) == [applied[i]];
        assert i in after && after[i] == applied[i];
      }
    }
    forall name | !Configures(after, name)
      ensures ValuesOf(hs', name) == ValuesOf(base, name)
    {
      assert Lower(k) != name by { assert k in after; }
      assert !Configures(applied, name) by {
        forall j | j in applied ensures Lower(j) != name { assert j in after; }
      }
    }
  }

  /** With distinct names (no two configured names equal up to case),
      each configured header is present with exactly its configured
      value. */
  lemma DistinctNamesExact(r: Response, fs: FileSystem, status: int, hs: seq<Header>, body: string, k: string)
    requires Rendered(r, fs, status, hs, body)
    requires Resolve(BodyOrEmpty(r), fs).Ok?
    requires k in r.headers
    requires forall j :: j in r.headers && Lower(j) == Lower(k) ==> j == k
    ensures ValuesOf(hs, Lower(k)) == [r.headers[k]]
  {
    assert Configures(r.headers, Lower(k));
  }

  /** A body that fails to resolve gives a 500 whose body starts with
      the fixed prefix; neither the configured status nor the configured
      headers are used. */
  lemma FailureIs500(r: Response, fs: FileSystem, status: int, hs: seq<Header>, body: string)
    requires Rendered(r, fs, status, hs, body)
    requires Resolve(BodyOrEmpty(r), fs).Err?
    ensures status == 500 && body[..|ErrorPrefix|] == ErrorPrefix
    ensures forall name :: name != "content-type" ==> ValuesOf(hs, name) == []
  {
  }

  /** An absent body renders as the empty text. */
  lemma AbsentBodyIsEmpty(r: Response, fs: FileSystem, status: int, hs: seq<Header>, body: string)
    requires Rendered(r, fs, status, hs, body)
    requires r.body.None?
    ensures status == r.status && body == ""
  {
  }
}
